/**
 * funcgroup_matching: for each overlaid (database, query) pair of
 * molecules, find for every query atom the nearest database atom and
 * record its type and charge, or a sentinel when it lies farther than the
 * distance threshold; then write one row per pair.
 *
 * Distances are compared squared: an atom at Euclidean distance
 * sqrt(SqDist) is within a threshold t iff t >= 0 and SqDist <= t * t, and
 * the nearest atom by squared distance is the nearest by distance.
 */
module FuncgroupMatching {
  import opened Wrappers
  import opened Text
  import opened Tables
  import opened NameLists

  // ---------------------------------------------------------------------
  // get_dbase_query_pairs
  // ---------------------------------------------------------------------

  const QuerySuffixes: seq<string> := ["_query.mol2.gz", "_query.mol2"]
  const DbaseSuffixes: seq<string> := ["_dbase.mol2.gz", "_dbase.mol2"]

  /**
   * `get_dbase_query_pairs` as written: its length check compares the query
   * list with itself, so it never raises.
   */
  method GetDbaseQueryPairsAsWritten(allMol2s: seq<string>) returns (qList: seq<string>, dList: seq<string>)
    ensures qList == Kind(allMol2s, QuerySuffixes, DbaseSuffixes, true)
    ensures dList == Kind(allMol2s, QuerySuffixes, DbaseSuffixes, false)
  {
    qList, dList := SplitByKind(allMol2s, QuerySuffixes, DbaseSuffixes);
  }

  /** A lone query file passes the check as written although the two lists differ in length. */
  lemma UnpairedQueryAccepted()
    ensures Kind(["a_query.mol2"], QuerySuffixes, DbaseSuffixes, true) == ["a_query.mol2"]
    ensures Kind(["a_query.mol2"], QuerySuffixes, DbaseSuffixes, false) == []
  {
    assert EndsWith("a_query.mol2", QuerySuffixes[1]);
    assert OfKind("a_query.mol2", QuerySuffixes, DbaseSuffixes, true);
    assert ["a_query.mol2"][1..] == [];
  }

  /** `get_dbase_query_pairs` with the intended check: unequal list lengths raise. */
  method GetDbaseQueryPairs(allMol2s: seq<string>) returns (r: Result<(seq<string>, seq<string>)>)
    ensures r.Failure? <==>
      |Kind(allMol2s, QuerySuffixes, DbaseSuffixes, true)| != |Kind(allMol2s, QuerySuffixes, DbaseSuffixes, false)|
    ensures r.Success? ==>
      r.value == (Kind(allMol2s, QuerySuffixes, DbaseSuffixes, true), Kind(allMol2s, QuerySuffixes, DbaseSuffixes, false))
  {
    var qList, dList := GetDbaseQueryPairsAsWritten(allMol2s);
    if |qList| != |dList| {
      return Failure("ValueError: unequal dbase/query");
    }
    return Success((qList, dList));
  }

  // ---------------------------------------------------------------------
  // get_atom_matches
  // ---------------------------------------------------------------------

  /** What `argmin` of an empty distance array raises. */
  const ArgMinError := "ValueError: argmin"

  /** An atom at squared distance sq is no farther than the threshold t. */
  predicate Within(sq: int, t: real) {
    t >= 0.0 && sq as real <= t * t
  }

  /** `distances.argmin()`: the first database atom at minimum distance from q. */
  function ArgMin(q: Atom, db: seq<Atom>): (idx: nat)
    requires |db| > 0
    ensures idx < |db|
    ensures forall j :: 0 <= j < |db| ==> SqDist(q, db[idx]) <= SqDist(q, db[j])
    ensures forall j :: 0 <= j < idx ==> SqDist(q, db[j]) > SqDist(q, db[idx])
    decreases |db|
  {
    if |db| == 1 then 0
    else
      var k := ArgMin(q, db[..|db| - 1]);
      assert forall j :: 0 <= j < |db| - 1 ==> db[..|db| - 1][j] == db[j];
      if SqDist(q, db[|db| - 1]) < SqDist(q, db[k]) then |db| - 1 else k
  }

  /** The matched atom for one query atom, or None for the `('', nan)` sentinel. */
  function Nearest(q: Atom, db: seq<Atom>, t: real): Option<Atom>
    requires |db| > 0
  {
    var a := db[ArgMin(q, db)];
    if Within(SqDist(q, a), t) then Some(a) else None
  }

  /** The sentinel is produced iff no database atom lies within the threshold. */
  lemma SentinelIffNoneWithin(q: Atom, db: seq<Atom>, t: real)
    requires |db| > 0
    ensures Nearest(q, db, t) == None <==> forall j :: 0 <= j < |db| ==> !Within(SqDist(q, db[j]), t)
  {
    var k := ArgMin(q, db);
    if Nearest(q, db, t) == None {
      forall j | 0 <= j < |db| ensures !Within(SqDist(q, db[j]), t) {
        assert SqDist(q, db[k]) <= SqDist(q, db[j]);
        if t >= 0.0 {
          assert SqDist(q, db[k]) as real <= SqDist(q, db[j]) as real;
        }
      }
    } else {
      assert Within(SqDist(q, db[k]), t);
    }
  }

  /** A match is a database atom at minimum distance, and no earlier atom is as near. */
  lemma MatchIsFirstNearest(q: Atom, db: seq<Atom>, t: real, a: Atom)
    requires |db| > 0 && Nearest(q, db, t) == Some(a)
    ensures Within(SqDist(q, a), t)
    ensures forall j :: 0 <= j < |db| ==> SqDist(q, a) <= SqDist(q, db[j])
    ensures exists i :: 0 <= i < |db| && db[i] == a && FirstAtDistance(q, db, i)
  {
    var i := ArgMin(q, db);
    assert db[i] == a && FirstAtDistance(q, db, i);
  }

  /** No atom before index i is as near to q as atom i. */
  predicate FirstAtDistance(q: Atom, db: seq<Atom>, i: nat)
    requires i < |db|
  {
    forall j :: 0 <= j < i ==> SqDist(q, db[j]) > SqDist(q, db[i])
  }

  /** An atom exactly at the threshold distance matches. */
  lemma AtThresholdMatches(q: Atom, db: seq<Atom>, t: real)
    requires |db| > 0 && t >= 0.0
    requires SqDist(q, db[ArgMin(q, db)]) as real == t * t
    ensures Nearest(q, db, t) == Some(db[ArgMin(q, db)])
  {
  }

  /** Raising the threshold keeps every match, with the same atom. */
  lemma ThresholdMonotone(q: Atom, db: seq<Atom>, t1: real, t2: real)
    requires |db| > 0 && t1 <= t2
    ensures Nearest(q, db, t1).Some? ==> Nearest(q, db, t2) == Nearest(q, db, t1)
  {
    if Nearest(q, db, t1).Some? {
      assert t1 >= 0.0;
      MulMonotoneReal(t1, t2);
    }
  }

  lemma MulMonotoneReal(a: real, b: real)
    requires 0.0 <= a <= b
    ensures a * a <= b * b
  {
    assert a * a <= a * b;
  }

  /** The atom-type cell of an entry: '' for the sentinel. */
  function TypeOf(e: Option<Atom>): string {
    if e.Some? then e.value.atomType else ""
  }

  /** The charge cell of an entry: None stands for NaN. */
  function ChargeOf(e: Option<Atom>): Option<real> {
    if e.Some? then Some(e.value.charge) else None
  }

  /**
   * `get_atom_matches`: one entry per query atom, in query order. `argmin`
   * of no distances raises, so an empty database table fails unless the
   * query table is empty too.
   */
  method GetAtomMatches(query: seq<Atom>, db: seq<Atom>, t: real)
    returns (r: Result<(seq<string>, seq<Option<real>>)>)
    ensures r.Failure? <==> |query| > 0 && |db| == 0
    ensures r.Success? ==> |r.value.0| == |query| && |r.value.1| == |query|
    ensures r.Success? ==> forall k :: 0 <= k < |query| ==>
      r.value.0[k] == TypeOf(Nearest(query[k], db, t)) && r.value.1[k] == ChargeOf(Nearest(query[k], db, t))
  {
    if |query| > 0 && |db| == 0 {
      return Failure(ArgMinError);
    }
    var atoms: seq<string> := [];
    var charges: seq<Option<real>> := [];
    var i := 0;
    while i < |query|
      invariant 0 <= i <= |query|
      invariant |atoms| == i && |charges| == i
      invariant forall k :: 0 <= k < i ==>
        atoms[k] == TypeOf(Nearest(query[k], db, t)) && charges[k] == ChargeOf(Nearest(query[k], db, t))
    {
      var nearestIdx := ArgMin(query[i], db);
      var a := db[nearestIdx];
      if !Within(SqDist(query[i], a), t) {
        atoms, charges := atoms + [""], charges + [None];
      } else {
        atoms, charges := atoms + [a.atomType], charges + [Some(a.charge)];
      }
      i := i + 1;
    }
    return Success((atoms, charges));
  }

  // ---------------------------------------------------------------------
  // data_processor and the rows of read_and_write
  // ---------------------------------------------------------------------

  /** One collected result: `dbase`, `query`, `atoms` and `charges` at one index. */
  datatype MatchRow = MatchRow(dbaseId: string, queryId: string, atoms: seq<string>, charges: seq<Option<real>>)

  /** The row of one pair, or the failure of its atom matching. */
  function PairRow(d: Molecule, q: Molecule, t: real): (r: Result<MatchRow>)
    ensures r.Failure? <==> |q.atoms| > 0 && |d.atoms| == 0
    ensures r.Success? ==> r.value.dbaseId == d.id && r.value.queryId == q.id
    ensures r.Success? ==> |r.value.atoms| == |q.atoms| && |r.value.charges| == |q.atoms|
  {
    if |q.atoms| > 0 && |d.atoms| == 0 then Failure(ArgMinError)
    else
      Success(MatchRow(d.id, q.id,
        seq(|q.atoms|, k requires 0 <= k < |q.atoms| => TypeOf(Nearest(q.atoms[k], d.atoms, t))),
        seq(|q.atoms|, k requires 0 <= k < |q.atoms| => ChargeOf(Nearest(q.atoms[k], d.atoms, t)))))
  }

  /**
   * `data_processor`: the database record is the first element of the
   * zipped pair and the query record the second.
   */
  method DataProcessor(d: Molecule, q: Molecule, t: real) returns (r: Result<MatchRow>)
    ensures r == PairRow(d, q, t)
  {
    var m := GetAtomMatches(q.atoms, d.atoms, t);
    if m.Failure? {
      return Failure(ArgMinError);
    }
    var atoms, charges := m.value.0, m.value.1;
    assert atoms == seq(|q.atoms|, k requires 0 <= k < |q.atoms| => TypeOf(Nearest(q.atoms[k], d.atoms, t)));
    assert charges == seq(|q.atoms|, k requires 0 <= k < |q.atoms| => ChargeOf(Nearest(q.atoms[k], d.atoms, t)));
    return Success(MatchRow(d.id, q.id, atoms, charges));
  }

  /** Some pair among the first n fails. */
  predicate SomePairFails(dbase: seq<Molecule>, query: seq<Molecule>, n: nat)
    requires n <= |dbase| && n <= |query|
  {
    exists i :: 0 <= i < n && |query[i].atoms| > 0 && |dbase[i].atoms| == 0
  }

  function Min(a: nat, b: nat): nat {
    if a <= b then a else b
  }

  /**
   * The collection loop of `read_and_write` over `zip(dbase, query)`: one
   * row per pair, as many pairs as the shorter file has records.
   */
  method CollectRows(dbase: seq<Molecule>, query: seq<Molecule>, t: real) returns (r: Result<seq<MatchRow>>)
    ensures r.Failure? <==> SomePairFails(dbase, query, Min(|dbase|, |query|))
    ensures r.Success? ==> |r.value| == Min(|dbase|, |query|)
    ensures r.Success? ==> forall i :: 0 <= i < |r.value| ==> Success(r.value[i]) == PairRow(dbase[i], query[i], t)
  {
    var n := Min(|dbase|, |query|);
    var rows: seq<MatchRow> := [];
    var i := 0;
    while i < n
      invariant 0 <= i <= n
      invariant !SomePairFails(dbase, query, i)
      invariant |rows| == i
      invariant forall k :: 0 <= k < i ==> Success(rows[k]) == PairRow(dbase[k], query[k], t)
    {
      var row := DataProcessor(dbase[i], query[i], t);
      if row.Failure? {
        assert |query[i].atoms| > 0 && |dbase[i].atoms| == 0;
        return Failure(row.error);
      }
      rows := rows + [row.value];
      i := i + 1;
    }
    return Success(rows);
  }

  /** A row of the atom-type table: `'%s\t%s\t%s\n' % (dbase, query, '\t'.join(atoms))`. */
  function AtomTypeLine(row: MatchRow): string {
    row.dbaseId + "\t" + row.queryId + "\t" + Join(row.atoms, "\t") + "\n"
  }

  /** The header: `'dbase\tquery\t%s\n' % '\t'.join(atom names of the query file)`. */
  function HeaderLine(names: seq<string>): string {
    "dbase\tquery\t" + Join(names, "\t") + "\n"
  }

  /** The atom names of a query table. */
  function AtomNames(atoms: seq<Atom>): (names: seq<string>)
    ensures |names| == |atoms|
    ensures forall k :: 0 <= k < |atoms| ==> names[k] == atoms[k].atomName
  {
    seq(|atoms|, k requires 0 <= k < |atoms| => atoms[k].atomName)
  }

  /** The fields of a row line, as a tab-separated reader sees them. */
  function Fields(row: MatchRow): seq<string> {
    [row.dbaseId, row.queryId] + (if row.atoms == [] then [""] else row.atoms)
  }

  /**
   * Without tabs inside the cells, splitting a row line (without its
   * newline) on tabs gives back the dbase id, the query id and the atom
   * types in query-atom order.
   */
  lemma AtomTypeLineFields(row: MatchRow)
    requires forall k :: 0 <= k < |Fields(row)| ==> !HasChar(Fields(row)[k], '\t')
    ensures AtomTypeLine(row) == Join(Fields(row), "\t") + "\n"
    ensures SplitOn(Join(Fields(row), "\t"), "\t") == Fields(row)
  {
    var fs := Fields(row);
    var tail := if row.atoms == [] then [""] else row.atoms;
    assert Join(tail, "\t") == Join(row.atoms, "\t");
    assert fs[1..] == [row.queryId] + tail;
    assert Join(fs, "\t") == row.dbaseId + "\t" + Join(fs[1..], "\t");
    assert fs[1..][1..] == tail;
    assert Join(fs[1..], "\t") == row.queryId + "\t" + Join(tail, "\t");
    JoinSplitRoundTrip(fs, '\t');
  }

  /** The row lines, in row order. */
  function Lines(rows: seq<MatchRow>): (lines: seq<string>)
    ensures |lines| == |rows|
    ensures forall i :: 0 <= i < |rows| ==> lines[i] == AtomTypeLine(rows[i])
  {
    seq(|rows|, i requires 0 <= i < |rows| => AtomTypeLine(rows[i]))
  }

  /** The atom-type table: the header, then one line per row in row order. */
  method WriteAtomTypes(names: seq<string>, rows: seq<MatchRow>) returns (text: string)
    ensures text == HeaderLine(names) + Concat(Lines(rows))
  {
    ghost var lines := Lines(rows);
    text := HeaderLine(names);
    var i := 0;
    while i < |rows|
      invariant 0 <= i <= |rows|
      invariant text == HeaderLine(names) + Concat(lines[..i])
    {
      assert lines[..i + 1] == lines[..i] + [lines[i]];
      ConcatAppend(lines[..i], [lines[i]]);
      assert Concat([lines[i]]) == lines[i] + Concat([]);
      text := text + AtomTypeLine(rows[i]);
      i := i + 1;
    }
    assert lines[..i] == lines;
  }

  /**
   * `read_and_write` for one pair of files: collect the rows, then write
   * the atom-type table with the atom names of the query file (its first
   * record; an empty query file cannot be read for the header). The charge
   * table has the same rows with the charges formatted as numbers.
   */
  method ReadAndWrite(dbase: seq<Molecule>, query: seq<Molecule>, t: real)
    returns (r: Result<(string, seq<MatchRow>)>)
    ensures r.Failure? <==> SomePairFails(dbase, query, Min(|dbase|, |query|)) || query == []
    ensures r.Success? ==> |r.value.1| == Min(|dbase|, |query|)
    ensures r.Success? ==> forall i :: 0 <= i < |r.value.1| ==> Success(r.value.1[i]) == PairRow(dbase[i], query[i], t)
    ensures r.Success? ==> r.value.0 == HeaderLine(AtomNames(query[0].atoms)) + Concat(Lines(r.value.1))
  {
    var rows := CollectRows(dbase, query, t);
    if rows.Failure? {
      return Failure(rows.error);
    }
    if query == [] {
      return Failure("ValueError: empty query file");
    }
    var text := WriteAtomTypes(AtomNames(query[0].atoms), rows.value);
    return Success((text, rows.value));
  }
}
