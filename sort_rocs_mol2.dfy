/**
 * sort_rocs_mol2: sort the rows of a ROCS report by score, keep the rows a
 * selection accepts, and write for every surviving row its query conformer
 * to a `_query.mol2` file and its database molecule to a `_dbase.mol2`
 * file, row by row.
 *
 * `parse_selection_string` is `SelectionText.InsertFrame` with the frame
 * name "df"; the condition pandas evaluates is taken as a parsed `Pred`.
 * The temporary directory of pickled database records is a map from id to
 * record text.
 */
module SortRocsMol2 {
  import opened Wrappers
  import opened Text
  import opened Tables
  import opened Mol2
  import EnumerateConformers
  import IdToMol2
  import SelectionText

  // ---------------------------------------------------------------------
  // df.sort_values(sortby, ascending=False)
  // ---------------------------------------------------------------------

  /** Python's `>=` on lists of numbers: lexicographic, and a proper prefix is smaller. */
  predicate LexGe(a: seq<real>, b: seq<real>)
    decreases |a|
  {
    if b == [] then true
    else if a == [] then false
    else a[0] > b[0] || (a[0] == b[0] && LexGe(a[1..], b[1..]))
  }

  lemma {:induction false} LexGeTotal(a: seq<real>, b: seq<real>)
    ensures LexGe(a, b) || LexGe(b, a)
    decreases |a|
  {
    if a != [] && b != [] {
      LexGeTotal(a[1..], b[1..]);
    }
  }

  lemma {:induction false} LexGeTransitive(a: seq<real>, b: seq<real>, c: seq<real>)
    requires LexGe(a, b) && LexGe(b, c)
    ensures LexGe(a, c)
    decreases |a|
  {
    if a != [] && b != [] && c != [] && a[0] == b[0] && b[0] == c[0] {
      LexGeTransitive(a[1..], b[1..], c[1..]);
    }
  }

  /**
   * A score cell as a number. A ROCS report's score columns hold numbers;
   * the 0.0 only makes the key total.
   */
  function Score(row: Row, c: string): real {
    if c in row && row[c].Num? then row[c].n else 0.0
  }

  /** The sort key of a row: its scores in `sortby` order. */
  function Key(row: Row, sortby: seq<string>): seq<real> {
    seq(|sortby|, i requires 0 <= i < |sortby| => Score(row, sortby[i]))
  }

  /** Non-increasing by key. */
  predicate SortedDesc(rows: seq<Row>, sortby: seq<string>) {
    forall i, j :: 0 <= i < j < |rows| ==> LexGe(Key(rows[i], sortby), Key(rows[j], sortby))
  }

  /** x placed before the first row whose key it is at least. */
  function Insert(x: Row, rows: seq<Row>, sortby: seq<string>): (out: seq<Row>)
    ensures multiset(out) == multiset(rows) + multiset{x}
    decreases |rows|
  {
    if rows == [] then [x]
    else if LexGe(Key(x, sortby), Key(rows[0], sortby)) then [x] + rows
    else
      assert rows == [rows[0]] + rows[1..];
      [rows[0]] + Insert(x, rows[1..], sortby)
  }

  lemma {:induction false} InsertSorted(x: Row, rows: seq<Row>, sortby: seq<string>)
    requires SortedDesc(rows, sortby)
    ensures SortedDesc(Insert(x, rows, sortby), sortby)
    decreases |rows|
  {
    var kx := Key(x, sortby);
    if rows == [] {
    } else if LexGe(kx, Key(rows[0], sortby)) {
      forall j | 0 <= j < |rows| ensures LexGe(kx, Key(rows[j], sortby)) {
        if j > 0 {
          LexGeTransitive(kx, Key(rows[0], sortby), Key(rows[j], sortby));
        }
      }
      ConsSorted(x, rows, sortby);
    } else {
      var k0 := Key(rows[0], sortby);
      LexGeTotal(kx, k0);
      var rest := Insert(x, rows[1..], sortby);
      InsertSorted(x, rows[1..], sortby);
      forall j | 0 <= j < |rest| ensures LexGe(k0, Key(rest[j], sortby)) {
        assert rest[j] in multiset(rest);
        if rest[j] != x {
          assert rest[j] in multiset(rows[1..]);
          var m :| 0 <= m < |rows[1..]| && rows[1..][m] == rest[j];
          assert rows[m + 1] == rest[j];
        }
      }
      ConsSorted(rows[0], rest, sortby);
    }
  }

  /** A row at least every row of a sorted sequence can go in front of it. */
  lemma ConsSorted(h: Row, rest: seq<Row>, sortby: seq<string>)
    requires SortedDesc(rest, sortby)
    requires forall j :: 0 <= j < |rest| ==> LexGe(Key(h, sortby), Key(rest[j], sortby))
    ensures SortedDesc([h] + rest, sortby)
  {
    var out := [h] + rest;
    forall i, j | 0 <= i < j < |out| ensures LexGe(Key(out[i], sortby), Key(out[j], sortby)) {
      assert out[j] == rest[j - 1];
      if i > 0 {
        assert out[i] == rest[i - 1];
      }
    }
  }

  /** The sorted report: a reference definition of `sort_values(..., ascending=False)`. */
  function SortRows(rows: seq<Row>, sortby: seq<string>): (out: seq<Row>)
    ensures multiset(out) == multiset(rows)
    decreases |rows|
  {
    if rows == [] then []
    else
      assert rows == [rows[0]] + rows[1..];
      Insert(rows[0], SortRows(rows[1..], sortby), sortby)
  }

  /** The sorted rows are non-increasing by their scores. */
  lemma {:induction false} SortRowsSorted(rows: seq<Row>, sortby: seq<string>)
    ensures SortedDesc(SortRows(rows, sortby), sortby)
    decreases |rows|
  {
    if rows != [] {
      SortRowsSorted(rows[1..], sortby);
      InsertSorted(rows[0], SortRows(rows[1..], sortby), sortby);
    }
  }

  // ---------------------------------------------------------------------
  // df = df[mask]
  // ---------------------------------------------------------------------

  /** The rows the selection accepts, in order. */
  function Survivors(rows: seq<Row>, p: Pred, cols: set<string>): (out: seq<Row>)
    ensures |out| <= |rows|
    decreases |rows|
  {
    if rows == [] then []
    else (if Accepts(p, rows[0], cols) then [rows[0]] else []) + Survivors(rows[1..], p, cols)
  }

  /** A row survives iff it is in the report and the selection accepts it. */
  lemma {:induction false} SurvivorsMember(rows: seq<Row>, p: Pred, cols: set<string>, x: Row)
    ensures x in Survivors(rows, p, cols) <==> x in rows && Accepts(p, x, cols)
    decreases |rows|
  {
    if rows != [] {
      SurvivorsMember(rows[1..], p, cols, x);
      assert rows == [rows[0]] + rows[1..];
    }
  }

  /** Masking a sorted report keeps it sorted: the survivors stay in score order. */
  lemma {:induction false} SurvivorsSorted(rows: seq<Row>, p: Pred, cols: set<string>, sortby: seq<string>)
    requires SortedDesc(rows, sortby)
    ensures SortedDesc(Survivors(rows, p, cols), sortby)
    decreases |rows|
  {
    if rows != [] {
      var rest := Survivors(rows[1..], p, cols);
      SurvivorsSorted(rows[1..], p, cols, sortby);
      if Accepts(p, rows[0], cols) {
        forall j | 0 <= j < |rest| ensures LexGe(Key(rows[0], sortby), Key(rest[j], sortby)) {
          SurvivorsMember(rows[1..], p, cols, rest[j]);
          var m :| 0 <= m < |rows[1..]| && rows[1..][m] == rest[j];
          assert rows[m + 1] == rest[j];
        }
        ConsSorted(rows[0], rest, sortby);
      } else {
        assert Survivors(rows, p, cols) == [] + rest;
      }
    }
  }

  // ---------------------------------------------------------------------
  // The report read with usecols=['Name', 'ShapeQuery'] + sortby
  // ---------------------------------------------------------------------

  /** The columns read from the report. */
  function UsedColumns(sortby: seq<string>): (cols: seq<string>)
    ensures forall c :: c in cols <==> c == "Name" || c == "ShapeQuery" || c in sortby
  {
    ["Name", "ShapeQuery"] + sortby
  }

  /** Every row has both name columns. */
  predicate HasNames(rows: seq<Row>) {
    forall r :: r in rows ==> "Name" in r && "ShapeQuery" in r
  }

  /** The report rows the tool pairs: sorted when `sortby` is given, masked when a selection is. */
  function Report(rows: seq<Row>, sortby: seq<string>, selection: string, p: Pred): seq<Row> {
    var sorted := if sortby != [] then SortRows(rows, sortby) else rows;
    if selection != "" then Survivors(sorted, p, set c | c in UsedColumns(sortby)) else sorted
  }

  /**
   * The report holds exactly the rows of the table that the selection
   * accepts, and with score columns it is in non-increasing score order.
   */
  lemma ReportRows(rows: seq<Row>, sortby: seq<string>, selection: string, p: Pred, x: Row)
    ensures x in Report(rows, sortby, selection, p) <==>
      x in rows && (selection == "" || Accepts(p, x, set c | c in UsedColumns(sortby)))
    ensures sortby != [] ==> SortedDesc(Report(rows, sortby, selection, p), sortby)
  {
    var cols := set c | c in UsedColumns(sortby);
    var sorted := if sortby != [] then SortRows(rows, sortby) else rows;
    assert x in sorted <==> x in rows by {
      assert x in sorted <==> x in multiset(sorted);
    }
    SurvivorsMember(sorted, p, cols, x);
    if sortby != [] {
      SortRowsSorted(rows, sortby);
      SurvivorsSorted(sorted, p, cols, sortby);
    }
  }

  /** `(Name, ShapeQuery)` of every report row: `dbase_query_pairs`. */
  function Pairs(rows: seq<Row>): (pairs: seq<(Value, Value)>)
    requires HasNames(rows)
    ensures |pairs| == |rows|
    ensures forall k :: 0 <= k < |rows| ==> pairs[k] == (rows[k]["Name"], rows[k]["ShapeQuery"])
  {
    seq(|rows|, k requires 0 <= k < |rows| => (rows[k]["Name"], rows[k]["ShapeQuery"]))
  }

  /** `query_names`: every query cell of the report. */
  function QueryNames(pairs: seq<(Value, Value)>): (names: set<Value>)
    ensures forall v :: v in names <==> exists k :: 0 <= k < |pairs| && pairs[k].1 == v
  {
    set k | 0 <= k < |pairs| :: pairs[k].1
  }

  // ---------------------------------------------------------------------
  // query_mol2s: the query conformers the report names
  // ---------------------------------------------------------------------

  /** The first pass over the query file: it stops at the second record. */
  method IsMultiConformer(query: seq<Record>) returns (multi: bool)
    ensures multi <==> |query| >= 2
  {
    multi := false;
    var idx := 0;
    while idx < |query|
      invariant 0 <= idx <= |query| && idx <= 1
      invariant !multi
    {
      if idx >= 1 {
        multi := true;
        break;
      }
      idx := idx + 1;
    }
  }

  /** `mol_idx` of the record at file position k: `id_k` for a multi-conformer file, else the id. */
  function QueryName(query: seq<Record>, k: nat, multi: bool): string
    requires k < |query|
  {
    if multi then EnumerateConformers.Label(query[k].id, k) else query[k].id
  }

  /** The conformers of a multi-conformer file get pairwise distinct names, whatever their ids. */
  lemma MultiConformerNamesDistinct(query: seq<Record>, i: nat, j: nat)
    requires i < |query| && j < |query| && i != j
    ensures QueryName(query, i, true) != QueryName(query, j, true)
  {
    if QueryName(query, i, true) == QueryName(query, j, true) {
      EnumerateConformers.LabelInjective(query[i].id, i, query[j].id, j);
    }
  }

  /**
   * The labels of a multi-conformer file whose records all carry one id:
   * `id_0` up to `id_(n-1)`, as `cnt` starts at -1 and is raised before
   * its first use.
   */
  lemma CodeNamesOfOneId(query: seq<Record>, id: string, x: string)
    requires |query| >= 2 && forall k :: 0 <= k < |query| ==> query[k].id == id
    ensures (exists k :: 0 <= k < |query| && QueryName(query, k, true) == x) <==>
      exists j :: 0 <= j < |query| && x == EnumerateConformers.Label(id, j)
  {
    if exists j :: 0 <= j < |query| && x == EnumerateConformers.Label(id, j) {
      var j :| 0 <= j < |query| && x == EnumerateConformers.Label(id, j);
      assert QueryName(query, j, true) == x;
    }
  }

  /** The first conformer is labelled `id_0`. */
  lemma FirstConformerLabelledZero(query: seq<Record>)
    requires |query| >= 2
    ensures QueryName(query, 0, true) == query[0].id + "_0"
  {
    assert NatToString(0) == "0";
  }

  /**
   * A report row that names the last of n conformers `id_n`, as the
   * `--id_suffix` help text numbers them, finds no stored query record,
   * so writing the pairs raises.
   */
  lemma DocumentedLastNameFails(pairs: seq<(Value, Value)>, query: seq<Record>, ds: map<string, string>,
                                idSuffix: bool, k: nat)
    requires (idSuffix ==> NameLines(query)) && |query| >= 2
    requires k < |pairs| && pairs[k].1 == Str(EnumerateConformers.Label(query[0].id, |query|))
    ensures Written(pairs, LastWins(QueryEntries(query, QueryNames(pairs), true, idSuffix)), ds).Failure?
  {
    var x := EnumerateConformers.Label(query[0].id, |query|);
    var qs := LastWins(QueryEntries(query, QueryNames(pairs), true, idSuffix));
    QueryStoreContents(query, QueryNames(pairs), true, idSuffix, x);
    if x in qs {
      var j :| 0 <= j < |query| && QueryName(query, j, true) == x;
      EnumerateConformers.LabelInjective(query[j].id, j, query[0].id, |query|);
    }
    assert !Found(pairs[k], qs, ds);
    WrittenFails(pairs, qs, ds);
  }

  /** The labels the `--id_suffix` help text promises: `id_1, id_2, …` in file order. */
  function DocumentedName(query: seq<Record>, k: nat, multi: bool): string
    requires k < |query|
  {
    if multi then EnumerateConformers.Label(query[k].id, k + 1) else query[k].id
  }

  /** With the documented numbering the conformers of one id are `id_1` up to `id_n`. */
  lemma DocumentedNamesOfOneId(query: seq<Record>, id: string, x: string)
    requires |query| >= 2 && forall k :: 0 <= k < |query| ==> query[k].id == id
    ensures (exists k :: 0 <= k < |query| && DocumentedName(query, k, true) == x) <==>
      exists j :: 1 <= j <= |query| && x == EnumerateConformers.Label(id, j)
  {
    if exists j :: 1 <= j <= |query| && x == EnumerateConformers.Label(id, j) {
      var j :| 1 <= j <= |query| && x == EnumerateConformers.Label(id, j);
      assert DocumentedName(query, j - 1, true) == x;
    }
  }

  /** The documented labels are pairwise distinct too. */
  lemma DocumentedNamesDistinct(query: seq<Record>, i: nat, j: nat)
    requires i < |query| && j < |query| && i != j
    ensures DocumentedName(query, i, true) != DocumentedName(query, j, true)
  {
    if DocumentedName(query, i, true) == DocumentedName(query, j, true) {
      EnumerateConformers.LabelInjective(query[i].id, i + 1, query[j].id, j + 1);
    }
  }

  /** One step of a dictionary fill: store a text under a key, or do nothing. */
  datatype Entry = Skip | Put(key: string, text: string)

  predicate PutsKey(e: Entry, x: string) {
    e.Put? && e.key == x
  }

  /** The dictionary after the steps in order: a later step for a key overwrites an earlier one. */
  function LastWins(entries: seq<Entry>): map<string, string>
    decreases |entries|
  {
    if entries == [] then map[]
    else
      var m := LastWins(entries[..|entries| - 1]);
      var e := entries[|entries| - 1];
      if e.Put? then m[e.key := e.text] else m
  }

  /** A key is stored iff some step stores it. */
  lemma {:induction false} LastWinsKeys(entries: seq<Entry>, x: string)
    ensures x in LastWins(entries) <==> exists k :: 0 <= k < |entries| && PutsKey(entries[k], x)
    decreases |entries|
  {
    if entries != [] {
      var init := entries[..|entries| - 1];
      LastWinsKeys(init, x);
      if exists k :: 0 <= k < |init| && PutsKey(init[k], x) {
        var k :| 0 <= k < |init| && PutsKey(init[k], x);
        assert entries[k] == init[k];
      }
      if exists k :: 0 <= k < |entries| && PutsKey(entries[k], x) {
        var k :| 0 <= k < |entries| && PutsKey(entries[k], x);
        if k < |init| {
          assert init[k] == entries[k];
        }
      }
    }
  }

  /** The stored text of a key is the text of the last step that stores it. */
  lemma {:induction false} LastWinsValue(entries: seq<Entry>, k: nat)
    requires k < |entries| && entries[k].Put?
    requires forall j :: k < j < |entries| ==> !PutsKey(entries[j], entries[k].key)
    ensures entries[k].key in LastWins(entries)
    ensures LastWins(entries)[entries[k].key] == entries[k].text
    decreases |entries|
  {
    var init := entries[..|entries| - 1];
    if k < |init| {
      assert init[k] == entries[k];
      LastWinsValue(init, k);
    }
  }

  /** Every query record has a name line to overwrite. */
  predicate NameLines(query: seq<Record>) {
    forall k :: 0 <= k < |query| ==> |query[k].lines| >= 2
  }

  /** The stored text: the record, with line 1 replaced by `name + '\n'` under `--id_suffix`. */
  function QueryText(r: Record, name: string, idSuffix: bool): string
    requires idSuffix ==> |r.lines| >= 2
  {
    if idSuffix then Concat(r.lines[1 := name + "\n"]) else RecordText(r)
  }

  /** What the loop does with the record at position k: store it iff the report names it. */
  function QueryEntry(query: seq<Record>, k: nat, names: set<Value>, multi: bool, idSuffix: bool): Entry
    requires k < |query| && (idSuffix ==> NameLines(query))
  {
    var name := QueryName(query, k, multi);
    if Str(name) in names then Put(name, QueryText(query[k], name, idSuffix)) else Skip
  }

  function QueryEntries(query: seq<Record>, names: set<Value>, multi: bool, idSuffix: bool): (es: seq<Entry>)
    requires idSuffix ==> NameLines(query)
    ensures |es| == |query|
    ensures forall k :: 0 <= k < |query| ==> es[k] == QueryEntry(query, k, names, multi, idSuffix)
  {
    seq(|query|, k requires 0 <= k < |query| => QueryEntry(query, k, names, multi, idSuffix))
  }

  /** The loop over the query records with the counter `cnt` that starts at -1. */
  method BuildQueryStore(query: seq<Record>, names: set<Value>, multi: bool, idSuffix: bool)
    returns (store: map<string, string>)
    requires idSuffix ==> NameLines(query)
    ensures store == LastWins(QueryEntries(query, names, multi, idSuffix))
  {
    ghost var es := QueryEntries(query, names, multi, idSuffix);
    store := map[];
    var cnt := -1;
    var i := 0;
    while i < |query|
      invariant 0 <= i <= |query| && cnt == i - 1
      invariant store == LastWins(es[..i])
    {
      cnt := cnt + 1;
      var r := query[i];
      var name := if multi then EnumerateConformers.Label(r.id, cnt) else r.id;
      assert es[..i + 1][..i] == es[..i];
      if Str(name) in names {
        var text := if idSuffix then Concat(r.lines[1 := name + "\n"]) else Concat(r.lines);
        store := store[name := text];
      }
      i := i + 1;
    }
    assert es[..i] == es;
  }

  /**
   * A name is stored iff the report names it and some record carries it;
   * in a multi-conformer file nothing is overwritten, so each named
   * conformer is stored with its own text.
   */
  lemma QueryStoreContents(query: seq<Record>, names: set<Value>, multi: bool, idSuffix: bool, x: string)
    requires idSuffix ==> NameLines(query)
    ensures x in LastWins(QueryEntries(query, names, multi, idSuffix)) <==>
      Str(x) in names && exists k :: 0 <= k < |query| && QueryName(query, k, multi) == x
  {
    var es := QueryEntries(query, names, multi, idSuffix);
    LastWinsKeys(es, x);
    if exists k :: 0 <= k < |query| && QueryName(query, k, multi) == x {
      var k :| 0 <= k < |query| && QueryName(query, k, multi) == x;
      assert Str(x) in names ==> PutsKey(es[k], x);
    }
  }

  lemma MultiConformerStoresEach(query: seq<Record>, names: set<Value>, idSuffix: bool, k: nat)
    requires idSuffix ==> NameLines(query)
    requires k < |query| && Str(QueryName(query, k, true)) in names
    ensures QueryName(query, k, true) in LastWins(QueryEntries(query, names, true, idSuffix))
    ensures LastWins(QueryEntries(query, names, true, idSuffix))[QueryName(query, k, true)] ==
      QueryText(query[k], QueryName(query, k, true), idSuffix)
  {
    var es := QueryEntries(query, names, true, idSuffix);
    forall j | k < j < |es| ensures !PutsKey(es[j], es[k].key) {
      MultiConformerNamesDistinct(query, k, j);
    }
    LastWinsValue(es, k);
  }

  // ---------------------------------------------------------------------
  // The temporary directory of database records
  // ---------------------------------------------------------------------

  /** A database record is stored under its id unless the id is empty. */
  function DbaseEntries(dbase: seq<Record>): (es: seq<Entry>)
    ensures |es| == |dbase|
    ensures forall k :: 0 <= k < |dbase| ==>
      es[k] == if dbase[k].id != "" then Put(dbase[k].id, RecordText(dbase[k])) else Skip
  {
    seq(|dbase|, k requires 0 <= k < |dbase| =>
      if dbase[k].id != "" then Put(dbase[k].id, RecordText(dbase[k])) else Skip)
  }

  /** The loop that pickles every database record with an id into the temporary directory. */
  method BuildDbaseStore(dbase: seq<Record>) returns (store: map<string, string>)
    ensures store == LastWins(DbaseEntries(dbase))
  {
    ghost var es := DbaseEntries(dbase);
    store := map[];
    var i := 0;
    while i < |dbase|
      invariant 0 <= i <= |dbase|
      invariant store == LastWins(es[..i])
    {
      var r := dbase[i];
      assert es[..i + 1][..i] == es[..i];
      if r.id != "" {
        store := store[r.id := Concat(r.lines)];
      }
      i := i + 1;
    }
    assert es[..i] == es;
  }

  /**
   * An id is stored iff it is non-empty and some record carries it, and it
   * holds the text of the last such record.
   */
  lemma DbaseStoreContents(dbase: seq<Record>, x: string)
    ensures x in LastWins(DbaseEntries(dbase)) <==> x != "" && exists k :: 0 <= k < |dbase| && dbase[k].id == x
  {
    var es := DbaseEntries(dbase);
    LastWinsKeys(es, x);
    if x != "" && exists k :: 0 <= k < |dbase| && dbase[k].id == x {
      var k :| 0 <= k < |dbase| && dbase[k].id == x;
      assert PutsKey(es[k], x);
    }
  }

  lemma DbaseStoreLast(dbase: seq<Record>, k: nat)
    requires k < |dbase| && dbase[k].id != ""
    requires forall j :: k < j < |dbase| ==> dbase[j].id != dbase[k].id
    ensures dbase[k].id in LastWins(DbaseEntries(dbase))
    ensures LastWins(DbaseEntries(dbase))[dbase[k].id] == RecordText(dbase[k])
  {
    LastWinsValue(DbaseEntries(dbase), k);
  }

  // ---------------------------------------------------------------------
  // Writing the pairs
  // ---------------------------------------------------------------------

  const KeyError := "KeyError"
  const OsError := "OSError"
  const TypeError := "TypeError"

  /** Both records of a row are stored: its query name in `query_mol2s`, its database name in the directory. */
  predicate Found(pair: (Value, Value), qs: map<string, string>, ds: map<string, string>) {
    pair.1.Str? && pair.1.s in qs && pair.0.Str? && pair.0.s in ds
  }

  /** The exception a row with a missing record raises: the query lookup comes first. */
  function MissingError(pair: (Value, Value), qs: map<string, string>): string {
    if !(pair.1.Str? && pair.1.s in qs) then KeyError
    else if pair.0.Str? then OsError
    else TypeError
  }

  /** Prepend one row's texts to the rest of the output. */
  function Prefixed(q: string, d: string, rest: Result<(string, string)>): Result<(string, string)> {
    if rest.Failure? then rest else Success((q + rest.value.0, d + rest.value.1))
  }

  /** The two output texts, or the exception of the first row with a missing record. */
  function Written(pairs: seq<(Value, Value)>, qs: map<string, string>, ds: map<string, string>): Result<(string, string)>
    decreases |pairs|
  {
    if pairs == [] then Success(("", ""))
    else if !Found(pairs[0], qs, ds) then Failure(MissingError(pairs[0], qs))
    else Prefixed(qs[pairs[0].1.s], ds[pairs[0].0.s], Written(pairs[1..], qs, ds))
  }

  /** The pair loop: for each row, write its query record, then its database record. */
  method WritePairs(pairs: seq<(Value, Value)>, qs: map<string, string>, ds: map<string, string>)
    returns (r: Result<(string, string)>)
    ensures r == Written(pairs, qs, ds)
  {
    var qText, dText := "", "";
    var i := 0;
    assert pairs[0..] == pairs;
    var all := Written(pairs, qs, ds);
    if all.Success? {
      assert "" + all.value.0 == all.value.0 && "" + all.value.1 == all.value.1;
    }
    while i < |pairs|
      invariant 0 <= i <= |pairs|
      invariant Written(pairs, qs, ds) == Prefixed(qText, dText, Written(pairs[i..], qs, ds))
    {
      var (d, q) := pairs[i];
      assert pairs[i..][1..] == pairs[i + 1..];
      if !(q.Str? && q.s in qs) {
        return Failure(KeyError);
      }
      if !(d.Str? && d.s in ds) {
        return Failure(if d.Str? then OsError else TypeError);
      }
      var rest := Written(pairs[i + 1..], qs, ds);
      if rest.Success? {
        assert qText + (qs[q.s] + rest.value.0) == (qText + qs[q.s]) + rest.value.0;
        assert dText + (ds[d.s] + rest.value.1) == (dText + ds[d.s]) + rest.value.1;
      }
      qText, dText := qText + qs[q.s], dText + ds[d.s];
      i := i + 1;
    }
    assert pairs[i..] == [];
    assert Written(pairs, qs, ds) == Success((qText + "", dText + ""));
    assert qText + "" == qText && dText + "" == dText;
    return Success((qText, dText));
  }

  /** The output fails iff some row has a missing record. */
  lemma {:induction false} WrittenFails(pairs: seq<(Value, Value)>, qs: map<string, string>, ds: map<string, string>)
    ensures Written(pairs, qs, ds).Failure? <==> exists k :: 0 <= k < |pairs| && !Found(pairs[k], qs, ds)
    decreases |pairs|
  {
    if pairs != [] {
      WrittenFails(pairs[1..], qs, ds);
      if exists k :: 0 <= k < |pairs[1..]| && !Found(pairs[1..][k], qs, ds) {
        var k :| 0 <= k < |pairs[1..]| && !Found(pairs[1..][k], qs, ds);
        assert pairs[k + 1] == pairs[1..][k];
      }
      if exists k :: 0 <= k < |pairs| && !Found(pairs[k], qs, ds) {
        var k :| 0 <= k < |pairs| && !Found(pairs[k], qs, ds);
        if k > 0 {
          assert pairs[1..][k - 1] == pairs[k];
        }
      }
    }
  }

  /** The exception is the one of the first row with a missing record; no row is skipped. */
  lemma {:induction false} WrittenFirstMissing(pairs: seq<(Value, Value)>, qs: map<string, string>, ds: map<string, string>, k: nat)
    requires k < |pairs| && !Found(pairs[k], qs, ds)
    requires forall j :: 0 <= j < k ==> Found(pairs[j], qs, ds)
    ensures Written(pairs, qs, ds) == Failure(MissingError(pairs[k], qs))
    decreases k
  {
    if k > 0 {
      assert Found(pairs[0], qs, ds);
      assert pairs[1..][k - 1] == pairs[k];
      WrittenFirstMissing(pairs[1..], qs, ds, k - 1);
    }
  }

  /** The query text of row k and the database text of row k. */
  function QueryTexts(pairs: seq<(Value, Value)>, qs: map<string, string>, ds: map<string, string>): (ts: seq<string>)
    requires forall k :: 0 <= k < |pairs| ==> Found(pairs[k], qs, ds)
    ensures |ts| == |pairs|
  {
    seq(|pairs|, k requires 0 <= k < |pairs| && Found(pairs[k], qs, ds) => qs[pairs[k].1.s])
  }

  function DbaseTexts(pairs: seq<(Value, Value)>, qs: map<string, string>, ds: map<string, string>): (ts: seq<string>)
    requires forall k :: 0 <= k < |pairs| ==> Found(pairs[k], qs, ds)
    ensures |ts| == |pairs|
  {
    seq(|pairs|, k requires 0 <= k < |pairs| && Found(pairs[k], qs, ds) => ds[pairs[k].0.s])
  }

  /**
   * When every record is found, the two outputs are row-aligned: the k-th
   * query record and the k-th database record belong to report row k.
   */
  lemma {:induction false} WrittenAligned(pairs: seq<(Value, Value)>, qs: map<string, string>, ds: map<string, string>)
    requires forall k :: 0 <= k < |pairs| ==> Found(pairs[k], qs, ds)
    ensures Written(pairs, qs, ds) == Success((Concat(QueryTexts(pairs, qs, ds)), Concat(DbaseTexts(pairs, qs, ds))))
    decreases |pairs|
  {
    if pairs != [] {
      var tail := pairs[1..];
      assert forall k :: 0 <= k < |tail| ==> tail[k] == pairs[k + 1];
      WrittenAligned(tail, qs, ds);
      assert QueryTexts(pairs, qs, ds)[1..] == QueryTexts(tail, qs, ds);
      assert DbaseTexts(pairs, qs, ds)[1..] == DbaseTexts(tail, qs, ds);
    }
  }

  // ---------------------------------------------------------------------
  // read_and_write
  // ---------------------------------------------------------------------

  /** What the pair loop writes for the report rows, given the query and database records. */
  function Output(rows: seq<Row>, query: seq<Record>, dbase: seq<Record>, idSuffix: bool): Result<(string, string)>
    requires HasNames(rows) && (idSuffix ==> NameLines(query))
  {
    var pairs := Pairs(rows);
    Written(pairs, LastWins(QueryEntries(query, QueryNames(pairs), |query| >= 2, idSuffix)), LastWins(DbaseEntries(dbase)))
  }

  /** The report rows all carry both names once the used columns are in the header. */
  lemma ReportHasNames(t: Table, sortby: seq<string>, selection: string, p: Pred)
    requires Rectangular(t) && "Name" in t.header && "ShapeQuery" in t.header
    ensures HasNames(Report(t.rows, sortby, selection, p))
  {
    forall x | x in Report(t.rows, sortby, selection, p) ensures "Name" in x && "ShapeQuery" in x {
      ReportRows(t.rows, sortby, selection, p, x);
      var k :| 0 <= k < |t.rows| && t.rows[k] == x;
      assert "Name" in t.rows[k].Keys;
    }
  }

  /**
   * `pd.read_table(usecols=...)`, the sort and the mask: fails as
   * `read_table` does when a used column is missing from the header.
   */
  method ReadReport(t: Table, sortby: seq<string>, selection: string, p: Pred) returns (r: Result<seq<Row>>)
    requires Rectangular(t)
    ensures r.Failure? <==> MissingColumn(t, UsedColumns(sortby))
    ensures r.Failure? ==> r.error == UsecolsError
    ensures r.Success? ==> r.value == Report(t.rows, sortby, selection, p) && HasNames(r.value)
  {
    var used := UsedColumns(sortby);
    if MissingColumn(t, used) {
      return Failure(UsecolsError);
    }
    assert "Name" in t.header && "ShapeQuery" in t.header by {
      assert "Name" in used && "ShapeQuery" in used;
    }
    ReportHasNames(t, sortby, selection, p);
    var rows := t.rows;
    if sortby != [] {
      rows := SortRows(rows, sortby);
    }
    if selection != "" {
      rows := Survivors(rows, p, set c | c in used);
    }
    return Success(rows);
  }

  /** The rest of `read_and_write`: name and store the records, then write the pairs. */
  method PairAndWrite(rows: seq<Row>, query: seq<Record>, dbase: seq<Record>, idSuffix: bool)
    returns (r: Result<(string, string)>)
    requires HasNames(rows) && (idSuffix ==> NameLines(query))
    ensures r == Output(rows, query, dbase, idSuffix)
  {
    var pairs := Pairs(rows);
    var names := QueryNames(pairs);
    var multi := IsMultiConformer(query);
    var qs := BuildQueryStore(query, names, multi, idSuffix);
    var ds := BuildDbaseStore(dbase);
    r := WritePairs(pairs, qs, ds);
  }

  /**
   * `read_and_write` on one ROCS result: the report error, or, for the
   * report rows in order, the stored query conformer and the stored
   * database record of each row, up to the first row with a missing record.
   */
  method ReadAndWrite(t: Table, sortby: seq<string>, selection: string, p: Pred,
                      query: seq<Record>, dbase: seq<Record>, idSuffix: bool)
    returns (r: Result<(string, string)>)
    requires Rectangular(t)
    requires idSuffix ==> NameLines(query)
    ensures MissingColumn(t, UsedColumns(sortby)) ==> r == Failure(UsecolsError)
    ensures !MissingColumn(t, UsedColumns(sortby)) ==> HasNames(Report(t.rows, sortby, selection, p))
    ensures !MissingColumn(t, UsedColumns(sortby)) ==> r == Output(Report(t.rows, sortby, selection, p), query, dbase, idSuffix)
  {
    var report := ReadReport(t, sortby, selection, p);
    if report.Failure? {
      return Failure(report.error);
    }
    r := PairAndWrite(report.value, query, dbase, idSuffix);
  }

  // ---------------------------------------------------------------------
  // Output paths
  // ---------------------------------------------------------------------

  /** `os.path.join(output_dir, basename.split('.mol2')[0])`. */
  function OutBase(outputDir: string, inputPath: string): string {
    JoinPath(outputDir, SplitOn(Basename(inputPath), ".mol2")[0])
  }

  /** A result file `dir/stem.mol2` gives `output_dir/stem_query.mol2` and `output_dir/stem_dbase.mol2`. */
  lemma OutBaseOfStem(dir: string, outputDir: string, stem: string)
    requires !HasChar(stem, '/') && !HasChar(stem, '.')
    ensures OutBase(outputDir, JoinPath(dir, stem + ".mol2")) == JoinPath(outputDir, stem)
  {
    var f := stem + ".mol2";
    assert !HasChar(".mol2", '/');
    assert !HasChar(f, '/') by {
      forall i | 0 <= i < |f| ensures f[i] != '/' {
        if i >= |stem| {
          assert f[i] == ".mol2"[i - |stem|];
        }
      }
    }
    BasenameJoin(dir, f);
    assert ".mol2"[0] == '.';
    SplitOnPiece(stem, ".mol2", "");
    assert stem + ".mol2" + "" == f;
  }

  // ---------------------------------------------------------------------
  // The argument checks of the entry point
  // ---------------------------------------------------------------------

  const SuffixFalse: set<string> := {"false", "f", "no", "n"}
  const SuffixTrue: set<string> := {"true", "t", "yes", "y"}

  /** `--id_suffix`: the four false words and the four true words, in any case. */
  function ParseIdSuffix(v: string): (r: Result<bool>)
    ensures r == Success(false) <==> Lower(v) in SuffixFalse
    ensures r == Success(true) <==> Lower(v) in SuffixTrue
    ensures r.Failure? <==> Lower(v) !in SuffixFalse + SuffixTrue
  {
    if Lower(v) in SuffixFalse then Success(false)
    else if Lower(v) in SuffixTrue then Success(true)
    else Failure("ValueError: --id_suffix must be true or false")
  }

  /** Where `--id_suffix` accepts a word, the `str2bool` of the other tools agrees with it. */
  lemma ParseIdSuffixAgrees(v: string)
    requires ParseIdSuffix(v).Success?
    ensures IdToMol2.Str2Bool(v) == ParseIdSuffix(v)
  {
  }

  /** Unlike `str2bool`, `--id_suffix` does not accept "1". */
  lemma ParseIdSuffixRejectsDigit()
    ensures ParseIdSuffix("1").Failure? && IdToMol2.Str2Bool("1") == Success(true)
  {
    assert Lower("1") == "1";
  }

  /** `[s.strip() for s in args.sortby.split(',')]`. */
  function SortColumns(raw: string): (cols: seq<string>)
    ensures |cols| == |SplitOn(raw, ",")| == Count(raw, ",") + 1
    ensures forall k :: 0 <= k < |cols| ==> cols[k] == Strip(SplitOn(raw, ",")[k])
  {
    SplitOnLength(raw, ",");
    var pieces := SplitOn(raw, ",");
    seq(|pieces|, k requires 0 <= k < |pieces| => Strip(pieces[k]))
  }

  /** A selection token that names a column the sort columns do not contain. */
  predicate Offending(token: string, sortbyRaw: string) {
    StartsWith(token, "(") && !Contains(sortbyRaw, token[1..])
  }

  /** Token k is the first offending one. */
  predicate FirstOffending(tokens: seq<string>, sortbyRaw: string, k: int) {
    0 <= k < |tokens| && Offending(tokens[k], sortbyRaw) && forall j :: 0 <= j < k ==> !Offending(tokens[j], sortbyRaw)
  }

  /** The message names the column, the token without its '('. */
  function SelectionError(token: string): string
    requires token != []
  {
    "ValueError: not in --sortby: " + token[1..]
  }

  /**
   * The check of every space-separated selection token: a token starting
   * with '(' must, without the '(', occur in the raw `--sortby` text.
   */
  method CheckSelection(selection: string, sortbyRaw: string) returns (r: Result<()>)
    ensures r.Failure? <==> exists k :: 0 <= k < |SplitOn(selection, " ")| && Offending(SplitOn(selection, " ")[k], sortbyRaw)
    ensures r.Failure? ==> exists k :: FirstOffending(SplitOn(selection, " "), sortbyRaw, k) && r.error == SelectionError(SplitOn(selection, " ")[k])
  {
    var tokens := SplitOn(selection, " ");
    var i := 0;
    while i < |tokens|
      invariant 0 <= i <= |tokens|
      invariant forall k :: 0 <= k < i ==> !Offending(tokens[k], sortbyRaw)
    {
      var s := tokens[i];
      if StartsWith(s, "(") && !Contains(sortbyRaw, s[1..]) {
        assert Offending(tokens[i], sortbyRaw);
        assert FirstOffending(tokens, sortbyRaw, i);
        assert exists k :: 0 <= k < |SplitOn(selection, " ")| && Offending(SplitOn(selection, " ")[k], sortbyRaw);
        return Failure(SelectionError(s));
      }
      i := i + 1;
    }
    return Success(());
  }

  /** Each piece of a joined text occurs in it. */
  lemma {:induction false} JoinContainsPiece(parts: seq<string>, sep: string, j: nat)
    requires j < |parts|
    ensures Contains(Join(parts, sep), parts[j])
    decreases |parts|
  {
    var s := Join(parts, sep);
    if j == 0 {
      if |parts| > 1 {
        assert s == parts[0] + (sep + Join(parts[1..], sep));
      }
      assert s[..|parts[0]|] == parts[0];
    } else {
      var k := |parts[0] + sep|;
      assert s == parts[0] + sep + Join(parts[1..], sep);
      assert s[k..] == Join(parts[1..], sep);
      assert parts[1..][j - 1] == parts[j];
      JoinContainsPiece(parts[1..], sep, j - 1);
      SelectionText.ContainsSuffix(s, k, parts[j]);
    }
  }

  /** A token naming one of the comma-separated pieces of `--sortby` passes the check. */
  lemma ListedColumnPasses(sortbyRaw: string, j: nat)
    requires j < |SplitOn(sortbyRaw, ",")|
    ensures !Offending("(" + SplitOn(sortbyRaw, ",")[j], sortbyRaw)
  {
    var pieces := SplitOn(sortbyRaw, ",");
    SplitOnJoin(sortbyRaw, ",");
    JoinContainsPiece(pieces, ",", j);
    assert ("(" + pieces[j])[1..] == pieces[j];
  }

  /** The check is by substring: a prefix of a sort column passes although no column has that name. */
  lemma SubstringPasses()
    ensures !Offending("(Tanimoto", "TanimotoCombo")
  {
    assert "(Tanimoto"[1..] == "Tanimoto";
    assert StartsWith("TanimotoCombo", "Tanimoto");
  }
}
