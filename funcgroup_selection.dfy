/**
 * funcgroup_selection and funcgroup_matching_selection: filter the pair of
 * tab-separated tables (atom types, charges) that funcgroup_matching
 * writes, keep the row indices both filters let through, and copy the
 * query and database records at those indices into new MOL2 files.
 *
 * The selection texts are rewritten by `SelectionText.ParseTableSelection`;
 * the conditions themselves are taken as parsed `Pred`s. Both tools share
 * this model; the compressed-file rules of the second one are the `Gz`
 * functions below.
 */
module FuncgroupSelection {
  import opened Wrappers
  import opened Text
  import opened Tables
  import opened Mol2
  import opened NameLists

  // ---------------------------------------------------------------------
  // get_tsv_pairs
  // ---------------------------------------------------------------------

  const AtomTypeSuffixes: seq<string> := ["_atomtype.tsv"]
  const ChargeSuffixes: seq<string> := ["_charge.tsv"]

  /** `get_tsv_pairs`: the atom-type and charge table names in listing order; unequal counts raise. */
  method GetTsvPairs(allTsv: seq<string>) returns (r: Result<(seq<string>, seq<string>)>)
    ensures r.Failure? <==>
      |Kind(allTsv, AtomTypeSuffixes, ChargeSuffixes, true)| != |Kind(allTsv, AtomTypeSuffixes, ChargeSuffixes, false)|
    ensures r.Success? ==>
      r.value == (Kind(allTsv, AtomTypeSuffixes, ChargeSuffixes, true), Kind(allTsv, AtomTypeSuffixes, ChargeSuffixes, false))
  {
    var aList, cList := SplitByKind(allTsv, AtomTypeSuffixes, ChargeSuffixes);
    if |aList| != |cList| {
      return Failure("ValueError: unequal atomtype/charge");
    }
    return Success((aList, cList));
  }

  // ---------------------------------------------------------------------
  // Filtering a table group by group
  // ---------------------------------------------------------------------

  /** A table row: its dbase and query ids and all its cells by column name. */
  datatype TableRow = TableRow(dbase: string, query: string, cells: Row)

  /** A row of a filtered data frame: its original index label and its row. */
  datatype Indexed = Indexed(index: nat, row: TableRow)

  /** The data frame as read: row k carries index k. */
  function Numbered(table: seq<TableRow>): (rows: seq<Indexed>)
    ensures |rows| == |table|
    ensures forall k :: 0 <= k < |table| ==> rows[k] == Indexed(k, table[k])
  {
    seq(|table|, k requires 0 <= k < |table| => Indexed(k, table[k]))
  }

  /** `pd.eval('df[cond]')`: the rows satisfying the condition, labels and order kept. */
  function Filter(rows: seq<Indexed>, p: Pred): (out: seq<Indexed>)
    ensures |out| <= |rows|
    decreases |rows|
  {
    if rows == [] then []
    else (if Holds(p, rows[0].row.cells) then [rows[0]] else []) + Filter(rows[1..], p)
  }

  lemma {:induction false} FilterMember(rows: seq<Indexed>, p: Pred, x: Indexed)
    ensures x in Filter(rows, p) <==> x in rows && Holds(p, x.row.cells)
    decreases |rows|
  {
    if rows != [] {
      FilterMember(rows[1..], p, x);
      assert rows == [rows[0]] + rows[1..];
    }
  }

  /** The groups applied one after the other, each to the rows the previous ones kept. */
  function ApplyGroups(rows: seq<Indexed>, groups: seq<Pred>): seq<Indexed>
    decreases |groups|
  {
    if groups == [] then rows else ApplyGroups(Filter(rows, groups[0]), groups[1..])
  }

  /** A row satisfies every group. */
  predicate AllGroups(groups: seq<Pred>, r: TableRow) {
    forall k :: 0 <= k < |groups| ==> Holds(groups[k], r.cells)
  }

  /** A row survives iff it was there and satisfies every group; its label is unchanged. */
  lemma {:induction false} ApplyGroupsMember(rows: seq<Indexed>, groups: seq<Pred>, x: Indexed)
    ensures x in ApplyGroups(rows, groups) <==> x in rows && AllGroups(groups, x.row)
    decreases |groups|
  {
    if groups != [] {
      ApplyGroupsMember(Filter(rows, groups[0]), groups[1..], x);
      FilterMember(rows, groups[0], x);
      if AllGroups(groups, x.row) {
        assert AllGroups(groups[1..], x.row) by {
          forall k | 0 <= k < |groups[1..]| ensures Holds(groups[1..][k], x.row.cells) {
            assert groups[1..][k] == groups[k + 1];
          }
        }
      }
      if Holds(groups[0], x.row.cells) && AllGroups(groups[1..], x.row) {
        assert AllGroups(groups, x.row) by {
          forall k | 0 <= k < |groups| ensures Holds(groups[k], x.row.cells) {
            if k > 0 {
              assert groups[k] == groups[1..][k - 1];
            }
          }
        }
      }
    }
  }

  /** `for sele in atom_sele: df_atom = pd.eval(sele)`; no groups (an empty selection) keeps every row. */
  method ApplySelection(table: seq<TableRow>, groups: seq<Pred>) returns (rows: seq<Indexed>)
    ensures rows == ApplyGroups(Numbered(table), groups)
  {
    rows := Numbered(table);
    var k := 0;
    while k < |groups|
      invariant 0 <= k <= |groups|
      invariant ApplyGroups(rows, groups[k..]) == ApplyGroups(Numbered(table), groups)
    {
      assert groups[k..][0] == groups[k] && groups[k..][1..] == groups[k + 1..];
      rows := Filter(rows, groups[k]);
      k := k + 1;
    }
    assert groups[k..] == [];
  }

  /** A label survives the filters iff it labels a table row that satisfies every group. */
  lemma SurvivorLabels(table: seq<TableRow>, groups: seq<Pred>, i: nat)
    ensures i in Labels(ApplyGroups(Numbered(table), groups)) <==> i < |table| && AllGroups(groups, table[i])
  {
    var rows := Numbered(table);
    if i in Labels(ApplyGroups(rows, groups)) {
      var x :| x in ApplyGroups(rows, groups) && x.index == i;
      ApplyGroupsMember(rows, groups, x);
      var k :| 0 <= k < |rows| && rows[k] == x;
    }
    if i < |table| && AllGroups(groups, table[i]) {
      ApplyGroupsMember(rows, groups, rows[i]);
    }
  }

  // ---------------------------------------------------------------------
  // The selected indices
  // ---------------------------------------------------------------------

  /** `set(df.index)`. */
  function Labels(rows: seq<Indexed>): set<nat> {
    set x | x in rows :: x.index
  }

  /** The members of s in [lo, hi), in increasing order. */
  function SortedBetween(s: set<nat>, lo: nat, hi: nat): (out: seq<nat>)
    ensures forall x :: x in out <==> x in s && lo <= x < hi
    ensures forall k :: 0 <= k < |out| ==> lo <= out[k] < hi
    ensures forall a, b :: 0 <= a < b < |out| ==> out[a] < out[b]
    decreases hi - lo
  {
    if lo >= hi then []
    else
      var rest := SortedBetween(s, lo + 1, hi);
      if lo in s then [lo] + rest else rest
  }

  /**
   * `sorted(set(df_charge.index) & set(df_atom.index))`; every atom-table
   * label is below the atom table's length, so that bound loses nothing.
   */
  function SelectionIndices(atomRows: seq<Indexed>, chargeRows: seq<Indexed>, n: nat): seq<nat> {
    SortedBetween(Labels(chargeRows) * Labels(atomRows), 0, n)
  }

  /**
   * An index is selected iff its atom-table row satisfies every atom-type
   * group and its charge-table row satisfies every charge group (the
   * order, strictly increasing, is `SortedBetween`'s).
   */
  lemma SelectionIndicesMember(atomTable: seq<TableRow>, chargeTable: seq<TableRow>,
                               atomGroups: seq<Pred>, chargeGroups: seq<Pred>, i: nat)
    ensures i in SelectionIndices(ApplyGroups(Numbered(atomTable), atomGroups),
                                  ApplyGroups(Numbered(chargeTable), chargeGroups), |atomTable|) <==>
            i < |atomTable| && i < |chargeTable| && AllGroups(atomGroups, atomTable[i]) && AllGroups(chargeGroups, chargeTable[i])
  {
    SurvivorLabels(atomTable, atomGroups, i);
    SurvivorLabels(chargeTable, chargeGroups, i);
  }

  // ---------------------------------------------------------------------
  // Record retrieval
  // ---------------------------------------------------------------------

  /** What is written for index i: record i of the file, or a placeholder naming the id. */
  function Entry(records: seq<Record>, i: nat, name: string): string {
    if i < |records| then RecordText(records[i]) else "DID NOT FIND " + name + "\n"
  }

  /** The scan `for idx, mol2 in enumerate(...)`, stopping at idx == i. */
  method FindRecord(records: seq<Record>, i: nat, name: string) returns (content: string)
    ensures content == Entry(records, i, name)
  {
    content := "DID NOT FIND " + name + "\n";
    var idx := 0;
    while idx < |records|
      invariant 0 <= idx <= |records|
      invariant idx <= i
      invariant content == "DID NOT FIND " + name + "\n"
    {
      if idx == i {
        content := RecordText(records[idx]);
        return;
      }
      idx := idx + 1;
    }
  }

  /** All indices are row labels of the atom table. */
  predicate IndicesBelow(indices: seq<nat>, n: nat) {
    forall k :: 0 <= k < |indices| ==> indices[k] < n
  }

  /** The entries of one output file, one per selected index, in index order. */
  function Entries(records: seq<Record>, indices: seq<nat>, table: seq<TableRow>, ofQuery: bool): (es: seq<string>)
    requires IndicesBelow(indices, |table|)
    ensures |es| == |indices|
  {
    seq(|indices|, k requires 0 <= k < |indices| =>
      var row := table[indices[k]];
      Entry(records, indices[k], if ofQuery then row.query else row.dbase))
  }

  /**
   * The index loop: for each selected index, the query record and the
   * dbase record at that position, or a placeholder with the id from the
   * atom table.
   */
  method WriteRecords(indices: seq<nat>, atomTable: seq<TableRow>, query: seq<Record>, dbase: seq<Record>)
    returns (queryOut: seq<string>, dbaseOut: seq<string>)
    requires IndicesBelow(indices, |atomTable|)
    ensures queryOut == Entries(query, indices, atomTable, true)
    ensures dbaseOut == Entries(dbase, indices, atomTable, false)
  {
    queryOut, dbaseOut := [], [];
    var k := 0;
    while k < |indices|
      invariant 0 <= k <= |indices|
      invariant queryOut == Entries(query, indices, atomTable, true)[..k]
      invariant dbaseOut == Entries(dbase, indices, atomTable, false)[..k]
    {
      var i := indices[k];
      var q := FindRecord(query, i, atomTable[i].query);
      var d := FindRecord(dbase, i, atomTable[i].dbase);
      queryOut, dbaseOut := queryOut + [q], dbaseOut + [d];
      k := k + 1;
    }
  }

  /** The outcome for one pair of tables. */
  datatype Selected = Selected(indices: seq<nat>, queryOut: seq<string>, dbaseOut: seq<string>)

  /**
   * One pass of the loop in `main`: filter both tables, intersect the
   * labels, and copy the records at the selected indices.
   */
  method ProcessPair(atomTable: seq<TableRow>, chargeTable: seq<TableRow>,
                     atomGroups: seq<Pred>, chargeGroups: seq<Pred>,
                     query: seq<Record>, dbase: seq<Record>) returns (out: Selected)
    ensures out.indices == SelectionIndices(ApplyGroups(Numbered(atomTable), atomGroups),
                                            ApplyGroups(Numbered(chargeTable), chargeGroups), |atomTable|)
    ensures IndicesBelow(out.indices, |atomTable|)
    ensures out.queryOut == Entries(query, out.indices, atomTable, true)
    ensures out.dbaseOut == Entries(dbase, out.indices, atomTable, false)
  {
    var atomRows := ApplySelection(atomTable, atomGroups);
    var chargeRows := ApplySelection(chargeTable, chargeGroups);
    var indices := SelectionIndices(atomRows, chargeRows, |atomTable|);
    var q, d := WriteRecords(indices, atomTable, query, dbase);
    return Selected(indices, q, d);
  }

  // ---------------------------------------------------------------------
  // MOL2 paths
  // ---------------------------------------------------------------------

  /**
   * The query and dbase MOL2 paths in directory `dir` for the charge table
   * written to `cOut`: '_charge.tsv' becomes '_query.mol2' in its base
   * name, then '_query.mol2' becomes '_dbase.mol2' in the whole path.
   */
  function Mol2Paths(dir: string, cOut: string): (string, string) {
    var q := JoinPath(dir, ReplaceAll(Basename(cOut), ChargeSuffix, QuerySuffix));
    (q, ReplaceAll(q, QuerySuffix, DbaseSuffix))
  }

  /**
   * For a charge table `stem_charge.tsv` whose stem (with the directory)
   * holds neither suffix, the paths are `dir/stem_query.mol2` and
   * `dir/stem_dbase.mol2`.
   */
  lemma Mol2PathsOfStem(dir: string, outDir: string, stem: string)
    requires !HasChar(stem, '/')
    requires !Contains(stem, ChargeSuffix) && !Contains(JoinPath(dir, stem), QuerySuffix)
    ensures Mol2Paths(dir, JoinPath(outDir, stem + ChargeSuffix)) ==
      (JoinPath(dir, stem + QuerySuffix), JoinPath(dir, stem + DbaseSuffix))
  {
    var base := stem + ChargeSuffix;
    SuffixFacts();
    NoCharAppend(stem, ChargeSuffix, '/');
    BasenameJoin(outDir, base);
    ReplaceSuffix(stem, ChargeSuffix, QuerySuffix);
    var q := JoinPath(dir, stem + QuerySuffix);
    JoinPathAppend(dir, stem, QuerySuffix);
    JoinPathAppend(dir, stem, DbaseSuffix);
    ReplaceSuffix(JoinPath(dir, stem), QuerySuffix, DbaseSuffix);
    assert Mol2Paths(dir, JoinPath(outDir, base)) == (q, ReplaceAll(q, QuerySuffix, DbaseSuffix));
  }

  const ChargeSuffix := "_charge.tsv"
  const QuerySuffix := "_query.mol2"
  const DbaseSuffix := "_dbase.mol2"

  /** The replaced suffixes start with their only '_' and hold no '/'. */
  lemma SuffixFacts()
    ensures !HasChar(ChargeSuffix[1..], '_') && !HasChar(QuerySuffix[1..], '_')
    ensures !HasChar(ChargeSuffix, '/')
  {
  }

  /** `p + '.gz'` when only the compressed file exists (funcgroup_matching_selection). */
  function GzInput(plain: string, plainExists: bool, gzExists: bool): string {
    if !plainExists && gzExists then plain + ".gz" else plain
  }

  /** An output path gets '.gz' iff the input path it copies from has it. */
  function GzOutput(out: string, input: string): string {
    if EndsWith(input, ".gz") then out + ".gz" else out
  }

  /**
   * For an input path that does not end in '.gz' by itself, the output is
   * compressed exactly when the plain input is missing and the compressed
   * one exists.
   */
  lemma GzFollowsInput(plain: string, out: string, plainExists: bool, gzExists: bool)
    requires !EndsWith(plain, ".gz")
    ensures GzOutput(out, GzInput(plain, plainExists, gzExists)) ==
      (if !plainExists && gzExists then out + ".gz" else out)
  {
    var g := plain + ".gz";
    assert g[|g| - 3..] == ".gz";
  }
}
