/**
 * id_to_mol2: copy the molecules of MOL2 files whose ids are (include
 * mode) or are not (exclude mode) listed in an ID file.
 */
module IdToMol2 {
  import opened Wrappers
  import opened Text
  import opened Mol2

  // ---------------------------------------------------------------------
  // str2bool
  // ---------------------------------------------------------------------

  const TrueWords: set<string> := {"yes", "true", "t", "y", "1"}
  const FalseWords: set<string> := {"no", "false", "f", "n", "0"}

  /** `str2bool(v)`: the argparse converter for the include/exclude switch. */
  function Str2Bool(v: string): (r: Result<bool>)
    ensures r == Success(true) <==> Lower(v) in TrueWords
    ensures r == Success(false) <==> Lower(v) in FalseWords
    ensures r.Failure? <==> Lower(v) !in TrueWords && Lower(v) !in FalseWords
  {
    if Lower(v) in TrueWords then Success(true)
    else if Lower(v) in FalseWords then Success(false)
    else Failure("ArgumentTypeError: Boolean value expected.")
  }

  lemma LowerIdempotent(s: string)
    ensures Lower(Lower(s)) == Lower(s)
  {
  }

  /** The test is case-insensitive: a word and its lower-case form convert alike. */
  lemma Str2BoolCaseInsensitive(v: string)
    ensures Str2Bool(v) == Str2Bool(Lower(v))
  {
    LowerIdempotent(v);
  }

  /** No word is both true and false, so the order of the two tests does not matter. */
  lemma Str2BoolWordsDisjoint()
    ensures TrueWords * FalseWords == {}
  {
    assert "yes" != "no" && "true" != "false";
  }

  // ---------------------------------------------------------------------
  // filter_and_write
  // ---------------------------------------------------------------------

  /** Whether a record is written: its id is listed iff the mode is include. */
  predicate Keep(r: Record, ids: set<string>, includeMode: bool) {
    (r.id in ids) == includeMode
  }

  /** The records one file's loop writes, in input order. */
  function Selected(rs: seq<Record>, ids: set<string>, includeMode: bool): (out: seq<Record>)
    ensures |out| <= |rs|
    decreases |rs|
  {
    if rs == [] then []
    else (if Keep(rs[0], ids, includeMode) then [rs[0]] else []) + Selected(rs[1..], ids, includeMode)
  }

  /** One more input record appends that record when it is kept, and nothing otherwise. */
  lemma {:induction false} SelectedSnoc(rs: seq<Record>, r: Record, ids: set<string>, includeMode: bool)
    ensures Selected(rs + [r], ids, includeMode) == Selected(rs, ids, includeMode) + (if Keep(r, ids, includeMode) then [r] else [])
    decreases |rs|
  {
    if rs == [] {
      assert rs + [r] == [r];
      assert [r][1..] == [];
    } else {
      assert (rs + [r])[1..] == rs[1..] + [r];
      SelectedSnoc(rs[1..], r, ids, includeMode);
      AppendAssoc(if Keep(rs[0], ids, includeMode) then [rs[0]] else [], Selected(rs[1..], ids, includeMode),
        if Keep(r, ids, includeMode) then [r] else []);
    }
  }

  /** A record is written iff it is an input record whose id passes the mode's test. */
  lemma {:induction false} SelectedMember(rs: seq<Record>, ids: set<string>, includeMode: bool, r: Record)
    ensures r in Selected(rs, ids, includeMode) <==> r in rs && Keep(r, ids, includeMode)
    decreases |rs|
  {
    if rs != [] {
      SelectedMember(rs[1..], ids, includeMode, r);
      assert rs == [rs[0]] + rs[1..];
    }
  }

  /** `a` is `b` with some elements left out, the rest kept in order. */
  predicate IsSubsequence<T(==)>(a: seq<T>, b: seq<T>)
    decreases |b|
  {
    if a == [] then true
    else if b == [] then false
    else (a[0] == b[0] && IsSubsequence(a[1..], b[1..])) || IsSubsequence(a, b[1..])
  }

  /** The output is a subsequence of the input: records keep their order and their text. */
  lemma {:induction false} SelectedSubsequence(rs: seq<Record>, ids: set<string>, includeMode: bool)
    ensures IsSubsequence(Selected(rs, ids, includeMode), rs)
    decreases |rs|
  {
    if rs != [] {
      SelectedSubsequence(rs[1..], ids, includeMode);
      var tail := Selected(rs[1..], ids, includeMode);
      if Keep(rs[0], ids, includeMode) {
        assert Selected(rs, ids, includeMode) == [rs[0]] + tail;
        assert ([rs[0]] + tail)[1..] == tail;
      } else {
        assert Selected(rs, ids, includeMode) == tail;
      }
    }
  }

  /** For one set, every record goes to exactly one of the include and the exclude output. */
  lemma {:induction false} SelectedPartition(rs: seq<Record>, ids: set<string>)
    ensures multiset(Selected(rs, ids, true)) + multiset(Selected(rs, ids, false)) == multiset(rs)
    decreases |rs|
  {
    if rs != [] {
      SelectedPartition(rs[1..], ids);
      assert rs == [rs[0]] + rs[1..];
    }
  }

  /** Filtering an output again with the same set and mode changes nothing. */
  lemma {:induction false} SelectedIdempotent(rs: seq<Record>, ids: set<string>, includeMode: bool)
    ensures Selected(Selected(rs, ids, includeMode), ids, includeMode) == Selected(rs, ids, includeMode)
    decreases |rs|
  {
    if rs != [] {
      SelectedIdempotent(rs[1..], ids, includeMode);
      var tail := Selected(rs[1..], ids, includeMode);
      if Keep(rs[0], ids, includeMode) {
        var out := [rs[0]] + tail;
        assert Selected(rs, ids, includeMode) == out;
        assert out[0] == rs[0] && out[1..] == tail;
        assert Selected(out, ids, includeMode) == [rs[0]] + Selected(tail, ids, includeMode);
      } else {
        assert Selected(rs, ids, includeMode) == tail;
      }
    }
  }

  /** Include mode with every record id listed reproduces the whole file. */
  lemma {:induction false} SelectedAllListed(rs: seq<Record>, ids: set<string>)
    requires forall k :: 0 <= k < |rs| ==> rs[k].id in ids
    ensures Selected(rs, ids, true) == rs
    decreases |rs|
  {
    if rs != [] {
      SelectedAllListed(rs[1..], ids);
    }
  }

  /** The loop over one file's records, writing `''.join(mol2[1])` for each kept record. */
  method FilterRecords(rs: seq<Record>, ids: set<string>, includeMode: bool) returns (text: string)
    ensures text == RecordsText(Selected(rs, ids, includeMode))
  {
    text := [];
    var i := 0;
    while i < |rs|
      invariant 0 <= i <= |rs|
      invariant text == RecordsText(Selected(rs[..i], ids, includeMode))
    {
      var r := rs[i];
      assert rs[..i + 1] == rs[..i] + [r];
      SelectedSnoc(rs[..i], r, ids, includeMode);
      if (r.id in ids) == includeMode {
        RecordsTextAppend(Selected(rs[..i], ids, includeMode), [r]);
        assert RecordsText([r]) == RecordText(r) + RecordsText([]);
        text := text + RecordText(r);
      } else {
        assert Selected(rs[..i], ids, includeMode) + [] == Selected(rs[..i], ids, includeMode);
      }
      i := i + 1;
    }
    assert rs[..i] == rs;
  }

  /** One written output file. */
  datatype OutFile = OutFile(path: string, text: string)

  /** The output files for the inputs: each named like its input inside the output directory, holding its kept records. */
  function Outputs(inputs: seq<MolFile>, ids: set<string>, outputDir: string, includeMode: bool): (out: seq<OutFile>)
    ensures |out| == |inputs|
  {
    seq(|inputs|, k requires 0 <= k < |inputs| =>
      OutFile(JoinPath(outputDir, Basename(inputs[k].path)), RecordsText(Selected(inputs[k].records, ids, includeMode))))
  }

  /**
   * `filter_and_write`: the output files in input order. With `verbose`
   * set, `n_molecules = idx + 1` raises UnboundLocalError when the first
   * file has no record, since `idx` is only bound by the record loop; that
   * first output file has then been created empty. A later empty file
   * finds `idx` left over from an earlier one.
   */
  method FilterAndWrite(inputs: seq<MolFile>, ids: set<string>, outputDir: string, includeMode: bool, verbose: bool)
    returns (written: seq<OutFile>, failed: bool)
    ensures failed <==> verbose && |inputs| > 0 && inputs[0].records == []
    ensures written == Outputs(inputs, ids, outputDir, includeMode)[..if failed then 1 else |inputs|]
  {
    ghost var expected := Outputs(inputs, ids, outputDir, includeMode);
    written := [];
    failed := false;
    var idxBound := false;
    var i := 0;
    while i < |inputs| && !failed
      invariant 0 <= i <= |inputs|
      invariant written == expected[..i]
      invariant failed ==> i == 1 && verbose && inputs[0].records == []
      invariant !failed && i > 0 && verbose ==> idxBound && inputs[0].records != []
      invariant i == 0 ==> !idxBound && !failed
    {
      var outPath := JoinPath(outputDir, Basename(inputs[i].path));
      var text := FilterRecords(inputs[i].records, ids, includeMode);
      assert expected[..i + 1] == expected[..i] + [OutFile(outPath, text)];
      written := written + [OutFile(outPath, text)];
      if inputs[i].records != [] {
        idxBound := true;
      } else if verbose && !idxBound {
        failed := true;
      }
      i := i + 1;
    }
    assert i == |inputs| ==> expected[..i] == expected;
  }

  /** Each output keeps its input's file name. */
  lemma OutputKeepsName(outputDir: string, path: string)
    ensures Basename(JoinPath(outputDir, Basename(path))) == Basename(path)
  {
    BasenameJoin(outputDir, Basename(path));
  }
}
