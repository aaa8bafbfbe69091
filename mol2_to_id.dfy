/** mol2_to_id: write the id of every molecule of a list of MOL2 files. */
module Mol2ToId {
  import opened Text
  import opened Mol2
  import opened IdFile

  /** The ids of all records: files in list order, records in file order. */
  function AllIds(files: seq<seq<Record>>): seq<string>
    decreases |files|
  {
    if files == [] then [] else Ids(files[0]) + AllIds(files[1..])
  }

  /** The number of records in all files together. */
  function TotalRecords(files: seq<seq<Record>>): nat
    decreases |files|
  {
    if files == [] then 0 else |files[0]| + TotalRecords(files[1..])
  }

  /** One id per record: nothing is filtered and duplicates are kept. */
  lemma {:induction false} AllIdsLength(files: seq<seq<Record>>)
    ensures |AllIds(files)| == TotalRecords(files)
    decreases |files|
  {
    if files != [] {
      AllIdsLength(files[1..]);
    }
  }

  /** The ids of a longer file list continue those of its prefix. */
  lemma {:induction false} AllIdsAppend(a: seq<seq<Record>>, b: seq<seq<Record>>)
    ensures AllIds(a + b) == AllIds(a) + AllIds(b)
    decreases |a|
  {
    if a == [] {
      assert a + b == b;
    } else {
      assert (a + b)[1..] == a[1..] + b;
      AllIdsAppend(a[1..], b);
    }
  }

  /** The inner loop of `mol2_to_idfile`: `mol2[0] + '\n'` for each record of one file. */
  method WriteIds(rs: seq<Record>) returns (text: string)
    ensures text == IdText(Ids(rs))
  {
    text := [];
    var j := 0;
    while j < |rs|
      invariant 0 <= j <= |rs|
      invariant text == IdText(Ids(rs[..j]))
    {
      assert Ids(rs[..j + 1]) == Ids(rs[..j]) + [rs[j].id];
      IdTextSnoc(Ids(rs[..j]), rs[j].id);
      text := text + (rs[j].id + "\n");
      j := j + 1;
    }
    assert rs[..j] == rs;
  }

  /**
   * `mol2_to_idfile`: the ids of all files, in file-list order. With
   * `verbose` set, `n_molecules = idx + 1` raises UnboundLocalError when
   * the first file has no record, leaving the id file empty; a later empty
   * file finds `idx` left over from an earlier one.
   */
  method Mol2ToIdFile(files: seq<seq<Record>>, verbose: bool) returns (text: string, failed: bool)
    ensures failed <==> verbose && |files| > 0 && files[0] == []
    ensures text == if failed then [] else IdText(AllIds(files))
  {
    text := [];
    failed := false;
    var idxBound := false;
    var i := 0;
    while i < |files|
      invariant 0 <= i <= |files|
      invariant i == 0 ==> !idxBound
      invariant i > 0 && verbose ==> idxBound
      invariant i > 0 && verbose ==> files[0] != []
      invariant text == IdText(AllIds(files[..i]))
    {
      if verbose && !idxBound && files[i] == [] {
        failed := true;
        return;
      }
      var t := WriteIds(files[i]);
      assert files[..i + 1] == files[..i] + [files[i]];
      AllIdsAppend(files[..i], [files[i]]);
      assert [files[i]][1..] == [];
      assert AllIds([files[i]]) == Ids(files[i]);
      IdLinesAppend(AllIds(files[..i]), Ids(files[i]));
      ConcatAppend(IdLines(AllIds(files[..i])), IdLines(Ids(files[i])));
      text := text + t;
      if files[i] != [] {
        idxBound := true;
      }
      i := i + 1;
    }
    assert files[..i] == files;
  }

  /**
   * Line k of the written file is the id of the k-th record, counting
   * through the files in order, when no id holds a newline.
   */
  lemma Mol2ToIdLines(files: seq<seq<Record>>)
    requires forall x :: x in AllIds(files) ==> !HasChar(x, '\n')
    ensures SplitOn(IdText(AllIds(files)), "\n") == AllIds(files) + [""]
    ensures |SplitOn(IdText(AllIds(files)), "\n")| == TotalRecords(files) + 1
  {
    var ids := AllIds(files);
    assert forall k :: 0 <= k < |ids| ==> ids[k] in ids;
    SplitIdText(ids);
    AllIdsLength(files);
  }
}
