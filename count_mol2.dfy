/** count_mol2: count the molecules of MOL2 files by their '@<TRIPOS>ATOM' lines. */
module CountMol2 {
  import opened Text
  import opened Mol2

  /** The section marker each molecule has once. */
  const AtomMarker: string := "@<TRIPOS>ATOM"

  /** The specification of `mol_count_python`: lines that begin with the marker. */
  function AtomCount(lines: seq<string>): nat
    decreases |lines|
  {
    if lines == [] then 0
    else (if StartsWith(lines[0], AtomMarker) then 1 else 0) + AtomCount(lines[1..])
  }

  /** `mol_count_python`: one pass over the lines, counting marker prefixes. */
  method MolCountPython(lines: seq<string>) returns (cnt: nat)
    ensures cnt == AtomCount(lines)
  {
    cnt := 0;
    var i := 0;
    while i < |lines|
      invariant 0 <= i <= |lines|
      invariant cnt + AtomCount(lines[i..]) == AtomCount(lines)
    {
      assert lines[i..][1..] == lines[i + 1..];
      if StartsWith(lines[i], AtomMarker) {
        cnt := cnt + 1;
      }
      i := i + 1;
    }
    assert lines[i..] == [];
  }

  /** At most one per line, and none when no line begins with the marker. */
  lemma {:induction false} AtomCountBounds(lines: seq<string>)
    ensures AtomCount(lines) <= |lines|
    ensures (forall k :: 0 <= k < |lines| ==> !StartsWith(lines[k], AtomMarker)) ==> AtomCount(lines) == 0
    decreases |lines|
  {
    if lines != [] {
      AtomCountBounds(lines[1..]);
      assert forall k :: 0 <= k < |lines[1..]| ==> lines[1..][k] == lines[k + 1];
    }
  }

  /** Counting two line sequences one after the other adds their counts. */
  lemma {:induction false} AtomCountAppend(a: seq<string>, b: seq<string>)
    ensures AtomCount(a + b) == AtomCount(a) + AtomCount(b)
    decreases |a|
  {
    if a == [] {
      assert a + b == b;
    } else {
      assert (a + b)[1..] == a[1..] + b;
      AtomCountAppend(a[1..], b);
    }
  }

  /** The test is a prefix test: indented markers are not counted, longer marker lines are. */
  lemma AtomCountPrefixTest(rest: string)
    ensures AtomCount([" " + AtomMarker + rest]) == 0
    ensures AtomCount([AtomMarker + rest]) == 1
  {
    assert (" " + AtomMarker + rest)[0] == ' ';
    assert (AtomMarker + rest)[..|AtomMarker|] == AtomMarker;
  }

  /** The `grep | wc -l` counter: lines that contain the marker anywhere. */
  function ShellCount(lines: seq<string>): nat
    decreases |lines|
  {
    if lines == [] then 0
    else (if Contains(lines[0], AtomMarker) then 1 else 0) + ShellCount(lines[1..])
  }

  /** Every line the prefix test counts, grep counts too. */
  lemma {:induction false} AtomCountBelowShell(lines: seq<string>)
    ensures AtomCount(lines) <= ShellCount(lines)
    decreases |lines|
  {
    if lines != [] {
      AtomCountBelowShell(lines[1..]);
    }
  }

  /** The counter `count_in_dir` uses for one file. */
  function FileCount(lines: seq<string>, windows: bool): nat {
    if windows then AtomCount(lines) else ShellCount(lines)
  }

  /** The specification of `count_in_dir`: the sum over the entries with a MOL2 suffix. */
  function DirTotal(entries: seq<string>, contents: seq<seq<string>>, windows: bool): nat
    requires |contents| == |entries|
    decreases |entries|
  {
    if entries == [] then 0
    else
      var here := if HasMol2Suffix(entries[0]) then FileCount(contents[0], windows) else 0;
      here + DirTotal(entries[1..], contents[1..], windows)
  }

  /**
   * `count_in_dir`: the directory listing and each entry's lines are given;
   * entries without a MOL2 suffix are skipped.
   */
  method CountInDir(entries: seq<string>, contents: seq<seq<string>>, windows: bool) returns (total: nat)
    requires |contents| == |entries|
    ensures total == DirTotal(entries, contents, windows)
  {
    total := 0;
    var i := 0;
    while i < |entries|
      invariant 0 <= i <= |entries|
      invariant total + DirTotal(entries[i..], contents[i..], windows) == DirTotal(entries, contents, windows)
    {
      assert entries[i..][1..] == entries[i + 1..];
      assert contents[i..][1..] == contents[i + 1..];
      if HasMol2Suffix(entries[i]) {
        var cnt: nat;
        if windows {
          cnt := MolCountPython(contents[i]);
        } else {
          cnt := ShellCount(contents[i]);
        }
        total := total + cnt;
      }
      i := i + 1;
    }
  }

  /** Entries without a MOL2 suffix add nothing, wherever they are listed. */
  lemma {:induction false} DirTotalIgnoresOthers(entries: seq<string>, contents: seq<seq<string>>, windows: bool)
    requires |contents| == |entries|
    requires forall k :: 0 <= k < |entries| ==> !HasMol2Suffix(entries[k])
    ensures DirTotal(entries, contents, windows) == 0
    decreases |entries|
  {
    if entries != [] {
      assert forall k :: 0 <= k < |entries[1..]| ==> entries[1..][k] == entries[k + 1];
      DirTotalIgnoresOthers(entries[1..], contents[1..], windows);
    }
  }

  /** Listing two groups of entries one after the other adds their totals. */
  lemma {:induction false} DirTotalAppend(e1: seq<string>, c1: seq<seq<string>>, e2: seq<string>, c2: seq<seq<string>>, windows: bool)
    requires |c1| == |e1| && |c2| == |e2|
    ensures DirTotal(e1 + e2, c1 + c2, windows) == DirTotal(e1, c1, windows) + DirTotal(e2, c2, windows)
    decreases |e1|
  {
    if e1 == [] {
      assert e1 + e2 == e2 && c1 + c2 == c2;
    } else {
      assert (e1 + e2)[1..] == e1[1..] + e2;
      assert (c1 + c2)[1..] == c1[1..] + c2;
      DirTotalAppend(e1[1..], c1[1..], e2, c2, windows);
    }
  }

  /**
   * `main` tests `os.system == 'Windows'`, comparing a function with a
   * string, which is never true: the shell counter is always used.
   */
  const IsWindows: bool := false

  /** `main`: a single file or a directory, counted with the counter `IsWindows` selects. */
  function CountMain(isDir: bool, lines: seq<string>, entries: seq<string>, contents: seq<seq<string>>): (total: nat)
    requires |contents| == |entries|
    ensures !isDir ==> total == ShellCount(lines)
    ensures isDir ==> total == DirTotal(entries, contents, false)
  {
    if !isDir then FileCount(lines, IsWindows) else DirTotal(entries, contents, IsWindows)
  }
}
