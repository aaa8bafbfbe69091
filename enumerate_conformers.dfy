/**
 * enumerate_conformers: give every conformer of a multi-conformer MOL2 file
 * a unique name by appending a counter to its molecule id.
 */
module EnumerateConformers {
  import opened Text
  import opened Mol2

  /** `'%s_%d' % (id_, cnt)`. */
  function Label(id: string, n: nat): string {
    id + "_" + NatToString(n)
  }

  /** The last m characters of s are digits. */
  predicate TrailingDigits(s: string, m: nat) {
    m <= |s| && forall i :: |s| - m <= i < |s| ==> IsDigit(s[i])
  }

  /** A label ends in exactly as many digits as its counter has. */
  lemma LabelDigits(id: string, n: nat)
    ensures TrailingDigits(Label(id, n), |NatToString(n)|)
    ensures !TrailingDigits(Label(id, n), |NatToString(n)| + 1)
  {
    var s, d := Label(id, n), NatToString(n);
    assert forall i :: |s| - |d| <= i < |s| ==> s[i] == d[i - (|s| - |d|)];
    assert s[|s| - |d| - 1] == '_';
  }

  /** The counter is printed after the last '_', so a label names one (id, counter) pair. */
  lemma LabelInjective(x: string, m: nat, y: string, n: nat)
    requires Label(x, m) == Label(y, n)
    ensures x == y && m == n
  {
    var dm, dn := NatToString(m), NatToString(n);
    var s := Label(x, m);
    LabelDigits(x, m);
    LabelDigits(y, n);
    assert |dm| == |dn|;
    assert dm == s[|s| - |dm|..] == dn;
    assert x == s[..|x|] == y;
    NatToStringInjective(m, n);
  }

  /**
   * The reference definition of the counter: how many records directly
   * before record k carry the same id without interruption.
   */
  function RunIndex(ids: seq<string>, k: nat): nat
    requires k < |ids|
    decreases k
  {
    if k == 0 || ids[k - 1] != ids[k] then 0 else RunIndex(ids, k - 1) + 1
  }

  /** Inside a run of equal ids the counter goes up by one per record. */
  lemma {:induction false} RunIndexInRun(ids: seq<string>, i: nat, j: nat)
    requires i <= j < |ids|
    requires forall t :: i <= t <= j ==> ids[t] == ids[i]
    ensures RunIndex(ids, j) == RunIndex(ids, i) + (j - i)
    decreases j - i
  {
    if i < j {
      RunIndexInRun(ids, i, j - 1);
      assert ids[j - 1] == ids[i] == ids[j];
    }
  }

  /** Every id occupies one contiguous block, as conformer generators write them. */
  predicate Grouped(ids: seq<string>) {
    forall i, j, t :: 0 <= i <= t <= j < |ids| && ids[i] == ids[j] ==> ids[t] == ids[i]
  }

  /** With grouped ids no two records receive the same label. */
  lemma LabelsDistinct(ids: seq<string>, i: nat, j: nat)
    requires Grouped(ids) && i < j < |ids|
    ensures Label(ids[i], RunIndex(ids, i)) != Label(ids[j], RunIndex(ids, j))
  {
    if Label(ids[i], RunIndex(ids, i)) == Label(ids[j], RunIndex(ids, j)) {
      LabelInjective(ids[i], RunIndex(ids, i), ids[j], RunIndex(ids, j));
      RunIndexInRun(ids, i, j);
      assert false;
    }
  }

  /** When an id comes back after another one, its counter starts again at 0. */
  lemma ReturningIdRestarts()
    ensures RunIndex(["a", "a", "b"], 1) == 1
    ensures RunIndex(["a", "b", "a"], 2) == 0
    ensures Label("a", RunIndex(["a", "b", "a"], 0)) == Label("a", RunIndex(["a", "b", "a"], 2))
  {
  }

  /** A record with its second line (the name line) replaced by the label. */
  function Renamed(r: Record, n: nat): (out: Record)
    requires |r.lines| >= 2
    ensures out.id == r.id && |out.lines| == |r.lines|
    ensures out.lines[1] == Label(r.id, n) + "\n"
    ensures forall t :: 0 <= t < |r.lines| && t != 1 ==> out.lines[t] == r.lines[t]
  {
    Record(r.id, r.lines[1 := Label(r.id, n) + "\n"])
  }

  /**
   * Record k makes the loop raise: `cont[1] = ...` on a record of fewer
   * than two lines (IndexError), or a first id equal to the initial
   * `prev_molecule` '', which takes the `cnt += 1` branch before `cnt`
   * exists (UnboundLocalError).
   */
  predicate Fails(rs: seq<Record>, k: nat)
    requires k < |rs|
  {
    |rs[k].lines| < 2 || (k == 0 && rs[k].id == "")
  }

  /** The index of the first record that raises, or |rs| if none does. */
  function FirstFailure(rs: seq<Record>, from: nat): (n: nat)
    requires from <= |rs|
    ensures from <= n <= |rs|
    ensures forall k :: from <= k < n ==> !Fails(rs, k)
    ensures forall k :: from <= k < n ==> |rs[k].lines| >= 2
    ensures n < |rs| ==> Fails(rs, n)
    decreases |rs| - from
  {
    if from == |rs| then |rs|
    else if Fails(rs, from) then from
    else FirstFailure(rs, from + 1)
  }

  /** The text written for the first n records. */
  function OutputText(rs: seq<Record>, n: nat): string
    requires n <= |rs|
    requires forall k :: 0 <= k < n ==> |rs[k].lines| >= 2
    decreases n
  {
    if n == 0 then []
    else OutputText(rs, n - 1) + RecordText(Renamed(rs[n - 1], RunIndex(Ids(rs), n - 1)))
  }

  /**
   * `read_and_write` for a plain-text file: the records are written in
   * order, each renamed, until one raises; `failed` reports the exception
   * and `text` is what the output file holds then. With `verbose` set, an
   * empty file also raises, after the output is closed: `n_molecules = i + 1`
   * finds `i` unbound.
   */
  method ReadAndWrite(rs: seq<Record>, verbose: bool) returns (text: string, failed: bool)
    ensures failed <==> FirstFailure(rs, 0) < |rs| || (verbose && rs == [])
    ensures text == OutputText(rs, FirstFailure(rs, 0))
  {
    ghost var ids := Ids(rs);
    text := [];
    failed := false;
    var prev := "";
    var cnt := 0;
    var cntBound := false;
    var i := 0;
    while i < |rs|
      invariant 0 <= i <= |rs|
      invariant forall k :: 0 <= k < i ==> !Fails(rs, k)
      invariant forall k :: 0 <= k < i ==> |rs[k].lines| >= 2
      invariant prev == (if i == 0 then "" else rs[i - 1].id)
      invariant cntBound <==> i > 0
      invariant i > 0 ==> cnt == RunIndex(ids, i - 1)
      invariant text == OutputText(rs, i)
    {
      var r := rs[i];
      CounterStep(ids, i);
      if prev != r.id {
        cnt := 0;
        cntBound := true;
      } else {
        if !cntBound {
          failed := true;
          FirstFailureAt(rs, 0, i);
          return;
        }
        cnt := cnt + 1;
      }
      if |r.lines| < 2 {
        failed := true;
        FirstFailureAt(rs, 0, i);
        return;
      }
      OutputStep(rs, i);
      text := text + RecordText(Renamed(r, cnt));
      prev := r.id;
      i := i + 1;
    }
    FirstFailureAt(rs, 0, i);
    if verbose && rs == [] {
      failed := true;
    }
  }

  /** The first failure from `from` is the first index that fails, or the end. */
  lemma {:induction false} FirstFailureAt(rs: seq<Record>, from: nat, i: nat)
    requires from <= i <= |rs|
    requires forall k :: from <= k < i ==> !Fails(rs, k)
    requires i == |rs| || Fails(rs, i)
    ensures FirstFailure(rs, from) == i
    decreases i - from
  {
    if from < i {
      FirstFailureAt(rs, from + 1, i);
    }
  }


  /** One step of the counter: reset on a new id, otherwise one more. */
  lemma CounterStep(ids: seq<string>, i: nat)
    requires i < |ids|
    ensures i == 0 ==> RunIndex(ids, i) == 0
    ensures i > 0 ==> RunIndex(ids, i) == if ids[i - 1] != ids[i] then 0 else RunIndex(ids, i - 1) + 1
  {
  }

  /** One step of the output: the next renamed record is appended. */
  lemma OutputStep(rs: seq<Record>, i: nat)
    requires i < |rs|
    requires forall k :: 0 <= k <= i ==> |rs[k].lines| >= 2
    ensures OutputText(rs, i + 1) == OutputText(rs, i) + RecordText(Renamed(rs[i], RunIndex(Ids(rs), i)))
  {
  }
}
