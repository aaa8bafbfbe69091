/**
 * funcgroup_distance_to_id: write the ids of the molecules in which an
 * atom of the first selection group lies at suitable distances from the
 * atoms of the second group.
 */
module FuncgroupDistanceToId {
  import opened Wrappers
  import opened Text
  import opened Tables
  import opened IdFile

  // ---------------------------------------------------------------------
  // parse_distance_string and the checks in main
  // ---------------------------------------------------------------------

  /**
   * `[int(p.strip()) for p in parts]`: the first piece that is not a number
   * raises. `int()` already ignores surrounding white space, so the
   * explicit strip adds nothing to ParseInt.
   */
  function ParseInts(parts: seq<string>): (r: Result<seq<nat>>)
    ensures r.Success? ==> |r.value| == |parts|
    decreases |parts|
  {
    if parts == [] then Success([])
    else
      var head := ParseInt(parts[0]);
      var tail := ParseInts(parts[1..]);
      if head.Failure? then Failure(head.error)
      else if tail.Failure? then Failure(tail.error)
      else Success([head.value] + tail.value)
  }

  /** `parse_distance_string`: the numbers between the '-' characters. */
  function ParseDistanceString(s: string): Result<seq<nat>> {
    ParseInts(SplitOn(s, "-"))
  }

  /** Printed digits hold no '-'. */
  lemma DigitsNoDash(n: nat)
    ensures !HasChar(NatToString(n), '-')
  {
    var s := NatToString(n);
    assert forall i :: 0 <= i < |s| ==> IsDigit(s[i]);
  }

  /** "lo-hi" reads back as [lo, hi], whatever the order of the two bounds. */
  lemma ParseDistanceRoundTrip(lo: nat, hi: nat)
    ensures ParseDistanceString(NatToString(lo) + "-" + NatToString(hi)) == Success([lo, hi])
  {
    SplitBounds(lo, hi);
    ParseBounds(lo, hi);
  }

  /** Two printed numbers parse back to themselves. */
  lemma ParseBounds(lo: nat, hi: nat)
    ensures ParseInts([NatToString(lo), NatToString(hi)]) == Success([lo, hi])
  {
    var a, b := NatToString(lo), NatToString(hi);
    ParseIntRoundTrip(lo);
    ParseIntRoundTrip(hi);
    ParseIntsCons(b, [], hi, []);
    assert [b] + [] == [b] && [hi] + [] == [hi];
    ParseIntsCons(a, [b], lo, [hi]);
    assert [a] + [b] == [a, b] && [lo] + [hi] == [lo, hi];
  }

  /** A good first piece followed by good pieces parses to their numbers. */
  lemma ParseIntsCons(p: string, ps: seq<string>, n: nat, ns: seq<nat>)
    requires ParseInt(p) == Success(n) && ParseInts(ps) == Success(ns)
    ensures ParseInts([p] + ps) == Success([n] + ns)
  {
    assert ([p] + ps)[0] == p && ([p] + ps)[1..] == ps;
  }

  /** Two printed numbers around one '-' split into the two numerals. */
  lemma SplitBounds(lo: nat, hi: nat)
    ensures SplitOn(NatToString(lo) + "-" + NatToString(hi), "-") == [NatToString(lo), NatToString(hi)]
  {
    var a, b := NatToString(lo), NatToString(hi);
    DigitsNoDash(lo);
    DigitsNoDash(hi);
    SplitOnPiece(a, "-", b);
    assert a + "-" + b == a + ['-'] + b;
    AbsentChar(b, '-');
    SplitOnAbsent(b, "-");
  }

  /** The parsed arguments: the two bounds and the two rewritten selection groups. */
  datatype Arguments = Arguments(lo: nat, hi: nat, groups: seq<string>)

  /**
   * The checks in `main`: the distance must parse into exactly two
   * numbers, and the parsed selection must have exactly two groups (by
   * `ParseGroups`, exactly one '-->'); the order of the bounds is not
   * checked.
   */
  function CheckArguments(distance: string, groups: seq<string>): (r: Result<Arguments>)
    ensures var d := ParseDistanceString(distance);
      (r.Success? <==> d.Success? && |d.value| == 2 && |groups| == 2) &&
      (r.Success? ==> r.value.groups == groups && [r.value.lo, r.value.hi] == d.value)
  {
    var d := ParseDistanceString(distance);
    if d.Failure? then Failure(d.error)
    else if |d.value| != 2 then
      Failure("ValueError: two bounds expected")
    else if |groups| != 2 then
      Failure("ValueError: two groups expected")
    else Success(Arguments(d.value[0], d.value[1], groups))
  }

  /** Any two bounds written as "lo-hi" pass, even when lo > hi. */
  lemma CheckAcceptsBounds(lo: nat, hi: nat, groups: seq<string>)
    requires |groups| == 2
    ensures CheckArguments(NatToString(lo) + "-" + NatToString(hi), groups) == Success(Arguments(lo, hi, groups))
  {
    ParseDistanceRoundTrip(lo, hi);
  }

  /** Two '-'-free pieces that `int()` reads, joined by '-', pass as those bounds. */
  lemma CheckAcceptsPieces(a: string, b: string, lo: nat, hi: nat, groups: seq<string>)
    requires !HasChar(a, '-') && !HasChar(b, '-')
    requires ParseInt(a) == Success(lo) && ParseInt(b) == Success(hi)
    requires |groups| == 2
    ensures CheckArguments(a + "-" + b, groups) == Success(Arguments(lo, hi, groups))
  {
    assert SplitOn(a + "-" + b, "-") == [a, b] by {
      SplitOnPiece(a, "-", b);
      AbsentChar(b, '-');
      SplitOnAbsent(b, "-");
    }
    assert ParseInts([a, b]) == Success([lo, hi]) by {
      ParseIntsCons(b, [], hi, []);
      assert [b] + [] == [b] && [hi] + [] == [hi];
      ParseIntsCons(a, [b], lo, [hi]);
      assert [a] + [b] == [a, b] && [lo] + [hi] == [lo, hi];
    }
  }

  /**
   * `int()` reads an underscore between digits, so "1_0-20" passes the
   * checks, with the bounds 10 and 20.
   */
  lemma CheckAcceptsUnderscored(x: string, y: string, hi: nat, groups: seq<string>)
    requires x != [] && AllDigits(x) && y != [] && AllDigits(y)
    requires |groups| == 2
    ensures CheckArguments(x + "_" + y + "-" + NatToString(hi), groups) ==
      Success(Arguments(DigitsValue(x + y), hi, groups))
  {
    var a := x + "_" + y;
    ParseIntUnderscored(x, y);
    ParseIntRoundTrip(hi);
    DigitsNoDash(hi);
    assert !HasChar(a, '-') by {
      forall i | 0 <= i < |a| ensures a[i] != '-' {
        if i < |x| { assert a[i] == x[i] && IsDigit(x[i]); }
        else if i > |x| { assert a[i] == y[i - |x| - 1] && IsDigit(y[i - |x| - 1]); }
      }
    }
    CheckAcceptsPieces(a, NatToString(hi), DigitsValue(x + y), hi, groups);
  }

  /** A selection without '-->' gives one group and is rejected. */
  lemma CheckRejectsOneGroup(distance: string, selection: string, groups: seq<string>)
    requires !Contains(selection, "-->")
    requires |groups| == Count(selection, "-->") + 1
    ensures CheckArguments(distance, groups).Failure?
  {
    SplitOnAbsent(selection, "-->");
    SplitOnLength(selection, "-->");
  }

  // ---------------------------------------------------------------------
  // data_processor
  // ---------------------------------------------------------------------

  /** `(distances >= lo).any()`: some reference atom is at least lo away. */
  predicate SomeAtLeast(a: Atom, refs: seq<Atom>, lo: nat) {
    exists j :: 0 <= j < |refs| && SqDist(a, refs[j]) >= lo * lo
  }

  /** `(distances <= hi).any()`: some reference atom is at most hi away. */
  predicate SomeAtMost(a: Atom, refs: seq<Atom>, hi: nat) {
    exists j :: 0 <= j < |refs| && SqDist(a, refs[j]) <= hi * hi
  }

  /** The coded rule: some atom of group 0 passes both tests, possibly against different atoms of group 1. */
  predicate DistanceMatch(g0: seq<Atom>, g1: seq<Atom>, lo: nat, hi: nat) {
    exists i :: 0 <= i < |g0| && SomeAtLeast(g0[i], g1, lo) && SomeAtMost(g0[i], g1, hi)
  }

  /** The specification of `data_processor`. */
  function Distance(m: Molecule, sel0: Pred, sel1: Pred, lo: nat, hi: nat): string {
    if DistanceMatch(SelectAtoms(sel0, m.atoms), SelectAtoms(sel1, m.atoms), lo, hi) then m.id else ""
  }

  /**
   * `data_processor`: both groups are selected on the full atom table, then
   * the atoms of group 0 are tried in order and the first that passes
   * returns the id.
   */
  method DataProcessor(m: Molecule, sel0: Pred, sel1: Pred, lo: nat, hi: nat) returns (result: string)
    ensures result == Distance(m, sel0, sel1, lo, hi)
  {
    var coordinates := SelectAtoms(sel0, m.atoms);
    var refs := SelectAtoms(sel1, m.atoms);
    var i := 0;
    while i < |coordinates|
      invariant 0 <= i <= |coordinates|
      invariant forall t :: 0 <= t < i ==> !(SomeAtLeast(coordinates[t], refs, lo) && SomeAtMost(coordinates[t], refs, hi))
    {
      if SomeAtLeast(coordinates[i], refs, lo) && SomeAtMost(coordinates[i], refs, hi) {
        return m.id;
      }
      i := i + 1;
    }
    return "";
  }

  /** One pair of atoms at a distance within [lo, hi] is enough for a match. */
  lemma PairWithinMatches(g0: seq<Atom>, g1: seq<Atom>, lo: nat, hi: nat, i: nat, j: nat)
    requires i < |g0| && j < |g1|
    requires lo * lo <= SqDist(g0[i], g1[j]) <= hi * hi
    ensures DistanceMatch(g0, g1, lo, hi)
  {
    assert SomeAtLeast(g0[i], g1, lo) && SomeAtMost(g0[i], g1, hi);
  }

  /** With a single atom in group 1, the rule is "some group-0 atom lies within [lo, hi] of it". */
  lemma SingleReference(g0: seq<Atom>, r: Atom, lo: nat, hi: nat)
    ensures DistanceMatch(g0, [r], lo, hi) <==> exists i :: 0 <= i < |g0| && lo * lo <= SqDist(g0[i], r) <= hi * hi
  {
    if DistanceMatch(g0, [r], lo, hi) {
      var i :| 0 <= i < |g0| && SomeAtLeast(g0[i], [r], lo) && SomeAtMost(g0[i], [r], hi);
      assert lo * lo <= SqDist(g0[i], r) <= hi * hi;
    }
    if exists i :: 0 <= i < |g0| && lo * lo <= SqDist(g0[i], r) <= hi * hi {
      var i :| 0 <= i < |g0| && lo * lo <= SqDist(g0[i], r) <= hi * hi;
      PairWithinMatches(g0, [r], lo, hi, i, 0);
    }
  }

  /** The rule is weaker than "some distance within [lo, hi]": a near and a far atom also match. */
  lemma NearAndFarMatch()
    ensures var a, near, far := Atom(0, "", "", 0, "", 0.0, 0, 0, 0), Atom(0, "", "", 0, "", 0.0, 1, 0, 0), Atom(0, "", "", 0, "", 0.0, 10, 0, 0);
      DistanceMatch([a], [near, far], 3, 5) &&
      !(exists j :: 0 <= j < 2 && 9 <= SqDist(a, [near, far][j]) <= 25)
  {
    var a, near, far := Atom(0, "", "", 0, "", 0.0, 0, 0, 0), Atom(0, "", "", 0, "", 0.0, 1, 0, 0), Atom(0, "", "", 0, "", 0.0, 10, 0, 0);
    assert SqDist(a, near) == 1 && SqDist(a, far) == 100;
    assert [near, far][1] == far && [near, far][0] == near;
    assert SomeAtLeast(a, [near, far], 3) && SomeAtMost(a, [near, far], 5);
    assert [a][0] == a;
  }

  /** An empty group 0 or an empty group 1 never matches. */
  lemma EmptyGroupNoMatch(g0: seq<Atom>, g1: seq<Atom>, lo: nat, hi: nat)
    requires g0 == [] || g1 == []
    ensures !DistanceMatch(g0, g1, lo, hi)
  {
    if g1 == [] {
      forall i | 0 <= i < |g0| ensures !SomeAtLeast(g0[i], g1, lo) {
      }
    }
  }

  /** Lowering lo or raising hi never turns a match into a non-match. */
  lemma MatchMonotone(g0: seq<Atom>, g1: seq<Atom>, lo: nat, hi: nat, lo2: nat, hi2: nat)
    requires lo2 <= lo && hi <= hi2
    requires DistanceMatch(g0, g1, lo, hi)
    ensures DistanceMatch(g0, g1, lo2, hi2)
  {
    var i :| 0 <= i < |g0| && SomeAtLeast(g0[i], g1, lo) && SomeAtMost(g0[i], g1, hi);
    var j :| 0 <= j < |g1| && SqDist(g0[i], g1[j]) >= lo * lo;
    var j2 :| 0 <= j2 < |g1| && SqDist(g0[i], g1[j2]) <= hi * hi;
    assert lo2 * lo2 <= lo * lo by {
      MulMonotone(lo2, lo);
    }
    assert hi * hi <= hi2 * hi2 by {
      MulMonotone(hi, hi2);
    }
    assert SomeAtLeast(g0[i], g1, lo2) && SomeAtMost(g0[i], g1, hi2);
  }

  lemma MulMonotone(a: nat, b: nat)
    requires a <= b
    ensures a * a <= b * b
  {
    assert a * a <= a * b <= b * b;
  }

  // ---------------------------------------------------------------------
  // read_and_write
  // ---------------------------------------------------------------------

  /** The results of one file's records, in record order. */
  function Results(mols: seq<Molecule>, sel0: Pred, sel1: Pred, lo: nat, hi: nat): (rs: seq<string>)
    ensures |rs| == |mols|
    decreases |mols|
  {
    if mols == [] then [] else [Distance(mols[0], sel0, sel1, lo, hi)] + Results(mols[1..], sel0, sel1, lo, hi)
  }

  lemma {:induction false} ResultsSnoc(mols: seq<Molecule>, m: Molecule, sel0: Pred, sel1: Pred, lo: nat, hi: nat)
    ensures Results(mols + [m], sel0, sel1, lo, hi) == Results(mols, sel0, sel1, lo, hi) + [Distance(m, sel0, sel1, lo, hi)]
    decreases |mols|
  {
    if mols == [] {
      assert mols + [m] == [m];
    } else {
      assert (mols + [m])[1..] == mols[1..] + [m];
      ResultsSnoc(mols[1..], m, sel0, sel1, lo, hi);
    }
  }

  /** Result k belongs to record k. */
  lemma {:induction false} ResultsAt(mols: seq<Molecule>, sel0: Pred, sel1: Pred, lo: nat, hi: nat, k: nat)
    requires k < |mols|
    ensures Results(mols, sel0, sel1, lo, hi)[k] == Distance(mols[k], sel0, sel1, lo, hi)
    decreases k
  {
    if k > 0 {
      ResultsAt(mols[1..], sel0, sel1, lo, hi, k - 1);
    }
  }

  /** The results of every file, files in the given order. */
  function PerFile(files: seq<seq<Molecule>>, sel0: Pred, sel1: Pred, lo: nat, hi: nat): (rss: seq<seq<string>>)
    ensures |rss| == |files|
  {
    seq(|files|, k requires 0 <= k < |files| => Results(files[k], sel0, sel1, lo, hi))
  }

  /** One file: map the records, write the non-empty results, count every record. */
  method ProcessFile(mols: seq<Molecule>, sel0: Pred, sel1: Pred, lo: nat, hi: nat) returns (text: string, cnt: nat)
    ensures text == IdText(NonEmpty(Results(mols, sel0, sel1, lo, hi)))
    ensures cnt == |mols|
  {
    var results: seq<string> := [];
    var i := 0;
    while i < |mols|
      invariant 0 <= i <= |mols|
      invariant results == Results(mols[..i], sel0, sel1, lo, hi)
    {
      var r := DataProcessor(mols[i], sel0, sel1, lo, hi);
      assert mols[..i + 1] == mols[..i] + [mols[i]];
      ResultsSnoc(mols[..i], mols[i], sel0, sel1, lo, hi);
      results := results + [r];
      i := i + 1;
    }
    assert mols[..i] == mols;
    text := WriteNonEmpty(results);
    cnt := |results|;
  }

  /** `read_and_write`: the ids of all matching records of all files, one per line. */
  method ReadAndWrite(files: seq<seq<Molecule>>, sel0: Pred, sel1: Pred, lo: nat, hi: nat) returns (text: string, counts: seq<nat>)
    ensures text == IdText(NonEmpty(Flatten(PerFile(files, sel0, sel1, lo, hi))))
    ensures |counts| == |files|
    ensures forall k :: 0 <= k < |files| ==> counts[k] == |files[k]|
  {
    ghost var rss := PerFile(files, sel0, sel1, lo, hi);
    text := [];
    counts := [];
    var i := 0;
    while i < |files|
      invariant 0 <= i <= |files|
      invariant text == IdText(NonEmpty(Flatten(rss[..i])))
      invariant |counts| == i
      invariant forall k :: 0 <= k < i ==> counts[k] == |files[k]|
    {
      var t, cnt := ProcessFile(files[i], sel0, sel1, lo, hi);
      assert rss[i] == Results(files[i], sel0, sel1, lo, hi);
      WrittenStep(rss, i);
      text := text + t;
      counts := counts + [cnt];
      i := i + 1;
    }
    assert rss[..i] == rss;
  }

  /** Some input molecule has id x and matches the distance rule. */
  predicate MatchingMolecule(files: seq<seq<Molecule>>, sel0: Pred, sel1: Pred, lo: nat, hi: nat, x: string) {
    exists k, j :: 0 <= k < |files| && 0 <= j < |files[k]| && files[k][j].id == x &&
      Distance(files[k][j], sel0, sel1, lo, hi) != ""
  }

  /** A non-empty id x is among one file's results iff a record of that file with id x matches. */
  lemma ResultsMember(mols: seq<Molecule>, sel0: Pred, sel1: Pred, lo: nat, hi: nat, x: string)
    requires x != ""
    ensures x in Results(mols, sel0, sel1, lo, hi) <==>
      exists j :: 0 <= j < |mols| && mols[j].id == x && Distance(mols[j], sel0, sel1, lo, hi) != ""
  {
    forall j | 0 <= j < |mols| ensures Results(mols, sel0, sel1, lo, hi)[j] == Distance(mols[j], sel0, sel1, lo, hi) {
      ResultsAt(mols, sel0, sel1, lo, hi, j);
    }
  }

  /** A non-empty id is written iff some input molecule with that id matches. */
  lemma WrittenMatches(files: seq<seq<Molecule>>, sel0: Pred, sel1: Pred, lo: nat, hi: nat, x: string)
    ensures x in NonEmpty(Flatten(PerFile(files, sel0, sel1, lo, hi))) <==> x != "" && MatchingMolecule(files, sel0, sel1, lo, hi, x)
  {
    var rss := PerFile(files, sel0, sel1, lo, hi);
    NonEmptyMember(Flatten(rss), x);
    FlattenMember(rss, x);
    if x != "" {
      forall k | 0 <= k < |files|
        ensures x in rss[k] <==> exists j :: 0 <= j < |files[k]| && files[k][j].id == x && Distance(files[k][j], sel0, sel1, lo, hi) != ""
      {
        ResultsMember(files[k], sel0, sel1, lo, hi, x);
      }
    }
  }
}
