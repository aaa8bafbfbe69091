/**
 * merge_id_files: write the ids of two ID files into one, each id once,
 * in the order of first occurrence, using a `cache` set of written ids.
 */
module MergeIdFiles {
  import opened Text
  import opened IdFile

  function Elems(s: seq<string>): set<string> {
    set x | x in s
  }

  /** What one line offers: its stripped text, unless that starts with '#'. */
  function Offer(line: string): seq<string> {
    var t := Strip(line);
    if !StartsWith(t, "#") then [t] else []
  }

  /** The ids a file offers: its stripped lines that do not start with '#', in order. */
  function Candidates(lines: seq<string>): seq<string>
    decreases |lines|
  {
    if lines == [] then [] else Offer(lines[0]) + Candidates(lines[1..])
  }

  /** Line l offers id x. */
  predicate OffersId(l: string, x: string) {
    Strip(l) == x && !StartsWith(x, "#")
  }

  lemma OfferMember(l: string, x: string)
    ensures x in Offer(l) <==> OffersId(l, x)
  {
  }

  /** An id is offered iff some line strips to it and the stripped text does not start with '#'. */
  lemma {:induction false} CandidatesMember(lines: seq<string>, x: string)
    ensures x in Candidates(lines) <==> exists l :: l in lines && OffersId(l, x)
    decreases |lines|
  {
    if lines != [] {
      CandidatesMember(lines[1..], x);
      var l0 := lines[0];
      OfferMember(l0, x);
      assert x in Candidates(lines) <==> x in Offer(l0) || x in Candidates(lines[1..]);
      forall l | l in lines ensures l == l0 || l in lines[1..] {
        var k :| 0 <= k < |lines| && lines[k] == l;
        if k > 0 {
          assert lines[1..][k - 1] == l;
        }
      }
    }
  }

  /** Order-preserving removal of repeats and of the ids already in `seen`. */
  function DedupeFrom(seen: set<string>, xs: seq<string>): seq<string>
    decreases |xs|
  {
    if xs == [] then []
    else if xs[0] in seen then DedupeFrom(seen, xs[1..])
    else [xs[0]] + DedupeFrom(seen + {xs[0]}, xs[1..])
  }

  /** The written ids are exactly the offered ones not seen before. */
  lemma {:induction false} DedupeElems(seen: set<string>, xs: seq<string>)
    ensures Elems(DedupeFrom(seen, xs)) == Elems(xs) - seen
    decreases |xs|
  {
    if xs != [] {
      assert xs == [xs[0]] + xs[1..];
      assert Elems(xs) == {xs[0]} + Elems(xs[1..]);
      if xs[0] in seen {
        DedupeElems(seen, xs[1..]);
      } else {
        var tail := DedupeFrom(seen + {xs[0]}, xs[1..]);
        DedupeElems(seen + {xs[0]}, xs[1..]);
        assert Elems([xs[0]] + tail) == {xs[0]} + Elems(tail);
      }
    }
  }

  predicate NoRepeats(s: seq<string>) {
    forall i, j :: 0 <= i < j < |s| ==> s[i] != s[j]
  }

  /** No id is written twice. */
  lemma {:induction false} DedupeNoRepeats(seen: set<string>, xs: seq<string>)
    ensures NoRepeats(DedupeFrom(seen, xs))
    decreases |xs|
  {
    if xs == [] {
    } else if xs[0] !in seen {
      var tail := DedupeFrom(seen + {xs[0]}, xs[1..]);
      DedupeNoRepeats(seen + {xs[0]}, xs[1..]);
      DedupeElems(seen + {xs[0]}, xs[1..]);
      assert xs[0] !in Elems(tail);
      var out := [xs[0]] + tail;
      forall i, j | 0 <= i < j < |out| ensures out[i] != out[j] {
        assert out[j] == tail[j - 1];
        if i > 0 {
          assert out[i] == tail[i - 1];
        } else {
          assert tail[j - 1] in Elems(tail);
        }
      }
    } else {
      assert DedupeFrom(seen, xs) == DedupeFrom(seen, xs[1..]);
      DedupeNoRepeats(seen, xs[1..]);
    }
  }

  /** First-occurrence order: what the first list writes comes before what only the second adds. */
  lemma {:induction false} DedupeAppend(seen: set<string>, a: seq<string>, b: seq<string>)
    ensures DedupeFrom(seen, a + b) == DedupeFrom(seen, a) + DedupeFrom(seen + Elems(a), b)
    decreases |a|
  {
    if a == [] {
      assert a + b == b;
      assert seen + Elems(a) == seen;
    } else {
      assert (a + b)[0] == a[0];
      assert (a + b)[1..] == a[1..] + b;
      assert Elems(a) == {a[0]} + Elems(a[1..]);
      if a[0] in seen {
        DedupeAppend(seen, a[1..], b);
        assert seen + Elems(a[1..]) == seen + Elems(a);
      } else {
        DedupeAppend(seen + {a[0]}, a[1..], b);
        assert seen + {a[0]} + Elems(a[1..]) == seen + Elems(a);
      }
    }
  }

  /** The merged output, as a function of the two files' lines. */
  function Merged(lines1: seq<string>, lines2: seq<string>): seq<string> {
    DedupeFrom({}, Candidates(lines1) + Candidates(lines2))
  }

  lemma CandidatesAt(lines: seq<string>, i: nat)
    requires i < |lines|
    ensures Candidates(lines[i..]) == Offer(lines[i]) + Candidates(lines[i + 1..])
  {
    var rest := lines[i..];
    assert rest[0] == lines[i] && rest[1..] == lines[i + 1..];
  }

  lemma OfferShort(line: string)
    ensures |Offer(line)| <= 1
  {
  }

  /** Deduplicating behind one offered line. */
  lemma DedupeStep(cache: set<string>, offer: seq<string>, rest: seq<string>)
    requires |offer| <= 1
    ensures DedupeFrom(cache, offer + rest) ==
      if offer != [] && offer[0] !in cache then [offer[0]] + DedupeFrom(cache + {offer[0]}, rest)
      else DedupeFrom(cache, rest)
  {
    if offer == [] {
      assert offer + rest == rest;
    } else {
      assert (offer + rest)[0] == offer[0];
      assert (offer + rest)[1..] == rest;
    }
  }

  /** The invariant step of the loop over one file's lines. */
  lemma AppendStep(lines: seq<string>, i: nat, cache: set<string>, written: seq<string>)
    requires i < |lines|
    ensures var offer := Offer(lines[i]);
      (offer != [] && offer[0] !in cache ==>
        written + DedupeFrom(cache, Candidates(lines[i..]))
        == (written + [offer[0]]) + DedupeFrom(cache + {offer[0]}, Candidates(lines[i + 1..])))
      && (!(offer != [] && offer[0] !in cache) ==>
        written + DedupeFrom(cache, Candidates(lines[i..]))
        == written + DedupeFrom(cache, Candidates(lines[i + 1..])))
  {
    var offer := Offer(lines[i]);
    var rest := Candidates(lines[i + 1..]);
    OfferShort(lines[i]);
    CandidatesAt(lines, i);
    DedupeStep(cache, offer, rest);
    if offer != [] && offer[0] !in cache {
      var line := offer[0];
      assert (written + [line]) + DedupeFrom(cache + {line}, rest)
          == written + ([line] + DedupeFrom(cache + {line}, rest));
    }
  }

  lemma ElemsSnoc(s: seq<string>, x: string)
    ensures Elems(s + [x]) == Elems(s) + {x}
  {
  }

  /**
   * One of the two loops of `main`: each stripped line that is not a
   * comment and not in `cache` is written as `'%s\n' % line` and cached.
   */
  method AppendNewIds(lines: seq<string>, cache0: set<string>, written0: seq<string>, text0: string)
    returns (cache: set<string>, written: seq<string>, text: string)
    requires cache0 == Elems(written0) && text0 == IdText(written0)
    ensures written == written0 + DedupeFrom(cache0, Candidates(lines))
    ensures cache == Elems(written) && text == IdText(written)
  {
    cache, written, text := cache0, written0, text0;
    var i := 0;
    assert lines[0..] == lines;
    while i < |lines|
      invariant 0 <= i <= |lines|
      invariant cache == Elems(written) && text == IdText(written)
      invariant written + DedupeFrom(cache, Candidates(lines[i..])) == written0 + DedupeFrom(cache0, Candidates(lines))
    {
      var offer := Offer(lines[i]);
      OfferShort(lines[i]);
      AppendStep(lines, i, cache, written);
      if offer != [] && offer[0] !in cache {
        var line := offer[0];
        IdTextSnoc(written, line);
        ElemsSnoc(written, line);
        text := text + (line + "\n");
        written := written + [line];
        cache := cache + {line};
      }
      i := i + 1;
    }
    assert lines[i..] == [];
  }

  /** `main`: the first file's new ids, then the second file's, sharing one cache. */
  method MergeIdFiles(lines1: seq<string>, lines2: seq<string>) returns (written: seq<string>, text: string)
    ensures written == Merged(lines1, lines2)
    ensures text == IdText(written)
  {
    var cache: set<string>;
    assert Elems([]) == {};
    cache, written, text := AppendNewIds(lines1, {}, [], []);
    cache, written, text := AppendNewIds(lines2, cache, written, text);
    MergedInTwoPasses(lines1, lines2);
  }

  /** The single pass over both files equals the first file's pass followed by the second's. */
  lemma MergedInTwoPasses(lines1: seq<string>, lines2: seq<string>)
    ensures Merged(lines1, lines2) ==
      [] + DedupeFrom({}, Candidates(lines1))
      + DedupeFrom(Elems([] + DedupeFrom({}, Candidates(lines1))), Candidates(lines2))
  {
    var c1, c2 := Candidates(lines1), Candidates(lines2);
    DedupeElems({}, c1);
    DedupeAppend({}, c1, c2);
    assert {} + Elems(c1) == Elems(c1);
    assert [] + DedupeFrom({}, c1) == DedupeFrom({}, c1);
  }

  /** Every offered id of either file is written, and nothing else. */
  lemma MergedElems(lines1: seq<string>, lines2: seq<string>)
    ensures Elems(Merged(lines1, lines2)) == Elems(Candidates(lines1)) + Elems(Candidates(lines2))
  {
    var c1, c2 := Candidates(lines1), Candidates(lines2);
    DedupeElems({}, c1 + c2);
    assert Elems(c1 + c2) == Elems(c1) + Elems(c2);
  }

  /** No id is written twice. */
  lemma MergedNoRepeats(lines1: seq<string>, lines2: seq<string>)
    ensures NoRepeats(Merged(lines1, lines2))
  {
    DedupeNoRepeats({}, Candidates(lines1) + Candidates(lines2));
  }

  /** No written id starts with '#': the comment test is on the stripped line. */
  lemma MergedNoComment(lines1: seq<string>, lines2: seq<string>)
    ensures var out := Merged(lines1, lines2);
      forall k :: 0 <= k < |out| ==> !StartsWith(out[k], "#")
  {
    var out := Merged(lines1, lines2);
    MergedElems(lines1, lines2);
    forall k | 0 <= k < |out| ensures !StartsWith(out[k], "#") {
      assert out[k] in Elems(out);
      if out[k] in Elems(Candidates(lines1)) {
        CandidatesMember(lines1, out[k]);
      } else {
        CandidatesMember(lines2, out[k]);
      }
    }
  }

  /** With an empty second file the merge is the order-preserving dedupe of the first. */
  lemma MergeEmptySecond(lines1: seq<string>)
    ensures Merged(lines1, []) == DedupeFrom({}, Candidates(lines1))
  {
    assert Candidates(lines1) + [] == Candidates(lines1);
  }
}
