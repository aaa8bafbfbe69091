/**
 * Splitting a file listing into two lists by name suffix, as
 * `get_dbase_query_pairs` (query / dbase MOL2 files) and `get_tsv_pairs`
 * (atom-type / charge tables) do: a name with a suffix of the first kind
 * goes to the first list, else a name with a suffix of the second kind
 * goes to the second list, else it is dropped.
 */
module NameLists {
  import opened Text

  /** `m.endswith(tuple(suffixes))`. */
  predicate EndsWithAny(m: string, suffixes: seq<string>) {
    exists k :: 0 <= k < |suffixes| && EndsWith(m, suffixes[k])
  }

  /** Whether a name goes to the first list, or (wantFirst false) to the second one by the `elif` branch. */
  predicate OfKind(m: string, first: seq<string>, second: seq<string>, wantFirst: bool) {
    if wantFirst then EndsWithAny(m, first) else !EndsWithAny(m, first) && EndsWithAny(m, second)
  }

  /** The names of one kind, in listing order. */
  function Kind(names: seq<string>, first: seq<string>, second: seq<string>, wantFirst: bool): (out: seq<string>)
    ensures |out| <= |names|
    decreases |names|
  {
    if names == [] then []
    else (if OfKind(names[0], first, second, wantFirst) then [names[0]] else []) + Kind(names[1..], first, second, wantFirst)
  }

  lemma {:induction false} KindSnoc(names: seq<string>, m: string, first: seq<string>, second: seq<string>, wantFirst: bool)
    ensures Kind(names + [m], first, second, wantFirst) ==
            Kind(names, first, second, wantFirst) + (if OfKind(m, first, second, wantFirst) then [m] else [])
    decreases |names|
  {
    if names == [] {
      assert names + [m] == [m];
      assert [m][1..] == [];
    } else {
      assert (names + [m])[1..] == names[1..] + [m];
      KindSnoc(names[1..], m, first, second, wantFirst);
      AppendAssoc(if OfKind(names[0], first, second, wantFirst) then [names[0]] else [],
        Kind(names[1..], first, second, wantFirst), if OfKind(m, first, second, wantFirst) then [m] else []);
    }
  }

  /** A name is in a list iff it is listed and of that kind. */
  lemma {:induction false} KindMember(names: seq<string>, first: seq<string>, second: seq<string>, wantFirst: bool, m: string)
    ensures m in Kind(names, first, second, wantFirst) <==> m in names && OfKind(m, first, second, wantFirst)
    decreases |names|
  {
    if names != [] {
      KindMember(names[1..], first, second, wantFirst, m);
      assert names == [names[0]] + names[1..];
    }
  }

  /** No name lands in both lists, and the two lists together are no longer than the listing. */
  lemma {:induction false} KindPartition(names: seq<string>, first: seq<string>, second: seq<string>)
    ensures |Kind(names, first, second, true)| + |Kind(names, first, second, false)| <= |names|
    ensures forall m :: m in Kind(names, first, second, true) ==> m !in Kind(names, first, second, false)
    decreases |names|
  {
    forall m | m in Kind(names, first, second, true) ensures m !in Kind(names, first, second, false) {
      KindMember(names, first, second, true, m);
      KindMember(names, first, second, false, m);
    }
    if names != [] {
      KindPartition(names[1..], first, second);
    }
  }

  /** The loop that appends each listed name to its list. */
  method SplitByKind(names: seq<string>, first: seq<string>, second: seq<string>)
    returns (firstList: seq<string>, secondList: seq<string>)
    ensures firstList == Kind(names, first, second, true)
    ensures secondList == Kind(names, first, second, false)
  {
    firstList, secondList := [], [];
    var i := 0;
    while i < |names|
      invariant 0 <= i <= |names|
      invariant firstList == Kind(names[..i], first, second, true)
      invariant secondList == Kind(names[..i], first, second, false)
    {
      var m := names[i];
      assert names[..i + 1] == names[..i] + [m];
      KindSnoc(names[..i], m, first, second, true);
      KindSnoc(names[..i], m, first, second, false);
      if EndsWithAny(m, first) {
        firstList := firstList + [m];
      } else if EndsWithAny(m, second) {
        secondList := secondList + [m];
      }
      i := i + 1;
    }
    assert names[..i] == names;
  }
}
