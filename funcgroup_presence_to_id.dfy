/**
 * funcgroup_presence_to_id: write the ids of the molecules in which every
 * selection group picks at least one atom.
 */
module FuncgroupPresenceToId {
  import opened Wrappers
  import opened Text
  import opened Tables
  import opened IdFile

  /** Every group selects at least one atom of the table. */
  predicate AllPresent(groups: seq<Pred>, atoms: seq<Atom>) {
    forall k :: 0 <= k < |groups| ==> AnySelected(groups[k], atoms)
  }

  /** The specification of `data_processor`: the id if all groups are present, else ''. */
  function Presence(m: Molecule, groups: seq<Pred>): string {
    if AllPresent(groups, m.atoms) then m.id else ""
  }

  /** `data_processor`: test the groups in order and stop at the first one that selects nothing. */
  method DataProcessor(m: Molecule, groups: seq<Pred>) returns (result: string)
    ensures result == Presence(m, groups)
    ensures result != "" ==> result == m.id
  {
    result := m.id;
    var k := 0;
    while k < |groups|
      invariant 0 <= k <= |groups|
      invariant AllPresent(groups[..k], m.atoms)
      invariant result == m.id
    {
      if !AnySelected(groups[k], m.atoms) {
        result := "";
        break;
      }
      assert forall j :: 0 <= j <= k ==> groups[..k + 1][j] == groups[j];
      k := k + 1;
    }
    assert k == |groups| ==> groups[..k] == groups;
  }

  /** The result is the conjunction over the groups: splitting the groups splits the test. */
  lemma AllPresentAppend(g1: seq<Pred>, g2: seq<Pred>, atoms: seq<Atom>)
    ensures AllPresent(g1 + g2, atoms) <==> AllPresent(g1, atoms) && AllPresent(g2, atoms)
  {
    if AllPresent(g1, atoms) && AllPresent(g2, atoms) {
      forall k | 0 <= k < |g1 + g2| ensures AnySelected((g1 + g2)[k], atoms) {
        if k >= |g1| {
          assert (g1 + g2)[k] == g2[k - |g1|];
        }
      }
    }
    if AllPresent(g1 + g2, atoms) {
      forall k | 0 <= k < |g1| ensures AnySelected(g1[k], atoms) {
        assert (g1 + g2)[k] == g1[k];
      }
      forall k | 0 <= k < |g2| ensures AnySelected(g2[k], atoms) {
        assert (g1 + g2)[k + |g1|] == g2[k];
      }
    }
  }

  /** The order of the groups, and repeating one, does not change the result. */
  lemma PresenceOrderFree(m: Molecule, g1: seq<Pred>, g2: seq<Pred>)
    requires forall p :: p in g1 <==> p in g2
    ensures Presence(m, g1) == Presence(m, g2)
  {
    if AllPresent(g1, m.atoms) {
      forall k | 0 <= k < |g2| ensures AnySelected(g2[k], m.atoms) {
        assert g2[k] in g1;
      }
    }
    if AllPresent(g2, m.atoms) {
      forall k | 0 <= k < |g1| ensures AnySelected(g1[k], m.atoms) {
        assert g1[k] in g2;
      }
    }
  }

  /** A molecule without atoms matches no group, so it is never written. */
  lemma EmptyTableAbsent(id: string, groups: seq<Pred>)
    requires |groups| >= 1
    ensures Presence(Molecule(id, []), groups) == ""
  {
    assert !AnySelected(groups[0], []);
  }

  /** The results for one file's records, in record order (`lazy_imap` as a sequential map). */
  function Results(mols: seq<Molecule>, groups: seq<Pred>): (rs: seq<string>)
    ensures |rs| == |mols|
    decreases |mols|
  {
    if mols == [] then [] else [Presence(mols[0], groups)] + Results(mols[1..], groups)
  }

  /** Result k belongs to record k. */
  lemma {:induction false} ResultsAt(mols: seq<Molecule>, groups: seq<Pred>, k: nat)
    requires k < |mols|
    ensures Results(mols, groups)[k] == Presence(mols[k], groups)
    decreases k
  {
    if k > 0 {
      ResultsAt(mols[1..], groups, k - 1);
    }
  }

  lemma {:induction false} ResultsSnoc(mols: seq<Molecule>, m: Molecule, groups: seq<Pred>)
    ensures Results(mols + [m], groups) == Results(mols, groups) + [Presence(m, groups)]
    decreases |mols|
  {
    if mols == [] {
      assert mols + [m] == [m];
    } else {
      assert (mols + [m])[1..] == mols[1..] + [m];
      ResultsSnoc(mols[1..], m, groups);
    }
  }

  /** The results of every file, files in the given order. */
  function PerFile(files: seq<seq<Molecule>>, groups: seq<Pred>): (rss: seq<seq<string>>)
    ensures |rss| == |files|
  {
    seq(|files|, k requires 0 <= k < |files| => Results(files[k], groups))
  }

  /** One file: map the records, write the non-empty results, count every record. */
  method ProcessFile(mols: seq<Molecule>, groups: seq<Pred>) returns (text: string, cnt: nat)
    ensures text == IdText(NonEmpty(Results(mols, groups)))
    ensures cnt == |mols|
  {
    var results: seq<string> := [];
    var i := 0;
    while i < |mols|
      invariant 0 <= i <= |mols|
      invariant results == Results(mols[..i], groups)
    {
      var r := DataProcessor(mols[i], groups);
      assert mols[..i + 1] == mols[..i] + [mols[i]];
      ResultsSnoc(mols[..i], mols[i], groups);
      results := results + [r];
      i := i + 1;
    }
    assert mols[..i] == mols;
    text := WriteNonEmpty(results);
    cnt := |results|;
  }

  /**
   * `read_and_write`: the file lists the ids of all matching records of
   * all files, one per line; `counts[k]` is the `cnt` of file k.
   */
  method ReadAndWrite(files: seq<seq<Molecule>>, groups: seq<Pred>) returns (text: string, counts: seq<nat>)
    ensures text == IdText(NonEmpty(Flatten(PerFile(files, groups))))
    ensures |counts| == |files|
    ensures forall k :: 0 <= k < |files| ==> counts[k] == |files[k]|
  {
    ghost var rss := PerFile(files, groups);
    text := [];
    counts := [];
    var i := 0;
    while i < |files|
      invariant 0 <= i <= |files|
      invariant text == IdText(NonEmpty(Flatten(rss[..i])))
      invariant |counts| == i
      invariant forall k :: 0 <= k < i ==> counts[k] == |files[k]|
    {
      var t, cnt := ProcessFile(files[i], groups);
      WrittenStep(rss, i);
      text := text + t;
      counts := counts + [cnt];
      i := i + 1;
    }
    assert rss[..i] == rss;
  }

  /** Some input molecule has id x and every group is present in it. */
  predicate MatchingMolecule(files: seq<seq<Molecule>>, groups: seq<Pred>, x: string) {
    exists k, j :: 0 <= k < |files| && 0 <= j < |files[k]| && files[k][j].id == x && AllPresent(groups, files[k][j].atoms)
  }

  /** A non-empty id x is among one file's results iff a record of that file with id x matches. */
  lemma ResultsMember(mols: seq<Molecule>, groups: seq<Pred>, x: string)
    requires x != ""
    ensures x in Results(mols, groups) <==> exists j :: 0 <= j < |mols| && mols[j].id == x && AllPresent(groups, mols[j].atoms)
  {
    forall j | 0 <= j < |mols| ensures Results(mols, groups)[j] == Presence(mols[j], groups) {
      ResultsAt(mols, groups, j);
    }
  }

  /** A non-empty id is written iff some input molecule with that id has every group present. */
  lemma WrittenMatches(files: seq<seq<Molecule>>, groups: seq<Pred>, x: string)
    ensures x in NonEmpty(Flatten(PerFile(files, groups))) <==> x != "" && MatchingMolecule(files, groups, x)
  {
    var rss := PerFile(files, groups);
    NonEmptyMember(Flatten(rss), x);
    FlattenMember(rss, x);
    if x != "" {
      forall k | 0 <= k < |files|
        ensures x in rss[k] <==> exists j :: 0 <= j < |files[k]| && files[k][j].id == x && AllPresent(groups, files[k][j].atoms)
      {
        ResultsMember(files[k], groups, x);
      }
    }
  }

  /**
   * `get_num_cpus`: None or 0 takes every CPU, a negative n takes
   * `cpu_count() - n` (more than there are), a positive n is kept.
   */
  function GetNumCpus(n: Option<int>, cpuCount: nat): (r: int)
    ensures (n == None || n == Some(0)) ==> r == cpuCount
    ensures n.Some? && n.value < 0 ==> r == cpuCount + (-n.value) && r > cpuCount
    ensures n.Some? && n.value > 0 ==> r == n.value
  {
    if n == None || n == Some(0) then cpuCount
    else if n.value < 0 then cpuCount - n.value
    else n.value
  }
}
