/**
 * funcgroup_to_id: write the ids of the molecules in which a selection
 * picks at least one atom. The selection text is rewritten by
 * `SelectionText.RewriteAtomColumns`; the condition itself is taken as a
 * parsed `Pred`.
 *
 * `ReadAndWriteAsWritten` is the record loop as it stands, which prints the
 * selection and exits at the first record; `ReadAndWrite` is the loop
 * without those two debugging statements.
 */
module FuncgroupToId {
  import opened Text
  import opened Tables
  import opened IdFile

  /**
   * The loop as written: at the first record of any file it prints the
   * selection and exits the program, before any id is written.
   */
  method ReadAndWriteAsWritten(files: seq<seq<Molecule>>, selection: string)
    returns (text: string, printed: string, exited: bool)
    ensures text == ""
    ensures exited <==> exists k :: 0 <= k < |files| && files[k] != []
    ensures printed == (if exited then selection + "\n" else "")
  {
    text, printed, exited := "", "", false;
    var i := 0;
    while i < |files|
      invariant 0 <= i <= |files|
      invariant forall k :: 0 <= k < i ==> files[k] == []
    {
      // The first pass of the inner record loop never reaches its end.
      if files[i] != [] {
        printed := selection + "\n";
        exited := true;
        return;
      }
      i := i + 1;
    }
  }

  /** The ids of one file's records whose table the condition selects from, in order. */
  function Matches(mols: seq<Molecule>, p: Pred): (ids: seq<string>)
    ensures |ids| <= |mols|
    decreases |mols|
  {
    if mols == [] then []
    else (if AnySelected(p, mols[0].atoms) then [mols[0].id] else []) + Matches(mols[1..], p)
  }

  lemma {:induction false} MatchesSnoc(mols: seq<Molecule>, m: Molecule, p: Pred)
    ensures Matches(mols + [m], p) == Matches(mols, p) + (if AnySelected(p, m.atoms) then [m.id] else [])
    decreases |mols|
  {
    if mols == [] {
      assert mols + [m] == [m];
      assert [m][1..] == [];
    } else {
      var t := mols[1..];
      assert (mols + [m])[0] == mols[0] && (mols + [m])[1..] == t + [m];
      MatchesSnoc(t, m, p);
      var h := if AnySelected(p, mols[0].atoms) then [mols[0].id] else [];
      var e := if AnySelected(p, m.atoms) then [m.id] else [];
      AppendAssoc(h, Matches(t, p), e);
    }
  }

  /** An id is selected iff a record with that id has an atom the condition picks. */
  lemma {:induction false} MatchesMember(mols: seq<Molecule>, p: Pred, x: string)
    ensures x in Matches(mols, p) <==> exists j :: 0 <= j < |mols| && mols[j].id == x && AnySelected(p, mols[j].atoms)
    decreases |mols|
  {
    if mols != [] {
      MatchesMember(mols[1..], p, x);
      if exists j :: 0 <= j < |mols[1..]| && mols[1..][j].id == x && AnySelected(p, mols[1..][j].atoms) {
        var j :| 0 <= j < |mols[1..]| && mols[1..][j].id == x && AnySelected(p, mols[1..][j].atoms);
        assert mols[j + 1] == mols[1..][j];
      }
      if exists j :: 0 <= j < |mols| && mols[j].id == x && AnySelected(p, mols[j].atoms) {
        var j :| 0 <= j < |mols| && mols[j].id == x && AnySelected(p, mols[j].atoms);
        if j > 0 {
          assert mols[1..][j - 1] == mols[j];
        }
      }
    }
  }

  /** One file: write `mol2[0]` for every selected record and count them. */
  method ProcessFile(mols: seq<Molecule>, p: Pred) returns (text: string, count: nat)
    ensures text == Concat(Matches(mols, p))
    ensures count == |Matches(mols, p)|
  {
    text, count := "", 0;
    var i := 0;
    while i < |mols|
      invariant 0 <= i <= |mols|
      invariant text == Concat(Matches(mols[..i], p))
      invariant count == |Matches(mols[..i], p)|
    {
      var m := mols[i];
      assert mols[..i + 1] == mols[..i] + [m];
      MatchesSnoc(mols[..i], m, p);
      if AnySelected(p, m.atoms) {
        ConcatAppend(Matches(mols[..i], p), [m.id]);
        assert Concat([m.id]) == m.id + Concat([]);
        text := text + m.id;
        count := count + 1;
      } else {
        assert Matches(mols[..i], p) + [] == Matches(mols[..i], p);
      }
      i := i + 1;
    }
    assert mols[..i] == mols;
  }

  /** The selected ids of every file, files in the given order. */
  function PerFile(files: seq<seq<Molecule>>, p: Pred): (idss: seq<seq<string>>)
    ensures |idss| == |files|
  {
    seq(|files|, k requires 0 <= k < |files| => Matches(files[k], p))
  }

  lemma WrittenStep(idss: seq<seq<string>>, i: nat)
    requires i < |idss|
    ensures Concat(Flatten(idss[..i + 1])) == Concat(Flatten(idss[..i])) + Concat(idss[i])
  {
    assert idss[..i + 1] == idss[..i] + [idss[i]];
    FlattenSnoc(idss[..i], idss[i]);
    ConcatAppend(Flatten(idss[..i]), idss[i]);
  }

  /**
   * `read_and_write` without the debugging exit: the id file holds the
   * selected ids of all files, each written as it is, with no separator;
   * `counts[k]` is the `count` of file k.
   */
  method ReadAndWrite(files: seq<seq<Molecule>>, p: Pred) returns (text: string, counts: seq<nat>)
    ensures text == Concat(Flatten(PerFile(files, p)))
    ensures |counts| == |files|
    ensures forall k :: 0 <= k < |files| ==> counts[k] == |Matches(files[k], p)|
  {
    ghost var idss := PerFile(files, p);
    text, counts := "", [];
    var i := 0;
    while i < |files|
      invariant 0 <= i <= |files|
      invariant text == Concat(Flatten(idss[..i]))
      invariant |counts| == i
      invariant forall k :: 0 <= k < i ==> counts[k] == |Matches(files[k], p)|
    {
      var t, count := ProcessFile(files[i], p);
      WrittenStep(idss, i);
      text := text + t;
      counts := counts + [count];
      i := i + 1;
    }
    assert idss[..i] == idss;
  }

  /** A non-empty part makes the concatenation non-empty. */
  lemma {:induction false} ConcatNonEmpty(parts: seq<string>, x: string)
    requires x in parts && x != ""
    ensures Concat(parts) != ""
    decreases |parts|
  {
    if parts[0] != x {
      ConcatNonEmpty(parts[1..], x);
    }
  }

  /**
   * A selected record with a non-empty id is written by the loop without
   * the exit, while the loop as written writes nothing for the same input.
   */
  lemma SelectedRecordIsWritten(files: seq<seq<Molecule>>, p: Pred, k: nat, j: nat)
    requires k < |files| && j < |files[k]|
    requires files[k][j].id != "" && AnySelected(p, files[k][j].atoms)
    ensures files[k][j].id in Flatten(PerFile(files, p))
    ensures Concat(Flatten(PerFile(files, p))) != ""
  {
    var x := files[k][j].id;
    MatchesMember(files[k], p, x);
    FlattenMember(PerFile(files, p), x);
    assert x in PerFile(files, p)[k];
    ConcatNonEmpty(Flatten(PerFile(files, p)), x);
  }
}
