/**
 * ID files: one molecule id per line. The tools that write them put
 * `id + '\n'` per entry; `read_idfile` reads them back into a set.
 */
module IdFile {
  import opened Text

  /** The lines of an ID file written one id at a time, each as `'%s\n' % id`. */
  function IdLines(ids: seq<string>): (lines: seq<string>)
    ensures |lines| == |ids|
    ensures forall k :: 0 <= k < |ids| ==> lines[k] == ids[k] + "\n"
    decreases |ids|
  {
    if ids == [] then [] else [ids[0] + "\n"] + IdLines(ids[1..])
  }

  /** The text of such a file. */
  function IdText(ids: seq<string>): string {
    Concat(IdLines(ids))
  }

  lemma IdLinesAppend(a: seq<string>, b: seq<string>)
    ensures IdLines(a + b) == IdLines(a) + IdLines(b)
  {
  }

  /** Writing one more id appends exactly that id and one newline. */
  lemma IdTextSnoc(ids: seq<string>, x: string)
    ensures IdText(ids + [x]) == IdText(ids) + (x + "\n")
  {
    IdLinesAppend(ids, [x]);
    ConcatAppend(IdLines(ids), IdLines([x]));
    assert IdLines([x]) == [x + "\n"];
    assert Concat([x + "\n"]) == x + "\n" + Concat([]);
  }

  /**
   * `read_idfile`: the stripped text of every line whose raw text does not
   * start with '#'. An indented '#' line is kept, and a blank line adds ''.
   */
  function ReadIdFile(lines: seq<string>): (ids: set<string>)
    ensures forall l :: l in lines && !StartsWith(l, "#") ==> Strip(l) in ids
  {
    set l | l in lines && !StartsWith(l, "#") :: Strip(l)
  }

  /** Every id read comes from a line that was not a comment. */
  lemma ReadIdFileMember(lines: seq<string>, x: string)
    ensures x in ReadIdFile(lines) <==> exists l :: l in lines && !StartsWith(l, "#") && Strip(l) == x
  {
  }

  /** The comment test is on the raw line: an indented '#' line is read, stripped. */
  lemma IndentedCommentKept(w: string)
    requires NoSpace(w)
    ensures ReadIdFile([" " + w + "\n"]) == {w}
  {
    StripIndented(w);
  }

  lemma StripIndented(w: string)
    requires NoSpace(w)
    ensures Strip(" " + w + "\n") == w && !StartsWith(" " + w + "\n", "#")
  {
    var l := " " + w + "\n";
    var t := w + "\n";
    assert l == [' '] + t;
    assert IsSpace(l[0]);
    assert l[1..] == t;
    assert LStrip(l) == LStrip(t);
    StripLine(w);
    assert l[..1] == " ";
  }

  /** A line starting with '#' contributes nothing. */
  lemma CommentDropped(w: string)
    ensures ReadIdFile(["#" + w]) == {}
  {
    assert ("#" + w)[..1] == "#";
  }

  /** A blank line contributes the empty id. */
  lemma BlankLineRead()
    ensures ReadIdFile(["\n"]) == {""}
  {
    ReadsBackAs("");
    assert "" + "\n" == "\n";
    ReadLinesAs(["\n"], [""]);
    assert (set k | 0 <= k < 1 :: [""][k]) == {""};
  }

  /** One written line reads back as its id. */
  lemma ReadsBackAs(w: string)
    requires NoSpace(w) && !StartsWith(w, "#")
    ensures !StartsWith(w + "\n", "#") && Strip(w + "\n") == w
  {
    StripLine(w);
    if w != [] {
      assert (w + "\n")[..1] == w[..1];
    } else {
      assert (w + "\n")[..1] == "\n";
    }
  }

  /**
   * Reading back a written ID file gives exactly the written ids, provided
   * they are single words and none starts with '#'.
   */
  lemma ReadBackIdLines(ids: seq<string>)
    requires forall k :: 0 <= k < |ids| ==> NoSpace(ids[k]) && !StartsWith(ids[k], "#")
    ensures ReadIdFile(IdLines(ids)) == set k | 0 <= k < |ids| :: ids[k]
  {
    var lines := IdLines(ids);
    forall k | 0 <= k < |ids| ensures !StartsWith(lines[k], "#") && Strip(lines[k]) == ids[k] {
      ReadsBackAs(ids[k]);
    }
    ReadLinesAs(lines, ids);
  }

  /** Lines that are no comments and strip to the given ids read as exactly those ids. */
  lemma ReadLinesAs(lines: seq<string>, ids: seq<string>)
    requires |lines| == |ids|
    requires forall k :: 0 <= k < |ids| ==> !StartsWith(lines[k], "#") && Strip(lines[k]) == ids[k]
    ensures ReadIdFile(lines) == set k | 0 <= k < |ids| :: ids[k]
  {
    var written := set k | 0 <= k < |ids| :: ids[k];
    assert forall x :: x in ReadIdFile(lines) ==> x in written;
    assert forall x :: x in written ==> x in ReadIdFile(lines);
  }

  /**
   * Splitting a written ID file on '\n' gives the ids in order, then the
   * empty text after the final newline: one line per id, none lost.
   */
  lemma {:induction false} SplitIdText(ids: seq<string>)
    requires forall k :: 0 <= k < |ids| ==> !HasChar(ids[k], '\n')
    ensures SplitOn(IdText(ids), "\n") == ids + [""]
    decreases |ids|
  {
    if ids == [] {
      assert SplitOn("", "\n") == [""];
    } else {
      assert IdText(ids) == ids[0] + "\n" + IdText(ids[1..]);
      SplitOnPiece(ids[0], "\n", IdText(ids[1..]));
      SplitIdText(ids[1..]);
      assert ids == [ids[0]] + ids[1..];
    }
  }

  /** The per-record results that are written: `[... for mol2_id in chunk if mol2_id]`. */
  function NonEmpty(results: seq<string>): (ids: seq<string>)
    ensures |ids| <= |results|
    decreases |results|
  {
    if results == [] then []
    else (if results[0] != "" then [results[0]] else []) + NonEmpty(results[1..])
  }

  /** A result is written iff it is non-empty. */
  lemma {:induction false} NonEmptyMember(results: seq<string>, x: string)
    ensures x in NonEmpty(results) <==> x in results && x != ""
    decreases |results|
  {
    if results != [] {
      NonEmptyMember(results[1..], x);
      assert results == [results[0]] + results[1..];
    }
  }

  lemma {:induction false} NonEmptyAppend(a: seq<string>, b: seq<string>)
    ensures NonEmpty(a + b) == NonEmpty(a) + NonEmpty(b)
    decreases |a|
  {
    if a == [] {
      assert a + b == b;
    } else {
      assert (a + b)[1..] == a[1..] + b;
      NonEmptyAppend(a[1..], b);
    }
  }

  /** Writing the results of one chunk: `'%s\n' % id` for every non-empty one, in order. */
  method WriteNonEmpty(results: seq<string>) returns (text: string)
    ensures text == IdText(NonEmpty(results))
  {
    text := [];
    var i := 0;
    while i < |results|
      invariant 0 <= i <= |results|
      invariant text == IdText(NonEmpty(results[..i]))
    {
      assert results[..i + 1] == results[..i] + [results[i]];
      NonEmptyAppend(results[..i], [results[i]]);
      assert [results[i]][1..] == [];
      assert NonEmpty([results[i]]) == (if results[i] != "" then [results[i]] else []) + NonEmpty([]);
      if results[i] != "" {
        assert NonEmpty(results[..i + 1]) == NonEmpty(results[..i]) + [results[i]];
        IdTextSnoc(NonEmpty(results[..i]), results[i]);
        text := text + (results[i] + "\n");
      } else {
        assert NonEmpty(results[..i + 1]) == NonEmpty(results[..i]);
      }
      i := i + 1;
    }
    assert results[..i] == results;
  }

  /** The results of several files, one file after the other. */
  function Flatten(rss: seq<seq<string>>): seq<string>
    decreases |rss|
  {
    if rss == [] then [] else rss[0] + Flatten(rss[1..])
  }

  lemma {:induction false} FlattenSnoc(rss: seq<seq<string>>, r: seq<string>)
    ensures Flatten(rss + [r]) == Flatten(rss) + r
    decreases |rss|
  {
    if rss == [] {
      assert rss + [r] == [r];
      assert Flatten([r]) == r + Flatten([]);
    } else {
      assert (rss + [r])[1..] == rss[1..] + [r];
      FlattenSnoc(rss[1..], r);
    }
  }

  /** A result is among those of all files iff it is among those of one file. */
  lemma {:induction false} FlattenMember(rss: seq<seq<string>>, x: string)
    ensures x in Flatten(rss) <==> exists k :: 0 <= k < |rss| && x in rss[k]
    decreases |rss|
  {
    if rss != [] {
      FlattenMember(rss[1..], x);
      if exists k :: 0 <= k < |rss[1..]| && x in rss[1..][k] {
        var k :| 0 <= k < |rss[1..]| && x in rss[1..][k];
        assert x in rss[k + 1];
      }
      if exists k :: 0 <= k < |rss| && x in rss[k] {
        var k :| 0 <= k < |rss| && x in rss[k];
        if k > 0 {
          assert x in rss[1..][k - 1];
        }
      }
    }
  }

  /** Writing file i appends its own id lines to those of the files before it. */
  lemma WrittenStep(rss: seq<seq<string>>, i: nat)
    requires i < |rss|
    ensures IdText(NonEmpty(Flatten(rss[..i + 1]))) == IdText(NonEmpty(Flatten(rss[..i]))) + IdText(NonEmpty(rss[i]))
  {
    var before := Flatten(rss[..i]);
    assert rss[..i + 1] == rss[..i] + [rss[i]];
    FlattenSnoc(rss[..i], rss[i]);
    NonEmptyAppend(before, rss[i]);
    IdLinesAppend(NonEmpty(before), NonEmpty(rss[i]));
    ConcatAppend(IdLines(NonEmpty(before)), IdLines(NonEmpty(rss[i])));
  }
}
