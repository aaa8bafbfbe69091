/**
 * overlay_molecules_shapeit: check the query file and build the Shape-it
 * command line for every database partition. The executable and the query
 * path are the tool's arguments; running the command is not modelled.
 */
module OverlayMoleculesShapeit {
  import opened Wrappers
  import opened Text
  import opened Mol2

  // ---------------------------------------------------------------------
  // check_query
  // ---------------------------------------------------------------------

  /** The distinct ids of a record sequence. */
  function IdSet(query: seq<Record>): (ids: set<string>)
    ensures forall x :: x in ids <==> exists k :: 0 <= k < |query| && query[k].id == x
  {
    set k | 0 <= k < |query| :: query[k].id
  }

  /** Raises when there are several records and more than one distinct id among them. */
  function CheckQuery(query: seq<Record>): Result<()> {
    if |query| > 1 && |IdSet(query)| > 1 then Failure("ValueError: one molecule or one id")
    else Success(())
  }

  /** Two records with different ids. */
  predicate MixedIds(query: seq<Record>) {
    exists i, j :: 0 <= i < |query| && 0 <= j < |query| && query[i].id != query[j].id
  }

  /**
   * The check fails exactly when two records carry different ids: zero or
   * one record always passes, and so do conformers that share one id.
   */
  lemma CheckQueryFails(query: seq<Record>)
    ensures CheckQuery(query).Failure? <==> MixedIds(query)
  {
    var ids := IdSet(query);
    if MixedIds(query) {
      var i, j :| 0 <= i < |query| && 0 <= j < |query| && query[i].id != query[j].id;
      var rest := ids - {query[i].id};
      assert query[j].id in rest;
      assert ids == rest + {query[i].id};
      assert |ids| == |rest| + 1;
      assert |query| > 1 by {
        assert i != j;
      }
    } else if |query| > 0 {
      assert ids == {query[0].id} by {
        forall x | x in ids ensures x == query[0].id {
          var k :| 0 <= k < |query| && query[k].id == x;
        }
      }
    }
  }

  // ---------------------------------------------------------------------
  // run_shapeit
  // ---------------------------------------------------------------------

  /** `''.join(target_file.split('.mol2')[:-1])`. */
  function Prefix(target: string): string {
    var parts := SplitOn(target, ".mol2");
    Concat(parts[..|parts| - 1])
  }

  /** A path `stem.mol2`, with no other '.', has the prefix `stem`. */
  lemma PrefixOfStem(stem: string)
    requires !HasChar(stem, '.')
    ensures Prefix(stem + ".mol2") == stem
  {
    assert ".mol2"[0] == '.';
    SplitOnPiece(stem, ".mol2", "");
    assert stem + ".mol2" + "" == stem + ".mol2";
    assert SplitOn("", ".mol2") == [""];
    assert SplitOn(stem + ".mol2", ".mol2")[..1] == [stem];
    assert Concat([stem]) == stem + Concat([]);
  }

  /** A target without ".mol2" has the empty prefix, so its score file is ".rpt". */
  lemma PrefixWithoutSuffix(target: string)
    requires !Contains(target, ".mol2")
    ensures Prefix(target) == ""
  {
    SplitOnAbsent(target, ".mol2");
    assert SplitOn(target, ".mol2")[..0] == [];
  }

  /** The ten fixed elements of the command. */
  function FixedCommand(executable: string, queryFile: string, source: string, target: string): (cmd: seq<string>)
    ensures |cmd| == 10 && cmd[0] == executable && cmd[9] == "--noRef"
    ensures cmd[2] == queryFile && cmd[4] == source && cmd[6] == target && cmd[8] == Prefix(target) + ".rpt"
  {
    [executable, "--reference", queryFile, "--dbase", source, "--out", target, "--scores", Prefix(target) + ".rpt", "--noRef"]
  }

  /** The command: the fixed part, then every non-empty stripped token of the settings in order. */
  method BuildCommand(executable: string, queryFile: string, source: string, target: string, settings: string)
    returns (cmd: seq<string>)
    ensures cmd == FixedCommand(executable, queryFile, source, target) + Words(settings)
  {
    cmd := FixedCommand(executable, queryFile, source, target);
    ghost var fixed := cmd;
    if settings != "" {
      var tokens := Words(settings);
      var i := 0;
      while i < |tokens|
        invariant 0 <= i <= |tokens|
        invariant cmd == fixed + tokens[..i]
      {
        var s := Strip(tokens[i]);
        assert s == tokens[i];
        if s != "" {
          cmd := cmd + [s];
        }
        assert tokens[..i + 1] == tokens[..i] + [tokens[i]];
        i := i + 1;
      }
      assert tokens[..i] == tokens;
    } else {
      assert Words(settings) == [];
    }
  }

  /** Every element after the fixed ten is a non-empty token without white space. */
  lemma CommandTokens(executable: string, queryFile: string, source: string, target: string, settings: string, k: nat)
    requires 10 <= k < |FixedCommand(executable, queryFile, source, target) + Words(settings)|
    ensures (FixedCommand(executable, queryFile, source, target) + Words(settings))[k] != ""
    ensures NoSpace((FixedCommand(executable, queryFile, source, target) + Words(settings))[k])
  {
    assert (FixedCommand(executable, queryFile, source, target) + Words(settings))[k] == Words(settings)[k - 10];
  }

  // ---------------------------------------------------------------------
  // main
  // ---------------------------------------------------------------------

  /** `os.path.join(output_dir, os.path.basename(mol2))`. */
  function TargetFile(outputDir: string, source: string): string {
    JoinPath(outputDir, Basename(source))
  }

  /**
   * A partition `dir/stem.mol2` is overlaid into `output_dir/stem.mol2`
   * with its scores in `output_dir/stem.rpt`.
   */
  lemma ScoresFile(dir: string, outputDir: string, stem: string)
    requires !HasChar(stem, '/') && !HasChar(stem, '.') && !HasChar(outputDir, '.')
    ensures TargetFile(outputDir, JoinPath(dir, stem + ".mol2")) == JoinPath(outputDir, stem) + ".mol2"
    ensures Prefix(TargetFile(outputDir, JoinPath(dir, stem + ".mol2"))) + ".rpt" == JoinPath(outputDir, stem) + ".rpt"
  {
    var f := stem + ".mol2";
    Mol2SuffixFacts();
    NoCharAppend(stem, ".mol2", '/');
    BasenameJoin(dir, f);
    JoinPathAppend(outputDir, stem, ".mol2");
    JoinPathNoChar(outputDir, stem, '.');
    PrefixOfStem(JoinPath(outputDir, stem));
  }

  lemma Mol2SuffixFacts()
    ensures !HasChar(".mol2", '/') && !HasChar("/", '.')
  {
  }

  /** Joining two paths without a character other than '/' gives a path without it. */
  lemma JoinPathNoChar(d: string, f: string, c: char)
    requires c != '/' && !HasChar(d, c) && !HasChar(f, c)
    ensures !HasChar(JoinPath(d, f), c)
  {
    if d == [] || EndsWith(d, "/") {
      NoCharAppend(d, f, c);
    } else {
      assert !HasChar("/", c);
      NoCharAppend(d, "/", c);
      NoCharAppend(d + "/", f, c);
    }
  }
}
