/**
 * Multi-MOL2 files as the tools see them: the sequence of (id, raw lines)
 * pairs that biopandas' `split_multimol2` yields, and the `get_mol2_files`
 * helper that every tool copies to find its input files.
 */
module Mol2 {
  import opened Text

  /** One molecule: its id and its raw lines, each still ending in '\n'. */
  datatype Record = Record(id: string, lines: seq<string>)

  /** `''.join(mol2[1])`: the record written back byte for byte. */
  function RecordText(r: Record): string {
    Concat(r.lines)
  }

  /** A MOL2 file: its path and the records `split_multimol2` yields from it. */
  datatype MolFile = MolFile(path: string, records: seq<Record>)

  /** The text of a sequence of records, concatenated in order. */
  function RecordsText(rs: seq<Record>): string
    decreases |rs|
  {
    if rs == [] then [] else RecordText(rs[0]) + RecordsText(rs[1..])
  }

  lemma {:induction false} RecordsTextAppend(a: seq<Record>, b: seq<Record>)
    ensures RecordsText(a + b) == RecordsText(a) + RecordsText(b)
    decreases |a|
  {
    if a == [] {
      assert a + b == b;
    } else {
      assert (a + b)[1..] == a[1..] + b;
      RecordsTextAppend(a[1..], b);
    }
  }

  /** The ids of a record sequence, in order. */
  function Ids(rs: seq<Record>): (ids: seq<string>)
    ensures |ids| == |rs|
    ensures forall k :: 0 <= k < |rs| ==> ids[k] == rs[k].id
    decreases |rs|
  {
    if rs == [] then [] else [rs[0].id] + Ids(rs[1..])
  }

  /** `f.endswith(('.mol2', 'mol2.gz'))`; the second suffix has no leading dot. */
  predicate HasMol2Suffix(name: string) {
    EndsWith(name, ".mol2") || EndsWith(name, "mol2.gz")
  }

  /** `os.path.join(d, f)` for a file name f that is not absolute. */
  function JoinPath(d: string, f: string): string {
    if d == [] || EndsWith(d, "/") then d + f else d + "/" + f
  }

  /** `os.path.basename(p)`: the text after the last '/'. */
  function Basename(p: string): (b: string)
    ensures EndsWith(p, b) && !HasChar(b, '/')
    decreases |p|
  {
    if p == [] || p[|p| - 1] == '/' then []
    else
      var b := Basename(p[..|p| - 1]) + [p[|p| - 1]];
      assert p[..|p| - 1][|p| - |b|..] + [p[|p| - 1]] == p[|p| - |b|..];
      b
  }

  /** Appending to the file name appends to the joined path. */
  lemma JoinPathAppend(d: string, f: string, g: string)
    ensures JoinPath(d, f + g) == JoinPath(d, f) + g
  {
  }

  /** Joining a directory with a bare file name and taking the base name gives the file name back. */
  lemma {:induction false} BasenameJoin(d: string, f: string)
    requires !HasChar(f, '/')
    ensures Basename(JoinPath(d, f)) == f
  {
    var p := JoinPath(d, f);
    assert p == (if d == [] || EndsWith(d, "/") then d else d + "/") + f;
    BasenameSuffix(if d == [] || EndsWith(d, "/") then d else d + "/", f);
  }

  lemma {:induction false} BasenameSuffix(a: string, f: string)
    requires !HasChar(f, '/') && (a == [] || a[|a| - 1] == '/')
    ensures Basename(a + f) == f
    decreases |f|
  {
    if f == [] {
      assert a + f == a;
    } else {
      var p := a + f;
      var g := f[..|f| - 1];
      var c := f[|f| - 1];
      assert c != '/';
      assert p[|p| - 1] == c;
      assert p[..|p| - 1] == a + g;
      assert !HasChar(g, '/') by {
        forall i | 0 <= i < |g| ensures g[i] != '/' {
          assert g[i] == f[i];
        }
      }
      BasenameSuffix(a, g);
      assert Basename(p) == Basename(a + g) + [c];
      assert g + [c] == f;
    }
  }

  /** The directory entries `get_mol2_files` keeps, in listing order. */
  function Mol2Names(listing: seq<string>): (names: seq<string>)
    ensures |names| <= |listing|
    decreases |listing|
  {
    if listing == [] then []
    else (if HasMol2Suffix(listing[0]) then [listing[0]] else []) + Mol2Names(listing[1..])
  }

  /** An entry is kept iff its name has one of the two suffixes. */
  lemma {:induction false} Mol2NamesMember(listing: seq<string>, f: string)
    ensures f in Mol2Names(listing) <==> f in listing && HasMol2Suffix(f)
    decreases |listing|
  {
    if listing != [] {
      Mol2NamesMember(listing[1..], f);
      assert listing == [listing[0]] + listing[1..];
    }
  }

  function JoinAll(d: string, names: seq<string>): (paths: seq<string>)
    ensures |paths| == |names|
    ensures forall k :: 0 <= k < |names| ==> paths[k] == JoinPath(d, names[k])
    decreases |names|
  {
    if names == [] then [] else [JoinPath(d, names[0])] + JoinAll(d, names[1..])
  }

  /**
   * `get_mol2_files(dir_path)`. The file system is given as parameters:
   * whether the path is a directory or a regular file, and, for a
   * directory, the entry names `os.listdir` returns.
   */
  method GetMol2Files(dirPath: string, isDir: bool, isFile: bool, listing: seq<string>)
    returns (files: seq<string>)
    ensures isDir ==> files == JoinAll(dirPath, Mol2Names(listing))
    ensures !isDir ==> files == (if isFile && HasMol2Suffix(dirPath) then [dirPath] else [])
  {
    files := [];
    if isDir {
      var i := 0;
      while i < |listing|
        invariant 0 <= i <= |listing|
        invariant files == JoinAll(dirPath, Mol2Names(listing[..i]))
      {
        var f := listing[i];
        MolNamesSnoc(listing[..i], f);
        assert listing[..i + 1] == listing[..i] + [f];
        if HasMol2Suffix(f) {
          JoinAllAppend(dirPath, Mol2Names(listing[..i]), [f]);
          files := files + [JoinPath(dirPath, f)];
        }
        i := i + 1;
      }
      assert listing[..i] == listing;
    } else if isFile && HasMol2Suffix(dirPath) {
      files := [dirPath];
    }
  }

  lemma {:induction false} MolNamesSnoc(listing: seq<string>, f: string)
    ensures Mol2Names(listing + [f]) == Mol2Names(listing) + (if HasMol2Suffix(f) then [f] else [])
    decreases |listing|
  {
    if listing == [] {
      assert listing + [f] == [f];
    } else {
      assert (listing + [f])[1..] == listing[1..] + [f];
      MolNamesSnoc(listing[1..], f);
      AppendAssoc(if HasMol2Suffix(listing[0]) then [listing[0]] else [], Mol2Names(listing[1..]),
        if HasMol2Suffix(f) then [f] else []);
    }
  }

  lemma JoinAllAppend(d: string, a: seq<string>, b: seq<string>)
    ensures JoinAll(d, a + b) == JoinAll(d, a) + JoinAll(d, b)
  {
  }
}
