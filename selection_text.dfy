/**
 * The textual rewriting that turns a user selection string into pandas
 * code before `pd.eval` sees it: the data-table form that frames every
 * '(' (datatable_to_id), the six atom-column tokens (funcgroup_to_id,
 * funcgroup_presence_to_id, funcgroup_distance_to_id) and the
 * column-qualifying, '-->'-splitting table form (funcgroup_selection,
 * funcgroup_matching_selection).
 */
module SelectionText {
  import opened Text

  // ---------------------------------------------------------------------
  // Facts about substring search shared by the rewriting proofs
  // ---------------------------------------------------------------------

  lemma {:induction false} ContainsLength(s: string, p: string)
    requires Contains(s, p)
    ensures |p| <= |s|
    decreases |s|
  {
    if !StartsWith(s, p) {
      ContainsLength(s[1..], p);
    }
  }

  /** An occurrence in a suffix is an occurrence in the whole string. */
  lemma {:induction false} ContainsSuffix(s: string, k: nat, p: string)
    requires k <= |s| && Contains(s[k..], p)
    ensures Contains(s, p)
    decreases k
  {
    if k == 0 {
      assert s[0..] == s;
    } else {
      assert s[1..][k - 1..] == s[k..];
      ContainsSuffix(s[1..], k - 1, p);
    }
  }

  /** An occurrence of p needs the character p[0] somewhere. */
  lemma {:induction false} ContainsHead(s: string, p: string)
    requires p != [] && Contains(s, p)
    ensures HasChar(s, p[0])
    decreases |s|
  {
    if StartsWith(s, p) {
      assert s[0] == s[..|p|][0];
    } else {
      ContainsHead(s[1..], p);
      var i :| 0 <= i < |s[1..]| && s[1..][i] == p[0];
      assert s[i + 1] == p[0];
    }
  }

  // ---------------------------------------------------------------------
  // datatable_to_id: parse_selection_string and columns_from_selection
  // ---------------------------------------------------------------------

  /** `s.replace('(', '(%s.' % df_name)`. */
  function InsertFrame(s: string, df: string): string {
    ReplaceAll(s, "(", "(" + df + ".")
  }

  /** What one character of the selection turns into. */
  function Expand(c: char, df: string): string {
    if c == '(' then "(" + df + "." else [c]
  }

  function ExpandEach(s: string, df: string): (pieces: seq<string>)
    ensures |pieces| == |s|
    ensures forall k :: 0 <= k < |s| ==> pieces[k] == Expand(s[k], df)
    decreases |s|
  {
    if s == [] then [] else [Expand(s[0], df)] + ExpandEach(s[1..], df)
  }

  /**
   * Character by character, every '(' becomes '(' + df + '.' and every
   * other character is kept as it is.
   */
  lemma {:induction false} InsertFramePerChar(s: string, df: string)
    ensures InsertFrame(s, df) == Concat(ExpandEach(s, df))
    decreases |s|
  {
    if s != [] {
      InsertFramePerChar(s[1..], df);
      if s[0] == '(' {
        assert s[..1] == "(";
      } else {
        assert s[..1] != "(";
      }
    }
  }

  /** Drops the frame name right after each '(' that carries it. */
  function StripFrame(t: string, df: string): string
    decreases |t|
  {
    if t == [] then []
    else if t[0] == '(' && StartsWith(t[1..], df + ".") then "(" + StripFrame(t[|df| + 2..], df)
    else [t[0]] + StripFrame(t[1..], df)
  }

  /** Framing changes nothing but the inserted names: removing them restores the input. */
  lemma {:induction false} InsertFrameRoundTrip(s: string, df: string)
    ensures StripFrame(InsertFrame(s, df), df) == s
    decreases |s|
  {
    if s != [] {
      InsertFrameRoundTrip(s[1..], df);
      var rest := InsertFrame(s[1..], df);
      if s[0] == '(' {
        assert s[..1] == "(";
        var t := "(" + df + "." + rest;
        assert InsertFrame(s, df) == t;
        assert t[1..] == (df + ".") + rest;
        assert t[|df| + 2..] == rest;
      } else {
        assert s[..1] != "(";
        assert InsertFrame(s, df) == [s[0]] + rest;
      }
    }
  }

  /** Each '(' grows the text by the frame name and its dot. */
  lemma InsertFrameLength(s: string, df: string)
    ensures |InsertFrame(s, df)| == |s| + Count(s, "(") * (|df| + 1)
  {
    ReplaceLength(s, "(", "(" + df + ".");
  }

  /** `c.replace('(', '')`: every '(' removed. */
  function DropParens(w: string): (r: string)
    ensures !HasChar(r, '(')
    ensures !HasChar(w, '(') ==> r == w
    decreases |w|
  {
    if w == [] then []
    else if w[0] == '(' then DropParens(w[1..])
    else
      var rest := DropParens(w[1..]);
      assert !HasChar(w[1..], '(') ==> rest == w[1..] by {
        if !HasChar(w[1..], '(') {
          assert forall i :: 0 <= i < |w[1..]| ==> w[1..][i] != '(';
        }
      }
      assert forall i :: 0 <= i < |rest| ==> ([w[0]] + rest)[i + 1] == rest[i];
      [w[0]] + rest
  }

  /** `str.replace('(', '')` agrees with the character filter above. */
  lemma {:induction false} DropParensIsReplace(w: string)
    ensures ReplaceAll(w, "(", "") == DropParens(w)
    decreases |w|
  {
    if w != [] {
      DropParensIsReplace(w[1..]);
      if w[0] == '(' {
        assert w[..1] == "(";
      } else {
        assert w[..1] != "(";
      }
    }
  }

  /** The list comprehension over already split words. */
  function ParenTokens(ws: seq<string>): (cols: seq<string>)
    ensures |cols| <= |ws|
    decreases |ws|
  {
    if ws == [] then []
    else (if HasChar(ws[0], '(') then [ReplaceAll(ws[0], "(", "")] else []) + ParenTokens(ws[1..])
  }

  /** `columns_from_selection(s)`. */
  function ColumnsFromSelection(s: string): seq<string> {
    ParenTokens(Words(s))
  }

  lemma {:induction false} ParenTokensMember(ws: seq<string>, x: string)
    ensures x in ParenTokens(ws) <==> exists w :: w in ws && HasChar(w, '(') && x == DropParens(w)
    decreases |ws|
  {
    if ws != [] {
      ParenTokensMember(ws[1..], x);
      DropParensIsReplace(ws[0]);
      assert ws == [ws[0]] + ws[1..];
    }
  }

  /**
   * A name is a selected column iff it is a white-space token of the
   * selection that holds a '(' and has all its '(' removed; a token without
   * a '(' (an operator, or a literal such as '7)') contributes nothing.
   */
  lemma ColumnsFromSelectionMember(s: string, x: string)
    ensures x in ColumnsFromSelection(s) <==>
      exists w :: w in Words(s) && HasChar(w, '(') && x == DropParens(w)
  {
    ParenTokensMember(Words(s), x);
  }

  /** No column name keeps a '('. */
  lemma ColumnsHaveNoParen(s: string, x: string)
    requires x in ColumnsFromSelection(s)
    ensures !HasChar(x, '(')
  {
    ColumnsFromSelectionMember(s, x);
  }

  /** A selection without any '(' names no column. */
  lemma ColumnsWithoutParen(s: string)
    requires !HasChar(s, '(')
    ensures ColumnsFromSelection(s) == []
  {
    WordsAvoidChar(s, '(');
    ParenTokensNone(Words(s));
  }

  lemma {:induction false} ParenTokensNone(ws: seq<string>)
    requires forall w :: w in ws ==> !HasChar(w, '(')
    ensures ParenTokens(ws) == []
    decreases |ws|
  {
    if ws != [] {
      assert ws[0] in ws;
      ParenTokensNone(ws[1..]);
    }
  }

  /** A character absent from s is absent from each of its words. */
  lemma {:induction false} WordsAvoidChar(s: string, c: char)
    requires !HasChar(s, c)
    ensures forall w :: w in Words(s) ==> !HasChar(w, c)
    decreases |s|
  {
    if s != [] {
      assert !HasChar(s[1..], c) by {
        forall i | 0 <= i < |s[1..]| ensures s[1..][i] != c {
          assert s[1..][i] == s[i + 1];
        }
      }
      if !IsSpace(s[0]) {
        var v := Word(s);
        assert !HasChar(v, c) by {
          forall i | 0 <= i < |v| ensures v[i] != c {
            assert v[i] == s[i];
          }
        }
        assert !HasChar(s[|v|..], c) by {
          forall i | 0 <= i < |s[|v|..]| ensures s[|v|..][i] != c {
            assert s[|v|..][i] == s[i + |v|];
          }
        }
        WordsAvoidChar(s[|v|..], c);
      } else {
        WordsAvoidChar(s[1..], c);
      }
    }
  }

  // ---------------------------------------------------------------------
  // The six atom-table column tokens (funcgroup_* tools)
  // ---------------------------------------------------------------------

  /** The tokens rewritten, in the order they are rewritten. */
  const AtomColumns: seq<string> :=
    ["(atom_id", "(atom_name", "(atom_type", "(subst_id", "(subst_name", "(charge"]

  /** The data frame name the atom-table tools use by default. */
  const DefaultAtomFrame: string := "pdmol.df"

  /** `'(%s.%s' % (df_name, c[1:])`: what one token becomes. */
  function Framed(c: string, df: string): string
    requires c != []
  {
    "(" + df + "." + c[1..]
  }

  /** `for c in columns: s = s.replace(c, '(%s.%s' % (df_name, c[1:]))`. */
  function RewriteWith(s: string, cols: seq<string>, df: string): string
    requires forall k :: 0 <= k < |cols| ==> cols[k] != []
    decreases |cols|
  {
    if cols == [] then s
    else RewriteWith(ReplaceAll(s, cols[0], Framed(cols[0], df)), cols[1..], df)
  }

  /** The six-token `parse_selection_string` of the atom-table tools. */
  function RewriteAtomColumns(s: string, df: string): string {
    RewriteWith(s, AtomColumns, df)
  }

  /** A token of the rewritten kind: '(' and then at least one other non-'(' character. */
  predicate Token(t: string) {
    |t| >= 2 && t[0] == '(' && !HasChar(t[1..], '(')
  }

  /**
   * A frame name that cannot itself form one of the tokens: it holds no
   * '(' and it does not start like any token name.
   */
  predicate FrameFits(df: string, cols: seq<string>) {
    && df != []
    && !HasChar(df, '(')
    && forall k :: 0 <= k < |cols| ==> Token(cols[k]) && cols[k][1] != df[0]
  }

  /** A string containing none of the tokens is returned unchanged. */
  lemma {:induction false} RewriteAbsent(s: string, cols: seq<string>, df: string)
    requires forall k :: 0 <= k < |cols| ==> cols[k] != [] && !Contains(s, cols[k])
    ensures RewriteWith(s, cols, df) == s
    decreases |cols|
  {
    if cols != [] {
      ReplaceAbsent(s, cols[0], Framed(cols[0], df));
      RewriteAbsent(s, cols[1..], df);
    }
  }

  /** A selection with no '(' at all is never rewritten, whatever column names it mentions. */
  lemma RewriteWithoutParen(s: string, df: string)
    requires !HasChar(s, '(')
    ensures RewriteAtomColumns(s, df) == s
  {
    forall k | 0 <= k < |AtomColumns| ensures !Contains(s, AtomColumns[k]) {
      if Contains(s, AtomColumns[k]) {
        ContainsHead(s, AtomColumns[k]);
      }
    }
    RewriteAbsent(s, AtomColumns, df);
  }

  predicate OccursAt(s: string, p: string, j: int) {
    0 <= j && j + |p| <= |s| && s[j..j + |p|] == p
  }

  /** A pattern that occurs at no position is not contained. */
  lemma {:induction false} AbsentNowhere(s: string, p: string)
    requires forall j :: 0 <= j ==> !OccursAt(s, p, j)
    ensures !Contains(s, p)
    decreases |s|
  {
    assert !OccursAt(s, p, 0);
    if s != [] {
      forall j | 0 <= j ensures !OccursAt(s[1..], p, j) {
        if j + |p| <= |s[1..]| {
          assert s[1..][j..j + |p|] == s[j + 1..j + 1 + |p|];
          assert !OccursAt(s, p, j + 1);
        }
      }
      AbsentNowhere(s[1..], p);
    }
  }

  /**
   * A column name is rewritten only right after a '(': when no '(' is
   * directly followed by the first letter of a token name (as in
   * '( atom_type' or a bare 'charge'), nothing changes.
   */
  lemma RewriteNeedsAdjacentParen(s: string, df: string)
    requires forall i, k :: 0 <= i < |s| - 1 && 0 <= k < |AtomColumns| && s[i] == '(' ==> s[i + 1] != AtomColumns[k][1]
    ensures RewriteAtomColumns(s, df) == s
  {
    forall k | 0 <= k < |AtomColumns| ensures !Contains(s, AtomColumns[k]) {
      var c := AtomColumns[k];
      forall j | 0 <= j ensures !OccursAt(s, c, j) {
        if j + |c| <= |s| {
          assert s[j..j + |c|][0] == s[j];
          assert s[j..j + |c|][1] == s[j + 1];
        }
      }
      AbsentNowhere(s, c);
    }
    RewriteAbsent(s, AtomColumns, df);
  }

  /** A space between '(' and the column name stops the rewrite: the text is passed on unchanged. */
  lemma SpacedTokenKept(df: string)
    ensures RewriteAtomColumns("( atom_type", df) == "( atom_type"
  {
    var spaced := "( atom_type";
    assert forall k :: 0 <= k < |AtomColumns| ==> AtomColumns[k][1] != ' ';
    assert forall i :: 0 < i < |spaced| ==> spaced[i] != '(';
    RewriteNeedsAdjacentParen(spaced, df);
  }

  /**
   * Replacing leaves the start of a text alone as far as a '('-free word
   * reaches, when the pattern and its replacement both start with '('.
   */
  lemma {:induction false} HeadAgree(x: string, pat: string, rep: string, w: string)
    requires pat != [] && rep != [] && rep[0] == pat[0] && !HasChar(w, pat[0])
    ensures StartsWith(ReplaceAll(x, pat, rep), w) <==> StartsWith(x, w)
    decreases |x|
  {
    if |x| >= |pat| && w != [] {
      if x[..|pat|] == pat {
        assert x[0] == pat[0];
        assert w[0] != pat[0];
      } else {
        assert !HasChar(w[1..], pat[0]) by {
          forall i | 0 <= i < |w[1..]| ensures w[1..][i] != pat[0] {
            assert w[1..][i] == w[i + 1];
          }
        }
        HeadAgree(x[1..], pat, rep, w[1..]);
        var r := ReplaceAll(x[1..], pat, rep);
        assert StartsWith([x[0]] + r, w) <==> x[0] == w[0] && StartsWith(r, w[1..]);
        assert StartsWith(x, w) <==> x[0] == w[0] && StartsWith(x[1..], w[1..]);
      }
    }
  }

  /**
   * Replacing token pat by rep (a '(' that no token can continue) removes
   * every occurrence of pat and creates no occurrence of another token u.
   */
  lemma {:induction false} ReplaceKeepsClear(s: string, pat: string, rep: string, u: string)
    requires Token(pat) && Token(u)
    requires |rep| >= 2 && rep[0] == '(' && !HasChar(rep[1..], '(') && rep[1] != u[1]
    requires u == pat || !Contains(s, u)
    ensures !Contains(ReplaceAll(s, pat, rep), u)
    decreases |s|
  {
    if |s| < |pat| {
      if u == pat && Contains(s, u) {
        ContainsLength(s, u);
      }
    } else if s[..|pat|] == pat {
      var tail := s[|pat|..];
      if u != pat && Contains(tail, u) {
        ContainsSuffix(s, |pat|, u);
      }
      ReplaceKeepsClear(tail, pat, rep, u);
      var r := ReplaceAll(tail, pat, rep);
      assert (rep + r)[1] == rep[1];
      assert !StartsWith(rep + r, u);
      assert (rep + r)[1..] == rep[1..] + r;
      NoHeadCharPrefix(rep[1..], r, u);
    } else {
      ReplaceKeepsClear(s[1..], pat, rep, u);
      var r := ReplaceAll(s[1..], pat, rep);
      assert ReplaceAll(s, pat, rep) == [s[0]] + r;
      assert ([s[0]] + r)[1..] == r;
      if s[0] == '(' {
        HeadAgree(s[1..], pat, rep, u[1..]);
        assert StartsWith([s[0]] + r, u) <==> StartsWith(r, u[1..]);
        assert StartsWith(s, u) <==> StartsWith(s[1..], u[1..]);
        assert u == pat ==> !StartsWith(s, u);
      } else {
        assert ([s[0]] + r)[0] != u[0];
      }
    }
  }

  /** After the fold, no token of cols is left that was rewritten or absent before. */
  lemma {:induction false} RewriteClears(s: string, cols: seq<string>, df: string, u: string)
    requires FrameFits(df, cols) && Token(u) && u[1] != df[0]
    requires u in cols || !Contains(s, u)
    ensures !Contains(RewriteWith(s, cols, df), u)
    decreases |cols|
  {
    if cols != [] {
      var c := cols[0];
      var rep := Framed(c, df);
      assert rep[1..] == df + "." + c[1..];
      assert !HasChar(rep[1..], '(') by {
        forall i | 0 <= i < |rep[1..]| ensures rep[1..][i] != '(' {
          if i < |df| {
            assert rep[1..][i] == df[i];
          } else if i > |df| {
            assert rep[1..][i] == c[1..][i - |df| - 1];
          }
        }
      }
      var s' := ReplaceAll(s, c, rep);
      if !(u in cols[1..]) {
        assert u == c || !Contains(s, u);
        ReplaceKeepsClear(s, c, rep, u);
      }
      assert forall k :: 0 <= k < |cols[1..]| ==> cols[1..][k] == cols[k + 1];
      RewriteClears(s', cols[1..], df, u);
    }
  }

  /** The default frame name fits the six tokens. */
  lemma DefaultFrameFits()
    ensures FrameFits(DefaultAtomFrame, AtomColumns)
  {
  }

  /**
   * With a fitting frame name, no '(' is directly followed by one of the
   * six names after rewriting, so rewriting twice equals rewriting once.
   */
  lemma RewriteIdempotent(s: string, df: string)
    requires FrameFits(df, AtomColumns)
    ensures forall k :: 0 <= k < |AtomColumns| ==> !Contains(RewriteAtomColumns(s, df), AtomColumns[k])
    ensures RewriteAtomColumns(RewriteAtomColumns(s, df), df) == RewriteAtomColumns(s, df)
  {
    forall k | 0 <= k < |AtomColumns|
      ensures !Contains(RewriteAtomColumns(s, df), AtomColumns[k])
    {
      RewriteClears(s, AtomColumns, df, AtomColumns[k]);
    }
    RewriteAbsent(RewriteAtomColumns(s, df), AtomColumns, df);
  }

  /**
   * `[subs.strip() for subs in s.split('-->')]`: one group more than there
   * are separators, none with white space at either end.
   */
  function StrippedGroups(s: string): (lst: seq<string>)
    ensures |lst| == Count(s, "-->") + 1
    ensures forall k :: 0 <= k < |lst| ==> lst[k] == [] || (!IsSpace(lst[k][0]) && !IsSpace(lst[k][|lst[k]| - 1]))
  {
    var pieces := SplitOn(s, "-->");
    SplitOnLength(s, "-->");
    seq(|pieces|, k requires 0 <= k < |pieces| => Strip(pieces[k]))
  }

  /**
   * `parse_selection_string` of the presence and distance tools: the six
   * column tokens of every stripped group rewritten, group by group.
   */
  method ParseGroups(s: string, df: string) returns (parsed: seq<string>)
    ensures |parsed| == |StrippedGroups(s)|
    ensures forall k :: 0 <= k < |parsed| ==> parsed[k] == RewriteAtomColumns(StrippedGroups(s)[k], df)
  {
    var lst := StrippedGroups(s);
    parsed := [];
    var i := 0;
    while i < |lst|
      invariant 0 <= i <= |lst|
      invariant |parsed| == i
      invariant forall k :: 0 <= k < i ==> parsed[k] == RewriteAtomColumns(lst[k], df)
    {
      parsed := parsed + [RewriteAtomColumns(lst[i], df)];
      i := i + 1;
    }
  }

  /** Every parsed group is already fully rewritten: parsing it again as one group changes nothing. */
  lemma ParsedGroupsSettled(s: string, df: string, parsed: seq<string>)
    requires FrameFits(df, AtomColumns)
    requires |parsed| == |StrippedGroups(s)|
    requires forall k :: 0 <= k < |parsed| ==> parsed[k] == RewriteAtomColumns(StrippedGroups(s)[k], df)
    ensures forall k :: 0 <= k < |parsed| ==> RewriteAtomColumns(parsed[k], df) == parsed[k]
  {
    forall k | 0 <= k < |parsed| ensures RewriteAtomColumns(parsed[k], df) == parsed[k] {
      RewriteIdempotent(StrippedGroups(s)[k], df);
    }
  }

  // ---------------------------------------------------------------------
  // funcgroup_selection / funcgroup_matching_selection
  // ---------------------------------------------------------------------

  /** Every column of the table qualified by the data frame name, without the `c in s` guard. */
  function QualifyAll(s: string, columns: seq<string>, df: string): string
    requires forall k :: 0 <= k < |columns| ==> columns[k] != []
    decreases |columns|
  {
    if columns == [] then s
    else QualifyAll(ReplaceAll(s, columns[0], df + "." + columns[0]), columns[1..], df)
  }

  /** A selection mentioning none of the columns is not qualified at all. */
  lemma {:induction false} QualifyAbsent(s: string, columns: seq<string>, df: string)
    requires forall k :: 0 <= k < |columns| ==> columns[k] != [] && !Contains(s, columns[k])
    ensures QualifyAll(s, columns, df) == s
    decreases |columns|
  {
    if columns != [] {
      ReplaceAbsent(s, columns[0], df + "." + columns[0]);
      QualifyAbsent(s, columns[1..], df);
    }
  }

  /**
   * The column-qualifying loop of `parse_selection_string`; the `c in s`
   * guard changes nothing, because replacing an absent column is a no-op.
   */
  method QualifyColumns(s: string, columns: seq<string>, df: string) returns (q: string)
    requires forall k :: 0 <= k < |columns| ==> columns[k] != []
    ensures q == QualifyAll(s, columns, df)
  {
    q := s;
    var i := 0;
    while i < |columns|
      invariant 0 <= i <= |columns|
      invariant QualifyAll(q, columns[i..], df) == QualifyAll(s, columns, df)
    {
      var c := columns[i];
      assert columns[i..][1..] == columns[i + 1..];
      if Contains(q, c) {
        q := ReplaceAll(q, c, df + "." + c);
      } else {
        ReplaceAbsent(q, c, df + "." + c);
      }
      i := i + 1;
    }
  }

  /**
   * `parse_selection_string(s, columns, df_name)` of the table tools:
   * qualify columns, normalise ' --> ' to '-->', split, and wrap each part
   * as `df_name[part]`.
   */
  method ParseTableSelection(s: string, columns: seq<string>, df: string) returns (groups: seq<string>)
    requires forall k :: 0 <= k < |columns| ==> columns[k] != []
    ensures var t := ReplaceAll(QualifyAll(s, columns, df), " --> ", "-->");
      && |groups| == |SplitOn(t, "-->")| == Count(t, "-->") + 1
      && forall k :: 0 <= k < |groups| ==> groups[k] == df + "[" + SplitOn(t, "-->")[k] + "]"
  {
    var q := QualifyColumns(s, columns, df);
    var t := ReplaceAll(q, " --> ", "-->");
    var parts := SplitOn(t, "-->");
    SplitOnLength(t, "-->");
    groups := [];
    var i := 0;
    while i < |parts|
      invariant 0 <= i <= |parts|
      invariant |groups| == i
      invariant forall k :: 0 <= k < i ==> groups[k] == df + "[" + parts[k] + "]"
    {
      groups := groups + [df + "[" + parts[i] + "]"];
      i := i + 1;
    }
  }

  /** The inside of a wrapped group. */
  function Unwrap(g: string, df: string): string
    requires |g| >= |df| + 2
  {
    g[|df| + 1..|g| - 1]
  }

  function UnwrapAll(groups: seq<string>, df: string): (parts: seq<string>)
    requires forall k :: 0 <= k < |groups| ==> |groups[k]| >= |df| + 2
    ensures |parts| == |groups|
    ensures forall k :: 0 <= k < |groups| ==> parts[k] == Unwrap(groups[k], df)
    decreases |groups|
  {
    if groups == [] then [] else [Unwrap(groups[0], df)] + UnwrapAll(groups[1..], df)
  }

  /**
   * Unwrapping the groups and joining them with '-->' gives back the
   * qualified, normalised selection: no text is lost or added.
   */
  lemma TableGroupsRoundTrip(t: string, df: string, groups: seq<string>)
    requires |groups| == |SplitOn(t, "-->")|
    requires forall k :: 0 <= k < |groups| ==> groups[k] == df + "[" + SplitOn(t, "-->")[k] + "]"
    ensures forall k :: 0 <= k < |groups| ==> |groups[k]| >= |df| + 2
    ensures Join(UnwrapAll(groups, df), "-->") == t
  {
    var parts := SplitOn(t, "-->");
    assert forall k :: 0 <= k < |groups| ==> |groups[k]| >= |df| + 2;
    forall k | 0 <= k < |groups| ensures Unwrap(groups[k], df) == parts[k] {
      var g := groups[k];
      assert g == df + "[" + parts[k] + "]";
      assert g[|df| + 1..|g| - 1] == parts[k];
    }
    assert UnwrapAll(groups, df) == parts;
    SplitOnJoin(t, "-->");
  }
}
