/**
 * The handful of Python `str` operations the tools are built from, on
 * `string = seq<char>`: `strip`, `lower`, `startswith`/`endswith`, `in`,
 * `replace`, `split(sep)`, `split()`, `''.join`, `'%d'` and `int()`.
 */
module Text {
  import opened Wrappers

  // ---------------------------------------------------------------------
  // White space
  // ---------------------------------------------------------------------

  /** Python's `str.isspace()` for one character. */
  predicate IsSpace(c: char) {
    var k := c as int;
    9 <= k <= 13 || 28 <= k <= 32 || k == 0x85 || k == 0xA0 || k == 0x1680
    || 0x2000 <= k <= 0x200A || k == 0x2028 || k == 0x2029 || k == 0x202F
    || k == 0x205F || k == 0x3000
  }

  predicate NoSpace(s: string) {
    forall i :: 0 <= i < |s| ==> !IsSpace(s[i])
  }

  predicate AllSpace(s: string) {
    forall i :: 0 <= i < |s| ==> IsSpace(s[i])
  }

  /** `s.lstrip()`: drop the longest all-space prefix. */
  function LStrip(s: string): (r: string)
    ensures |r| <= |s|
    decreases |s|
  {
    if s != [] && IsSpace(s[0]) then LStrip(s[1..]) else s
  }

  /** What `lstrip` removes is all space, and what it keeps is a suffix that does not start with space. */
  lemma {:induction false} LStripFacts(s: string)
    ensures LStrip(s) == s[|s| - |LStrip(s)|..]
    ensures AllSpace(s[..|s| - |LStrip(s)|])
    ensures LStrip(s) == [] || !IsSpace(LStrip(s)[0])
    decreases |s|
  {
    if s != [] && IsSpace(s[0]) {
      LStripFacts(s[1..]);
      var r := LStrip(s);
      assert s[|s| - |r|..] == s[1..][|s[1..]| - |r|..];
      forall i | 0 <= i < |s| - |r| ensures IsSpace(s[i]) {
        if i > 0 {
          assert s[i] == s[1..][..|s[1..]| - |r|][i - 1];
        }
      }
    }
  }

  /** `s.rstrip()`: drop the longest all-space suffix. */
  function RStrip(s: string): (r: string)
    ensures |r| <= |s|
    decreases |s|
  {
    if s != [] && IsSpace(s[|s| - 1]) then RStrip(s[..|s| - 1]) else s
  }

  /** What `rstrip` removes is all space, and what it keeps is a prefix that does not end in space. */
  lemma {:induction false} RStripFacts(s: string)
    ensures RStrip(s) == s[..|RStrip(s)|]
    ensures AllSpace(s[|RStrip(s)|..])
    ensures RStrip(s) == [] || !IsSpace(RStrip(s)[|RStrip(s)| - 1])
    decreases |s|
  {
    if s != [] && IsSpace(s[|s| - 1]) {
      var t := s[..|s| - 1];
      RStripFacts(t);
      var r := RStrip(s);
      assert r == RStrip(t);
      assert t[..|r|] == s[..|r|];
      forall i | |r| <= i < |s| ensures IsSpace(s[i]) {
        if i < |s| - 1 {
          assert s[i] == t[|r|..][i - |r|];
        }
      }
    }
  }

  /** `s.strip()`. */
  function Strip(s: string): (r: string)
    ensures r == [] || (!IsSpace(r[0]) && !IsSpace(r[|r| - 1]))
    ensures NoSpace(s) ==> r == s
    ensures r == [] <==> AllSpace(s)
  {
    var l := LStrip(s);
    LStripFacts(s);
    assert l != [] ==> !AllSpace(s) by {
      if l != [] { assert s[|s| - |l|] == l[0]; }
    }
    assert l == [] ==> AllSpace(s) by {
      assert |l| == 0 ==> s[..|s| - |l|] == s;
    }
    var r := RStrip(l);
    RStripFacts(l);
    assert l != [] ==> r != [] by {
      if l != [] {
        assert !IsSpace(l[0]);
        assert l == l[..|r|] + l[|r|..];
      }
    }
    assert NoSpace(s) ==> r == s by {
      if NoSpace(s) && s != [] {
        assert LStrip(s) == s;
        assert RStrip(s) == s;
      }
    }
    r
  }

  /** A line holding one space-free word and its newline strips back to the word. */
  lemma StripLine(w: string)
    requires NoSpace(w)
    ensures Strip(w + "\n") == w
  {
    var s := w + "\n";
    if w != [] {
      assert s[0] == w[0];
      assert LStrip(s) == s;
    } else {
      assert LStrip(s) == LStrip(s[1..]);
    }
    assert s[..|s| - 1] == w;
    assert IsSpace(s[|s| - 1]);
    assert RStrip(s) == RStrip(w);
    assert w == [] || !IsSpace(w[|w| - 1]);
  }

  // ---------------------------------------------------------------------
  // Prefixes, suffixes, containment
  // ---------------------------------------------------------------------

  predicate StartsWith(s: string, p: string) {
    |p| <= |s| && s[..|p|] == p
  }

  predicate EndsWith(s: string, p: string) {
    |p| <= |s| && s[|s| - |p|..] == p
  }

  /** `p in s` for two strings. */
  predicate Contains(s: string, p: string)
    decreases |s|
  {
    StartsWith(s, p) || (s != [] && Contains(s[1..], p))
  }

  /** `c in s` for one character. */
  predicate HasChar(s: string, c: char) {
    c in s
  }

  lemma {:induction false} ContainsPrefix(s: string, t: string, p: string)
    requires Contains(s, p)
    ensures Contains(s + t, p)
    decreases |s|
  {
    if StartsWith(s, p) {
      assert (s + t)[..|p|] == s[..|p|];
    } else {
      assert s != [];
      ContainsPrefix(s[1..], t, p);
      assert (s + t)[1..] == s[1..] + t;
    }
  }

  /** Text that holds no character `p[0]` cannot start an occurrence of `p`. */
  lemma {:induction false} NoHeadCharPrefix(w: string, rest: string, p: string)
    requires p != [] && !HasChar(w, p[0])
    ensures Contains(w + rest, p) <==> Contains(rest, p)
    decreases |w|
  {
    if w != [] {
      assert (w + rest)[0] == w[0];
      assert !StartsWith(w + rest, p);
      assert (w + rest)[1..] == w[1..] + rest;
      assert !HasChar(w[1..], p[0]) by {
        forall i | 0 <= i < |w[1..]| ensures w[1..][i] != p[0] {
          assert w[1..][i] == w[i + 1];
        }
      }
      NoHeadCharPrefix(w[1..], rest, p);
    } else {
      assert w + rest == rest;
    }
  }

  // ---------------------------------------------------------------------
  // Case folding
  // ---------------------------------------------------------------------

  function LowerChar(c: char): char {
    if 'A' <= c <= 'Z' then (c as int + 32) as char else c
  }

  /** `s.lower()` on the ASCII letters. */
  function Lower(s: string): (r: string)
    ensures |r| == |s|
    ensures forall i :: 0 <= i < |s| ==> r[i] == LowerChar(s[i])
  {
    seq(|s|, i requires 0 <= i < |s| => LowerChar(s[i]))
  }

  // ---------------------------------------------------------------------
  // Joining
  // ---------------------------------------------------------------------

  /** Appending is associative; stated once so that the inductive steps below need not rediscover it. */
  lemma AppendAssoc<T>(a: seq<T>, b: seq<T>, c: seq<T>)
    ensures a + (b + c) == (a + b) + c
  {
  }

  /** `''.join(parts)`. */
  function Concat(parts: seq<string>): string {
    if parts == [] then [] else parts[0] + Concat(parts[1..])
  }

  lemma {:induction false} ConcatAppend(a: seq<string>, b: seq<string>)
    ensures Concat(a + b) == Concat(a) + Concat(b)
    decreases |a|
  {
    if a == [] {
      assert a + b == b;
    } else {
      assert (a + b)[1..] == a[1..] + b;
      ConcatAppend(a[1..], b);
    }
  }

  /** `sep.join(parts)`. */
  function Join(parts: seq<string>, sep: string): string {
    if parts == [] then []
    else if |parts| == 1 then parts[0]
    else parts[0] + sep + Join(parts[1..], sep)
  }

  // ---------------------------------------------------------------------
  // str.split(sep) and str.count(sep)
  // ---------------------------------------------------------------------

  /** `s.count(sep)`: non-overlapping occurrences, scanned left to right. */
  function Count(s: string, sep: string): nat
    requires sep != []
    decreases |s|
  {
    if |s| < |sep| then 0
    else if s[..|sep|] == sep then 1 + Count(s[|sep|..], sep)
    else Count(s[1..], sep)
  }

  /** `s.split(sep)`: the pieces between the non-overlapping occurrences of sep. */
  function SplitOn(s: string, sep: string): (parts: seq<string>)
    requires sep != []
    ensures |parts| >= 1
    ensures StartsWith(s, parts[0])
    decreases |s|
  {
    if |s| < |sep| then [s]
    else if s[..|sep|] == sep then [[]] + SplitOn(s[|sep|..], sep)
    else
      var rest := SplitOn(s[1..], sep);
      [[s[0]] + rest[0]] + rest[1..]
  }

  /** `s.split(sep)` has one more piece than s has separators. */
  lemma {:induction false} SplitOnLength(s: string, sep: string)
    requires sep != []
    ensures |SplitOn(s, sep)| == Count(s, sep) + 1
    decreases |s|
  {
    if |s| < |sep| {
    } else if s[..|sep|] == sep {
      SplitOnLength(s[|sep|..], sep);
    } else {
      SplitOnLength(s[1..], sep);
    }
  }

  /** Joining the pieces of `s.split(sep)` with sep gives back s. */
  lemma {:induction false} SplitOnJoin(s: string, sep: string)
    requires sep != []
    ensures Join(SplitOn(s, sep), sep) == s
    decreases |s|
  {
    if |s| < |sep| {
    } else if s[..|sep|] == sep {
      var rest := SplitOn(s[|sep|..], sep);
      SplitOnJoin(s[|sep|..], sep);
      assert s == sep + s[|sep|..];
      assert Join([[]] + rest, sep) == [] + sep + Join(rest, sep);
    } else {
      var rest := SplitOn(s[1..], sep);
      SplitOnJoin(s[1..], sep);
      JoinConsHead(s[0], rest, sep);
      assert s == [s[0]] + s[1..];
    }
  }

  /** Gluing a character onto the first piece glues it onto the joined text. */
  lemma JoinConsHead(c: char, rest: seq<string>, sep: string)
    requires |rest| >= 1
    ensures Join([[c] + rest[0]] + rest[1..], sep) == [c] + Join(rest, sep)
  {
    var parts := [[c] + rest[0]] + rest[1..];
    if |rest| > 1 {
      var tail := Join(rest[1..], sep);
      assert parts[1..] == rest[1..];
      assert ([c] + rest[0]) + sep + tail == [c] + (rest[0] + sep + tail);
    }
  }

  /** A string without the separator is split into itself alone. */
  lemma {:induction false} SplitOnAbsent(s: string, sep: string)
    requires sep != [] && !Contains(s, sep)
    ensures SplitOn(s, sep) == [s]
    decreases |s|
  {
    if |s| < |sep| {
    } else {
      assert !StartsWith(s, sep);
      SplitOnAbsent(s[1..], sep);
      assert s == [s[0]] + s[1..];
    }
  }

  /** A piece without the separator's first character comes out of the split whole. */
  lemma {:induction false} SplitOnPiece(w: string, sep: string, rest: string)
    requires sep != [] && !HasChar(w, sep[0])
    ensures SplitOn(w + sep + rest, sep) == [w] + SplitOn(rest, sep)
    decreases |w|
  {
    var s := w + sep + rest;
    if w == [] {
      assert s[..|sep|] == sep;
      assert s[|sep|..] == rest;
    } else {
      assert s[..|sep|][0] == w[0] != sep[0];
      assert !HasChar(w[1..], sep[0]) by {
        forall i | 0 <= i < |w[1..]| ensures w[1..][i] != sep[0] {
          assert w[1..][i] == w[i + 1];
        }
      }
      SplitOnPiece(w[1..], sep, rest);
      assert s[1..] == w[1..] + sep + rest;
      assert [w[0]] + w[1..] == w;
    }
  }

  /** Two strings without a character concatenate to one without it. */
  lemma NoCharAppend(a: string, b: string, c: char)
    requires !HasChar(a, c) && !HasChar(b, c)
    ensures !HasChar(a + b, c)
  {
    forall i | 0 <= i < |a + b| ensures (a + b)[i] != c {
      if i >= |a| {
        assert (a + b)[i] == b[i - |a|];
      }
    }
  }

  /** A string without the character does not contain it as a one-character substring. */
  lemma {:induction false} AbsentChar(s: string, c: char)
    requires !HasChar(s, c)
    ensures !Contains(s, [c])
    decreases |s|
  {
    if s != [] {
      assert s[..1] == [s[0]];
      assert !HasChar(s[1..], c) by {
        forall i | 0 <= i < |s[1..]| ensures s[1..][i] != c {
          assert s[1..][i] == s[i + 1];
        }
      }
      AbsentChar(s[1..], c);
    }
  }

  /** No piece holds the separator character, so splitting the joined text gives the pieces back. */
  lemma {:induction false} JoinSplitRoundTrip(parts: seq<string>, c: char)
    requires |parts| >= 1
    requires forall k :: 0 <= k < |parts| ==> !HasChar(parts[k], c)
    ensures SplitOn(Join(parts, [c]), [c]) == parts
    decreases |parts|
  {
    if |parts| == 1 {
      AbsentChar(parts[0], c);
      SplitOnAbsent(parts[0], [c]);
    } else {
      JoinSplitRoundTrip(parts[1..], c);
      SplitOnPiece(parts[0], [c], Join(parts[1..], [c]));
      assert parts == [parts[0]] + parts[1..];
    }
  }

  // ---------------------------------------------------------------------
  // str.split() on white space
  // ---------------------------------------------------------------------

  /** The longest prefix of s without white space. */
  function Word(s: string): (w: string)
    ensures |w| <= |s| && w == s[..|w|] && NoSpace(w)
    ensures |w| == |s| || IsSpace(s[|w|])
    decreases |s|
  {
    if s == [] || IsSpace(s[0]) then [] else [s[0]] + Word(s[1..])
  }

  /** `s.split()`: the maximal runs of non-space characters, in order. */
  function Words(s: string): (ws: seq<string>)
    ensures forall k :: 0 <= k < |ws| ==> ws[k] != [] && NoSpace(ws[k])
    decreases |s|
  {
    if s == [] then []
    else if IsSpace(s[0]) then Words(s[1..])
    else
      var w := Word(s);
      [w] + Words(s[|w|..])
  }

  lemma {:induction false} WordsOfSpace(s: string)
    requires AllSpace(s)
    ensures Words(s) == []
    decreases |s|
  {
    if s != [] {
      WordsOfSpace(s[1..]);
    }
  }

  // ---------------------------------------------------------------------
  // str.replace(pat, rep)
  // ---------------------------------------------------------------------

  /** `s.replace(pat, rep)`: every non-overlapping occurrence, left to right. */
  function ReplaceAll(s: string, pat: string, rep: string): string
    requires pat != []
    decreases |s|
  {
    if |s| < |pat| then s
    else if s[..|pat|] == pat then rep + ReplaceAll(s[|pat|..], pat, rep)
    else [s[0]] + ReplaceAll(s[1..], pat, rep)
  }

  /** A string that does not contain the pattern is left unchanged. */
  lemma {:induction false} ReplaceAbsent(s: string, pat: string, rep: string)
    requires pat != [] && !Contains(s, pat)
    ensures ReplaceAll(s, pat, rep) == s
    decreases |s|
  {
    if |s| >= |pat| {
      ReplaceAbsent(s[1..], pat, rep);
      assert s == [s[0]] + s[1..];
    }
  }

  /** Each replaced occurrence changes the length by |rep| - |pat|. */
  lemma {:induction false} ReplaceLength(s: string, pat: string, rep: string)
    requires pat != []
    ensures |ReplaceAll(s, pat, rep)| == |s| + Count(s, pat) * (|rep| - |pat|)
    decreases |s|
  {
    var d := |rep| - |pat|;
    if |s| < |pat| {
      assert Count(s, pat) == 0;
    } else if s[..|pat|] == pat {
      var t := s[|pat|..];
      ReplaceLength(t, pat, rep);
      var c := Count(t, pat);
      assert Count(s, pat) == 1 + c;
      assert ReplaceAll(s, pat, rep) == rep + ReplaceAll(t, pat, rep);
      assert |ReplaceAll(t, pat, rep)| == |t| + c * d;
      MulSucc(c, d);
    } else {
      var t := s[1..];
      ReplaceLength(t, pat, rep);
      assert Count(s, pat) == Count(t, pat);
      assert ReplaceAll(s, pat, rep) == [s[0]] + ReplaceAll(t, pat, rep);
    }
  }

  lemma MulSucc(c: int, d: int)
    ensures (1 + c) * d == d + c * d
  {
  }

  /**
   * When the first character of pat occurs nowhere else in pat, a string
   * ending in pat whose stem does not contain pat has exactly that one
   * occurrence replaced.
   */
  lemma {:induction false} ReplaceSuffix(stem: string, pat: string, rep: string)
    requires pat != [] && !HasChar(pat[1..], pat[0])
    requires !Contains(stem, pat)
    ensures ReplaceAll(stem + pat, pat, rep) == stem + rep
    decreases |stem|
  {
    var s := stem + pat;
    if stem == [] {
      assert s == pat && s[|pat|..] == [];
    } else {
      assert s[..|pat|] != pat by {
        if |stem| >= |pat| {
          assert s[..|pat|] == stem[..|pat|];
          assert !StartsWith(stem, pat);
        } else {
          var k := |stem|;
          assert s[..|pat|][k] == pat[0];
          assert pat[1..][k - 1] == pat[k];
          assert pat[k] != pat[0];
        }
      }
      assert s[1..] == stem[1..] + pat;
      ReplaceSuffix(stem[1..], pat, rep);
      assert [s[0]] + (stem[1..] + rep) == stem + rep;
    }
  }

  // ---------------------------------------------------------------------
  // '%d' % n and int(s)
  // ---------------------------------------------------------------------

  predicate IsDigit(c: char) {
    '0' <= c <= '9'
  }

  predicate AllDigits(s: string) {
    forall i :: 0 <= i < |s| ==> IsDigit(s[i])
  }

  function DigitChar(d: nat): (c: char)
    requires d < 10
    ensures IsDigit(c) && c as int - '0' as int == d
  {
    ('0' as int + d) as char
  }

  /** `'%d' % n` for a non-negative n. */
  function NatToString(n: nat): (r: string)
    ensures r != [] && AllDigits(r)
    decreases n
  {
    if n < 10 then [DigitChar(n)] else NatToString(n / 10) + [DigitChar(n % 10)]
  }

  /** The value of a non-empty string of decimal digits. */
  function DigitsValue(s: string): nat
    requires s != [] && AllDigits(s)
    decreases |s|
  {
    var last := s[|s| - 1] as int - '0' as int;
    if |s| == 1 then last else DigitsValue(s[..|s| - 1]) * 10 + last
  }

  /** Decimal printing and parsing are inverse: `int('%d' % n) == n`. */
  lemma {:induction false} DigitsRoundTrip(n: nat)
    ensures DigitsValue(NatToString(n)) == n
    decreases n
  {
    if n >= 10 {
      var s := NatToString(n);
      assert s[..|s| - 1] == NatToString(n / 10);
      DigitsRoundTrip(n / 10);
    }
  }

  /** `'%d' % n` never prints two numbers the same way. */
  lemma NatToStringInjective(m: nat, n: nat)
    requires NatToString(m) == NatToString(n)
    ensures m == n
  {
    DigitsRoundTrip(m);
    DigitsRoundTrip(n);
  }

  /**
   * Python's decimal integer literal, `digit (["_"] digit)*`: ASCII digits,
   * where single underscores may stand between two digits.
   */
  predicate DecimalLiteral(d: string) {
    && d != [] && IsDigit(d[0]) && IsDigit(d[|d| - 1])
    && (forall i :: 0 <= i < |d| ==> IsDigit(d[i]) || d[i] == '_')
    && (forall i :: 0 <= i < |d| - 1 ==> !DoubleUnderscoreAt(d, i))
  }

  predicate DoubleUnderscoreAt(d: string, i: nat)
    requires i + 1 < |d|
  {
    d[i] == '_' && d[i + 1] == '_'
  }

  /** `s` with every `c` removed. */
  function Without(s: string, c: char): (r: string)
    ensures |r| <= |s|
    decreases |s|
  {
    if s == [] then []
    else if s[0] == c then Without(s[1..], c)
    else [s[0]] + Without(s[1..], c)
  }

  /**
   * What dropping keeps: characters of s other than c, starting with s's
   * first one when that is not c, and all of s when c is absent.
   */
  lemma {:induction false} WithoutFacts(s: string, c: char)
    ensures forall x :: x in Without(s, c) <==> x in s && x != c
    ensures s != [] && s[0] != c ==> Without(s, c) != [] && Without(s, c)[0] == s[0]
    ensures c !in s ==> Without(s, c) == s
    decreases |s|
  {
    if s != [] {
      WithoutFacts(s[1..], c);
      assert s == [s[0]] + s[1..];
    }
  }

  /** The digits of a decimal literal, underscores dropped. */
  lemma LiteralDigits(d: string)
    requires DecimalLiteral(d)
    ensures Without(d, '_') != [] && AllDigits(Without(d, '_'))
  {
    var r := Without(d, '_');
    WithoutFacts(d, '_');
    forall i | 0 <= i < |r| ensures IsDigit(r[i]) {
      assert r[i] in d;
    }
  }

  /**
   * `int(s)` on a string that cannot hold a '-': an optional '+' and then
   * a decimal literal, with surrounding white space allowed; anything
   * else is Python's ValueError.
   */
  function ParseInt(s: string): Result<nat> {
    var t := Strip(s);
    var d := if StartsWith(t, "+") then t[1..] else t;
    if DecimalLiteral(d) then LiteralDigits(d); Success(DigitsValue(Without(d, '_')))
    else Failure("ValueError: int()")
  }

  /** Digits are not white space, so stripping leaves them alone. */
  lemma DigitsStrip(s: string)
    requires AllDigits(s)
    ensures Strip(s) == s
  {
    assert NoSpace(s) by {
      forall i | 0 <= i < |s| ensures !IsSpace(s[i]) {
        assert IsDigit(s[i]);
      }
    }
  }

  /** Whatever `'%d' % n` printed, `int()` reads back. */
  lemma ParseIntRoundTrip(n: nat)
    ensures ParseInt(NatToString(n)) == Success(n)
  {
    var s := NatToString(n);
    DigitsStrip(s);
    assert !StartsWith(s, "+") by {
      assert IsDigit(s[0]);
      assert s[..1][0] == s[0];
    }
    DigitsNoUnderscore(s);
    DigitsRoundTrip(n);
  }

  /** A string of digits holds no "__" and is left alone by dropping '_'. */
  lemma DigitsNoUnderscore(s: string)
    requires s != [] && AllDigits(s)
    ensures DecimalLiteral(s) && Without(s, '_') == s
  {
    assert '_' !in s by {
      forall i | 0 <= i < |s| ensures s[i] != '_' {
        assert IsDigit(s[i]);
      }
    }
  }

  /** Dropping a character distributes over concatenation. */
  lemma {:induction false} WithoutAppend(a: string, b: string, c: char)
    ensures Without(a + b, c) == Without(a, c) + Without(b, c)
    decreases |a|
  {
    if a == [] {
      assert a + b == b;
    } else {
      assert (a + b)[0] == a[0] && (a + b)[1..] == a[1..] + b;
      WithoutAppend(a[1..], b, c);
      if a[0] != c {
        AppendAssoc([a[0]], Without(a[1..], c), Without(b, c));
      }
    }
  }

  /** A clean, unsigned literal is read as its digits. */
  lemma ParseIntLiteral(d: string)
    requires NoSpace(d) && !StartsWith(d, "+") && DecimalLiteral(d)
    ensures Without(d, '_') != [] && AllDigits(Without(d, '_'))
    ensures ParseInt(d) == Success(DigitsValue(Without(d, '_')))
  {
    LiteralDigits(d);
  }

  /** A leading or a trailing underscore is rejected. */
  lemma ParseIntEdgeUnderscore(d: string)
    requires NoSpace(d) && !StartsWith(d, "+") && d != [] && (d[0] == '_' || d[|d| - 1] == '_')
    ensures ParseInt(d).Failure?
  {
  }

  /** A doubled underscore is rejected. */
  lemma ParseIntDoubleUnderscore(d: string, i: nat)
    requires NoSpace(d) && !StartsWith(d, "+") && i + 1 < |d| && DoubleUnderscoreAt(d, i)
    ensures ParseInt(d).Failure?
  {
  }

  /**
   * `int()` reads one underscore between two groups of digits as if it
   * were absent: `int("1_0") == int("10") == 10`.
   */
  lemma ParseIntUnderscored(x: string, y: string)
    requires x != [] && AllDigits(x) && y != [] && AllDigits(y)
    ensures ParseInt(x + "_" + y) == ParseInt(x + y)
    ensures ParseInt(x + y) == Success(DigitsValue(x + y))
  {
    assert AllDigits(x + y) by {
      forall i | 0 <= i < |x + y| ensures IsDigit((x + y)[i]) {
        if i >= |x| { assert (x + y)[i] == y[i - |x|]; }
      }
    }
    DigitsNoUnderscore(x + y);
    DigitsStrip(x + y);
    assert !StartsWith(x + y, "+") by { assert (x + y)[..1][0] == x[0]; }
    ParseIntLiteral(x + y);
    UnderscoredLiteral(x, y);
    ParseIntLiteral(x + "_" + y);
    UnderscoredDigits(x, y);
  }

  /** Dropping the one underscore between two digit groups joins them. */
  lemma UnderscoredDigits(x: string, y: string)
    requires x != [] && AllDigits(x) && y != [] && AllDigits(y)
    ensures Without(x + "_" + y, '_') == x + y
  {
    DigitsNoUnderscore(x);
    DigitsNoUnderscore(y);
    WithoutAppend(x + "_", y, '_');
    WithoutAppend(x, "_", '_');
    assert Without("_", '_') == [];
  }

  /** Two digit groups around one underscore make a clean, unsigned decimal literal. */
  lemma UnderscoredLiteral(x: string, y: string)
    requires x != [] && AllDigits(x) && y != [] && AllDigits(y)
    ensures DecimalLiteral(x + "_" + y) && NoSpace(x + "_" + y) && !StartsWith(x + "_" + y, "+")
  {
    var d := x + "_" + y;
    assert forall i :: 0 <= i < |x| ==> d[i] == x[i];
    assert forall i :: |x| < i < |d| ==> d[i] == y[i - |x| - 1];
    assert d[|x|] == '_';
    assert forall i :: 0 <= i < |d| && i != |x| ==> IsDigit(d[i]);
    assert d[..1][0] == x[0];
  }



}
