/** ASCII string helpers that stand in for the JavaScript string operations the
    application uses: `trim`, `toLowerCase`, `includes`, `startsWith`, `split`,
    `padStart`, `String(n)`, the whitespace-run regex replace and the `<`
    operator on strings. */
module Strings {

  /** The whitespace characters `trim()` and the regex class `\s` remove
      (ASCII subset). */
  predicate IsWhitespace(c: char) {
    c == ' ' || c == '\t' || c == '\n' || c == '\r' || c == '\U{0B}' || c == '\U{0C}'
  }

  predicate NoWhitespace(s: string) {
    forall i :: 0 <= i < |s| ==> !IsWhitespace(s[i])
  }

  /** `!s.trim()`: the string is empty once trimmed. */
  predicate IsBlank(s: string) {
    forall i :: 0 <= i < |s| ==> IsWhitespace(s[i])
  }

  function TrimStart(s: string): (r: string)
    ensures |r| <= |s| && r == s[|s| - |r|..]
    ensures r == [] || !IsWhitespace(r[0])
    ensures forall i :: 0 <= i < |s| - |r| ==> IsWhitespace(s[i])
  {
    if s != [] && IsWhitespace(s[0]) then TrimStart(s[1..]) else s
  }

  function TrimEnd(s: string): (r: string)
    ensures |r| <= |s| && r == s[..|r|]
    ensures r == [] || !IsWhitespace(r[|r| - 1])
    ensures forall i :: |r| <= i < |s| ==> IsWhitespace(s[i])
  {
    if s != [] && IsWhitespace(s[|s| - 1]) then TrimEnd(s[..|s| - 1]) else s
  }

  /** `s.trim()`: drop leading and trailing whitespace. */
  function Trim(s: string): (r: string)
    ensures |r| <= |s|
    ensures r == [] || (!IsWhitespace(r[0]) && !IsWhitespace(r[|r| - 1]))
    ensures r == [] <==> IsBlank(s)
  {
    TrimFacts(s);
    TrimEnd(TrimStart(s))
  }

  /** The trimmed string is a slice of the original with a non-blank first
      and last character, and it is empty exactly when the original is blank. */
  lemma TrimFacts(s: string)
    ensures var t := TrimStart(s); var r := TrimEnd(t);
      |r| <= |s| && r == s[|s| - |t|..][..|r|]
      && (r == [] || (!IsWhitespace(r[0]) && !IsWhitespace(r[|r| - 1])))
      && (r == [] <==> IsBlank(s))
  {
    var t := TrimStart(s);
    var r := TrimEnd(t);
    var k := |s| - |t|;
    if r == [] {
      assert t == [];
    } else {
      assert r[0] == t[0] == s[k];
    }
  }

  lemma TrimNoWhitespace(s: string)
    requires NoWhitespace(s)
    ensures Trim(s) == s
  {
    if s != [] {
      TrimUntouched(s);
    }
  }

  /** Only the two ends decide whether trimming changes anything. */
  lemma TrimUntouched(s: string)
    requires s != [] && !IsWhitespace(s[0]) && !IsWhitespace(s[|s| - 1])
    ensures Trim(s) == s
  {
    assert TrimStart(s) == s;
    assert TrimEnd(s) == s;
  }

  lemma ContainsSelf(s: string)
    ensures Contains(s, s)
  {
    assert s[..|s|] == s;
  }

  function LowerChar(c: char): char {
    if 'A' <= c <= 'Z' then (c as int + 32) as char else c
  }

  /** `s.toLowerCase()` on ASCII letters. */
  function ToLower(s: string): (r: string)
    ensures |r| == |s|
    ensures forall i :: 0 <= i < |s| ==> r[i] == LowerChar(s[i])
  {
    seq(|s|, i requires 0 <= i < |s| => LowerChar(s[i]))
  }

  /** `s.length`: JavaScript counts UTF-16 code units, so a character outside
      the Basic Multilingual Plane counts twice. */
  function Utf16Length(s: string): (n: nat)
    ensures |s| <= n <= 2 * |s|
    ensures (forall i :: 0 <= i < |s| ==> s[i] as int < 0x1_0000) ==> n == |s|
  {
    if s == [] then 0
    else (if s[0] as int < 0x1_0000 then 1 else 2) + Utf16Length(s[1..])
  }

  lemma LowerIdempotent(s: string)
    ensures ToLower(ToLower(s)) == ToLower(s)
  {
  }

  lemma LowerCharKeepsWhitespace(c: char)
    ensures IsWhitespace(LowerChar(c)) <==> IsWhitespace(c)
  {
  }

  function StartsWith(s: string, prefix: string): bool {
    |prefix| <= |s| && s[..|prefix|] == prefix
  }

  /** `s.includes(sub)`. */
  predicate Contains(s: string, sub: string) {
    StartsWith(s, sub) || (s != [] && Contains(s[1..], sub))
  }

  /** `s.replace(pat, rep)` with a string pattern: only the first
      occurrence is replaced. */
  function ReplaceFirst(s: string, pat: string, rep: string): (r: string)
    ensures !Contains(s, pat) ==> r == s
    ensures Contains(s, pat) ==> |r| == |s| - |pat| + |rep|
  {
    if StartsWith(s, pat) then rep + s[|pat|..]
    else if s == [] then s
    else [s[0]] + ReplaceFirst(s[1..], pat, rep)
  }

  /** Where `indexOf(pat)` finds the pattern: the least index at which it
      starts. */
  function FirstIndex(s: string, pat: string): (i: nat)
    requires Contains(s, pat)
    ensures i + |pat| <= |s| && StartsWith(s[i..], pat)
    ensures forall j :: 0 <= j < i ==> !StartsWith(s[j..], pat)
  {
    if StartsWith(s, pat) then 0
    else
      var k := FirstIndex(s[1..], pat);
      assert forall j :: 1 <= j <= |s| ==> s[j..] == s[1..][j - 1..];
      k + 1
  }

  /** The replacement sits exactly where the first occurrence was: the text
      before it and the text after it are kept. */
  lemma {:induction false} ReplaceFirstAt(s: string, pat: string, rep: string)
    requires Contains(s, pat)
    ensures var i := FirstIndex(s, pat);
      ReplaceFirst(s, pat, rep) == s[..i] + rep + s[i + |pat|..]
  {
    if !StartsWith(s, pat) {
      ReplaceFirstStep(s, pat, rep);
      ReplaceFirstAt(s[1..], pat, rep);
      SpliceCons(s, FirstIndex(s[1..], pat), |pat|, rep);
    }
  }

  lemma ReplaceFirstStep(s: string, pat: string, rep: string)
    requires Contains(s, pat) && !StartsWith(s, pat)
    ensures s != [] && Contains(s[1..], pat)
    ensures FirstIndex(s, pat) == FirstIndex(s[1..], pat) + 1
    ensures ReplaceFirst(s, pat, rep) == [s[0]] + ReplaceFirst(s[1..], pat, rep)
  {
  }

  /** Splicing into the tail of a string is splicing into the string one
      place further on. */
  lemma SpliceCons(s: string, k: nat, n: nat, rep: string)
    requires s != [] && k + n <= |s| - 1
    ensures s[..k + 1] + rep + s[k + 1 + n..] == [s[0]] + (s[1..][..k] + rep + s[1..][k + n..])
  {
    assert s[..k + 1] == [s[0]] + s[1..][..k];
    assert s[k + 1 + n..] == s[1..][k + n..];
  }

  /** A leading occurrence is the one replaced. */
  lemma ReplaceLeading(pat: string, rep: string, rest: string)
    ensures ReplaceFirst(pat + rest, pat, rep) == rep + rest
  {
    assert (pat + rest)[..|pat|] == pat;
    assert (pat + rest)[|pat|..] == rest;
  }

  /** `s.replace(/\s+/g, '-')`: every maximal run of whitespace becomes one '-'. */
  function HyphenateWhitespace(s: string): (r: string)
    ensures |r| <= |s|
    ensures NoWhitespace(r)
  {
    if s == [] then []
    else
      var c := if IsWhitespace(s[0]) then '-' else s[0];
      var rest := if IsWhitespace(s[0]) then TrimStart(s[1..]) else s[1..];
      var tail := HyphenateWhitespace(rest);
      NoWhitespaceCons(c, tail);
      [c] + tail
  }

  lemma NoWhitespaceCons(c: char, s: string)
    requires !IsWhitespace(c) && NoWhitespace(s)
    ensures NoWhitespace([c] + s)
  {
    assert forall i :: 1 <= i < |s| + 1 ==> ([c] + s)[i] == s[i - 1];
  }

  /** Hyphenation writes only '-' and characters of its input. */
  lemma {:induction false} HyphenateChars(s: string)
    ensures forall c :: c in HyphenateWhitespace(s) ==> c == '-' || c in s
  {
    if s != [] {
      var rest := if IsWhitespace(s[0]) then TrimStart(s[1..]) else s[1..];
      HyphenateChars(rest);
      assert rest == s[|s| - |rest|..];
      assert forall c :: c in rest ==> c in s;
    }
  }

  /** Trimming the front of a concatenation stops inside the first part
      unless that part is all whitespace. */
  lemma {:induction false} TrimStartConcat(u: string, v: string)
    ensures TrimStart(u) != [] ==> TrimStart(u + v) == TrimStart(u) + v
    ensures TrimStart(u) == [] ==> TrimStart(u + v) == TrimStart(v)
  {
    if u == [] {
      assert u + v == v;
    } else if IsWhitespace(u[0]) {
      assert (u + v)[1..] == u[1..] + v;
      TrimStartConcat(u[1..], v);
    }
  }

  lemma {:induction false} TrimStartBlank(s: string)
    requires IsBlank(s)
    ensures TrimStart(s) == []
  {
    if s != [] {
      TrimStartBlank(s[1..]);
    }
  }

  /** A run of whitespace on its own becomes a single '-'. */
  lemma HyphenateBlank(w: string)
    requires w != [] && IsBlank(w)
    ensures HyphenateWhitespace(w) == "-"
  {
    TrimStartBlank(w[1..]);
  }

  /** Hyphenation works piece by piece as long as the cut does not fall inside
      a whitespace run. */
  lemma {:induction false} HyphenateConcat(x: string, y: string)
    requires x == [] || y == [] || !IsWhitespace(x[|x| - 1]) || !IsWhitespace(y[0])
    ensures HyphenateWhitespace(x + y) == HyphenateWhitespace(x) + HyphenateWhitespace(y)
    decreases |x|, 1
  {
    if x == [] {
      assert x + y == y;
    } else if !IsWhitespace(x[0]) {
      HyphenateConcatWord(x, y);
    } else if TrimStart(x[1..]) == [] {
      HyphenateBlankThen(x, y);
    } else {
      HyphenateConcatSpace(x, y);
    }
  }

  lemma {:induction false} HyphenateConcatWord(x: string, y: string)
    requires x != [] && !IsWhitespace(x[0])
    requires y == [] || !IsWhitespace(x[|x| - 1]) || !IsWhitespace(y[0])
    ensures HyphenateWhitespace(x + y) == HyphenateWhitespace(x) + HyphenateWhitespace(y)
    decreases |x|, 0
  {
    var u := x[1..];
    ConsSplit(x, y);
    HyphenateCons(x[0], u + y);
    HyphenateCons(x[0], u);
    if u == [] {
      assert u + y == y;
    } else {
      assert u[|u| - 1] == x[|x| - 1];
      HyphenateConcat(u, y);
    }
  }

  lemma {:induction false} HyphenateConcatSpace(x: string, y: string)
    requires x != [] && IsWhitespace(x[0]) && TrimStart(x[1..]) != []
    requires y == [] || !IsWhitespace(x[|x| - 1]) || !IsWhitespace(y[0])
    ensures HyphenateWhitespace(x + y) == HyphenateWhitespace(x) + HyphenateWhitespace(y)
    decreases |x|, 0
  {
    var t := TrimStart(x[1..]);
    HyphenateSpaceThen(x, y);
    assert t == x[1..][|x| - 1 - |t|..];
    assert t[|t| - 1] == x[|x| - 1];
    HyphenateConcat(t, y);
    AppendAssoc("-", HyphenateWhitespace(t), HyphenateWhitespace(y));
  }

  lemma AppendAssoc(a: string, b: string, c: string)
    ensures a + (b + c) == (a + b) + c
  {
  }

  /** A leading whitespace run followed by a non-blank rest. */
  lemma HyphenateSpaceThen(x: string, y: string)
    requires x != [] && IsWhitespace(x[0]) && TrimStart(x[1..]) != []
    ensures HyphenateWhitespace(x) == "-" + HyphenateWhitespace(TrimStart(x[1..]))
    ensures HyphenateWhitespace(x + y) == "-" + HyphenateWhitespace(TrimStart(x[1..]) + y)
  {
    ConsSplit(x, y);
    HyphenateSpace(x[0], x[1..] + y);
    TrimStartConcat(x[1..], y);
  }

  /** A string that is all whitespace, followed by one that does not start
      with whitespace. */
  lemma HyphenateBlankThen(x: string, y: string)
    requires x != [] && IsWhitespace(x[0]) && TrimStart(x[1..]) == []
    requires y == [] || !IsWhitespace(x[|x| - 1]) || !IsWhitespace(y[0])
    ensures HyphenateWhitespace(x + y) == HyphenateWhitespace(x) + HyphenateWhitespace(y)
  {
    var u := x[1..];
    assert IsWhitespace(x[|x| - 1]) by {
      if u != [] { assert x[|x| - 1] == u[|u| - 1]; }
    }
    var v := TrimStart(u + y);
    assert v == y by {
      TrimStartConcat(u, y);
    }
    HyphenateSpacePrefix(x, y, v);
  }

  /** Unfolds one whitespace step on a concatenation, given what trimming
      the rest yields. */
  lemma HyphenateSpacePrefix(x: string, y: string, v: string)
    requires x != [] && IsWhitespace(x[0]) && TrimStart(x[1..]) == []
    requires v == TrimStart(x[1..] + y) && v == y
    ensures HyphenateWhitespace(x + y) == HyphenateWhitespace(x) + HyphenateWhitespace(y)
  {
    ConsSplit(x, y);
    HyphenateSpace(x[0], x[1..] + y);
    HyphenateSpace(x[0], x[1..]);
    assert HyphenateWhitespace(x) == "-";
  }

  lemma ConsSplit(x: string, y: string)
    requires x != []
    ensures x == [x[0]] + x[1..] && x + y == [x[0]] + (x[1..] + y)
  {
  }

  lemma HyphenateCons(c: char, s: string)
    requires !IsWhitespace(c)
    ensures HyphenateWhitespace([c] + s) == [c] + HyphenateWhitespace(s)
  {
    assert ([c] + s)[1..] == s;
  }

  lemma HyphenateSpace(c: char, s: string)
    requires IsWhitespace(c)
    ensures HyphenateWhitespace([c] + s) == "-" + HyphenateWhitespace(TrimStart(s))
  {
    assert ([c] + s)[1..] == s;
  }

  /** `replace(/\s+/g, '-')` turns each maximal whitespace run into exactly
      one '-' and leaves the text on both sides of it alone. */
  lemma HyphenateRun(a: string, w: string, b: string)
    requires w != [] && IsBlank(w)
    requires a == [] || !IsWhitespace(a[|a| - 1])
    requires b == [] || !IsWhitespace(b[0])
    ensures HyphenateWhitespace(a + w + b) == HyphenateWhitespace(a) + "-" + HyphenateWhitespace(b)
  {
    HyphenateConcat(a, w);
    HyphenateBlank(w);
    assert (a + w)[|a + w| - 1] == w[|w| - 1];
    HyphenateConcat(a + w, b);
  }

  /** Lower-casing two words around a whitespace run and hyphenating gives the
      two lower-cased words joined by one '-'. */
  lemma HyphenateTwoWords(x: string, w: string, y: string)
    requires NoWhitespace(x) && NoWhitespace(y)
    requires w != [] && IsBlank(w)
    ensures HyphenateWhitespace(ToLower(x + w + y)) == ToLower(x) + "-" + ToLower(y)
  {
    var lx, lw, ly := ToLower(x), ToLower(w), ToLower(y);
    assert ToLower(x + w + y) == lx + lw + ly;
    forall i | 0 <= i < |x| ensures !IsWhitespace(lx[i]) { LowerCharKeepsWhitespace(x[i]); }
    forall i | 0 <= i < |y| ensures !IsWhitespace(ly[i]) { LowerCharKeepsWhitespace(y[i]); }
    forall i | 0 <= i < |w| ensures IsWhitespace(lw[i]) { LowerCharKeepsWhitespace(w[i]); }
    HyphenateRun(lx, lw, ly);
    HyphenateNoWhitespace(lx);
    HyphenateNoWhitespace(ly);
  }

  lemma {:induction false} HyphenateNoWhitespace(s: string)
    requires NoWhitespace(s)
    ensures HyphenateWhitespace(s) == s
  {
    if s != [] {
      assert !IsWhitespace(s[0]);
      HyphenateNoWhitespace(s[1..]);
    }
  }

  /** `s.split(c)` for a one-character separator; always at least one piece. */
  function Split(s: string, c: char): (r: seq<string>)
    ensures |r| >= 1
  {
    if s == [] then [""]
    else if s[0] == c then [""] + Split(s[1..], c)
    else var rest := Split(s[1..], c); [[s[0]] + rest[0]] + rest[1..]
  }

  /** `pieces.join(c)`. */
  function Join(pieces: seq<string>, c: char): string {
    if pieces == [] then ""
    else if |pieces| == 1 then pieces[0]
    else pieces[0] + [c] + Join(pieces[1..], c)
  }

  lemma {:induction false} SplitNoSeparator(s: string, c: char)
    requires c !in s
    ensures Split(s, c) == [s]
  {
    if s != [] {
      SplitNoSeparator(s[1..], c);
      assert [s[0]] + s[1..] == s;
    }
  }

  lemma {:induction false} SplitAtSeparator(a: string, c: char, b: string)
    requires c !in a
    ensures Split(a + [c] + b, c) == [a] + Split(b, c)
  {
    if a == [] {
      assert a + [c] + b == [c] + b;
      assert ([c] + b)[1..] == b;
    } else {
      SplitAtSeparator(a[1..], c, b);
      assert (a + [c] + b)[1..] == a[1..] + [c] + b;
      assert [a[0]] + a[1..] == a;
    }
  }

  /** No piece of a split holds the separator. */
  lemma {:induction false} SplitPiecesLackSeparator(s: string, c: char)
    ensures forall i :: 0 <= i < |Split(s, c)| ==> c !in Split(s, c)[i]
  {
    if s != [] {
      SplitPiecesLackSeparator(s[1..], c);
    }
  }

  /** Trimming only drops characters from the ends. */
  lemma TrimInside(s: string)
    ensures forall c :: c in Trim(s) ==> c in s
  {
    TrimFacts(s);
  }

  /** Splitting undoes joining when no piece holds the separator. */
  lemma {:induction false} SplitJoin(pieces: seq<string>, c: char)
    requires pieces != []
    requires forall i :: 0 <= i < |pieces| ==> c !in pieces[i]
    ensures Split(Join(pieces, c), c) == pieces
  {
    if |pieces| == 1 {
      SplitNoSeparator(pieces[0], c);
    } else {
      SplitJoin(pieces[1..], c);
      SplitAtSeparator(pieces[0], c, Join(pieces[1..], c));
      assert [pieces[0]] + pieces[1..] == pieces;
    }
  }

  /** `padStart(2, '0')`. */
  function PadStart2(s: string): (r: string)
    ensures |r| == if |s| >= 2 then |s| else 2
    ensures r[|r| - |s|..] == s
  {
    if |s| >= 2 then s else if |s| == 1 then "0" + s else "00"
  }

  // Decimal rendering of numbers, `String(n)`.

  function Pow10(w: nat): (p: nat)
    ensures p >= 1
  {
    if w == 0 then 1 else 10 * Pow10(w - 1)
  }

  function Digit(d: nat): (c: char)
    requires d < 10
    ensures '0' <= c <= '9'
  {
    (48 + d) as char
  }

  predicate IsDigit(c: char) { '0' <= c <= '9' }

  function DigitValue(c: char): nat
    requires IsDigit(c)
  {
    c as int - 48
  }

  /** The last w decimal digits of n, most significant first. */
  function Digits(n: nat, w: nat): (s: string)
    ensures |s| == w
    ensures forall i :: 0 <= i < |s| ==> IsDigit(s[i])
  {
    if w == 0 then [] else Digits(n / 10, w - 1) + [Digit(n % 10)]
  }

  function Width(n: nat): (w: nat)
    ensures w >= 1
  {
    if n < 10 then 1 else 1 + Width(n / 10)
  }

  lemma {:induction false} WidthFits(n: nat)
    ensures n < Pow10(Width(n))
  {
    if n >= 10 {
      WidthFits(n / 10);
    }
  }

  /** `String(n)` for a natural number: no leading zeros. */
  function NatToString(n: nat): (s: string)
    ensures |s| >= 1
    ensures forall i :: 0 <= i < |s| ==> IsDigit(s[i])
  {
    Digits(n, Width(n))
  }

  /** `String(i)` for an integer. */
  function IntToString(i: int): (s: string)
    ensures i >= 0 ==> forall k :: 0 <= k < |s| ==> IsDigit(s[k])
  {
    if i < 0 then "-" + NatToString(-i) else NatToString(i)
  }

  /** Reading digits back: the inverse of `Digits` on strings of digits. */
  function ParseDigits(s: string): nat
    requires forall i :: 0 <= i < |s| ==> IsDigit(s[i])
  {
    if s == [] then 0 else 10 * ParseDigits(s[..|s| - 1]) + DigitValue(s[|s| - 1])
  }

  lemma {:induction false} ParseDigitsOfDigits(n: nat, w: nat)
    requires n < Pow10(w)
    ensures ParseDigits(Digits(n, w)) == n
  {
    if w > 0 {
      DigitsFitStep(n, w);
      ParseDigitsOfDigits(n / 10, w - 1);
      var s := Digits(n, w);
      assert s == Digits(n / 10, w - 1) + [Digit(n % 10)];
      assert s[..|s| - 1] == Digits(n / 10, w - 1);
      assert DigitValue(s[|s| - 1]) == n % 10;
      assert ParseDigits(s) == 10 * (n / 10) + n % 10;
    }
  }

  /** Decimal rendering is injective: `String(n)` can be read back. */
  lemma NatToStringRoundTrip(n: nat)
    ensures ParseDigits(NatToString(n)) == n
  {
    WidthFits(n);
    ParseDigitsOfDigits(n, Width(n));
  }

  lemma NatToStringInjective(m: nat, n: nat)
    requires m != n
    ensures NatToString(m) != NatToString(n)
  {
    NatToStringRoundTrip(m);
    NatToStringRoundTrip(n);
  }

  // Lexicographic order on strings, the JavaScript `<` operator.

  /** `a < b` in JavaScript: compare characters left to right; a proper
      prefix is smaller. Characters compare as Unicode scalar values, which
      orders like JavaScript's UTF-16 code units except when a character
      above U+FFFF meets one in U+E000..U+FFFF. */
  predicate LexLess(a: string, b: string)
    ensures LexLess(a, b) ==> b != []
  {
    if a == [] then b != []
    else if b == [] then false
    else if a[0] != b[0] then a[0] < b[0]
    else LexLess(a[1..], b[1..])
  }

  lemma {:induction false} LexLessIrreflexive(a: string)
    ensures !LexLess(a, a)
  {
    if a != [] {
      LexLessIrreflexive(a[1..]);
    }
  }

  lemma {:induction false} LexLessTrichotomy(a: string, b: string)
    ensures LexLess(a, b) || a == b || LexLess(b, a)
    ensures !(LexLess(a, b) && LexLess(b, a))
  {
    if a != [] && b != [] && a[0] == b[0] {
      LexLessTrichotomy(a[1..], b[1..]);
      if a[1..] == b[1..] {
        assert a == [a[0]] + a[1..] && b == [b[0]] + b[1..];
      }
    }
  }

  lemma {:induction false} LexLessTransitive(a: string, b: string, c: string)
    requires LexLess(a, b) && LexLess(b, c)
    ensures LexLess(a, c)
  {
    if a != [] && b != [] && c != [] && a[0] == b[0] && b[0] == c[0] {
      LexLessTransitive(a[1..], b[1..], c[1..]);
    }
  }

  /** Comparing two strings that start with prefixes of equal length: the
      prefixes decide unless they are equal. */
  lemma {:induction false} LexLessEqualLengthPrefix(p: string, q: string, s: string, t: string)
    requires |p| == |q|
    ensures LexLess(p + s, q + t) == if p == q then LexLess(s, t) else LexLess(p, q)
  {
    if p == [] {
      assert p + s == s && q + t == t;
    } else {
      LexLessEqualLengthPrefix(p[1..], q[1..], s, t);
      assert (p + s)[1..] == p[1..] + s;
      assert (q + t)[1..] == q[1..] + t;
      if p[0] == q[0] && p[1..] == q[1..] {
        assert p == [p[0]] + p[1..] && q == [q[0]] + q[1..];
      }
      if p == q {
        assert p[1..] == q[1..];
      }
    }
  }

  lemma {:induction false} DigitsEqual(m: nat, n: nat, w: nat)
    requires m < Pow10(w) && n < Pow10(w)
    ensures Digits(m, w) == Digits(n, w) <==> m == n
  {
    if w > 0 {
      DigitsFitStep(m, w);
      DigitsFitStep(n, w);
      DigitsEqual(m / 10, n / 10, w - 1);
      var a, b := Digits(m, w), Digits(n, w);
      if a == b {
        assert a[..w - 1] == Digits(m / 10, w - 1) && b[..w - 1] == Digits(n / 10, w - 1);
        assert a[w - 1] == Digit(m % 10) && b[w - 1] == Digit(n % 10);
        assert m == 10 * (m / 10) + m % 10 && n == 10 * (n / 10) + n % 10;
      }
    }
  }

  lemma DigitsFitStep(n: nat, w: nat)
    requires w > 0 && n < Pow10(w)
    ensures n / 10 < Pow10(w - 1)
  {
  }

  /** On digit strings of one width, `<` is numeric order. */
  lemma {:induction false} DigitsLexLess(m: nat, n: nat, w: nat)
    requires m < Pow10(w) && n < Pow10(w)
    ensures LexLess(Digits(m, w), Digits(n, w)) <==> m < n
  {
    if w == 0 {
    } else {
      DigitsFitStep(m, w);
      DigitsFitStep(n, w);
      DigitsLexLess(m / 10, n / 10, w - 1);
      DigitsEqual(m / 10, n / 10, w - 1);
      var hm, hn := Digits(m / 10, w - 1), Digits(n / 10, w - 1);
      LexLessEqualLengthPrefix(hm, hn, [Digit(m % 10)], [Digit(n % 10)]);
      assert [Digit(m % 10)][1..] == [] && [Digit(n % 10)][1..] == [];
      assert m == 10 * (m / 10) + m % 10 && n == 10 * (n / 10) + n % 10;
    }
  }
}
