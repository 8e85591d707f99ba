/** The handful of Python string operations the booking and start-up code relies on:
    `str.strip`, `str.lower`, `str.startswith`, `str.replace(old, new, 1)` and `int(str)`. */
module Strings {

  datatype Option<+T> = None | Some(value: T)

  /** Python's `str.isspace` for one character: the characters of bidirectional class
      WS, B or S, or of general category Zs. */
  predicate IsSpace(c: char) {
    || ('\U{9}' <= c <= '\U{D}')
    || ('\U{1C}' <= c <= '\U{20}')
    || c == '\U{85}' || c == '\U{A0}' || c == '\U{1680}'
    || ('\U{2000}' <= c <= '\U{200A}')
    || c == '\U{2028}' || c == '\U{2029}' || c == '\U{202F}' || c == '\U{205F}' || c == '\U{3000}'
  }

  /** The white space `int()` skips around its digits: Python's `isspace` set without the
      four ASCII separators U+001C to U+001F, which `int()` treats as ordinary characters. */
  predicate IsIntSpace(c: char) {
    IsSpace(c) && !('\U{1C}' <= c <= '\U{1F}')
  }

  /** Which white space a strip drops: that of `str.strip()` or that of `int()`. */
  datatype Blanks = StrBlanks | IntBlanks

  predicate IsBlank(b: Blanks, c: char) {
    if b == StrBlanks then IsSpace(c) else IsIntSpace(c)
  }

  predicate AllSpace(s: string) {
    forall i :: 0 <= i < |s| ==> IsSpace(s[i])
  }

  /** The index of the first non-blank character of `s` at or after `i` (or `|s|`). */
  function StartIndex(b: Blanks, s: string, i: nat): (k: nat)
    requires i <= |s|
    ensures i <= k <= |s|
    ensures forall j :: i <= j < k ==> IsBlank(b, s[j])
    ensures k < |s| ==> !IsBlank(b, s[k])
    decreases |s| - i
  {
    if i < |s| && IsBlank(b, s[i]) then StartIndex(b, s, i + 1) else i
  }

  /** The end of `s[lo..e]` once its trailing blanks are dropped. */
  function EndIndex(b: Blanks, s: string, lo: nat, e: nat): (k: nat)
    requires lo <= e <= |s|
    ensures lo <= k <= e
    ensures forall j :: k <= j < e ==> IsBlank(b, s[j])
    ensures k > lo ==> !IsBlank(b, s[k - 1])
    decreases e
  {
    if e > lo && IsBlank(b, s[e - 1]) then EndIndex(b, s, lo, e - 1) else e
  }

  /** The slice of `s` from its first non-blank character to its last one; everything
      outside that slice is blank. */
  function StripBlanks(b: Blanks, s: string): (r: string)
    ensures var k := StartIndex(b, s, 0); k + |r| <= |s| && r == s[k..k + |r|]
    ensures var k := StartIndex(b, s, 0);
      forall i :: 0 <= i < |s| && !(k <= i < k + |r|) ==> IsBlank(b, s[i])
    ensures |r| > 0 ==> !IsBlank(b, r[0]) && !IsBlank(b, r[|r| - 1])
  {
    var k := StartIndex(b, s, 0);
    var e := EndIndex(b, s, k, |s|);
    s[k..e]
  }

  /** Python's `s.strip()` with no argument: the slice of `s` from its first non-space
      character to its last one; everything outside that slice is white space. */
  function Strip(s: string): (r: string)
    ensures var k := StartIndex(StrBlanks, s, 0); k + |r| <= |s| && r == s[k..k + |r|]
    ensures var k := StartIndex(StrBlanks, s, 0);
      forall i :: 0 <= i < |s| && !(k <= i < k + |r|) ==> IsSpace(s[i])
    ensures |r| > 0 ==> !IsSpace(r[0]) && !IsSpace(r[|r| - 1])
  {
    StripBlanks(StrBlanks, s)
  }

  /** The white space `int()` drops before reading digits. */
  function IntStrip(s: string): (r: string)
    ensures var k := StartIndex(IntBlanks, s, 0); k + |r| <= |s| && r == s[k..k + |r|]
    ensures var k := StartIndex(IntBlanks, s, 0);
      forall i :: 0 <= i < |s| && !(k <= i < k + |r|) ==> IsIntSpace(s[i])
    ensures |r| > 0 ==> !IsIntSpace(r[0]) && !IsIntSpace(r[|r| - 1])
  {
    StripBlanks(IntBlanks, s)
  }

  /** A field is empty after stripping exactly when it is all white space. */
  lemma StripEmptyIff(s: string)
    ensures Strip(s) == [] <==> AllSpace(s)
  {
    var k := StartIndex(StrBlanks, s, 0);
    assert AllSpace(s) ==> k == |s|;
  }

  /** Stripping twice is the same as stripping once. */
  lemma StripIdempotent(s: string)
    ensures Strip(Strip(s)) == Strip(s)
  {
    var r := Strip(s);
    if r != [] {
      StripNoOuterSpace(r);
    }
  }

  /** A string that neither starts nor ends with white space is its own strip. */
  lemma StripNoOuterSpace(s: string)
    requires s != [] && !IsSpace(s[0]) && !IsSpace(s[|s| - 1])
    ensures Strip(s) == s
  {
    StripBlanksNoOuter(StrBlanks, s);
  }

  lemma StripBlanksNoOuter(b: Blanks, s: string)
    requires s != [] && !IsBlank(b, s[0]) && !IsBlank(b, s[|s| - 1])
    ensures StripBlanks(b, s) == s
  {
    assert StartIndex(b, s, 0) == 0;
    assert EndIndex(b, s, 0, |s|) == |s|;
  }

  /** `str.lower` on one character, for the ASCII letters only. */
  function LowerChar(c: char): char {
    if 'A' <= c <= 'Z' then (c as int - 'A' as int + 'a' as int) as char else c
  }

  /** `str.lower` restricted to ASCII upper-case letters (see README). */
  function Lower(s: string): (r: string)
    ensures |r| == |s|
    ensures forall i :: 0 <= i < |s| ==> !('A' <= r[i] <= 'Z')
    ensures forall i :: 0 <= i < |s| && !('A' <= s[i] <= 'Z') ==> r[i] == s[i]
    ensures forall i :: 0 <= i < |s| && 'A' <= s[i] <= 'Z' ==> r[i] as int == s[i] as int + 32
  {
    seq(|s|, i requires 0 <= i < |s| => LowerChar(s[i]))
  }

  predicate StartsWith(s: string, prefix: string) {
    |prefix| <= |s| && s[..|prefix|] == prefix
  }

  /** The position of the first occurrence of `pat` in `s`, as Python's `str.find`. */
  function FindFirst(s: string, pat: string): (r: Option<nat>)
    ensures r.Some? ==> r.value + |pat| <= |s| && StartsWith(s[r.value..], pat)
    ensures r.Some? ==> forall k :: 0 <= k < r.value ==> !StartsWith(s[k..], pat)
    ensures r.None? ==> forall k :: 0 <= k <= |s| ==> !StartsWith(s[k..], pat)
    decreases |s|
  {
    if StartsWith(s, pat) then Some(0)
    else if s == [] then None
    else
      match FindFirst(s[1..], pat)
      case None =>
        assert forall k :: 1 <= k <= |s| ==> s[k..] == s[1..][k - 1..];
        None
      case Some(k) =>
        assert forall j :: 1 <= j <= k ==> s[j..] == s[1..][j - 1..];
        assert s[k + 1..] == s[1..][k..];
        Some(k + 1)
  }

  /** Python's `s.replace(pat, rep, 1)`: the first occurrence of `pat`, if any, is replaced
      by `rep` and the rest of `s` is kept verbatim. */
  function ReplaceFirst(s: string, pat: string, rep: string): (r: string)
    ensures FindFirst(s, pat).None? ==> r == s
    ensures FindFirst(s, pat).Some? ==>
      var k := FindFirst(s, pat).value;
      && |r| == |s| - |pat| + |rep|
      && r[..k] == s[..k]
      && StartsWith(r[k..], rep)
      && r[k + |rep|..] == s[k + |pat|..]
  {
    match FindFirst(s, pat)
    case None => s
    case Some(k) => s[..k] + rep + s[k + |pat|..]
  }

  /** When `s` starts with `pat`, `s.replace(pat, rep, 1)` swaps that prefix for `rep`. */
  lemma ReplaceFirstAtStart(s: string, pat: string, rep: string)
    requires StartsWith(s, pat)
    ensures ReplaceFirst(s, pat, rep) == rep + s[|pat|..]
  {
    var r := ReplaceFirst(s, pat, rep);
    assert FindFirst(s, pat) == Some(0);
    assert r[..|rep|] == rep;
  }

  predicate IsDigit(c: char) {
    '0' <= c <= '9'
  }

  function DigitValue(c: char): (d: nat)
    requires IsDigit(c)
    ensures d < 10
  {
    c as int - '0' as int
  }

  function DigitChar(d: nat): (c: char)
    requires d < 10
    ensures IsDigit(c) && DigitValue(c) == d
  {
    ('0' as int + d) as char
  }

  /** The digit part Python's `int()` accepts in base 10: digits, with single underscores
      allowed between two digits. */
  predicate IsDigitGroup(s: string) {
    && s != []
    && IsDigit(s[0]) && IsDigit(s[|s| - 1])
    && (forall i :: 0 <= i < |s| ==> IsDigit(s[i]) || s[i] == '_')
    && (forall i :: 0 <= i < |s| - 1 ==> s[i] == '_' ==> s[i + 1] != '_')
  }

  /** The value of a digit string, underscores ignored. */
  function DigitsValue(s: string): nat
    requires forall i :: 0 <= i < |s| ==> IsDigit(s[i]) || s[i] == '_'
  {
    if s == [] then 0
    else if s[|s| - 1] == '_' then DigitsValue(s[..|s| - 1])
    else 10 * DigitsValue(s[..|s| - 1]) + DigitValue(s[|s| - 1])
  }

  /** A digit group, optionally after one `+` or `-`: what `int()` reads once its white space is dropped. */
  predicate IsIntLiteral(t: string) {
    t != [] && (IsDigitGroup(t) || ((t[0] == '+' || t[0] == '-') && IsDigitGroup(t[1..])))
  }

  /** Python's `int(s)` in base 10: surrounding white space (`IsIntSpace`), an optional
      sign, then a digit group. `None` stands for the `ValueError` Python raises otherwise. */
  function ParseInt(s: string): (r: Option<int>)
    ensures r.Some? ==> IntStrip(s) != []
    ensures r.Some? ==>
      var t := IntStrip(s);
      || (IsDigitGroup(t) && r.value == DigitsValue(t))
      || (t[0] == '+' && IsDigitGroup(t[1..]) && r.value == DigitsValue(t[1..]))
      || (t[0] == '-' && IsDigitGroup(t[1..]) && r.value == -(DigitsValue(t[1..]) as int))
    ensures r.Some? <==> IsIntLiteral(IntStrip(s))
  {
    var t := IntStrip(s);
    if t == [] then None
    else
      var neg := t[0] == '-';
      var body := if t[0] == '-' || t[0] == '+' then t[1..] else t;
      if !IsDigitGroup(body) then None
      else
        var v: int := DigitsValue(body);
        Some(if neg then -v else v)
  }

  /** The decimal spelling of a natural number, without leading zeros. */
  function NatToString(n: nat): (s: string)
    ensures s != [] && forall i :: 0 <= i < |s| ==> IsDigit(s[i])
  {
    if n < 10 then [DigitChar(n)] else NatToString(n / 10) + [DigitChar(n % 10)]
  }

  lemma {:induction false} DigitsValueOfNatToString(n: nat)
    ensures DigitsValue(NatToString(n)) == n
  {
    var s := NatToString(n);
    if n >= 10 {
      assert s[..|s| - 1] == NatToString(n / 10);
      DigitsValueOfNatToString(n / 10);
    } else {
      assert s[..|s| - 1] == [];
    }
  }

  /** `int(str(n)) == n` for every natural number `n`. */
  lemma ParseIntOfNatToString(n: nat)
    ensures ParseInt(NatToString(n)) == Some(n)
  {
    var s := NatToString(n);
    StripBlanksNoOuter(IntBlanks, s);
    assert IsDigitGroup(s);
    DigitsValueOfNatToString(n);
  }

  /** A minus sign followed by a digit group reads as the group's value negated:
      `int("-0_7") == -7`, `int("-" + str(n)) == -n`. */
  lemma ParseIntOfNegative(d: string)
    requires IsDigitGroup(d)
    ensures ParseInt("-" + d) == Some(-(DigitsValue(d) as int))
  {
    var w := "-" + d;
    assert w[0] == '-' && w[1..] == d;
    StripBlanksNoOuter(IntBlanks, w);
    assert !IsDigitGroup(w) by { assert !IsDigit(w[0]); }
    assert IsIntLiteral(IntStrip(w));
  }

  /** A plus sign followed by a digit group reads as the group's value. */
  lemma ParseIntOfPositive(d: string)
    requires IsDigitGroup(d)
    ensures ParseInt("+" + d) == Some(DigitsValue(d) as int)
  {
    var w := "+" + d;
    assert w[0] == '+' && w[1..] == d;
    StripBlanksNoOuter(IntBlanks, w);
    assert !IsDigitGroup(w) by { assert !IsDigit(w[0]); }
    assert IsIntLiteral(IntStrip(w));
  }

  /** `int()` skips a no-break space but not the ASCII separator U+001C, which `strip()`
      would drop: `int("\xa03") == 3` while `int("\x1c3")` raises `ValueError`. */
  lemma ParseIntSeparatorIsNotSpace()
    ensures ParseInt("\U{A0}3") == Some(3)
    ensures ParseInt("\U{1C}3") == None
    ensures Strip("\U{1C}3") == "3"
  {
    var a := "\U{A0}3";
    assert StartIndex(IntBlanks, a, 0) == 1;
    assert EndIndex(IntBlanks, a, 1, 2) == 2;
    var c := "\U{1C}3";
    assert StartIndex(IntBlanks, c, 0) == 0;
    assert EndIndex(IntBlanks, c, 0, 2) == 2;
    assert StartIndex(StrBlanks, c, 0) == 1;
    assert EndIndex(StrBlanks, c, 1, 2) == 2;
  }
}
