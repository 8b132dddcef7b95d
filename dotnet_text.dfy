/**
 * The few .NET string operations the core relies on, restricted to what it
 * uses them for: `string.IsNullOrEmpty`, `string.StartsWith`, `int.TryParse`
 * with the default integer style, `int.ToString()` with the invariant
 * negative sign, and `StringComparison.OrdinalIgnoreCase` over ASCII letters.
 */
module DotNetText {
  import opened Base

  predicate IsNullOrEmpty(s: Option<string>) {
    s.None? || s.value == ""
  }

  predicate StartsWith(s: string, prefix: string) {
    |prefix| <= |s| && s[..|prefix|] == prefix
  }

  /** The white space `int.TryParse` skips at either end: U+0009..U+000D and U+0020. */
  predicate IsWhite(c: char) {
    c == ' ' || ('\t' <= c <= '\r')
  }

  predicate IsDigit(c: char) {
    '0' <= c <= '9'
  }

  /** `s` without its leading white space: only white space is removed, up to the first other character. */
  function TrimStart(s: string): (r: string)
    ensures |r| <= |s| && r == s[|s| - |r|..]
    ensures forall i :: 0 <= i < |s| - |r| ==> IsWhite(s[i])
    ensures r != [] ==> !IsWhite(r[0])
  {
    if s != [] && IsWhite(s[0]) then TrimStart(s[1..]) else s
  }

  /** `s` without its trailing white space: only white space is removed, back to the last other character. */
  function TrimEnd(s: string): (r: string)
    ensures |r| <= |s| && r == s[..|r|]
    ensures forall i :: |r| <= i < |s| ==> IsWhite(s[i])
    ensures r != [] ==> !IsWhite(r[|r| - 1])
  {
    if s != [] && IsWhite(s[|s| - 1]) then TrimEnd(s[..|s| - 1]) else s
  }

  /** The value of a string of decimal digits, most significant first. */
  function DigitsValue(s: string): nat
    requires AllDigits(s)
  {
    if s == [] then 0
    else
      assert IsDigit(s[|s| - 1]);
      DigitsValue(s[..|s| - 1]) * 10 + (s[|s| - 1] as int - '0' as int)
  }

  /** `int.TryParse(s, out v)`: optional white space, an optional sign, at least one digit, in range. */
  function TryParseInt32(s: string): (r: Option<int32>)
    ensures r.Some? ==> IntegerText(TrimEnd(TrimStart(s)))
  {
    ParseTrimmed(TrimEnd(TrimStart(s)))
  }

  /** The shape `int.TryParse` accepts once white space is trimmed: digits, possibly after one sign. */
  predicate IntegerText(t: string) {
    (t != [] && AllDigits(t)) || (|t| >= 2 && (t[0] == '-' || t[0] == '+') && AllDigits(t[1..]))
  }

  /** `int.TryParse` on text without surrounding white space. */
  function ParseTrimmed(t: string): (r: Option<int32>)
    ensures r.Some? ==> IntegerText(t)
  {
    if t != [] && t[0] == '-' then Signed(UnsignedValue(t[1..]), true)
    else if t != [] && t[0] == '+' then Signed(UnsignedValue(t[1..]), false)
    else Signed(UnsignedValue(t), false)
  }

  function UnsignedValue(d: string): Option<nat> {
    if d != [] && AllDigits(d) then Some(DigitsValue(d)) else None
  }

  /** The magnitude `m` with the given sign, when it fits an `int`. */
  function Signed(m: Option<nat>, negative: bool): Option<int32> {
    match m
    case None => None
    case Some(v) =>
      var x := if negative then -(v as int) else v;
      if -0x8000_0000 <= x < 0x8000_0000 then Some(x) else None
  }

  /** The decimal digits of `n`, without leading zeros. */
  function DecimalDigits(n: nat): (r: string)
    ensures r != [] && AllDigits(r)
  {
    var last := ('0' as int + n % 10) as char;
    if n < 10 then [last] else DecimalDigits(n / 10) + [last]
  }

  /** `n.ToString()` for a C# `int`, with the invariant culture's "-". */
  function Int32ToString(n: int32): (r: string)
    ensures r != [] && (r[0] == '-' <==> n < 0)
    ensures AllDigits(if n < 0 then r[1..] else r)
  {
    if n < 0 then "-" + DecimalDigits(-(n as int)) else DecimalDigits(n)
  }

  lemma {:induction false} DigitsValueOfDecimalDigits(n: nat)
    ensures DigitsValue(DecimalDigits(n)) == n
  {
    var s := DecimalDigits(n);
    if n >= 10 {
      DigitsValueOfDecimalDigits(n / 10);
      assert s[..|s| - 1] == DecimalDigits(n / 10);
    }
  }

  lemma TrimUnpadded(s: string)
    requires s != [] && !IsWhite(s[0]) && !IsWhite(s[|s| - 1])
    ensures TrimEnd(TrimStart(s)) == s
  {
  }

  predicate AllDigits(d: string) {
    forall i :: 0 <= i < |d| ==> IsDigit(d[i])
  }

  /** A digit string parses to its value when that is in range. */
  lemma ParseDigits(d: string)
    requires d != [] && AllDigits(d) && DigitsValue(d) < 0x8000_0000
    ensures TryParseInt32(d) == Some(DigitsValue(d))
  {
    assert IsDigit(d[0]) && IsDigit(d[|d| - 1]);
    TrimUnpadded(d);
  }

  /** A step of `ParseNegatedDigits`: the sign branch is taken once trimming changes nothing. */
  lemma ParseTrimmedNegative(s: string)
    requires s != [] && TrimEnd(TrimStart(s)) == s && s[0] == '-'
    ensures TryParseInt32(s) == Signed(UnsignedValue(s[1..]), true)
  {
  }

  /** A minus sign followed by a digit string parses to the negated value when that is in range. */
  lemma ParseNegatedDigits(s: string)
    requires |s| >= 2 && s[0] == '-' && AllDigits(s[1..]) && DigitsValue(s[1..]) <= 0x8000_0000
    ensures TryParseInt32(s) == Some(-(DigitsValue(s[1..]) as int))
  {
    assert IsDigit(s[1..][|s| - 2]);
    TrimUnpadded(s);
    ParseTrimmedNegative(s);
  }

  /** Surrounding white space is skipped: the padded and the trimmed text parse alike. */
  lemma ParseIgnoresPadding(s: string)
    ensures TryParseInt32(s) == TryParseInt32(TrimEnd(TrimStart(s)))
  {
    var u := TrimStart(s);
    var t := TrimEnd(u);
    if t != [] {
      assert t[0] == u[0];
      TrimUnpadded(t);
    }
  }

  /** A plus sign followed by a digit string parses to the value when that is in range. */
  lemma ParsePlusDigits(s: string)
    requires |s| >= 2 && s[0] == '+' && AllDigits(s[1..]) && DigitsValue(s[1..]) < 0x8000_0000
    ensures TryParseInt32(s) == Some(DigitsValue(s[1..]))
  {
    assert IsDigit(s[1..][|s| - 2]);
    TrimUnpadded(s);
  }

  /** Digit text whose value is outside the `int` range fails, bare, after '+' and after '-'. */
  lemma ParseOutOfRange(d: string)
    requires d != [] && AllDigits(d) && DigitsValue(d) >= 0x8000_0000
    ensures TryParseInt32(d) == None
    ensures TryParseInt32(['+'] + d) == None
    ensures DigitsValue(d) > 0x8000_0000 ==> TryParseInt32(['-'] + d) == None
  {
    assert IsDigit(d[0]) && IsDigit(d[|d| - 1]);
    TrimUnpadded(d);
    var plus, minus := ['+'] + d, ['-'] + d;
    assert plus[1..] == d && plus[|plus| - 1] == d[|d| - 1];
    assert minus[1..] == d && minus[|minus| - 1] == d[|d| - 1];
    TrimUnpadded(plus);
    assert TryParseInt32(plus) == Signed(UnsignedValue(d), false);
    TrimUnpadded(minus);
    assert TryParseInt32(minus) == Signed(UnsignedValue(d), true);
  }

  /** Printing an `int` and parsing it back gives the same `int`. */
  lemma Int32ToStringRoundTrip(n: int32)
    ensures TryParseInt32(Int32ToString(n)) == Some(n)
  {
    if n < 0 {
      NegativeRoundTrip(n);
    } else {
      DigitsValueOfDecimalDigits(n);
      ParseDigits(DecimalDigits(n));
    }
  }

  lemma NegativeRoundTrip(n: int32)
    requires n < 0
    ensures TryParseInt32(Int32ToString(n)) == Some(n)
  {
    var m: nat := -(n as int);
    var s := Int32ToString(n);
    DigitsValueOfDecimalDigits(m);
    assert s == "-" + DecimalDigits(m);
    assert s[1..] == DecimalDigits(m);
    ParseNegatedDigits(s);
  }

  /** Distinct `int`s print differently. */
  lemma Int32ToStringInjective(a: int32, b: int32)
    requires Int32ToString(a) == Int32ToString(b)
    ensures a == b
  {
    Int32ToStringRoundTrip(a);
    Int32ToStringRoundTrip(b);
  }

  /** The upper-case mapping `OrdinalIgnoreCase` applies, on ASCII letters. */
  function UpperAscii(c: char): (u: char)
    ensures !('a' <= u <= 'z')
    ensures 'a' <= c <= 'z' ==> 'A' <= u <= 'Z' && u as int - 'A' as int == c as int - 'a' as int
    ensures !('a' <= c <= 'z') ==> u == c
  {
    if 'a' <= c <= 'z' then (c as int - 32) as char else c
  }

  predicate EqualsIgnoreCase(a: string, b: string) {
    |a| == |b| && forall i :: 0 <= i < |a| ==> UpperAscii(a[i]) == UpperAscii(b[i])
  }

  /** Case-insensitive equality is an equivalence that ignores letter case. */
  lemma EqualsIgnoreCaseIsEquivalence(a: string, b: string, c: string)
    ensures EqualsIgnoreCase(a, a)
    ensures EqualsIgnoreCase(a, b) ==> EqualsIgnoreCase(b, a)
    ensures EqualsIgnoreCase(a, b) && EqualsIgnoreCase(b, c) ==> EqualsIgnoreCase(a, c)
  {
  }
}
