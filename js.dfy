/**
 * The JavaScript string and number built-ins the framing protocol is written
 * with (`startsWith`, `indexOf`, `slice`, `parseInt`, number-to-string
 * conversion), each with the ECMAScript semantics for the arguments the core
 * passes to it.
 */
module Js {

  /** A JavaScript number as the core produces it: an integer or NaN. */
  datatype Number = Int(value: int) | NaN

  /** `a < b` on numbers: false as soon as NaN is involved. */
  predicate Less(a: Number, b: Number) {
    a.Int? && b.Int? && a.value < b.value
  }

  function Min(a: int, b: int): int {
    if a <= b then a else b
  }

  /** `s.startsWith(prefix)` */
  predicate StartsWith(s: string, prefix: string) {
    |prefix| <= |s| && s[..|prefix|] == prefix
  }

  /** `sub` occurs in `s` starting at position `k`. */
  predicate OccursAt(s: string, sub: string, k: int) {
    0 <= k && k + |sub| <= |s| && s[k..k + |sub|] == sub
  }

  /** `s.indexOf(sub)`: the first position where `sub` occurs, or -1. */
  function IndexOf(s: string, sub: string): (r: int)
    ensures -1 <= r <= |s|
    ensures r == -1 <==> forall k :: !OccursAt(s, sub, k)
    ensures r != -1 ==> OccursAt(s, sub, r) && forall k :: 0 <= k < r ==> !OccursAt(s, sub, k)
  {
    IndexOfFrom(s, sub, 0)
  }

  function IndexOfFrom(s: string, sub: string, k: nat): (r: int)
    decreases |s| - k
    ensures r == -1 || (k <= r && OccursAt(s, sub, r))
    ensures r == -1 ==> forall j :: k <= j ==> !OccursAt(s, sub, j)
    ensures r != -1 ==> forall j :: k <= j < r ==> !OccursAt(s, sub, j)
  {
    if k + |sub| > |s| then -1
    else if s[k..k + |sub|] == sub then k
    else IndexOfFrom(s, sub, k + 1)
  }

  /**
   * `s.slice(from, to)` for non-negative arguments: both ends are clamped to
   * the length and an empty range gives the empty string.
   */
  function Slice(s: string, from: nat, to: nat): string {
    var a := Min(from, |s|);
    var b := Min(to, |s|);
    if a < b then s[a..b] else ""
  }

  /** `s.slice(from)` for a non-negative argument. */
  function SliceFrom(s: string, from: nat): string {
    Slice(s, from, |s|)
  }

  /** The StrWhiteSpaceChar set: WhiteSpace (with every Zs code point) and LineTerminator. */
  predicate IsStrWhiteSpace(c: char) {
    || c == '\t' || c == '\n' || c == '\U{B}' || c == '\U{C}' || c == '\r'
    || c == ' ' || c == '\U{A0}' || c == '\U{1680}'
    || ('\U{2000}' <= c <= '\U{200A}')
    || c == '\U{2028}' || c == '\U{2029}' || c == '\U{202F}' || c == '\U{205F}'
    || c == '\U{3000}' || c == '\U{FEFF}'
  }

  /** `s.trimStart()` with the whitespace set `parseInt` skips. */
  function TrimStart(s: string): string {
    if |s| > 0 && IsStrWhiteSpace(s[0]) then TrimStart(s[1..]) else s
  }

  /** The value of a digit in radix 36; 36 for any other character. */
  function DigitValue(c: char): nat {
    if '0' <= c <= '9' then (c - '0') as nat
    else if 'a' <= c <= 'z' then (c - 'a') as nat + 10
    else if 'A' <= c <= 'Z' then (c - 'A') as nat + 10
    else 36
  }

  /** The longest prefix of `s` made of digits of the given radix. */
  function DigitPrefix(s: string, radix: nat): string {
    if |s| > 0 && DigitValue(s[0]) < radix then [s[0]] + DigitPrefix(s[1..], radix) else ""
  }

  /** The value of a digit string, most significant digit first. */
  function DigitsValue(z: string, radix: nat): nat {
    if |z| == 0 then 0
    else
      var high := DigitsValue(z[..|z| - 1], radix);
      MulNat(high, radix);
      high * radix + Min(DigitValue(z[|z| - 1]), radix) as nat
  }

  lemma MulNat(a: nat, b: nat)
    ensures a * b >= 0
  {
  }

  /**
   * `parseInt(s)` with no radix: skip leading white space, take an optional
   * sign, switch to radix 16 after a `0x`/`0X` prefix, and read the longest
   * run of digits; no digit at all gives NaN.
   */
  function ParseInt(s: string): Number {
    var t := TrimStart(s);
    var negative := |t| > 0 && t[0] == '-';
    var u := if |t| > 0 && (t[0] == '-' || t[0] == '+') then t[1..] else t;
    var hex := |u| >= 2 && u[0] == '0' && (u[1] == 'x' || u[1] == 'X');
    var radix := if hex then 16 else 10;
    var z := DigitPrefix(if hex then u[2..] else u, radix);
    if |z| == 0 then NaN
    else Int(if negative then -(DigitsValue(z, radix) as int) else DigitsValue(z, radix))
  }

  function DigitChar(d: nat): char
    requires d < 10
  {
    ('0' as int + d) as char
  }

  predicate IsDecimal(s: string) {
    forall i :: 0 <= i < |s| ==> '0' <= s[i] <= '9'
  }

  /** The decimal digits of `n`, as `String(n)` writes a non-negative integer. */
  function DecimalDigits(n: nat): (r: string)
    ensures |r| >= 1 && IsDecimal(r)
    ensures r[0] == '0' ==> r == "0"
  {
    if n < 10 then [DigitChar(n)] else DecimalDigits(n / 10) + [DigitChar(n % 10)]
  }

  /** Writing `10 * n + d` appends the digit `d` to the digits of `n`. */
  lemma DigitsAppend(n: nat, d: nat)
    requires n >= 1 && d < 10
    ensures DecimalDigits(10 * n + d) == DecimalDigits(n) + [DigitChar(d)]
  {
    var m := 10 * n + d;
    assert m / 10 == n && m % 10 == d;
  }

  /** `${x}` for an integer or NaN. */
  function NumberToString(x: Number): string {
    match x
    case NaN => "NaN"
    case Int(v) => if v < 0 then "-" + DecimalDigits(-v) else DecimalDigits(v)
  }

  /** `parts.join(sep)`: the parts with `sep` between neighbours; "" for no parts. */
  function Join(parts: seq<string>, sep: string): string {
    if |parts| == 0 then ""
    else if |parts| == 1 then parts[0]
    else parts[0] + sep + Join(parts[1..], sep)
  }

  /** Joining with the empty separator is plain concatenation, front first. */
  lemma JoinEmptyCons(x: string, rest: seq<string>)
    ensures Join([x] + rest, "") == x + Join(rest, "")
  {
    if |rest| > 0 {
      assert ([x] + rest)[1..] == rest;
    }
  }

  lemma {:induction false} DigitPrefixOfDecimal(s: string)
    requires IsDecimal(s)
    ensures DigitPrefix(s, 10) == s
  {
    if |s| > 0 {
      DigitPrefixOfDecimal(s[1..]);
    }
  }

  lemma {:induction false} DigitsValueOfDecimal(n: nat)
    ensures DigitsValue(DecimalDigits(n), 10) == n
  {
    if n >= 10 {
      var d := DecimalDigits(n / 10);
      var z := d + [DigitChar(n % 10)];
      assert z[..|z| - 1] == d;
      DigitsValueOfDecimal(n / 10);
    }
  }

  /** Reading back the decimal digits of a natural number gives the number. */
  lemma ParseDecimal(n: nat)
    ensures ParseInt(DecimalDigits(n)) == Int(n)
  {
    var d := DecimalDigits(n);
    assert !IsStrWhiteSpace(d[0]);
    assert TrimStart(d) == d;
    DigitPrefixOfDecimal(d);
    DigitsValueOfDecimal(n);
  }

  /** A string starting with a character that is neither white space, a sign nor a digit reads as NaN. */
  lemma ParseIntOfNonDigit(s: string)
    requires |s| > 0 && !IsStrWhiteSpace(s[0]) && s[0] != '-' && s[0] != '+' && DigitValue(s[0]) >= 10
    ensures ParseInt(s) == NaN
  {
    assert TrimStart(s) == s;
  }

  /** The first occurrence of a single-character string, found from its characters. */
  lemma IndexOfSeparator(a: string, c: char, b: string)
    requires c !in a
    ensures IndexOf(a + [c] + b, [c]) == |a|
  {
    var s := a + [c] + b;
    assert OccursAt(s, [c], |a|) by { assert s[|a|..|a| + 1] == [c]; }
    forall k | 0 <= k < |a|
      ensures !OccursAt(s, [c], k)
    {
      assert s[k..k + 1] == [a[k]];
    }
  }

  /** A character absent from a string: `indexOf` reports -1. */
  lemma IndexOfAbsent(s: string, c: char)
    requires c !in s
    ensures IndexOf(s, [c]) == -1
  {
    forall k | 0 <= k < |s|
      ensures !OccursAt(s, [c], k)
    {
      assert s[k..k + 1][0] == s[k];
    }
  }

  /** A prefix without the searched character shifts the first occurrence by its length. */
  lemma IndexOfAfterPrefix(a: string, rest: string, c: char)
    requires c !in a
    ensures IndexOf(a + rest, [c]) == if IndexOf(rest, [c]) == -1 then -1 else |a| + IndexOf(rest, [c])
  {
    var s := a + rest;
    var r := IndexOf(rest, [c]);
    forall k | 0 <= k < |a|
      ensures !OccursAt(s, [c], k)
    {
      assert s[k..k + 1] == [a[k]];
    }
    forall k | |a| <= k <= |s| - 1
      ensures OccursAt(s, [c], k) <==> OccursAt(rest, [c], k - |a|)
    {
      assert s[k..k + 1] == rest[k - |a|..k - |a| + 1];
    }
    if r != -1 {
      assert OccursAt(s, [c], |a| + r);
    }
  }
}
