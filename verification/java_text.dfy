/**
 * The few pieces of the Java runtime the model depends on: the ranges of
 * `int` and `short`, 32-bit wrap-around, `String.valueOf`, `String.indexOf`
 * and `String.contains`, and the digit strings produced by string
 * concatenation of an `int` and by `Integer.toHexString`.
 */
module JavaText {
  import opened Wrappers

  /** A Java `int`. */
  type Int32 = x: int | -0x8000_0000 <= x < 0x8000_0000

  /** A Java `short`. */
  type Int16 = x: int | -0x8000 <= x < 0x8000

  const TwoTo32: int := 0x1_0000_0000

  /** The result of Java `int` arithmetic: the exact value reduced to 32-bit two's complement. */
  function Wrap32(x: int): (r: Int32)
    ensures (r - x) % TwoTo32 == 0
    ensures -0x8000_0000 <= x < 0x8000_0000 ==> r == x
    ensures 0x8000_0000 <= x < TwoTo32 ==> r == x - TwoTo32
    ensures -TwoTo32 <= x < -0x8000_0000 ==> r == x + TwoTo32
  {
    var m := x % TwoTo32;
    if m < 0x8000_0000 then m else m - TwoTo32
  }

  /** The bit pattern of an `int` read as an unsigned number, as `Integer.toHexString` reads it. */
  function Unsigned32(x: Int32): (u: nat)
    ensures u < TwoTo32
    ensures Wrap32(u) == x
  {
    if x < 0 then x + TwoTo32 else x
  }

  /** `Character.forDigit(d, 16)`: the lower-case digit for `d`. */
  function DigitChar(d: nat): (c: char)
    requires d < 16
    ensures DigitValue(c) == d
  {
    if d < 10 then ('0' as int + d) as char else ('a' as int + d - 10) as char
  }

  /** The value of a lower-case hexadecimal digit, or -1 for any other character. */
  function DigitValue(c: char): (d: int)
    ensures -1 <= d < 16
    ensures d == -1 <==> !('0' <= c <= '9' || 'a' <= c <= 'f')
  {
    if '0' <= c <= '9' then c as int - '0' as int
    else if 'a' <= c <= 'f' then c as int - 'a' as int + 10
    else -1
  }

  lemma DigitCharOfValue(c: char)
    requires 0 <= DigitValue(c)
    ensures DigitChar(DigitValue(c)) == c
  {
  }

  predicate IsDigitIn(c: char, radix: nat) {
    0 <= DigitValue(c) < radix
  }

  /** The two bases the model prints numbers in: decimal and hexadecimal. */
  predicate IsRadix(radix: nat) {
    radix == 10 || radix == 16
  }

  /** Digits of `n` in base `radix`, most significant first, without leading zeros. */
  function NumeralText(n: nat, radix: nat): (s: string)
    requires IsRadix(radix)
    ensures |s| > 0
    ensures forall k :: 0 <= k < |s| ==> IsDigitIn(s[k], radix)
    ensures s[0] == '0' ==> n == 0
    decreases n
  {
    if n < radix then [DigitChar(n)]
    else if radix == 10 then NumeralText(n / 10, 10) + [DigitChar(n % 10)]
    else NumeralText(n / 16, 16) + [DigitChar(n % 16)]
  }

  /** The number a string of base-`radix` digits denotes. */
  function ParseNumeral(s: string, radix: nat): nat
    requires IsRadix(radix)
    requires forall k :: 0 <= k < |s| ==> IsDigitIn(s[k], radix)
  {
    if |s| == 0 then 0
    else
      assert IsDigitIn(s[|s| - 1], radix);
      if radix == 10 then ParseNumeral(s[..|s| - 1], 10) * 10 + DigitValue(s[|s| - 1])
    else ParseNumeral(s[..|s| - 1], 16) * 16 + DigitValue(s[|s| - 1])
  }

  /** Reading the digits back gives the number that was written. */
  lemma {:induction false} NumeralRoundTrip(n: nat, radix: nat)
    requires IsRadix(radix)
    ensures ParseNumeral(NumeralText(n, radix), radix) == n
    decreases n
  {
    var s := NumeralText(n, radix);
    if n >= radix {
      NumeralRoundTrip(n / radix, radix);
      assert s[..|s| - 1] == NumeralText(n / radix, radix);
    }
  }

  /** String concatenation of a non-negative `int` (`"" + n`, `StringBuilder.append(n)`). */
  function DecimalText(n: nat): string {
    NumeralText(n, 10)
  }

  /** `Integer.toHexString(x)`: the unsigned 32-bit value in lower-case hex, without leading zeros. */
  function HexText(x: Int32): string {
    NumeralText(Unsigned32(x), 16)
  }

  /** `Integer.toHexString(-1)` shows the full two's-complement pattern. */
  lemma HexTextOfMinusOne()
    ensures HexText(-1) == "ffffffff"
  {
    assert Unsigned32(-1) == 0xffff_ffff;
    assert NumeralText(0xf, 16) == "f";
    assert NumeralText(0xff, 16) == "ff";
    assert NumeralText(0xfff, 16) == "fff";
    assert NumeralText(0xffff, 16) == "ffff";
    assert NumeralText(0xf_ffff, 16) == "fffff";
    assert NumeralText(0xff_ffff, 16) == "ffffff";
    assert NumeralText(0xfff_ffff, 16) == "fffffff";
  }

  /** The hex text of an `int` determines the `int`. */
  lemma HexTextReadBack(x: Int32)
    ensures Wrap32(ParseNumeral(HexText(x), 16)) == x
  {
    NumeralRoundTrip(Unsigned32(x), 16);
  }

  /** `String.valueOf(o)` for an object whose `toString()` is the given text. */
  function ValueOf(o: Option<string>): string {
    match o
    case None => "null"
    case Some(s) => s
  }

  /** `pat` occurs in `s` starting at index `k`. */
  predicate OccursAt(s: string, pat: string, k: nat) {
    k + |pat| <= |s| && s[k..k + |pat|] == pat
  }

  /** `s.indexOf(pat)`: the first index at which `pat` occurs, or -1. */
  function IndexOf(s: string, pat: string): (k: int)
    ensures -1 <= k
    ensures k >= 0 ==> OccursAt(s, pat, k) && forall j: nat :: j < k ==> !OccursAt(s, pat, j)
    ensures k == -1 ==> forall j: nat :: !OccursAt(s, pat, j)
  {
    IndexFrom(s, pat, 0)
  }

  /** The first occurrence of `pat` in `s` at or after `from`, or -1. */
  function IndexFrom(s: string, pat: string, from: nat): (k: int)
    requires from <= |s|
    ensures k == -1 || from <= k
    ensures k >= 0 ==> OccursAt(s, pat, k) && forall j: nat :: from <= j < k ==> !OccursAt(s, pat, j)
    ensures k == -1 ==> forall j: nat :: from <= j ==> !OccursAt(s, pat, j)
    decreases |s| - from
  {
    if from + |pat| > |s| then -1
    else if s[from..from + |pat|] == pat then from
    else IndexFrom(s, pat, from + 1)
  }

  /** `s.contains(pat)`, which Java defines as `s.indexOf(pat) > -1`. */
  function Contains(s: string, pat: string): (b: bool)
    ensures b <==> exists k: nat :: OccursAt(s, pat, k)
  {
    IndexOf(s, pat) > -1
  }

  /** A text that lacks one of the characters of `pat` cannot contain `pat`. */
  lemma MissingCharNotContained(s: string, pat: string, c: char)
    requires c in pat && c !in s
    ensures !Contains(s, pat)
  {
  }
}
