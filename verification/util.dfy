/**
 * Model of the text helpers of `org.infinispan.util.Util`: `safeEquals`,
 * `formatString`, both `toHexString` overloads and `printArray`.
 *
 * Java objects are represented by their `toString()` text (`Option<string>`,
 * `None` for `null`), byte arrays by `seq<Byte>`, and the identity hash code
 * and the `infinispan.arrays.debug` flag that `printArray` reads are
 * parameters.
 */
module Util {
  import opened Wrappers
  import opened JavaText

  /** A Java `byte`, held as its bit pattern read as an unsigned number. */
  type Byte = b: int | 0 <= b < 0x100

  /** A Java `byte[]`; Java arrays hold fewer than 2^31 elements. */
  type ByteArray = s: seq<Byte> | |s| < 0x8000_0000

  /** The runtime exceptions these helpers can raise. */
  datatype Exception = NullPointerException | NegativeArraySizeException


  function Min(a: int, b: int): int {
    if a < b then a else b
  }

  // ---------------------------------------------------------------------------
  // safeEquals
  // ---------------------------------------------------------------------------

  /**
   * `safeEquals(a, b)`. Values of `T` are references, so `==` on them is Java's
   * reference comparison; `equals(x, b)` is the result of `x.equals(b)`.
   */
  function SafeEquals<T(==)>(a: Option<T>, b: Option<T>, equals: (T, Option<T>) -> bool): (r: bool)
    ensures a == b ==> r
    ensures a.None? && b.Some? ==> !r
    ensures a.Some? && a != b ==> (r <==> equals(a.value, b))
  {
    a == b || (a.Some? && equals(a.value, b))
  }

  /** The general contract of `Object.equals`: an equivalence on non-null references, false for `null`. */
  ghost predicate EqualsContract<T(!new)>(equals: (T, Option<T>) -> bool) {
    && (forall x :: equals(x, Some(x)))
    && (forall x, y :: equals(x, Some(y)) ==> equals(y, Some(x)))
    && (forall x, y, z :: equals(x, Some(y)) && equals(y, Some(z)) ==> equals(x, Some(z)))
    && (forall x :: !equals(x, None))
  }

  /** When `equals` honours its contract, `safeEquals` is an equivalence relation that also relates `null` to itself. */
  lemma SafeEqualsIsEquivalence<T(!new)>(equals: (T, Option<T>) -> bool, a: Option<T>, b: Option<T>, c: Option<T>)
    requires EqualsContract(equals)
    ensures SafeEquals(a, a, equals)
    ensures SafeEquals(a, b, equals) == SafeEquals(b, a, equals)
    ensures SafeEquals(a, b, equals) && SafeEquals(b, c, equals) ==> SafeEquals(a, c, equals)
    ensures SafeEquals(a, b, equals) ==> (a.None? <==> b.None?)
  {
  }

  // ---------------------------------------------------------------------------
  // formatString
  // ---------------------------------------------------------------------------

  /** `"{" + i + "}"`, the placeholder for parameter `i`. */
  function Placeholder(i: nat): (p: string)
    ensures |p| >= 3 && p[0] == '{' && p[|p| - 1] == '}'
    ensures forall k :: 1 <= k < |p| - 1 ==> IsDigitIn(p[k], 10)
    ensures ParseNumeral(p[1..|p| - 1], 10) == i
    ensures |p| > 3 ==> p[1] != '0'
  {
    var digits := DecimalText(i);
    NumeralRoundTrip(i, 10);
    assert ("{" + digits + "}")[1..|digits| + 1] == digits;
    "{" + digits + "}"
  }

  /** Placeholders of different parameters differ, so each substitution step looks for its own index. */
  lemma PlaceholdersDiffer(i: nat, j: nat)
    requires i != j
    ensures Placeholder(i) != Placeholder(j)
  {
  }

  /**
   * One step of `formatString`: `value.replace(k, k + |pat|, rep)` where `k` is
   * `value.indexOf(pat)`, done only when `k > -1`.
   */
  function ReplaceFirst(value: string, pat: string, rep: string): (r: string)
    ensures IndexOf(value, pat) == -1 ==> r == value
    ensures IndexOf(value, pat) >= 0 ==>
      var k := IndexOf(value, pat);
      && |r| == |value| - |pat| + |rep|
      && r[..k] == value[..k]
      && r[k..k + |rep|] == rep
      && r[k + |rep|..] == value[k + |pat|..]
  {
    var k := IndexOf(value, pat);
    if k > -1 then value[..k] + rep + value[k + |pat|..] else value
  }

  /**
   * `formatString(message, params)`: starting from `String.valueOf(message)`,
   * for `i` from 0 upwards replace the first `{i}` by `String.valueOf(params[i])`.
   */
  function FormatString(message: Option<string>, params: seq<Option<string>>): (r: string)
    ensures |params| == 0 ==> r == ValueOf(message)
  {
    if |params| == 0 then ValueOf(message)
    else SubstituteFrom(ValueOf(message), params, 0)
  }

  /** The loop of `formatString` from iteration `i` on. */
  function SubstituteFrom(value: string, params: seq<Option<string>>, i: nat): string
    requires i <= |params|
    decreases |params| - i
  {
    if i == |params| then value
    else SubstituteFrom(ReplaceFirst(value, Placeholder(i), ValueOf(params[i])), params, i + 1)
  }

  lemma {:induction false} SubstituteFromSnoc(value: string, params: seq<Option<string>>, p: Option<string>, i: nat)
    requires i <= |params|
    ensures SubstituteFrom(value, params + [p], i)
         == ReplaceFirst(SubstituteFrom(value, params, i), Placeholder(|params|), ValueOf(p))
    decreases |params| - i
  {
    if i < |params| {
      SubstituteStep(value, params, p, i);
      SubstituteFromSnoc(ReplaceFirst(value, Placeholder(i), ValueOf(params[i])), params, p, i + 1);
    } else {
      SubstituteLast(value, params, p);
    }
  }

  /** Before the new last parameter, one more parameter does not change an iteration. */
  lemma SubstituteStep(value: string, params: seq<Option<string>>, p: Option<string>, i: nat)
    requires i < |params|
    ensures var next := ReplaceFirst(value, Placeholder(i), ValueOf(params[i]));
      && SubstituteFrom(value, params + [p], i) == SubstituteFrom(next, params + [p], i + 1)
      && SubstituteFrom(value, params, i) == SubstituteFrom(next, params, i + 1)
  {
    assert (params + [p])[i] == params[i];
  }

  /** The iteration for the new last parameter is one replacement. */
  lemma SubstituteLast(value: string, params: seq<Option<string>>, p: Option<string>)
    ensures SubstituteFrom(value, params + [p], |params|) == ReplaceFirst(value, Placeholder(|params|), ValueOf(p))
    ensures SubstituteFrom(value, params, |params|) == value
  {
    var ps := params + [p];
    var next := ReplaceFirst(value, Placeholder(|params|), ValueOf(p));
    assert ps[|params|] == p;
    assert SubstituteFrom(value, ps, |params|) == SubstituteFrom(next, ps, |params| + 1);
  }

  /**
   * Substitutions happen in ascending index order: formatting with one more
   * parameter is formatting with the others and then replacing the first
   * placeholder of the new index in that result.
   */
  lemma {:induction false} FormatStringAscending(message: Option<string>, params: seq<Option<string>>, p: Option<string>)
    ensures FormatString(message, params + [p])
         == ReplaceFirst(FormatString(message, params), Placeholder(|params|), ValueOf(p))
  {
    SubstituteFromSnoc(ValueOf(message), params, p, 0);
  }

  /** Replacing a pattern that has a character the text lacks leaves the text as it is. */
  lemma ReplaceFirstAbsent(value: string, pat: string, rep: string, c: char)
    requires |pat| > 0 && pat[0] == c && c !in value
    ensures ReplaceFirst(value, pat, rep) == value
  {
    MissingCharNotContained(value, pat, c);
  }

  lemma {:induction false} SubstituteFromWithoutBraces(value: string, params: seq<Option<string>>, i: nat)
    requires i <= |params|
    requires '{' !in value
    ensures SubstituteFrom(value, params, i) == value
    decreases |params| - i
  {
    if i < |params| {
      ReplaceFirstAbsent(value, Placeholder(i), ValueOf(params[i]), '{');
      SubstituteFromWithoutBraces(value, params, i + 1);
    }
  }

  /** A message without any `{` has no placeholder to fill, so it comes back unchanged. */
  lemma FormatStringWithoutBraces(message: Option<string>, params: seq<Option<string>>)
    requires '{' !in ValueOf(message)
    ensures FormatString(message, params) == ValueOf(message)
  {
    if |params| > 0 {
      SubstituteFromWithoutBraces(ValueOf(message), params, 0);
    }
  }

  /**
   * Substitutions can cascade: a parameter whose text is a later placeholder
   * is itself replaced when the loop reaches that placeholder's index and the
   * inserted text is that placeholder's first occurrence.
   */
  lemma FormatStringCascades()
    ensures FormatString(Some("{0}"), [Some("{1}"), Some("x")]) == "x"
  {
    var params: seq<Option<string>> := [Some("{1}"), Some("x")];
    assert DecimalText(0) == "0" && DecimalText(1) == "1";
    assert Placeholder(0) == "{0}" && Placeholder(1) == "{1}";
    assert OccursAt("{0}", "{0}", 0);
    assert IndexOf("{0}", "{0}") == 0;
    var first := ReplaceFirst("{0}", Placeholder(0), ValueOf(params[0]));
    assert first == "{1}";
    assert OccursAt("{1}", "{1}", 0);
    assert IndexOf("{1}", "{1}") == 0;
    var second := ReplaceFirst(first, Placeholder(1), ValueOf(params[1]));
    assert second == "x";
    assert SubstituteFrom("{0}", params, 0) == SubstituteFrom(first, params, 1);
    assert SubstituteFrom(first, params, 1) == SubstituteFrom(second, params, 2);
  }

  /**
   * Cascading is not general: each step replaces the FIRST occurrence, so when
   * the message already holds the later placeholder before the inserted text,
   * the message's own occurrence is replaced and the inserted one survives.
   */
  lemma FormatStringFirstOccurrenceWins()
    ensures FormatString(Some("{1}{0}"), [Some("{1}"), Some("x")]) == "x{1}"
  {
    var params: seq<Option<string>> := [Some("{1}"), Some("x")];
    FirstPlaceholders();
    var first := MessageOwnPlaceholderFirst();
    var second := InsertedPlaceholderSurvives();
    assert SubstituteFrom("{1}{0}", params, 0) == SubstituteFrom(first, params, 1);
    assert SubstituteFrom(first, params, 1) == SubstituteFrom(second, params, 2);
  }

  /** The placeholders of parameters 0 and 1. */
  lemma FirstPlaceholders()
    ensures Placeholder(0) == "{0}" && Placeholder(1) == "{1}"
  {
    assert DecimalText(0) == "0" && DecimalText(1) == "1";
  }

  /** The first step of `FormatStringFirstOccurrenceWins`: `{0}` is found at index 3 and replaced by `{1}`. */
  lemma MessageOwnPlaceholderFirst() returns (first: string)
    ensures first == ReplaceFirst("{1}{0}", "{0}", "{1}")
    ensures first == "{1}{1}"
  {
    var m := "{1}{0}";
    assert m[0..3][1] == '1' && m[1..4][0] == '1' && m[2..5][0] == '}';
    assert !OccursAt(m, "{0}", 0) && !OccursAt(m, "{0}", 1) && !OccursAt(m, "{0}", 2);
    assert OccursAt(m, "{0}", 3);
    assert IndexOf(m, "{0}") == 3;
    first := ReplaceFirst(m, "{0}", "{1}");
    assert first == m[..3] + "{1}" + m[6..];
  }

  /** The second step: the first `{1}` is the message's own, so the inserted one stays. */
  lemma InsertedPlaceholderSurvives() returns (second: string)
    ensures second == ReplaceFirst("{1}{1}", "{1}", "x")
    ensures second == "x{1}"
  {
    var m := "{1}{1}";
    assert OccursAt(m, "{1}", 0);
    assert IndexOf(m, "{1}") == 0;
    second := ReplaceFirst(m, "{1}", "x");
    assert second == "x" + m[3..];
  }

  // ---------------------------------------------------------------------------
  // toHexString
  // ---------------------------------------------------------------------------

  /** The lookup table of `toHexString`. */
  const Lookup: seq<char> := ['0', '1', '2', '3', '4', '5', '6', '7',
                              '8', '9', 'a', 'b', 'c', 'd', 'e', 'f']

  lemma LookupIsDigitChar(d: nat)
    requires d < 16
    ensures Lookup[d] == DigitChar(d)
  {
  }

  /** The value Java computes with for a `byte`: sign-extended. */
  function Signed(b: Byte): (v: int)
    ensures -128 <= v < 128
    ensures v % 0x100 == b
  {
    if b < 0x80 then b else b - 0x100
  }

  /**
   * `(b >> 4) & 0x0F` on the sign-extended byte. Java's `>>` on an `int` is
   * division by 16 rounding down, and `& 0x0F` keeps the residue modulo 16;
   * Dafny's `/` and `%` by a positive constant are exactly these.
   */
  function HighNibble(b: Byte): (d: int)
    ensures d == b / 16
  {
    (Signed(b) / 16) % 16
  }

  /** `b & 0x0F` on the sign-extended byte. */
  function LowNibble(b: Byte): (d: int)
    ensures d == b % 16
  {
    Signed(b) % 16
  }

  /** The two characters `toHexString` writes for one byte. */
  function HexPair(b: Byte): (s: string)
    ensures |s| == 2
    ensures DigitValue(s[0]) == b / 16
    ensures DigitValue(s[1]) == b % 16
  {
    LookupIsDigitChar(HighNibble(b));
    LookupIsDigitChar(LowNibble(b));
    [Lookup[HighNibble(b)], Lookup[LowNibble(b)]]
  }

  /** The characters the loop of `toHexString` writes for `bytes`, in order. */
  function HexDigits(bytes: seq<Byte>): (s: string)
    ensures |s| == 2 * |bytes|
  {
    if |bytes| == 0 then []
    else HexDigits(bytes[..|bytes| - 1]) + HexPair(bytes[|bytes| - 1])
  }

  /** Characters `2i` and `2i+1` are the digits of the high and the low nibble of byte `i`. */
  lemma {:induction false} HexDigitsNibbles(bytes: seq<Byte>)
    ensures forall i :: 0 <= i < |bytes| ==>
      DigitValue(HexDigits(bytes)[2 * i]) == bytes[i] / 16
      && DigitValue(HexDigits(bytes)[2 * i + 1]) == bytes[i] % 16
  {
    if |bytes| > 0 {
      var front := bytes[..|bytes| - 1];
      HexDigitsNibbles(front);
      assert HexDigits(bytes) == HexDigits(front) + HexPair(bytes[|bytes| - 1]);
      forall i | 0 <= i < |bytes|
        ensures DigitValue(HexDigits(bytes)[2 * i]) == bytes[i] / 16
        ensures DigitValue(HexDigits(bytes)[2 * i + 1]) == bytes[i] % 16
      {
        if i < |front| {
          assert bytes[i] == front[i];
        }
      }
    }
  }

  /** `n` copies of the character `'\0'` that a fresh Java `char[]` holds. */
  function Nuls(n: nat): (s: string)
    ensures |s| == n
    ensures forall k :: 0 <= k < n ==> s[k] == '\0'
  {
    seq(n, _ => '\0')
  }

  /**
   * `toHexString(input, limit)`. The array size `min(length, limit) * 2` is
   * Java `int` arithmetic, so it wraps: a negative limit from -2^30 up throws,
   * a limit below -2^30 yields a string of `'\0'`s (the loop never runs), and
   * 2^30 or more bytes to print throw as well.
   */
  function ToHexString(input: Option<ByteArray>, limit: Int32): (r: Outcome<Option<string>, Exception>)
    ensures input.None? || |input.value| == 0 ==> r == Returned(None)
    ensures r.Threw? ==> r.exception == NegativeArraySizeException
    ensures input.Some? && |input.value| > 0 && 0 <= limit ==>
      var n := Min(|input.value|, limit);
      && (n < 0x4000_0000 ==>
            && r.Returned? && r.value.Some?
            && |r.value.value| == 2 * n
            && forall i :: 0 <= i < n ==>
                 DigitValue(r.value.value[2 * i]) == input.value[i] / 16
                 && DigitValue(r.value.value[2 * i + 1]) == input.value[i] % 16)
      && (n >= 0x4000_0000 ==> r.Threw?)
    ensures input.Some? && |input.value| > 0 && limit < 0 ==>
      && (-0x4000_0000 <= limit ==> r.Threw?)
      && (limit < -0x4000_0000 ==> r == Returned(Some(Nuls(2 * limit + TwoTo32))))
  {
    if input.None? || |input.value| <= 0 then Returned(None)
    else
      var bytes := input.value;
      var size := Wrap32(Min(|bytes|, limit) * 2);
      if size < 0 then Threw(NegativeArraySizeException)
      else
        var filled := if limit < 0 then 0 else Min(|bytes|, limit);
        assert HexDigits(bytes[..0]) == [];
        HexDigitsNibbles(bytes[..filled]);
        assert limit < 0 ==> size == 2 * limit + TwoTo32 || size < 0;
        assert limit < 0 ==> filled == 0 && HexDigits(bytes[..filled]) + Nuls(size) == Nuls(size);
        Returned(Some(HexDigits(bytes[..filled]) + Nuls(size - 2 * filled)))
  }

  /** After `i` iterations the buffer holds the digits of the first `i` bytes, then untouched `'\0'`s. */
  predicate FilledUpTo(buffer: string, bytes: seq<Byte>, i: nat) {
    && i <= |bytes|
    && 2 * i <= |buffer|
    && buffer[..2 * i] == HexDigits(bytes[..i])
    && forall k :: 2 * i <= k < |buffer| ==> buffer[k] == '\0'
  }

  /** One iteration of the loop of `toHexString` extends the filled prefix by one byte. */
  lemma FillNext(buffer: string, bytes: seq<Byte>, i: nat)
    requires FilledUpTo(buffer, bytes, i) && i < |bytes| && 2 * i + 2 <= |buffer|
    ensures FilledUpTo(buffer[2 * i := Lookup[HighNibble(bytes[i])]][2 * i + 1 := Lookup[LowNibble(bytes[i])]], bytes, i + 1)
  {
    var next := buffer[2 * i := Lookup[HighNibble(bytes[i])]][2 * i + 1 := Lookup[LowNibble(bytes[i])]];
    assert bytes[..i + 1][..i] == bytes[..i];
    assert HexDigits(bytes[..i + 1]) == HexDigits(bytes[..i]) + HexPair(bytes[i]);
    assert next[..2 * i + 2] == buffer[..2 * i] + HexPair(bytes[i]);
  }

  /** A buffer filled up to `i` is the digits of the first `i` bytes followed by `'\0'`s. */
  lemma FilledBuffer(buffer: string, bytes: seq<Byte>, i: nat)
    requires FilledUpTo(buffer, bytes, i)
    ensures buffer == HexDigits(bytes[..i]) + Nuls(|buffer| - 2 * i)
  {
    assert buffer == buffer[..2 * i] + buffer[2 * i..];
  }

  /** The size `toHexString` gives its buffer, when it is not negative. */
  lemma BufferSize(length: nat, limit: Int32, size: Int32)
    requires 0 < length < 0x8000_0000
    requires size == Wrap32(Min(length, limit) * 2) && 0 <= size
    ensures 0 <= limit ==> size == 2 * Min(length, limit)
  {
  }

  /** With a limit from 0 up, `toHexString` writes the digits of the first `min(length, limit)` bytes and nothing else. */
  lemma ToHexStringEncodesPrefix(input: ByteArray, limit: Int32)
    requires |input| > 0 && 0 <= limit && Min(|input|, limit) < 0x4000_0000
    ensures ToHexString(Some(input), limit) == Returned(Some(HexDigits(input[..Min(|input|, limit)])))
  {
    var n := Min(|input|, limit);
    BufferSize(|input|, limit, Wrap32(n * 2));
    assert HexDigits(input[..n]) + Nuls(0) == HexDigits(input[..n]);
  }

  /**
   * `toHexString(input, limit)` as Java's `while` loop computes it: one loop filling a
   * fresh `char[]` (held here as a sequence) two characters per byte.
   */
  method ToHexStringLoop(input: Option<ByteArray>, limit: Int32) returns (r: Outcome<Option<string>, Exception>)
    ensures r == ToHexString(input, limit)
  {
    if input.None? || |input.value| <= 0 {
      return Returned(None);
    }
    var bytes := input.value;
    var size := Wrap32((if |bytes| < limit then |bytes| else limit) * 2);
    if size < 0 {
      return Threw(NegativeArraySizeException);
    }
    BufferSize(|bytes|, limit, size);
    var result := FillHexBuffer(bytes, limit, size);
    if 0 <= limit {
      ToHexStringEncodesPrefix(bytes, limit);
    }
    return Returned(Some(result));
  }

  /**
   * The loop of `toHexString` on a fresh buffer of `size` characters: with a
   * limit from 0 up it fills the whole buffer with the digits of the first
   * `min(length, limit)` bytes; with a negative limit it never runs.
   */
  method FillHexBuffer(bytes: ByteArray, limit: Int32, size: nat) returns (result: string)
    requires 0 <= limit ==> size == 2 * Min(|bytes|, limit)
    ensures 0 <= limit ==> result == HexDigits(bytes[..Min(|bytes|, limit)])
    ensures limit < 0 ==> result == Nuls(size)
  {
    var i := 0;
    result := Nuls(size);
    while i < limit && i < |bytes|
      invariant limit < 0 ==> i == 0
      invariant 0 <= limit ==> i <= limit
      invariant |result| == size
      invariant FilledUpTo(result, bytes, i)
    {
      FillNext(result, bytes, i);
      result := result[2 * i := Lookup[HighNibble(bytes[i])]][2 * i + 1 := Lookup[LowNibble(bytes[i])]];
      i := i + 1;
    }
    FilledBuffer(result, bytes, i);
    if limit < 0 {
      assert HexDigits(bytes[..0]) == [];
    }
  }

  /** `toHexString(input)`: `input.length` is read before the call, so `null` throws. */
  function ToHexStringWhole(input: Option<ByteArray>): (r: Outcome<Option<string>, Exception>)
    ensures input.None? ==> r == Threw(NullPointerException)
    ensures input.Some? ==> r == ToHexString(input, |input.value|)
    ensures input.Some? && 0 < |input.value| < 0x4000_0000 ==>
      r.Returned? && r.value.Some? && |r.value.value| == 2 * |input.value|
  {
    match input
    case None => Threw(NullPointerException)
    case Some(bytes) => ToHexString(input, |bytes|)
  }

  // ---------------------------------------------------------------------------
  // printArray
  // ---------------------------------------------------------------------------

  const SizeTag: string := "ByteArray{size="
  const HashTag: string := ", hashCode="
  const ArrayTag: string := ", array=0x"
  const ElisionMark: string := ".."

  /** How many bytes `printArray` shows: all in debug mode, at most 8 otherwise. */
  function ShownBytes(length: nat, isDebug: bool): nat {
    if isDebug then length else Min(length, 8)
  }

  /** The `toHexString` call `printArray` makes: the whole array in debug mode, the first 8 bytes otherwise. */
  function PayloadHex(bytes: ByteArray, isDebug: bool): (r: Outcome<Option<string>, Exception>)
    ensures r.Threw? <==> isDebug && |bytes| >= 0x4000_0000
  {
    if isDebug then ToHexStringWhole(Some(bytes)) else ToHexString(Some(bytes), 8)
  }

  /**
   * `printArray(data, withHash, isDebug)` with `identityHash` standing for
   * `data.hashCode()`. A `null` hex string (from an empty array) is appended
   * as the text `null`.
   */
  function PrintArray(data: Option<ByteArray>, withHash: bool, isDebug: bool, identityHash: Int32): (r: Outcome<string, Exception>)
    ensures data.None? ==> r == Returned("null")
    ensures r.Threw? <==> data.Some? && isDebug && |data.value| >= 0x4000_0000
  {
    if data.None? then Returned("null")
    else
      var bytes := data.value;
      var hashPart := if withHash then HashTag + HexText(identityHash) else "";
      var hex := PayloadHex(bytes, isDebug);
      if hex.Threw? then Threw(hex.exception)
      else
        Returned(SizeTag + DecimalText(|bytes|) + hashPart + ArrayTag + ValueOf(hex.value)
                 + (if isDebug then "" else ElisionMark) + "}")
  }
}
