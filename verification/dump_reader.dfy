/**
 * Readers for the text `Util` produces: decoding a `toHexString` result back
 * into bytes, and taking a `printArray` frame apart into its fields. They are
 * the inverses against which the encoders are checked.
 */
module DumpReader {
  import opened Wrappers
  import opened JavaText
  import opened Util

  /** Reads lower-case hex text two digits per byte; `None` for odd length or a non-digit. */
  function DecodeHex(s: string): (r: Option<seq<Byte>>)
    ensures r.Some? ==> |s| == 2 * |r.value|
  {
    if |s| == 0 then Some([])
    else if |s| == 1 then None
    else
      var hi := DigitValue(s[|s| - 2]);
      var lo := DigitValue(s[|s| - 1]);
      if hi < 0 || lo < 0 then None
      else
        match DecodeHex(s[..|s| - 2])
        case None => None
        case Some(front) => Some(front + [(hi * 16 + lo)])
  }

  /** Decoding text that ends in two more characters decodes the rest, then one more byte. */
  lemma DecodeHexSnoc(front: string, c1: char, c2: char)
    ensures DecodeHex(front + [c1, c2])
         == if DigitValue(c1) < 0 || DigitValue(c2) < 0 || DecodeHex(front).None? then None
            else Some(DecodeHex(front).value + [DigitValue(c1) * 16 + DigitValue(c2)])
  {
    var s := front + [c1, c2];
    assert s[..|s| - 2] == front;
  }

  /** A byte is the number its two nibbles denote. */
  lemma ByteOfNibbles(b: Byte)
    ensures (b / 16) * 16 + b % 16 == b
  {
  }

  /** Decoding what `toHexString` writes gives back the bytes. */
  lemma {:induction false} DecodeHexDigits(bytes: seq<Byte>)
    ensures DecodeHex(HexDigits(bytes)) == Some(bytes)
  {
    if |bytes| > 0 {
      var front, b := bytes[..|bytes| - 1], bytes[|bytes| - 1];
      assert bytes == front + [b];
      DecodeHexDigits(front);
      HexDigitsSnoc(front, b);
      var pair := HexPair(b);
      assert pair == [pair[0], pair[1]];
      DecodeHexSnoc(HexDigits(front), pair[0], pair[1]);
      ByteOfNibbles(b);
    }
  }

  /** Two hex digits are what `toHexString` writes for the byte they denote. */
  lemma HexPairOfDigits(c1: char, c2: char, b: Byte)
    requires 0 <= DigitValue(c1) && 0 <= DigitValue(c2)
    requires b == DigitValue(c1) * 16 + DigitValue(c2)
    ensures HexPair(b) == [c1, c2]
  {
    var hi, lo := DigitValue(c1), DigitValue(c2);
    assert HighNibble(b) == hi && LowNibble(b) == lo;
    DigitCharOfValue(c1);
    DigitCharOfValue(c2);
    LookupIsDigitChar(hi);
    LookupIsDigitChar(lo);
  }

  /** Every text the decoder accepts is exactly what `toHexString` writes for the decoded bytes. */
  lemma {:induction false} HexDigitsOfDecoded(s: string)
    requires DecodeHex(s).Some?
    ensures HexDigits(DecodeHex(s).value) == s
  {
    if |s| > 0 {
      var frontText, c1, c2 := s[..|s| - 2], s[|s| - 2], s[|s| - 1];
      var front := DecodeHex(frontText).value;
      assert 0 <= DigitValue(c1) < 16 && 0 <= DigitValue(c2) < 16;
      var b: Byte := DigitValue(c1) * 16 + DigitValue(c2);
      assert DecodeHex(s).value == front + [b];
      HexDigitsOfDecoded(frontText);
      HexPairOfDigits(c1, c2, b);
      HexDigitsSnoc(front, b);
      assert HexDigits(front + [b]) == frontText + [c1, c2];
      SplitLastTwo(s);
    } else {
      assert DecodeHex(s).value == [];
    }
  }

  lemma HexDigitsSnoc(front: seq<Byte>, b: Byte)
    ensures HexDigits(front + [b]) == HexDigits(front) + HexPair(b)
  {
    assert (front + [b])[..|front|] == front;
  }

  lemma SplitLastTwo(s: string)
    requires |s| >= 2
    ensures s == s[..|s| - 2] + [s[|s| - 2], s[|s| - 1]]
  {
  }

  /**
   * `toHexString(input, limit)` on a non-empty array with a limit from 0 up
   * encodes exactly the first `min(length, limit)` bytes (as long as twice that
   * count fits in an `int`).
   */
  lemma ToHexStringRoundTrip(input: ByteArray, limit: Int32)
    requires |input| > 0 && 0 <= limit && Min(|input|, limit) < 0x4000_0000
    ensures ToHexString(Some(input), limit).Returned?
    ensures ToHexString(Some(input), limit).value.Some?
    ensures DecodeHex(ToHexString(Some(input), limit).value.value) == Some(input[..Min(|input|, limit)])
  {
    ToHexStringEncodesPrefix(input, limit);
    DecodeHexDigits(input[..Min(|input|, limit)]);
  }

  /** The one-argument `toHexString` encodes the whole array. */
  lemma ToHexStringWholeRoundTrip(input: ByteArray)
    requires 0 < |input| < 0x4000_0000
    ensures ToHexStringWhole(Some(input)).Returned?
    ensures ToHexStringWhole(Some(input)).value.Some?
    ensures DecodeHex(ToHexStringWhole(Some(input)).value.value) == Some(input)
  {
    ToHexStringRoundTrip(input, |input|);
    assert input[..|input|] == input;
  }

  // ---------------------------------------------------------------------------
  // Reading a printArray frame
  // ---------------------------------------------------------------------------

  /** The fields of a `ByteArray{...}` frame: its size, its hash code, the hex payload and whether `..` follows it. */
  datatype ArrayDump = ArrayDump(size: nat, hashCode: Option<nat>, payload: string, elided: bool)

  /** The longest prefix of `s` made of digits of the given radix. */
  function DigitRun(s: string, radix: nat): (d: string)
    requires IsRadix(radix)
    ensures |d| <= |s| && d == s[..|d|]
    ensures forall k :: 0 <= k < |d| ==> IsDigitIn(d[k], radix)
  {
    if |s| > 0 && IsDigitIn(s[0], radix) then [s[0]] + DigitRun(s[1..], radix) else []
  }

  lemma {:induction false} DigitRunOf(d: string, rest: string, radix: nat)
    requires IsRadix(radix)
    requires forall k :: 0 <= k < |d| ==> IsDigitIn(d[k], radix)
    requires |rest| > 0 && !IsDigitIn(rest[0], radix)
    ensures DigitRun(d + rest, radix) == d
  {
    if |d| > 0 {
      assert (d + rest)[0] == d[0];
      assert (d + rest)[1..] == d[1..] + rest;
      DigitRunOf(d[1..], rest, radix);
    }
  }

  /** Takes a `printArray` text apart; `None` if it is not a `ByteArray{...}` frame. */
  function ParseDump(s: string): Option<ArrayDump> {
    if |s| < |SizeTag| || s[..|SizeTag|] != SizeTag then None
    else ParseSizeField(s[|SizeTag|..])
  }

  /** Reads the size digits, then the rest of the frame. */
  function ParseSizeField(s: string): Option<ArrayDump> {
    var sizeDigits := DigitRun(s, 10);
    if |sizeDigits| == 0 then None
    else ParseHashField(ParseNumeral(sizeDigits, 10), s[|sizeDigits|..])
  }

  /** Reads the optional `, hashCode=` field, then the array field. */
  function ParseHashField(size: nat, s: string): Option<ArrayDump> {
    if |s| >= |HashTag| && s[..|HashTag|] == HashTag then
      var hashDigits := DigitRun(s[|HashTag|..], 16);
      ParseArrayField(size, Some(ParseNumeral(hashDigits, 16)), s[|HashTag| + |hashDigits|..])
    else ParseArrayField(size, None, s)
  }

  /** Reads `, array=0x`, the payload, the optional `..` and the closing `}`. */
  function ParseArrayField(size: nat, hashCode: Option<nat>, s: string): Option<ArrayDump> {
    if |s| <= |ArrayTag| || s[..|ArrayTag|] != ArrayTag || s[|s| - 1] != '}' then None
    else
      var inner := s[|ArrayTag|..|s| - 1];
      var elided := |inner| >= 2 && inner[|inner| - 2..] == ElisionMark;
      Some(ArrayDump(size, hashCode, if elided then inner[..|inner| - 2] else inner, elided))
  }

  /** A `ByteArray{...}` frame built from its fields, in the order `printArray` appends them. */
  function Frame(sizeDigits: string, hashDigits: Option<string>, payload: string, elided: bool): string {
    SizeTag + sizeDigits + (if hashDigits.Some? then HashTag + hashDigits.value else "") + ArrayTag + payload
    + (if elided then ElisionMark else "") + "}"
  }

  /** The text after the size digits: optional hash field, array field, payload, optional `..`, `}`. */
  function FrameTail(hashDigits: Option<string>, payload: string, elided: bool): string {
    (if hashDigits.Some? then HashTag + hashDigits.value else "") + ArrayField(payload, elided)
  }

  function ArrayField(payload: string, elided: bool): string {
    ArrayTag + (payload + (if elided then ElisionMark else "")) + "}"
  }

  lemma FrameSplit(sizeDigits: string, hashDigits: Option<string>, payload: string, elided: bool)
    ensures Frame(sizeDigits, hashDigits, payload, elided) == SizeTag + (sizeDigits + FrameTail(hashDigits, payload, elided))
  {
    var h := if hashDigits.Some? then HashTag + hashDigits.value else "";
    var m := if elided then ElisionMark else "";
    calc {
      Frame(sizeDigits, hashDigits, payload, elided);
      SizeTag + sizeDigits + h + ArrayTag + payload + m + "}";
      { assert ArrayTag + payload + m == ArrayTag + (payload + m); }
      SizeTag + sizeDigits + h + (ArrayTag + (payload + m) + "}");
      SizeTag + (sizeDigits + (h + ArrayField(payload, elided)));
    }
  }

  /** Reading the array field: payload and `..` come back apart. */
  lemma ReadArrayField(size: nat, hashCode: Option<nat>, payload: string, elided: bool)
    requires |payload| > 0 && payload[|payload| - 1] != '.'
    ensures ParseArrayField(size, hashCode, ArrayField(payload, elided)) == Some(ArrayDump(size, hashCode, payload, elided))
  {
    var mark := if elided then ElisionMark else "";
    var a := ArrayField(payload, elided);
    assert a == ArrayTag + (payload + mark) + "}";
    assert a[..|ArrayTag|] == ArrayTag;
    var inner := a[|ArrayTag|..|a| - 1];
    assert inner == payload + mark;
    if elided {
      assert inner[|inner| - 2..] == ElisionMark;
      assert inner[..|inner| - 2] == payload;
    } else {
      assert inner == payload;
      if |inner| >= 2 {
        assert inner[|inner| - 2..][1] == payload[|payload| - 1];
        assert inner[|inner| - 2..] != ElisionMark;
      }
    }
  }

  /** Reading a frame's tail back from the hash field on. */
  lemma ReadHashField(size: nat, hashDigits: Option<string>, payload: string, elided: bool)
    requires hashDigits.Some? ==> forall k :: 0 <= k < |hashDigits.value| ==> IsDigitIn(hashDigits.value[k], 16)
    requires |payload| > 0 && payload[|payload| - 1] != '.'
    ensures ParseHashField(size, FrameTail(hashDigits, payload, elided))
         == Some(ArrayDump(size, if hashDigits.Some? then Some(ParseNumeral(hashDigits.value, 16)) else None, payload, elided))
  {
    var rest := ArrayField(payload, elided);
    var t := FrameTail(hashDigits, payload, elided);
    if hashDigits.Some? {
      var x := hashDigits.value;
      assert t == HashTag + (x + rest);
      assert t[..|HashTag|] == HashTag;
      assert t[|HashTag|..] == x + rest;
      assert rest[0] == ',';
      DigitRunOf(x, rest, 16);
      assert t[|HashTag| + |x|..] == rest;
      ReadArrayField(size, Some(ParseNumeral(x, 16)), payload, elided);
    } else {
      assert t == rest;
      assert |t| >= |HashTag| ==> t[2] != HashTag[2];
      ReadArrayField(size, None, payload, elided);
    }
  }

  /** A frame reads back as the fields it was written from. */
  lemma ReadFrame(sizeDigits: string, hashDigits: Option<string>, payload: string, elided: bool)
    requires |sizeDigits| > 0 && forall k :: 0 <= k < |sizeDigits| ==> IsDigitIn(sizeDigits[k], 10)
    requires hashDigits.Some? ==> forall k :: 0 <= k < |hashDigits.value| ==> IsDigitIn(hashDigits.value[k], 16)
    requires |payload| > 0 && payload[|payload| - 1] != '.'
    ensures ParseDump(Frame(sizeDigits, hashDigits, payload, elided))
         == Some(ArrayDump(ParseNumeral(sizeDigits, 10),
                           if hashDigits.Some? then Some(ParseNumeral(hashDigits.value, 16)) else None,
                           payload, elided))
  {
    var t := FrameTail(hashDigits, payload, elided);
    var s := Frame(sizeDigits, hashDigits, payload, elided);
    FrameSplit(sizeDigits, hashDigits, payload, elided);
    assert s[..|SizeTag|] == SizeTag;
    assert s[|SizeTag|..] == sizeDigits + t;
    assert ParseDump(s) == ParseSizeField(sizeDigits + t);
    assert t[0] == ',';
    DigitRunOf(sizeDigits, t, 10);
    assert (sizeDigits + t)[|sizeDigits|..] == t;
    assert ParseSizeField(sizeDigits + t) == ParseHashField(ParseNumeral(sizeDigits, 10), t);
    ReadHashField(ParseNumeral(sizeDigits, 10), hashDigits, payload, elided);
  }

  // ---------------------------------------------------------------------------
  // printArray read back
  // ---------------------------------------------------------------------------

  /** The text `toHexString` writes for a non-empty array ends in a hex digit. */
  lemma HexDigitsEndInDigit(bytes: seq<Byte>)
    requires |bytes| > 0
    ensures var s := HexDigits(bytes); |s| > 0 && s[|s| - 1] != '.'
  {
    HexDigitsNibbles(bytes);
    var i := |bytes| - 1;
    assert DigitValue(HexDigits(bytes)[2 * i + 1]) == bytes[i] % 16;
  }

  /** The payload `printArray` writes after `0x`: `null` for an empty array, else the shown bytes in hex. */
  lemma PrintArrayPayload(bytes: ByteArray, isDebug: bool)
    requires PayloadHex(bytes, isDebug).Returned?
    ensures |bytes| == 0 ==> ValueOf(PayloadHex(bytes, isDebug).value) == "null"
    ensures |bytes| > 0 ==> ValueOf(PayloadHex(bytes, isDebug).value) == HexDigits(bytes[..ShownBytes(|bytes|, isDebug)])
  {
    if |bytes| > 0 {
      ToHexStringEncodesPrefix(bytes, if isDebug then |bytes| else 8);
    }
  }

  /** The hash digits `printArray` writes, if any. */
  function HashDigits(withHash: bool, identityHash: Int32): Option<string> {
    if withHash then Some(HexText(identityHash)) else None
  }

  /** `printArray`'s text is a frame made of the length, the hash digits and the payload. */
  lemma PrintArrayIsFrame(bytes: ByteArray, withHash: bool, isDebug: bool, identityHash: Int32)
    requires PrintArray(Some(bytes), withHash, isDebug, identityHash).Returned?
    ensures PrintArray(Some(bytes), withHash, isDebug, identityHash).value
         == Frame(DecimalText(|bytes|), HashDigits(withHash, identityHash), ValueOf(PayloadHex(bytes, isDebug).value), !isDebug)
  {
  }

  /**
   * A `printArray` frame reads back as the array's length, the hash code, the
   * shown bytes (or `null` for an empty array) and whether `..` was appended.
   */
  lemma PrintArrayReadBack(bytes: ByteArray, withHash: bool, isDebug: bool, identityHash: Int32)
    requires PrintArray(Some(bytes), withHash, isDebug, identityHash).Returned?
    ensures var d := ParseDump(PrintArray(Some(bytes), withHash, isDebug, identityHash).value);
      && d.Some?
      && d.value.size == |bytes|
      && d.value.hashCode == (if withHash then Some(Unsigned32(identityHash)) else None)
      && d.value.elided == !isDebug
      && (|bytes| == 0 ==> d.value.payload == "null")
      && (|bytes| > 0 ==> DecodeHex(d.value.payload) == Some(bytes[..ShownBytes(|bytes|, isDebug)]))
  {
    var payload := ValueOf(PayloadHex(bytes, isDebug).value);
    PrintArrayPayload(bytes, isDebug);
    var shown := bytes[..ShownBytes(|bytes|, isDebug)];
    if |bytes| > 0 {
      HexDigitsEndInDigit(shown);
      DecodeHexDigits(shown);
    }
    PrintArrayIsFrame(bytes, withHash, isDebug, identityHash);
    ReadFrame(DecimalText(|bytes|), HashDigits(withHash, identityHash), payload, !isDebug);
    NumeralRoundTrip(|bytes|, 10);
    NumeralRoundTrip(Unsigned32(identityHash), 16);
  }

  /** An empty array has no hex text, so `printArray` writes the word `null` after `0x`. */
  lemma PrintArrayOfEmpty(isDebug: bool, identityHash: Int32)
    ensures PrintArray(Some([]), false, isDebug, identityHash)
         == Returned(if isDebug then "ByteArray{size=0, array=0xnull}" else "ByteArray{size=0, array=0xnull..}")
  {
    assert DecimalText(0) == "0";
    assert PayloadHex([], isDebug) == Returned(None);
    PrintArrayIsFrame([], false, isDebug, identityHash);
    PlainEmptyFrame(!isDebug);
  }

  lemma PlainEmptyFrame(elided: bool)
    ensures Frame("0", None, "null", elided)
         == if elided then "ByteArray{size=0, array=0xnull..}" else "ByteArray{size=0, array=0xnull}"
  {
    var front := SizeTag + "0" + "" + ArrayTag + "null";
    assert front == "ByteArray{size=0, array=0xnull";
    if elided {
      assert front + ElisionMark + "}" == "ByteArray{size=0, array=0xnull..}";
    } else {
      assert front + "" + "}" == "ByteArray{size=0, array=0xnull}";
    }
  }

  /** The same with the hash code shown: a negative identity hash is printed as its unsigned pattern. */
  lemma PrintArrayOfEmptyWithHash()
    ensures PrintArray(Some([]), true, false, -1) == Returned("ByteArray{size=0, hashCode=ffffffff, array=0xnull..}")
  {
    assert DecimalText(0) == "0";
    assert PayloadHex([], false) == Returned(None);
    HexTextOfMinusOne();
    PrintArrayIsFrame([], true, false, -1);
    HashedEmptyFrame();
  }

  lemma HashedEmptyFrame()
    ensures Frame("0", Some("ffffffff"), "null", true) == "ByteArray{size=0, hashCode=ffffffff, array=0xnull..}"
  {
    var head := SizeTag + "0" + (HashTag + "ffffffff");
    assert head == "ByteArray{size=0, hashCode=ffffffff";
    var front := head + ArrayTag + "null";
    assert front == "ByteArray{size=0, hashCode=ffffffff, array=0xnull";
    assert front + ElisionMark + "}" == "ByteArray{size=0, hashCode=ffffffff, array=0xnull..}";
  }
}
