/** Hexadecimal text: print_hex in the enclave and the "%02x" loops of the UE, and str_to_hex back. */
module Hex {

  /** ASCII codes, as the C sources use them. */
  const CHAR_0: bv8 := 0x30
  const CHAR_9: bv8 := 0x39
  const CHAR_UPPER_A: bv8 := 0x41
  const CHAR_UPPER_F: bv8 := 0x46
  const CHAR_LOWER_A: bv8 := 0x61
  const CHAR_LOWER_F: bv8 := 0x66

  /** hex_chars[nibble]. */
  function LowerDigit(nibble: bv8): bv8 {
    if nibble < 10 then CHAR_0 + nibble else CHAR_LOWER_A + (nibble - 10)
  }

  /** The lower-case text of a byte string, two digits a byte. */
  function Render(bytes: seq<bv8>): (text: seq<bv8>)
    ensures |text| == 2 * |bytes|
  {
    if bytes == [] then []
    else Render(bytes[..|bytes| - 1]) + [LowerDigit((bytes[|bytes| - 1] >> 4) & 0xf), LowerDigit(bytes[|bytes| - 1] & 0xf)]
  }

  /** The branches of str_to_hex, for one character: any character that is no digit and no upper-case
      hex digit is taken for a lower-case one. */
  function DigitValue(c: bv8): bv8 {
    if CHAR_0 <= c <= CHAR_9 then c - CHAR_0
    else if CHAR_UPPER_A <= c <= CHAR_UPPER_F then (c - CHAR_UPPER_A) + 0xa
    else (c - CHAR_LOWER_A) + 0xa
  }

  function PairValue(high: bv8, low: bv8): bv8 {
    (DigitValue(high) << 4) | DigitValue(low)
  }

  /** The bytes of a text; an odd last character is ignored. */
  function Decode(text: seq<bv8>): (bytes: seq<bv8>)
    ensures |bytes| == |text| / 2
  {
    seq(|text| / 2, i requires 0 <= i < |text| / 2 => PairValue(text[2 * i], text[2 * i + 1]))
  }

  predicate IsLowerHex(c: bv8) {
    CHAR_0 <= c <= CHAR_9 || CHAR_LOWER_A <= c <= CHAR_LOWER_F
  }

  function Upper(c: bv8): bv8 {
    if CHAR_LOWER_A <= c <= CHAR_LOWER_F then c - 0x20 else c
  }

  function UpperText(text: seq<bv8>): (r: seq<bv8>)
    ensures |r| == |text|
  {
    seq(|text|, i requires 0 <= i < |text| => Upper(text[i]))
  }

  lemma PairOfByte(b: bv8)
    ensures PairValue(LowerDigit((b >> 4) & 0xf), LowerDigit(b & 0xf)) == b
    ensures IsLowerHex(LowerDigit((b >> 4) & 0xf)) && IsLowerHex(LowerDigit(b & 0xf))
  {
  }

  lemma ByteOfPair(high: bv8, low: bv8)
    requires IsLowerHex(high) && IsLowerHex(low)
    ensures LowerDigit((PairValue(high, low) >> 4) & 0xf) == high
    ensures LowerDigit(PairValue(high, low) & 0xf) == low
  {
  }

  lemma UpperDigitValue(c: bv8)
    requires IsLowerHex(c)
    ensures DigitValue(Upper(c)) == DigitValue(c)
  {
  }

  /** The sixteen digits are those of the table hex_chars. */
  lemma LowerDigits()
    ensures [LowerDigit(0), LowerDigit(1), LowerDigit(2), LowerDigit(3)] == [0x30, 0x31, 0x32, 0x33]
    ensures [LowerDigit(4), LowerDigit(5), LowerDigit(6), LowerDigit(7)] == [0x34, 0x35, 0x36, 0x37]
    ensures [LowerDigit(8), LowerDigit(9), LowerDigit(10), LowerDigit(11)] == [0x38, 0x39, 0x61, 0x62]
    ensures [LowerDigit(12), LowerDigit(13), LowerDigit(14), LowerDigit(15)] == [0x63, 0x64, 0x65, 0x66]
  {
  }

  /** Where the digits of byte i are: the high nibble first. */
  lemma {:induction false} RenderAt(bytes: seq<bv8>, i: nat)
    requires i < |bytes|
    ensures Render(bytes)[2 * i] == LowerDigit((bytes[i] >> 4) & 0xf)
    ensures Render(bytes)[2 * i + 1] == LowerDigit(bytes[i] & 0xf)
    decreases |bytes|
  {
    hide LowerDigit;
    if i < |bytes| - 1 {
      RenderAt(bytes[..|bytes| - 1], i);
    }
  }

  lemma UpperPair(high: bv8, low: bv8)
    requires IsLowerHex(high) && IsLowerHex(low)
    ensures PairValue(Upper(high), Upper(low)) == PairValue(high, low)
  {
    hide Upper, DigitValue;
    UpperDigitValue(high);
    UpperDigitValue(low);
  }

  /** Decoding undoes rendering, in lower and in upper case. */
  lemma DecodeOfRender(bytes: seq<bv8>)
    ensures Decode(Render(bytes)) == bytes
    ensures Decode(UpperText(Render(bytes))) == bytes
  {
    hide LowerDigit, PairValue, Render, Upper;
    forall i | 0 <= i < |bytes|
      ensures Decode(Render(bytes))[i] == bytes[i]
      ensures Decode(UpperText(Render(bytes)))[i] == bytes[i]
    {
      RenderAt(bytes, i);
      PairOfByte(bytes[i]);
      UpperPair(Render(bytes)[2 * i], Render(bytes)[2 * i + 1]);
    }
  }

  /** Rendering undoes decoding exactly on texts of even length made of lower-case hex digits. */
  lemma RenderOfDecodeIff(text: seq<bv8>)
    ensures Render(Decode(text)) == text <==> |text| % 2 == 0 && forall i :: 0 <= i < |text| ==> IsLowerHex(text[i])
  {
    hide LowerDigit, PairValue, Render, IsLowerHex;
    var bytes := Decode(text);
    if Render(bytes) == text {
      forall i | 0 <= i < |text|
        ensures IsLowerHex(text[i])
      {
        RenderAt(bytes, i / 2);
        PairOfByte(bytes[i / 2]);
      }
    }
    if |text| % 2 == 0 && forall i :: 0 <= i < |text| ==> IsLowerHex(text[i]) {
      forall i | 0 <= i < |text|
        ensures Render(bytes)[i] == text[i]
      {
        var j := i / 2;
        RenderAt(bytes, j);
        ByteOfPair(text[2 * j], text[2 * j + 1]);
      }
    }
  }

  lemma RenderNothing()
    ensures Render([]) == []
  {
  }

  lemma RenderOneMore(bytes: seq<bv8>)
    requires bytes != []
    ensures var rest, last := bytes[..|bytes| - 1], bytes[|bytes| - 1];
      Render(bytes) == Render(rest) + [LowerDigit((last >> 4) & 0xf), LowerDigit(last & 0xf)]
  {
  }

  /** print_hex: the text of a buffer, with its terminator. */
  method PrintHex(buffer: array<bv8>, size: nat) returns (hexString: array<bv8>)
    requires size <= buffer.Length
    ensures fresh(hexString) && hexString.Length == size * 2 + 1
    ensures hexString[..] == Render(buffer[..size]) + [0]
  {
    hide LowerDigit, Render;
    hexString := new bv8[size * 2 + 1];
    RenderNothing();
    for i := 0 to size
      invariant hexString[..2 * i] == Render(buffer[..i])
    {
      RenderOneMore(buffer[..i + 1]);
      assert buffer[..i + 1][..i] == buffer[..i];
      hexString[i * 2] := LowerDigit((buffer[i] >> 4) & 0xf);
      hexString[i * 2 + 1] := LowerDigit(buffer[i] & 0xf);
    }
    hexString[size * 2] := 0;
  }

  lemma DigitBranches(c: bv8)
    ensures CHAR_0 <= c <= CHAR_9 ==> DigitValue(c) == c - CHAR_0
    ensures CHAR_UPPER_A <= c <= CHAR_UPPER_F && !(CHAR_0 <= c <= CHAR_9) ==> DigitValue(c) == (c - CHAR_UPPER_A) + 0xa
    ensures !(CHAR_0 <= c <= CHAR_9) && !(CHAR_UPPER_A <= c <= CHAR_UPPER_F) ==> DigitValue(c) == (c - CHAR_LOWER_A) + 0xa
  {
  }

  /** The first three branches of str_to_hex: the high nibble of byte i. */
  method SetHigh(hex: array<bv8>, i: nat, c: bv8)
    requires i < hex.Length
    modifies hex
    ensures hex[..] == old(hex[..])[i := DigitValue(c) << 4]
  {
    hide DigitValue;
    DigitBranches(c);
    if CHAR_0 <= c <= CHAR_9 {
      hex[i] := (c - CHAR_0) << 4;
    } else if CHAR_UPPER_A <= c <= CHAR_UPPER_F {
      hex[i] := ((c - CHAR_UPPER_A) + 0xa) << 4;
    } else {
      hex[i] := ((c - CHAR_LOWER_A) + 0xa) << 4;
    }
  }

  /** The last three branches: the low nibble, or-ed in. */
  method OrLow(hex: array<bv8>, i: nat, c: bv8)
    requires i < hex.Length
    modifies hex
    ensures hex[..] == old(hex[..])[i := old(hex[i]) | DigitValue(c)]
  {
    hide DigitValue;
    DigitBranches(c);
    if CHAR_0 <= c <= CHAR_9 {
      hex[i] := hex[i] | (c - CHAR_0);
    } else if CHAR_UPPER_A <= c <= CHAR_UPPER_F {
      hex[i] := hex[i] | ((c - CHAR_UPPER_A) + 0xa);
    } else {
      hex[i] := hex[i] | ((c - CHAR_LOWER_A) + 0xa);
    }
  }

  /** The body of the loop of str_to_hex. */
  method SetByte(hex: array<bv8>, i: nat, high: bv8, low: bv8)
    requires i < hex.Length
    modifies hex
    ensures hex[..] == old(hex[..])[i := PairValue(high, low)]
  {
    hide DigitValue;
    SetHigh(hex, i, high);
    OrLow(hex, i, low);
  }

  /** A buffer whose first i bytes have been decoded. */
  function Front(before: seq<bv8>, decoded: seq<bv8>, i: nat): seq<bv8>
    requires i <= |decoded| <= |before|
  {
    decoded[..i] + before[i..]
  }

  lemma FrontGrows(before: seq<bv8>, text: seq<bv8>, i: nat)
    requires i < |text| / 2 <= |before|
    ensures |Front(before, Decode(text), i)| == |before|
    ensures Front(before, Decode(text), i)[i := PairValue(text[2 * i], text[2 * i + 1])] == Front(before, Decode(text), i + 1)
  {
    hide PairValue;
  }

  lemma FrontEnds(before: seq<bv8>, decoded: seq<bv8>)
    requires |decoded| <= |before|
    ensures Front(before, decoded, 0) == before
    ensures Front(before, decoded, |decoded|) == decoded + before[|decoded|..]
  {
  }

  /** usim::str_to_hex: the bytes of a text, written to the front of a buffer. */
  method StrToHex(str: seq<bv8>, hex: array<bv8>)
    requires |str| / 2 <= hex.Length
    modifies hex
    ensures hex[..] == Decode(str) + old(hex[..])[|str| / 2..]
  {
    hide Decode, PairValue, Front;
    ghost var before := hex[..];
    FrontEnds(before, Decode(str));
    var len := |str|;
    for i := 0 to len / 2
      invariant hex[..] == Front(before, Decode(str), i)
    {
      FrontGrows(before, str, i);
      SetByte(hex, i, str[i * 2 + 0], str[i * 2 + 1]);
    }
  }
}
