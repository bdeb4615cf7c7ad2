/** Lower-case hex text, as `encoding/hex.js` writes and reads it. */
module Hex {

  type Byte = x: int | 0 <= x < 256

  const DIGITS := "0123456789abcdef"

  function DigitChar(d: int): (c: char)
    requires 0 <= d < 16
  {
    DIGITS[d]
  }

  predicate IsHexChar(c: char)
  {
    '0' <= c <= '9' || 'a' <= c <= 'f' || 'A' <= c <= 'F'
  }

  function DigitValue(c: char): (d: int)
    requires IsHexChar(c)
    ensures 0 <= d < 16
  {
    if '0' <= c <= '9' then c as int - '0' as int
    else if 'a' <= c <= 'f' then c as int - 'a' as int + 10
    else c as int - 'A' as int + 10
  }

  lemma DigitRoundTrip(d: int)
    requires 0 <= d < 16
    ensures IsHexChar(DigitChar(d)) && DigitValue(DigitChar(d)) == d
    ensures 'A' > DigitChar(d) || DigitChar(d) > 'F'
  {
    assert DIGITS[0] == '0' && DIGITS[1] == '1' && DIGITS[2] == '2' && DIGITS[3] == '3';
    assert DIGITS[4] == '4' && DIGITS[5] == '5' && DIGITS[6] == '6' && DIGITS[7] == '7';
    assert DIGITS[8] == '8' && DIGITS[9] == '9' && DIGITS[10] == 'a' && DIGITS[11] == 'b';
    assert DIGITS[12] == 'c' && DIGITS[13] == 'd' && DIGITS[14] == 'e' && DIGITS[15] == 'f';
  }

  /** Two characters a byte. */
  function Encode(bytes: seq<Byte>): (text: string)
    ensures |text| == 2 * |bytes|
  {
    if bytes == [] then ""
    else [DigitChar(bytes[0] / 16), DigitChar(bytes[0] % 16)] + Encode(bytes[1..])
  }

  /** What Node's hex decoding keeps: the pairs before the first one that is not two hex digits. */
  function DecodePairs(text: string): (bytes: seq<Byte>)
    ensures 2 * |bytes| <= |text|
    decreases |text|
  {
    if |text| < 2 || !IsHexChar(text[0]) || !IsHexChar(text[1]) then []
    else [DigitValue(text[0]) * 16 + DigitValue(text[1])] + DecodePairs(text[2..])
  }

  function Decode(text: string): (bytes: seq<Byte>)
  {
    DecodePairs(if text[..if |text| < 2 then |text| else 2] == "0x" then text[2..] else text)
  }

  predicate AllHex(text: string)
  {
    forall i | 0 <= i < |text| :: IsHexChar(text[i])
  }

  lemma {:induction false} EncodeIsHex(bytes: seq<Byte>)
    ensures AllHex(Encode(bytes))
  {
    if bytes != [] {
      DigitRoundTrip(bytes[0] / 16);
      DigitRoundTrip(bytes[0] % 16);
      EncodeIsHex(bytes[1..]);
    }
  }

  lemma {:induction false} DecodePairsEncode(bytes: seq<Byte>)
    ensures DecodePairs(Encode(bytes)) == bytes
  {
    if bytes != [] {
      DigitRoundTrip(bytes[0] / 16);
      DigitRoundTrip(bytes[0] % 16);
      DecodePairsEncode(bytes[1..]);
      var text := Encode(bytes);
      assert text[2..] == Encode(bytes[1..]);
      assert bytes[0] / 16 * 16 + bytes[0] % 16 == bytes[0];
      assert bytes == [bytes[0]] + bytes[1..];
    }
  }

  /** Decoding undoes encoding, for every byte string. */
  lemma {:induction false} DecodeEncode(bytes: seq<Byte>)
    ensures Decode(Encode(bytes)) == bytes
  {
    DecodePairsEncode(bytes);
    EncodeIsHex(bytes);
    var text := Encode(bytes);
    if |text| >= 2 {
      assert IsHexChar(text[1]) && text[..2][1] == text[1];
    }
  }

  /** One more pair in front. */
  lemma OneDecoded(x: Byte, rest: string)
    ensures DecodePairs([DigitChar(x / 16), DigitChar(x % 16)] + rest) == [x] + DecodePairs(rest)
  {
    DigitRoundTrip(x / 16);
    DigitRoundTrip(x % 16);
    var text := [DigitChar(x / 16), DigitChar(x % 16)] + rest;
    assert text[2..] == rest && x / 16 * 16 + x % 16 == x;
  }

  /** Decoding ends before the first pair that is not two hex digits, or a last single character. */
  lemma {:induction false} DecodeStops(bytes: seq<Byte>, rest: string)
    requires |rest| < 2 || !IsHexChar(rest[0]) || !IsHexChar(rest[1])
    ensures DecodePairs(Encode(bytes) + rest) == bytes
  {
    if bytes == [] {
      assert Encode(bytes) + rest == rest;
    } else {
      var x := bytes[0];
      DecodeStops(bytes[1..], rest);
      OneDecoded(x, Encode(bytes[1..]) + rest);
      assert Encode(bytes) + rest == [DigitChar(x / 16), DigitChar(x % 16)] + (Encode(bytes[1..]) + rest);
      assert bytes == [x] + bytes[1..];
    }
  }

  /** 0 to 9 are the characters from '0' on, 10 to 15 those from 'a' on. */
  lemma DigitCharIs(d: int)
    requires 0 <= d < 16
    ensures DigitChar(d) as int == if d < 10 then '0' as int + d else 'a' as int + d - 10
  {
    DigitRoundTrip(d);
    assert DIGITS[0] == '0' && DIGITS[1] == '1' && DIGITS[2] == '2' && DIGITS[3] == '3';
    assert DIGITS[4] == '4' && DIGITS[5] == '5' && DIGITS[6] == '6' && DIGITS[7] == '7';
    assert DIGITS[8] == '8' && DIGITS[9] == '9' && DIGITS[10] == 'a' && DIGITS[11] == 'b';
    assert DIGITS[12] == 'c' && DIGITS[13] == 'd' && DIGITS[14] == 'e' && DIGITS[15] == 'f';
  }

  /** The number that bytes are in base 256, most significant first. */
  function Number(bytes: seq<Byte>): (n: nat)
  {
    if bytes == [] then 0 else Number(bytes[..|bytes| - 1]) * 256 + bytes[|bytes| - 1]
  }

  /** The number that hex digits are in base 16. */
  function HexNumber(text: string): (n: nat)
    requires AllHex(text)
  {
    if text == "" then 0 else HexNumber(text[..|text| - 1]) * 16 + DigitValue(text[|text| - 1])
  }

  lemma {:induction false} EncodeConcat(a: seq<Byte>, b: seq<Byte>)
    ensures Encode(a + b) == Encode(a) + Encode(b)
  {
    if a == [] {
      assert a + b == b;
    } else {
      EncodeConcat(a[1..], b);
      assert (a + b)[1..] == a[1..] + b;
    }
  }

  /** The text of the bytes, read in base 16, is the number that the bytes are in base 256. */
  lemma {:induction false} EncodeNumber(bytes: seq<Byte>)
    ensures AllHex(Encode(bytes)) && HexNumber(Encode(bytes)) == Number(bytes)
  {
    EncodeIsHex(bytes);
    if bytes != [] {
      var init, last := bytes[..|bytes| - 1], bytes[|bytes| - 1];
      EncodeNumber(init);
      EncodeConcat(init, [last]);
      assert bytes == init + [last];
      LastPair(Encode(init), Encode(bytes), last);
    }
  }

  lemma LastPair(before: string, text: string, last: Byte)
    requires AllHex(before) && text == before + [DigitChar(last / 16), DigitChar(last % 16)]
    ensures AllHex(text) && HexNumber(text) == HexNumber(before) * 256 + last
  {
    DigitRoundTrip(last / 16);
    DigitRoundTrip(last % 16);
    var one := text[..|text| - 1];
    assert one == before + [DigitChar(last / 16)] && one[..|one| - 1] == before;
  }
}
