/** Entity IDs as 20-byte Solidity addresses. */
module SolidityAddresses {
  import opened Results
  import opened Longs
  import opened Hex
  import opened BigEndians

  const TWO_53: int := 0x20_0000_0000_0000

  datatype Triple = Triple(shard: Long, realm: Long, num: Long)

  /** The power of two between consecutive doubles at `x`, starting the search at `u`. */
  function Unit(x: nat, u: nat): (r: nat)
    requires u > 0
    ensures r > 0
    decreases x - u
  {
    if x < TWO_53 * u then u else Unit(x, 2 * u)
  }

  /** The double nearest to `x`, ties to even. */
  function Round(x: nat): (r: nat)
    ensures x < TWO_53 ==> r == x
  {
    var u := Unit(x, 1);
    var q, rest := x / u, x % u;
    if 2 * rest < u || (2 * rest == u && q % 2 == 0) then q * u else (q + 1) * u
  }

  /** `convertToNumber`: the Long's text read by `parseInt`. */
  function ToNumber(x: Long): (r: int)
    ensures 0 <= x < TWO_53 ==> r == x
  {
    if x < 0 then -(Round(-(x as int)) as int) else Round(x)
  }

  /** What `setUint32` stores. */
  function ToUint32(x: Long): (r: int)
    ensures 0 <= r < TWO_32
    ensures 0 <= x < TWO_32 ==> r == x
  {
    ToNumber(x) % TWO_32
  }

  /** A number that a double holds exactly is stored modulo 2^32. */
  lemma StoredModulo(x: Long)
    requires -TWO_53 < x < TWO_53
    ensures ToUint32(x) == x % TWO_32
  {
  }

  const ZEROS: seq<Byte> := [0, 0, 0, 0]

  function Bytes(t: Triple): (b: seq<Byte>)
    ensures |b| == 20
  {
    BigEndian(ToUint32(t.shard)) + ZEROS + BigEndian(ToUint32(t.realm)) + ZEROS + BigEndian(ToUint32(t.num))
  }

  function Encoded(t: Triple): string
  {
    Encode(Bytes(t))
  }

  method ToSolidityAddress(t: Triple) returns (text: string)
    ensures text == Encoded(t)
  {
    var buffer := new Byte[20](_ => 0);
    ghost var zeros := buffer[..];
    SetUint32(buffer, 0, ToUint32(t.shard));
    SetUint32(buffer, 8, ToUint32(t.realm));
    SetUint32(buffer, 16, ToUint32(t.num));
    Assembled(zeros, BigEndian(ToUint32(t.shard)), BigEndian(ToUint32(t.realm)), BigEndian(ToUint32(t.num)));
    assert buffer[..] == Bytes(t);
    text := Encode(buffer[..]);
  }

  lemma Assembled(zeros: seq<Byte>, a: seq<Byte>, b: seq<Byte>, c: seq<Byte>)
    requires |zeros| == 20 && (forall k | 0 <= k < 20 :: zeros[k] == 0) && |a| == |b| == |c| == 4
    ensures var first := zeros[..0] + a + zeros[4..];
            var second := first[..8] + b + first[12..];
            second[..16] + c + second[20..] == a + ZEROS + b + ZEROS + c
  {
    assert zeros == ZEROS + ZEROS + ZEROS + ZEROS + ZEROS;
    var first := zeros[..0] + a + zeros[4..];
    assert first == a + ZEROS + ZEROS + ZEROS + ZEROS;
    var second := first[..8] + b + first[12..];
    assert second == a + ZEROS + b + ZEROS + ZEROS;
  }

  method SetUint32(buffer: array<Byte>, offset: nat, value: int)
    requires offset + 4 <= buffer.Length && 0 <= value < TWO_32
    modifies buffer
    ensures buffer[..] == old(buffer[..offset]) + BigEndian(value) + old(buffer[offset + 4..])
  {
    var b := BigEndian(value);
    buffer[offset], buffer[offset + 1], buffer[offset + 2], buffer[offset + 3] := b[0], b[1], b[2], b[3];
  }

  /** Eight bytes as a signed 64-bit integer. */
  function ReadLong(b: seq<Byte>): Long
    requires |b| == 8
  {
    Wrap(ReadBigEndian(b[..4]) * TWO_32 + ReadBigEndian(b[4..]))
  }

  function FromBytes(b: seq<Byte>): Triple
    requires |b| == 20
  {
    Triple(ReadLong(ZEROS + b[..4]), ReadLong(b[4..12]), ReadLong(b[12..]))
  }

  /** None is the exception for a text that does not hold 20 bytes. */
  function FromSolidityAddress(text: string): Option<Triple>
  {
    var b := if |text| >= 2 && text[..2] == "0x" then Decode(text[2..]) else Decode(text);
    if |b| != 20 then None else Some(FromBytes(b))
  }

  lemma ReadSmall(b: seq<Byte>)
    requires |b| == 8
    ensures b[..4] == ZEROS ==> ReadLong(b) == ReadBigEndian(b[4..])
  {
  }

  /** A text in hex, with or without 0x before it, is an address exactly when it holds 20 bytes. */
  lemma DecodeEncoded(b: seq<Byte>)
    ensures var r := FromSolidityAddress(Encode(b));
            && (r.Some? <==> |b| == 20) && (|b| == 20 ==> r == Some(FromBytes(b)))
            && FromSolidityAddress("0x" + Encode(b)) == r
  {
    DecodeEncode(b);
    EncodeIsHex(b);
    var text := Encode(b);
    if |text| >= 2 {
      assert text[..2][1] == text[1] && IsHexChar(text[1]);
    }
    var prefixed := "0x" + text;
    assert prefixed[..2] == "0x" && prefixed[2..] == text;
  }

  lemma BytesRead(t: Triple)
    ensures FromBytes(Bytes(t)) == Triple(ToUint32(t.shard), ToUint32(t.realm), ToUint32(t.num))
  {
    var b := Bytes(t);
    BigEndianInverse(ToUint32(t.shard));
    BigEndianInverse(ToUint32(t.realm));
    BigEndianInverse(ToUint32(t.num));
    assert b[..4] == BigEndian(ToUint32(t.shard));
    assert b[4..12] == ZEROS + BigEndian(ToUint32(t.realm));
    assert b[12..] == ZEROS + BigEndian(ToUint32(t.num));
    ReadSmall(ZEROS + b[..4]);
    ReadSmall(b[4..12]);
    ReadSmall(b[12..]);
  }

  predicate Fits(t: Triple)
  {
    0 <= t.shard < TWO_32 && 0 <= t.realm < TWO_32 && 0 <= t.num < TWO_32
  }

  /** Encoding then decoding gives the ID back exactly when all three parts fit 32 bits. */
  lemma {:induction false} AddressRoundTrip(t: Triple)
    ensures FromSolidityAddress(Encoded(t)) == Some(t) <==> Fits(t)
  {
    DecodeEncoded(Bytes(t));
    BytesRead(t);
  }

  /** Decoding then encoding gives the bytes back exactly when the high halves of realm and num are zero. */
  lemma {:induction false} BytesRoundTrip(b: seq<Byte>)
    requires |b| == 20
    ensures Bytes(FromBytes(b)) == b <==> b[4..8] == ZEROS && b[12..16] == ZEROS
  {
    var t := FromBytes(b);
    if b[4..8] == ZEROS && b[12..16] == ZEROS {
      HighHalfZero(b[..4], ZEROS + b[..4]);
      assert b[4..12] == ZEROS + b[8..12] && b[12..] == ZEROS + b[16..];
      HighHalfZero(b[8..12], b[4..12]);
      HighHalfZero(b[16..], b[12..]);
      assert b == b[..4] + b[4..8] + b[8..12] + b[12..16] + b[16..];
    }
    if Bytes(t) == b {
      assert Bytes(t)[4..8] == ZEROS && Bytes(t)[12..16] == ZEROS;
    }
  }

  lemma HighHalfZero(low: seq<Byte>, b: seq<Byte>)
    requires |low| == 4 && b == ZEROS + low
    ensures BigEndian(ToUint32(ReadLong(b))) == low
  {
    ReadSmall(b);
    assert b[4..] == low;
    ReadInverse(low);
  }

  // ----- the fields of an address

  lemma {:induction false} ZerosBefore(b: seq<Byte>)
    ensures Number(ZEROS + b) == Number(b)
  {
    if b == [] {
      FourBytes(ZEROS);
      assert ZEROS + b == ZEROS;
    } else {
      var init := b[..|b| - 1];
      ZerosBefore(init);
      assert (ZEROS + b)[..|b| + 3] == ZEROS + init;
    }
  }

  lemma {:induction false} NumberNext(a: seq<Byte>, x: Byte)
    ensures Number(a + [x]) == Number(a) * 256 + x
  {
    assert (a + [x])[..|a|] == a;
  }

  lemma {:induction false} NumberConcat(a: seq<Byte>, b: seq<Byte>)
    requires |b| == 4
    ensures Number(a + b) == Number(a) * TWO_32 + Number(b)
  {
    FourBytes(b);
    NumberNext(a, b[0]);
    NumberNext(a + [b[0]], b[1]);
    NumberNext(a + [b[0]] + [b[1]], b[2]);
    NumberNext(a + [b[0]] + [b[1]] + [b[2]], b[3]);
    assert a + b == a + [b[0]] + [b[1]] + [b[2]] + [b[3]];
  }

  /** Bytes 0 to 3 are the shard, 4 to 11 the realm and 12 to 19 the number, each as it is stored in 32 bits. */
  lemma {:induction false} AddressFields(t: Triple)
    ensures var b := Bytes(t);
            && Number(b[..4]) == ToUint32(t.shard) && Number(b[4..12]) == ToUint32(t.realm)
            && Number(b[12..]) == ToUint32(t.num)
  {
    var b := Bytes(t);
    BigEndianNumber(ToUint32(t.shard));
    BigEndianNumber(ToUint32(t.realm));
    BigEndianNumber(ToUint32(t.num));
    assert b[..4] == BigEndian(ToUint32(t.shard));
    assert b[4..12] == ZEROS + BigEndian(ToUint32(t.realm));
    assert b[12..] == ZEROS + BigEndian(ToUint32(t.num));
    ZerosBefore(BigEndian(ToUint32(t.realm)));
    ZerosBefore(BigEndian(ToUint32(t.num)));
  }

  /** What is read: the same fields, as signed 64-bit integers. */
  lemma {:induction false} FieldsRead(b: seq<Byte>)
    requires |b| == 20
    ensures var t := FromBytes(b);
            && t.shard == Number(b[..4]) && t.realm == Wrap(Number(b[4..12])) && t.num == Wrap(Number(b[12..]))
  {
    LongNumber(ZEROS + b[..4]);
    ZerosBefore(b[..4]);
    LongNumber(b[4..12]);
    LongNumber(b[12..]);
    FourBytes(b[..4]);
  }

  lemma LongNumber(b: seq<Byte>)
    requires |b| == 8
    ensures ReadLong(b) == Wrap(Number(b))
  {
    ReadNumber(b[..4]);
    ReadNumber(b[4..]);
    NumberConcat(b[..4], b[4..]);
    assert b == b[..4] + b[4..];
  }

  // ----- the rounding of large numbers

  ghost predicate IsPower2(u: nat)
    decreases u
  {
    u == 1 || (u > 1 && u % 2 == 0 && IsPower2(u / 2))
  }

  /** The spacing of doubles at `x` is the power of two that leaves it with 53 digits. */
  lemma {:induction false} UnitIs(x: nat, u: nat)
    requires IsPower2(u) && (u == 1 || TWO_53 * u <= 2 * x)
    ensures var r := Unit(x, u); IsPower2(r) && x < TWO_53 * r && (r == 1 || TWO_53 * r <= 2 * x)
    decreases x - u
  {
    if x >= TWO_53 * u {
      assert (2 * u) / 2 == u && 2 * u > 1;
      UnitIs(x, 2 * u);
    }
  }

  /** The rounding is to a nearest double, and to the even one of two. */
  lemma {:induction false} RoundNearest(x: nat)
    ensures var u := Unit(x, 1);
            && IsPower2(u) && x < TWO_53 * u && (u == 1 || TWO_53 * u <= 2 * x)
            && Round(x) % u == 0 && x - u <= 2 * Round(x) - x <= x + u
            && (2 * (Round(x) - x) == u || 2 * (x - Round(x)) == u ==> Round(x) / u % 2 == 0)
  {
    UnitIs(x, 1);
    var u := Unit(x, 1);
    var q, rest := x / u, x % u;
    QuotientOf(q, u);
    QuotientOf(q + 1, u);
    Nearest(x, u, q, q * u, rest);
  }

  lemma Nearest(x: nat, u: nat, q: nat, low: nat, rest: nat)
    requires u == Unit(x, 1) && q == x / u && rest == x % u && low == q * u
    ensures x == low + rest && rest < u
    ensures Round(x) == if 2 * rest < u || (2 * rest == u && q % 2 == 0) then low else low + u
  {
    assert (q + 1) * u == low + u;
  }

  lemma QuotientOf(q: nat, u: nat)
    requires u > 0
    ensures q * u / u == q && q * u % u == 0
  {
    var d: int, n := q - q * u / u, q * u;
    assert n == n / u * u + n % u;
    assert d >= 1 ==> d * u >= u;
    assert d <= -1 ==> d * u <= -1 * u;
    assert d * u == n % u;
  }
}
