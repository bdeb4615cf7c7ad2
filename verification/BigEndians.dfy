/** Unsigned 32-bit integers as four bytes, most significant first. */
module BigEndians {
  import opened Hex

  const TWO_32: int := 0x1_0000_0000

  function BigEndian(n: int): (r: seq<Byte>)
    requires 0 <= n < TWO_32
    ensures |r| == 4
  {
    [n / 256 / 256 / 256, n / 256 / 256 % 256, n / 256 % 256, n % 256]
  }

  function ReadBigEndian(b: seq<Byte>): (n: nat)
    requires |b| == 4
    ensures n < TWO_32
  {
    ((b[0] as int * 256 + b[1] as int) * 256 + b[2] as int) * 256 + b[3] as int
  }

  lemma BigEndianInverse(n: int)
    requires 0 <= n < TWO_32
    ensures ReadBigEndian(BigEndian(n)) == n
  {
    var q := n / 256;
    var p := q / 256;
    assert n == q * 256 + n % 256 && q == p * 256 + q % 256 && p == p / 256 * 256 + p % 256;
  }

  lemma ReadInverse(b: seq<Byte>)
    requires |b| == 4
    ensures BigEndian(ReadBigEndian(b)) == b
  {
    var p := b[0] as int * 256 + b[1] as int;
    var q := p * 256 + b[2] as int;
    assert ReadBigEndian(b) == q * 256 + b[3] as int;
    assert ReadBigEndian(b) / 256 == q && q / 256 == p && p / 256 == b[0];
  }

  lemma {:induction false} FourBytes(b: seq<Byte>)
    requires |b| == 4
    ensures Number(b) == ((b[0] as int * 256 + b[1] as int) * 256 + b[2] as int) * 256 + b[3] as int
  {
    var three := b[..3];
    var two := three[..2];
    assert two[..1] == [b[0]] && [b[0]][..0] == [] && Number([b[0]][..0]) == 0;
    assert Number(two[..1]) == b[0] as int && Number(two) == b[0] as int * 256 + b[1] as int;
    assert Number(three) == Number(two) * 256 + b[2] as int;
  }

  /** The four bytes are the number in base 256, and reading them gives that number. */
  lemma BigEndianNumber(n: int)
    requires 0 <= n < TWO_32
    ensures Number(BigEndian(n)) == n
  {
    BigEndianInverse(n);
    FourBytes(BigEndian(n));
  }

  lemma ReadNumber(b: seq<Byte>)
    requires |b| == 4
    ensures ReadBigEndian(b) == Number(b)
  {
    FourBytes(b);
  }
}
