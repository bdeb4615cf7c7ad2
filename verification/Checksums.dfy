/** The address checksum of HIP-15. */
module Checksums {
  import opened Hex

  const P3: int := 17576 // 26^3
  const P5: int := 11881376 // 26^5
  const PERMUTATION: int := 1000003
  const WEIGHT: int := 31

  /** The integers a JavaScript number holds exactly; Dafny checks every intermediate against it. */
  newtype SafeInt = x: int | -0x1F_FFFF_FFFF_FFFF <= x <= 0x1F_FFFF_FFFF_FFFF

  predicate IsAddressChar(c: char)
  {
    '0' <= c <= '9' || c == '.'
  }

  /** The digit value of a character, with 10 for the dot. */
  function DigitOf(c: char): (d: int)
    requires IsAddressChar(c)
    ensures 0 <= d <= 10
  {
    if c == '.' then 10 else c as int - '0' as int
  }

  predicate IsAddress(addr: string)
  {
    forall i | 0 <= i < |addr| :: IsAddressChar(addr[i])
  }

  function DigitsOf(addr: string): (d: seq<int>)
    requires IsAddress(addr)
    ensures |d| == |addr|
    ensures forall i | 0 <= i < |d| :: d[i] == DigitOf(addr[i])
  {
    seq(|addr|, i requires 0 <= i < |addr| => DigitOf(addr[i]))
  }

  /** The sum of the digits at positions of one parity. */
  function ParitySum(d: seq<int>, parity: int): int
  {
    if d == [] then 0
    else ParitySum(d[..|d| - 1], parity) + if (|d| - 1) % 2 == parity then d[|d| - 1] else 0
  }

  /** The digits weighted by powers of 31, modulo `p`. */
  function Weighted(d: seq<int>, p: int): int
    requires p > 0
  {
    if d == [] then 0 else (WEIGHT * Weighted(d[..|d| - 1], p) + d[|d| - 1]) % p
  }

  /** Length, parity sums and weighted sum packed into one number. */
  function Packed(d: seq<int>): (x: int)
    ensures 0 <= x < 5 * 11 * 11 * P3
  {
    WeightedRange(d, P3);
    ((|d| % 5 * 11 + ParitySum(d, 0) % 11) * 11 + ParitySum(d, 1) % 11) * P3 + Weighted(d, P3)
  }

  lemma WeightedRange(d: seq<int>, p: int)
    requires p > 0
    ensures 0 <= Weighted(d, p) < p
  {
  }

  function LedgerHash(ledger: seq<Byte>): (h: int)
    ensures 0 <= h < P5
  {
    WeightedRange(ledger + [0, 0, 0, 0, 0, 0], P5);
    Weighted(ledger + [0, 0, 0, 0, 0, 0], P5)
  }

  /** The checksum as a number. */
  function Code(ledger: seq<Byte>, d: seq<int>): (c: int)
    ensures 0 <= c < P5
  {
    (Packed(d) + LedgerHash(ledger)) % P5 * PERMUTATION % P5
  }

  function Letter(n: int): char
    requires 0 <= n < 26
  {
    (97 + n) as char
  }

  /** The last `k` base-26 digits of `n` as letters, most significant first. */
  function Render(n: nat, k: nat): (text: string)
    ensures |text| == k
  {
    if k == 0 then "" else Render(n / 26, k - 1) + [Letter(n % 26)]
  }

  /** What `String.fromCharCode(NaN)` five times over gives. */
  const NOT_A_NUMBER: string := [0 as char, 0 as char, 0 as char, 0 as char, 0 as char]

  /** The checksum text; an address with any other character turns every sum into NaN. */
  function Checksum(ledger: seq<Byte>, addr: string): (text: string)
    ensures |text| == 5
  {
    if IsAddress(addr) then Render(Code(ledger, DigitsOf(addr)), 5) else NOT_A_NUMBER
  }

  method ComputeChecksum(ledger: seq<Byte>, addr: string, round: real -> real) returns (answer: string)
    requires Rounds(round)
    ensures answer == Checksum(ledger, addr)
  {
    var d: seq<int> := [];
    for i := 0 to |addr|
      invariant forall k | 0 <= k < i :: IsAddressChar(addr[k])
      invariant |d| == i && forall k | 0 <= k < i :: d[k] == DigitOf(addr[k])
    {
      if !IsAddressChar(addr[i]) {
        return NOT_A_NUMBER;
      }
      d := d + [DigitOf(addr[i])];
    }
    assert d == DigitsOf(addr);
    var s, s0, s1 := SumDigits(d);
    var sh := HashLedger(ledger);
    var c := ((((|d| % 5) as SafeInt * 11 + s0) * 11 + s1) * P3 as SafeInt + s + sh) % P5 as SafeInt;
    c := c * PERMUTATION as SafeInt % P5 as SafeInt;
    answer := RenderByDivision(c as nat, round);
  }

  method SumDigits(d: seq<int>) returns (s: SafeInt, s0: SafeInt, s1: SafeInt)
    requires forall i | 0 <= i < |d| :: 0 <= d[i] <= 10
    ensures s as int == Weighted(d, P3) && s0 as int == ParitySum(d, 0) % 11 && s1 as int == ParitySum(d, 1) % 11
  {
    s, s0, s1 := 0, 0, 0;
    for i := 0 to |d|
      invariant 0 <= s as int < P3 && 0 <= s0 < 11 && 0 <= s1 < 11
      invariant s as int == Weighted(d[..i], P3)
      invariant s0 as int == ParitySum(d[..i], 0) % 11
      invariant s1 as int == ParitySum(d[..i], 1) % 11
    {
      NextDigit(d, i);
      Mod11(ParitySum(d[..i], i % 2), d[i]);
      var digit := d[i] as SafeInt;
      s := (WEIGHT as SafeInt * s + digit) % P3 as SafeInt;
      if i % 2 == 0 {
        s0 := (s0 + digit) % 11;
      } else {
        s1 := (s1 + digit) % 11;
      }
    }
    assert d[..|d|] == d;
  }

  lemma NextDigit(d: seq<int>, i: nat)
    requires i < |d|
    ensures Weighted(d[..i + 1], P3) == (WEIGHT * Weighted(d[..i], P3) + d[i]) % P3
    ensures ParitySum(d[..i + 1], 0) == ParitySum(d[..i], 0) + if i % 2 == 0 then d[i] else 0
    ensures ParitySum(d[..i + 1], 1) == ParitySum(d[..i], 1) + if i % 2 == 1 then d[i] else 0
  {
    assert d[..i + 1][..i] == d[..i];
  }

  lemma Mod11(x: int, y: int)
    ensures (x % 11 + y) % 11 == (x + y) % 11
  {
  }

  method HashLedger(ledger: seq<Byte>) returns (sh: SafeInt)
    ensures sh as int == LedgerHash(ledger)
  {
    var h := ledger + [0, 0, 0, 0, 0, 0];
    sh := 0;
    for i := 0 to |h|
      invariant 0 <= sh as int < P5 && sh as int == Weighted(h[..i], P5)
    {
      assert h[..i + 1][..i] == h[..i];
      sh := (WEIGHT as SafeInt * sh + h[i] as SafeInt) % P5 as SafeInt;
    }
    assert h[..|h|] == h;
  }

  // ----- the rendering, in double precision

  const TWO_53: int := 9007199254740992

  /**
   What is used of rounding to nearest in IEEE 754 binary64: integers below 2^53 are exact, and in the
   range from 2^-30 to 2^53 the relative error is at most 2^-53.
   */
  ghost predicate Rounds(round: real -> real)
  {
    && (forall x: real | 0.0 <= x < TWO_53 as real && x == x.Floor as real :: round(x) == x)
    && (forall x: real | 1.0 <= x * 1073741824.0 && x < TWO_53 as real ::
          -x <= (round(x) - x) * TWO_53 as real <= x)
  }

  /** JavaScript's `%`, which is exact, on a non-negative number that need not be whole. */
  function Remainder26(c: real): real
  {
    c - 26.0 * (c / 26.0).Floor as real
  }

  /** How near to a whole number a fraction with denominator 26^i can be. */
  function Gap(i: nat): real
  {
    if i == 0 then 1.0 else Gap(i - 1) / 26.0
  }

  /** `c` is the quotient `whole + fraction` after `i` divisions, but for rounding errors; a whole one has none. */
  ghost predicate Quotient(c: real, whole: nat, fraction: real, i: nat)
  {
    && whole < P5 && (fraction == 0.0 || Gap(i) <= fraction <= 1.0 - Gap(i))
    && (fraction == 0.0 ==> c == whole as real)
    && -0.000000002 <= c - (whole as real + fraction) <= 0.000000002
  }

  /** The division by 26 is not floored and each result is rounded; the letters see neither. */
  method RenderByDivision(code: nat, round: real -> real) returns (answer: string)
    requires code < P5 && Rounds(round)
    ensures answer == Render(code, 5)
  {
    var c := code as real;
    answer := "";
    ghost var whole, fraction := code, 0.0;
    for i := 0 to 5
      invariant Quotient(c, whole, fraction, i)
      invariant Render(whole, 5 - i) + answer == Render(code, 5)
    {
      LetterSeen(c, whole, fraction, i, round);
      Divided(c, whole, fraction, i, round);
      answer := [round(97.0 + Remainder26(c)).Floor as char] + answer;
      c := round(c / 26.0);
      whole, fraction := whole / 26, ((whole % 26) as real + fraction) / 26.0;
    }
  }

  lemma GapBelow(i: nat)
    requires i <= 4
    ensures 0.000002 <= Gap(i) <= 1.0
  {
    assert Gap(1) == 1.0 / 26.0;
    assert Gap(2) == Gap(1) / 26.0;
    assert Gap(3) == Gap(2) / 26.0;
    assert Gap(4) == Gap(3) / 26.0;
  }

  /** Where `c` is, between two whole numbers or on one. */
  lemma QuotientPlace(c: real, whole: nat, fraction: real, i: nat)
    requires Quotient(c, whole, fraction, i) && i <= 4
    ensures c == whole as real || whole as real + 0.000001 <= c <= whole as real + 0.999999
    ensures 0.0 <= c < P5 as real && c.Floor == whole
  {
    GapBelow(i);
  }

  lemma {:induction false} RemainderOf(c: real, whole: nat)
    requires whole as real <= c < whole as real + 1.0
    ensures Remainder26(c) == (whole % 26) as real + (c - whole as real)
  {
    var q, r := whole / 26, whole % 26;
    assert whole as real == 26.0 * q as real + r as real;
    assert q as real <= c / 26.0 < q as real + 1.0;
    assert (c / 26.0).Floor == q;
  }

  /** Rounding a sum does not carry it over a whole number. */
  lemma {:induction false} LetterSeen(c: real, whole: nat, fraction: real, i: nat, round: real -> real)
    requires Quotient(c, whole, fraction, i) && i <= 4 && Rounds(round)
    ensures round(97.0 + Remainder26(c)).Floor == 97 + whole % 26
  {
    QuotientPlace(c, whole, fraction, i);
    RemainderOf(c, whole);
    var r: nat := whole % 26;
    var y := 97.0 + Remainder26(c);
    if c == whole as real {
      var n: nat := 97 + r;
      assert y == n as real;
    } else {
      assert -y <= (round(y) - y) * TWO_53 as real <= y;
      assert -0.0000001 <= round(y) - y <= 0.0000001;
    }
  }

  lemma Divided(c: real, whole: nat, fraction: real, i: nat, round: real -> real)
    requires Quotient(c, whole, fraction, i) && i <= 4 && Rounds(round)
    ensures Quotient(round(c / 26.0), whole / 26, ((whole % 26) as real + fraction) / 26.0, i + 1)
  {
    DividedInto(c, whole, fraction, i, round, whole / 26, whole % 26);
  }

  lemma WholeDivided(c: real, q: nat, round: real -> real)
    requires Rounds(round) && c == 26.0 * q as real && q < P5
    ensures round(c / 26.0) == q as real
  {
    assert c / 26.0 == q as real;
  }

  lemma DividedInto(c: real, whole: nat, fraction: real, i: nat, round: real -> real, q: nat, r: nat)
    requires Quotient(c, whole, fraction, i) && i <= 4 && Rounds(round) && whole == 26 * q + r && r < 26
    ensures Quotient(round(c / 26.0), q, (r as real + fraction) / 26.0, i + 1)
  {
    QuotientPlace(c, whole, fraction, i);
    GapBelow(i);
    var next := (r as real + fraction) / 26.0;
    assert whole as real == 26.0 * q as real + r as real;
    if next == 0.0 {
      assert r == 0 && fraction == 0.0 && c == 26.0 * q as real;
      WholeDivided(c, q, round);
    } else {
      assert 26.0 * next == r as real + fraction;
      NextGap(r, fraction, i);
      RoundedQuotient(c, q, next, round);
    }
  }

  lemma NextGap(r: nat, fraction: real, i: nat)
    requires r < 26 && (fraction == 0.0 || Gap(i) <= fraction <= 1.0 - Gap(i)) && 0.0 < Gap(i) <= 1.0
    requires (r as real + fraction) / 26.0 != 0.0
    ensures Gap(i + 1) <= (r as real + fraction) / 26.0 <= 1.0 - Gap(i + 1)
  {
    assert r as real + fraction >= Gap(i);
    assert r as real + fraction <= 26.0 - Gap(i);
  }

  lemma RoundedQuotient(c: real, q: nat, next: real, round: real -> real)
    requires Rounds(round) && 0.000001 <= c < P5 as real
    requires -0.000000002 <= c - 26.0 * (q as real + next) <= 0.000000002
    ensures -0.000000002 <= round(c / 26.0) - (q as real + next) <= 0.000000002
  {
    var x := c / 26.0;
    assert -x <= (round(x) - x) * TWO_53 as real <= x;
    assert x <= 500000.0;
    assert -0.0000000001 <= round(x) - x <= 0.0000000001;
  }
}
