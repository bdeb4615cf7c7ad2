/** Which mistakes the address checksum detects. */
module ChecksumDetection {
  import opened Hex
  import opened Checksums

  // ----- arithmetic modulo 26^5

  /** Equal residues differ by a multiple. */
  lemma SameResidue(x: int, y: int, p: int) returns (k: int)
    requires p > 0 && x % p == y % p
    ensures x - y == k * p
  {
    k := x / p - y / p;
    assert x == x / p * p + x % p && y == y / p * p + y % p;
  }

  /** Multiplying by a unit modulo 26^5 loses nothing; `u` is the inverse of `m`. */
  lemma {:induction false} UnitCancels(x: int, y: int, m: int, u: int, t: int)
    requires 0 <= x < P5 && 0 <= y < P5 && m * u == 1 + t * P5
    requires x * m % P5 == y * m % P5
    ensures x == y
  {
    var k := SameResidue(x * m, y * m, P5);
    var z := x - y;
    assert z * m == k * P5;
    assert z * (m * u) == (z * m) * u;
    assert z * (1 + t * P5) == z + (z * t) * P5;
    assert (k * P5) * u == (k * u) * P5;
    assert z == (k * u - z * t) * P5;
  }

  lemma {:induction false} PermutationCancels(x: int, y: int)
    requires 0 <= x < P5 && 0 <= y < P5 && x * PERMUTATION % P5 == y * PERMUTATION % P5
    ensures x == y
  {
    UnitCancels(x, y, PERMUTATION, 8610443, 724703);
  }

  /** Weighting by 31 keeps different residues different, whatever digit follows. */
  lemma WeightCancels(x: int, y: int, digit: int)
    requires 0 <= x < P5 && 0 <= y < P5 && (WEIGHT * x + digit) % P5 == (WEIGHT * y + digit) % P5
    ensures x == y
  {
    var k := SameResidue(WEIGHT * x + digit, WEIGHT * y + digit, P5);
    var z := x - y;
    assert WEIGHT * z == k * P5;
    assert z + 5 * z * P5 == 1916351 * k * P5;
    assert z == (1916351 * k - 5 * z) * P5;
  }

  // ----- the rendering

  function Power26(k: nat): nat
  {
    if k == 0 then 1 else 26 * Power26(k - 1)
  }

  lemma {:induction false} RenderInjective(a: nat, b: nat, k: nat)
    requires a < Power26(k) && b < Power26(k) && Render(a, k) == Render(b, k)
    ensures a == b
  {
    if k > 0 {
      var r, s := Render(a, k), Render(b, k);
      assert r[k - 1] == Letter(a % 26) && s[k - 1] == Letter(b % 26);
      assert r[..k - 1] == Render(a / 26, k - 1) && s[..k - 1] == Render(b / 26, k - 1);
      RenderInjective(a / 26, b / 26, k - 1);
    }
  }

  lemma RenderFive(a: nat, b: nat)
    requires a < P5 && b < P5
    ensures Render(a, 5) == Render(b, 5) <==> a == b
  {
    if Render(a, 5) == Render(b, 5) {
      assert Power26(5) == 26 * (26 * (26 * (26 * 26)));
      RenderInjective(a, b, 5);
    }
  }

  // ----- what two checksums of one ledger have in common

  /** The four quantities the checksum sees of an address. */
  ghost predicate SameDigest(d: seq<int>, e: seq<int>)
  {
    && |d| % 5 == |e| % 5
    && ParitySum(d, 0) % 11 == ParitySum(e, 0) % 11
    && ParitySum(d, 1) % 11 == ParitySum(e, 1) % 11
    && Weighted(d, P3) == Weighted(e, P3)
  }

  lemma PackedInjective(d: seq<int>, e: seq<int>)
    ensures Packed(d) == Packed(e) <==> SameDigest(d, e)
  {
    WeightedRange(d, P3);
    WeightedRange(e, P3);
  }

  lemma {:induction false} CodeInjective(ledger: seq<Byte>, d: seq<int>, other: seq<Byte>, e: seq<int>)
    ensures Code(ledger, d) == Code(other, e)
       <==> (Packed(d) + LedgerHash(ledger)) % P5 == (Packed(e) + LedgerHash(other)) % P5
  {
    if Code(ledger, d) == Code(other, e) {
      PermutationCancels((Packed(d) + LedgerHash(ledger)) % P5, (Packed(e) + LedgerHash(other)) % P5);
    }
  }

  lemma LastDigitCounts(x: int, a: int, b: int)
    requires a != b && -P5 < a - b < P5
    ensures (x + a) % P5 != (x + b) % P5
  {
  }

  lemma {:induction false} CodeDigest(ledger: seq<Byte>, d: seq<int>, e: seq<int>)
    ensures Code(ledger, d) == Code(ledger, e) <==> SameDigest(d, e)
  {
    PackedInjective(d, e);
    CodeInjective(ledger, d, ledger, e);
    if Packed(d) != Packed(e) {
      LastDigitCounts(LedgerHash(ledger), Packed(d), Packed(e));
    }
  }

  /**
   For one ledger, two addresses get the same checksum exactly when length modulo 5, both parity
   sums modulo 11 and the weighted sum modulo 26^3 all agree.
   */
  lemma {:induction false} SameChecksumIff(ledger: seq<Byte>, a: string, b: string)
    requires IsAddress(a) && IsAddress(b)
    ensures Checksum(ledger, a) == Checksum(ledger, b) <==> SameDigest(DigitsOf(a), DigitsOf(b))
  {
    RenderFive(Code(ledger, DigitsOf(a)), Code(ledger, DigitsOf(b)));
    CodeDigest(ledger, DigitsOf(a), DigitsOf(b));
  }

  // ----- single mistakes

  lemma {:induction false} ParitySumUpdate(d: seq<int>, i: nat, v: int, parity: int)
    requires i < |d|
    ensures ParitySum(d[i := v], parity) == ParitySum(d, parity) + if i % 2 == parity then v - d[i] else 0
  {
    var n := |d| - 1;
    if i == n {
      assert d[i := v][..n] == d[..n];
    } else {
      ParitySumUpdate(d[..n], i, v, parity);
      assert d[i := v][..n] == d[..n][i := v];
    }
  }

  lemma DigitsDiffer(a: char, b: char)
    requires IsAddressChar(a) && IsAddressChar(b) && a != b
    ensures DigitOf(a) != DigitOf(b)
  {
  }

  lemma ParityShift(x: int, delta: int)
    requires -11 < delta < 11 && delta != 0
    ensures (x + delta) % 11 != x % 11
  {
  }

  /** Replacing one character by another changes the checksum. */
  lemma {:induction false} SubstitutionDetected(ledger: seq<Byte>, addr: string, i: nat, c: char)
    requires IsAddress(addr) && i < |addr| && IsAddressChar(c) && c != addr[i]
    ensures Checksum(ledger, addr[i := c]) != Checksum(ledger, addr)
  {
    var d, e := DigitsOf(addr), DigitsOf(addr[i := c]);
    assert e == d[i := DigitOf(c)];
    DigitsDiffer(addr[i], c);
    ParitySumUpdate(d, i, DigitOf(c), i % 2);
    ParityShift(ParitySum(d, i % 2), DigitOf(c) - d[i]);
    SameChecksumIff(ledger, addr[i := c], addr);
  }

  lemma SwapShiftsParity(d: seq<int>, i: nat)
    requires i + 1 < |d| && d[i] != d[i + 1] && -11 < d[i] - d[i + 1] < 11
    ensures ParitySum(d[i := d[i + 1]][i + 1 := d[i]], 0) % 11 != ParitySum(d, 0) % 11
  {
    ParitySumUpdate(d, i, d[i + 1], 0);
    ParitySumUpdate(d[i := d[i + 1]], i + 1, d[i], 0);
    ParityShift(ParitySum(d, 0), if i % 2 == 0 then d[i + 1] - d[i] else d[i] - d[i + 1]);
  }

  /** Swapping two different adjacent characters changes the checksum. */
  lemma SwapDetected(ledger: seq<Byte>, addr: string, i: nat)
    requires IsAddress(addr) && i + 1 < |addr| && addr[i] != addr[i + 1]
    ensures Checksum(ledger, addr[i := addr[i + 1]][i + 1 := addr[i]]) != Checksum(ledger, addr)
  {
    var swapped := addr[i := addr[i + 1]][i + 1 := addr[i]];
    var d, e := DigitsOf(addr), DigitsOf(swapped);
    assert e == d[i := d[i + 1]][i + 1 := d[i]];
    DigitsDiffer(addr[i], addr[i + 1]);
    SwapShiftsParity(d, i);
    SameChecksumIff(ledger, swapped, addr);
  }

  /** Leaving out or adding up to four characters changes the checksum. */
  lemma {:induction false} LengthChangeDetected(ledger: seq<Byte>, a: string, b: string)
    requires IsAddress(a) && IsAddress(b) && |b| < |a| < |b| + 5
    ensures Checksum(ledger, a) != Checksum(ledger, b)
  {
    SameChecksumIff(ledger, a, b);
    FewerThanFive(|a|, |b|);
  }

  lemma FewerThanFive(m: nat, n: nat)
    requires n < m < n + 5
    ensures m % 5 != n % 5
  {
  }

  // ----- the ledger

  function Power31(k: nat): (p: nat)
    ensures p > 0
  {
    if k == 0 then 1 else 31 * Power31(k - 1)
  }

  /** The sum of `d[i]` times 31^(|d| - 1 - i + extra). */
  function Terms(d: seq<int>, extra: nat): int
  {
    if d == [] then 0 else d[0] * Power31(|d| - 1 + extra) + Terms(d[1..], extra)
  }

  lemma {:induction false} TermsMore(d: seq<int>, x: int)
    ensures Terms(d + [x], 0) == 31 * Terms(d, 0) + x
  {
    if d == [] {
      assert d + [x] == [x] && [x][1..] == [];
    } else {
      TermsMore(d[1..], x);
      assert (d + [x])[1..] == d[1..] + [x];
      assert d[0] * Power31(|d|) == 31 * (d[0] * Power31(|d| - 1));
    }
  }

  lemma {:induction false} TermsZeros(d: seq<int>, extra: nat)
    ensures Terms(d + [0], extra) == Terms(d, extra + 1)
  {
    if d == [] {
      assert d + [0] == [0] && [0][1..] == [];
    } else {
      TermsZeros(d[1..], extra);
      assert (d + [0])[1..] == d[1..] + [0];
    }
  }

  /** The weighted sum in closed form, whatever the modulus. */
  lemma {:induction false} WeightedClosedForm(d: seq<int>, p: int)
    requires p > 0
    ensures Weighted(d, p) == Terms(d, 0) % p
  {
    if d != [] {
      var init, last := d[..|d| - 1], d[|d| - 1];
      WeightedClosedForm(init, p);
      TermsMore(init, last);
      assert d == init + [last];
      StepModulo(Terms(init, 0), last, p);
    }
  }

  lemma MultipleApart(x: int, y: int, k: int, p: int)
    requires p > 0 && x == y + k * p
    ensures x % p == y % p
  {
    var q := x / p - y / p - k;
    assert x == x / p * p + x % p && y == y / p * p + y % p;
    assert q * p == y % p - x % p;
    assert q >= 1 ==> q * p >= p;
    assert q <= -1 ==> q * p <= -p;
  }

  lemma StepModulo(t: int, x: int, p: int)
    requires p > 0
    ensures (31 * (t % p) + x) % p == (31 * t + x) % p
  {
    var q := t / p;
    assert t == q * p + t % p;
    assert 31 * t == 31 * q * p + 31 * (t % p);
    MultipleApart(31 * t + x, 31 * (t % p) + x, 31 * q, p);
  }

  /** The hash is the sum of `ledger[i]` times 31^(|ledger| + 5 - i), modulo 26^5. */
  lemma LedgerHashClosedForm(ledger: seq<Byte>)
    ensures LedgerHash(ledger) == Terms(ledger, 6) % 11881376
  {
    var d: seq<int> := ledger;
    WeightedClosedForm(d + [0, 0, 0, 0, 0, 0], P5);
    TermsZeros(d, 5);
    TermsZeros(d + [0], 4);
    TermsZeros(d + [0] + [0], 3);
    TermsZeros(d + [0] + [0] + [0], 2);
    TermsZeros(d + [0] + [0] + [0] + [0], 1);
    TermsZeros(d + [0] + [0] + [0] + [0] + [0], 0);
    assert d + [0, 0, 0, 0, 0, 0] == d + [0] + [0] + [0] + [0] + [0] + [0];
  }

  /** For one address, two ledgers give the same checksum exactly when their hashes agree. */
  lemma {:induction false} LedgersIff(ledger: seq<Byte>, other: seq<Byte>, addr: string)
    requires IsAddress(addr)
    ensures Checksum(ledger, addr) == Checksum(other, addr) <==> LedgerHash(ledger) == LedgerHash(other)
  {
    RenderFive(Code(ledger, DigitsOf(addr)), Code(other, DigitsOf(addr)));
    CodeLedgers(ledger, other, DigitsOf(addr));
  }

  lemma {:induction false} CodeLedgers(ledger: seq<Byte>, other: seq<Byte>, d: seq<int>)
    ensures Code(ledger, d) == Code(other, d) <==> LedgerHash(ledger) == LedgerHash(other)
  {
    CodeInjective(ledger, d, other, d);
    if LedgerHash(ledger) != LedgerHash(other) {
      LastDigitCounts(Packed(d), LedgerHash(ledger), LedgerHash(other));
    }
  }

  lemma {:induction false} WeightedUpdate(d: seq<int>, i: nat, v: int)
    requires i < |d| && d[i] != v && -P5 < d[i] - v < P5
    ensures Weighted(d[i := v], P5) != Weighted(d, P5)
  {
    var n := |d| - 1;
    var e := d[i := v];
    WeightedRange(d[..n], P5);
    WeightedRange(e[..n], P5);
    if i == n {
      assert e[..n] == d[..n];
      LastDigitCounts(WEIGHT * Weighted(d[..n], P5), d[n], v);
    } else {
      WeightedUpdate(d[..n], i, v);
      assert e[..n] == d[..n][i := v];
      if Weighted(e, P5) == Weighted(d, P5) {
        WeightCancels(Weighted(e[..n], P5), Weighted(d[..n], P5), d[n]);
      }
    }
  }

  /** Two ledger IDs that differ in one byte give different checksums for every address. */
  lemma LedgerByteDetected(ledger: seq<Byte>, i: nat, v: Byte, addr: string)
    requires IsAddress(addr) && i < |ledger| && v != ledger[i]
    ensures Checksum(ledger[i := v], addr) != Checksum(ledger, addr)
  {
    var h: seq<int> := ledger + [0, 0, 0, 0, 0, 0];
    assert ledger[i := v] + [0, 0, 0, 0, 0, 0] == h[i := v];
    WeightedUpdate(h, i, v);
    LedgersIff(ledger[i := v], ledger, addr);
  }
}
