/** The checksums the repository's tests expect of account 0.0.123 on the three public networks. */
module KnownChecksums {
  import opened Hex
  import opened Checksums
  import opened ChecksumDetection

  /** The weighted sum and the two parity sums of the digits read so far. */
  ghost predicate Sums(d: seq<int>, s: int, s0: int, s1: int)
  {
    Weighted(d, P3) == s && ParitySum(d, 0) == s0 && ParitySum(d, 1) == s1
  }

  lemma SumsNext(d: seq<int>, i: nat, s: int, s0: int, s1: int)
    requires i < |d| && Sums(d[..i], s, s0, s1)
    ensures Sums(d[..i + 1], (WEIGHT * s + d[i]) % P3, s0 + (if i % 2 == 0 then d[i] else 0),
              s1 + (if i % 2 == 1 then d[i] else 0))
  {
    NextDigit(d, i);
  }

  lemma Sums123(d: seq<int>)
    requires d == [0, 10, 0, 10, 1, 2, 3]
    ensures Sums(d, 13766, 4, 22)
  {
    SumsNext(d, 0, 0, 0, 0);
    SumsNext(d, 1, 0, 0, 0);
    SumsNext(d, 2, 10, 0, 10);
    SumsNext(d, 3, 310, 0, 10);
    SumsNext(d, 4, 9620, 0, 20);
    SumsNext(d, 5, 17005, 1, 20);
    SumsNext(d, 6, 17453, 1, 22);
    assert d[..7] == d;
  }

  lemma RenderNext(n: nat, k: nat, d: nat)
    requires d < 26
    ensures Render(n * 26 + d, k + 1) == Render(n, k) + [Letter(d)]
  {
  }

  lemma {:induction false} Rendered(n: nat, m: nat, a: nat, b: nat, c: nat, d: nat, e: nat)
    requires a < 26 && b < 26 && c < 26 && d < 26 && e < 26 && m == (a * 26 + b) * 26 + c && n == (m * 26 + d) * 26 + e
    ensures Render(n, 5) == [Letter(a), Letter(b), Letter(c), Letter(d), Letter(e)]
  {
    RenderNext(0, 0, a);
    RenderNext(a, 1, b);
    RenderNext(a * 26 + b, 2, c);
    RenderNext(m, 3, d);
    RenderNext(m * 26 + d, 4, e);
  }

  lemma HashOfOne(ledger: seq<Byte>)
    requires |ledger| == 1
    ensures LedgerHash(ledger) == ledger[0] as int * 887503681 % P5
  {
    LedgerHashClosedForm(ledger);
    assert Power31(2) == 961 && Power31(4) == 923521 && Power31(6) == 887503681;
  }

  lemma {:induction false} CodeOf123(ledger: seq<Byte>, addr: string)
    requires |ledger| == 1 && addr == "0.0.123"
    ensures IsAddress(addr)
    ensures Code(ledger, DigitsOf(addr)) ==
              (5040502 + ledger[0] as int * 887503681 % P5) % P5 * PERMUTATION % P5
  {
    HashOfOne(ledger);
    Sums123(DigitsOf(addr));
    assert Packed(DigitsOf(addr)) == 5040502;
  }

  lemma CodeIs(hash: int, code: int)
    requires || (hash == 0 && code == 9692770)
             || (hash == 8281857 && code == 2160293)
             || (hash == 4682338 && code == 6509192)
    ensures (5040502 + hash) % P5 * PERMUTATION % P5 == code
  {
    if hash == 0 {
      RemainderIs(5040502, 424236, code);
    } else if hash == 8281857 {
      RemainderIs(1440983, 121281, code);
    } else {
      RemainderIs(9722840, 818328, code);
    }
  }

  lemma RemainderIs(x: int, q: int, code: int)
    requires x * PERMUTATION == q * P5 + code && 0 <= code < P5
    ensures x * PERMUTATION % P5 == code
  {
    MultipleApart(x * PERMUTATION, code, q, P5);
  }

  lemma Letters(n: nat, text: string)
    requires || (n == 9692770 && text == "vfmkw")
             || (n == 2160293 && text == "esxsf")
             || (n == 6509192 && text == "ogizo")
    ensures Render(n, 5) == text
  {
    if n == 9692770 {
      Rendered(n, 14338, 21, 5, 12, 10, 22);
    } else if n == 2160293 {
      Rendered(n, 3195, 4, 18, 23, 18, 5);
    } else {
      Rendered(n, 9628, 14, 6, 8, 25, 14);
    }
  }

  lemma {:induction false} ChecksumIs(ledger: seq<Byte>, addr: string, hash: int, code: nat, text: string)
    requires |ledger| == 1 && addr == "0.0.123" && ledger[0] as int * 887503681 % P5 == hash
    requires (5040502 + hash) % P5 * PERMUTATION % P5 == code && Render(code, 5) == text
    ensures Checksum(ledger, addr) == text
  {
    CodeOf123(ledger, addr);
  }

  lemma {:induction false} OnNetwork(ledger: seq<Byte>, addr: string, hash: int, code: nat, text: string)
    requires |ledger| == 1 && addr == "0.0.123"
    requires || (ledger[0] == 0 && hash == 0 && code == 9692770 && text == "vfmkw")
             || (ledger[0] == 1 && hash == 8281857 && code == 2160293 && text == "esxsf")
             || (ledger[0] == 2 && hash == 4682338 && code == 6509192 && text == "ogizo")
    ensures Checksum(ledger, addr) == text
  {
    CodeIs(hash, code);
    Letters(code, text);
    ChecksumIs(ledger, addr, hash, code, text);
  }

  /** The checksums of 0.0.123 on the main network, the test network and the preview network. */
  lemma Networks()
    ensures Checksum([0], "0.0.123") == "vfmkw"
    ensures Checksum([1], "0.0.123") == "esxsf"
    ensures Checksum([2], "0.0.123") == "ogizo"
  {
    OnNetwork([0], "0.0.123", 0, 9692770, "vfmkw");
    OnNetwork([1], "0.0.123", 8281857, 2160293, "esxsf");
    OnNetwork([2], "0.0.123", 4682338, 6509192, "ogizo");
  }
}
