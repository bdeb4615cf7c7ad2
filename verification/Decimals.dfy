/** Decimal text, as `Long.toString` prints it and `Long.fromString` reads digits. */
module Decimals {
  import opened Longs

  predicate IsDigit(c: char)
  {
    '0' <= c <= '9'
  }

  predicate AllDigits(text: string)
  {
    forall i | 0 <= i < |text| :: IsDigit(text[i])
  }

  function DigitChar(d: int): (c: char)
    requires 0 <= d < 10
    ensures IsDigit(c) && c as int == 48 + d
  {
    (48 + d) as char
  }

  function Print(n: nat): (text: string)
    ensures text != "" && AllDigits(text)
  {
    if n < 10 then [DigitChar(n)] else Print(n / 10) + [DigitChar(n % 10)]
  }

  function Value(text: string): (n: nat)
    requires AllDigits(text)
  {
    if text == "" then 0 else Value(text[..|text| - 1]) * 10 + (text[|text| - 1] as int - 48)
  }

  /** The 64-bit integer that digits denote. */
  function Parse(text: string): Long
    requires AllDigits(text)
  {
    Wrap(Value(text))
  }

  lemma {:induction false} ValuePrint(n: nat)
    ensures Value(Print(n)) == n
  {
    if n >= 10 {
      ValuePrint(n / 10);
      var text := Print(n);
      assert text[..|text| - 1] == Print(n / 10);
      assert text[|text| - 1] == DigitChar(n % 10);
    } else {
      assert Print(n)[..0] == "";
    }
  }

  /** Reading a printed ID part gives it back. */
  lemma ParsePrint(n: IdPart)
    ensures Parse(Print(n)) == n
  {
    ValuePrint(n);
  }

  function Power10(k: nat): nat
  {
    if k == 0 then 1 else 10 * Power10(k - 1)
  }

  lemma {:induction false} PrintLength(n: nat, k: nat)
    requires k > 0 && n < Power10(k)
    ensures |Print(n)| <= k
  {
    if n >= 10 {
      assert Power10(1) == 10;
      PrintLength(n / 10, k - 1);
    }
  }

  lemma {:induction false} ValueBelowPower(text: string)
    requires AllDigits(text)
    ensures Value(text) < Power10(|text|)
  {
    if text != "" {
      ValueBelowPower(text[..|text| - 1]);
    }
  }

  lemma {:induction false} PowerGrows(k: nat, l: nat)
    requires k <= l
    ensures Power10(k) <= Power10(l)
  {
    if k < l {
      PowerGrows(k, l - 1);
    }
  }

  /** Up to 19 digits are read as the number they denote when it is below 2^63, and as a negative one otherwise. */
  lemma ParseShort(text: string)
    requires AllDigits(text) && |text| <= 19
    ensures if Value(text) < TWO_63 then Parse(text) == Value(text) else Parse(text) < 0
  {
    ValueBelowPower(text);
    PowerGrows(|text|, 19);
    assert Power10(6) == 1_000_000;
    assert Power10(12) == 1_000_000_000_000;
    assert Power10(19) == 10_000_000_000_000_000_000;
  }

  /** The first digit counts as many tens as there are digits after it. */
  lemma {:induction false} ValueFirst(text: string)
    requires text != "" && AllDigits(text)
    ensures Value(text) == (text[0] as int - '0' as int) * Power10(|text| - 1) + Value(text[1..])
  {
    var n := |text| - 1;
    if n == 0 {
      assert text[..0] == "" && text[1..] == "";
    } else {
      ValueFirst(text[..n]);
      assert text[..n][1..] == text[1..][..n - 1];
      assert (text[0] as int - 48) * Power10(n - 1) * 10 == (text[0] as int - 48) * Power10(n);
    }
  }

  /** A printed number does not begin with 0, unless it is 0. */
  lemma {:induction false} NoLeadingZero(n: nat)
    ensures Print(n)[0] == '0' <==> n == 0
  {
    if n >= 10 {
      NoLeadingZero(n / 10);
    }
  }

  /** An ID part prints with at most 19 digits. */
  lemma IdPartLength(n: IdPart)
    ensures |Print(n)| <= 19
  {
    assert Power10(4) == 10_000;
    assert Power10(8) == 100_000_000;
    assert Power10(12) == 1_000_000_000_000;
    assert Power10(16) == 10_000_000_000_000_000;
    assert Power10(19) == 10_000_000_000_000_000_000;
    PrintLength(n, 19);
  }
}
