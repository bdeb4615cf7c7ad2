/** Conservation: what the merged entries add up to. */
module TransferTotals {
  import opened Results
  import opened Longs
  import opened Identifiers
  import opened Sums
  import opened Transfers

  /** An entry's amount where its key is selected, 0 elsewhere. */
  ghost function Weight<K>(keys: K -> bool): Entry<K> -> int
  {
    (e: Entry<K>) => if keys(e.key) then e.amount else 0
  }

  /** The sum of the amounts whose key is selected. */
  ghost function Total<K>(es: seq<Entry<K>>, keys: K -> bool): int
  {
    Sum(es, Weight(keys))
  }

  ghost function Only<K>(key: K): K -> bool
  {
    k => k == key
  }

  /** Adding to the key's entry stays within 64 bits. */
  predicate Fits<K(==)>(es: seq<Entry<K>>, key: K, value: Long)
  {
    var k := FindKey(es, key);
    k < |es| ==> -TWO_63 <= es[k].amount + value < TWO_63
  }

  lemma AddAmountTotal<K>(es: seq<Entry<K>>, key: K, value: Long, approved: bool, keys: K -> bool) returns (carry: int)
    ensures Fits(es, key, value) ==> carry == 0
    ensures Total(AddAmount(es, key, value, approved), keys)
         == Total(es, keys) + (if keys(key) then value else 0) + carry * TWO_64
  {
    var k := FindKey(es, key);
    if k < |es| {
      SumUpdate(es, k, es[k].(amount := Add(es[k].amount, value), expectedDecimals := None), Weight(keys));
      carry := if keys(key) then -Carry(es[k].amount + value) else 0;
    } else {
      SumAppend(es, Entry(key, None, value, approved), Weight(keys));
      carry := 0;
    }
  }

  /**
   Whether the call's value reaches the lists. A decimals call that throws has credited it when the
   entry of its account comes before the entry at which it throws.
   */
  predicate Credited(s: Lists, c: Call)
  {
    !Throws(s, c) || FindKey(s.tokens, c.key) < FirstMismatch(s.tokens, c.key.token, c.decimals)
  }

  lemma {:induction false} ScanTotal(es: seq<TokenTransfer>, key: TokenKey, value: Long, decimals: int, m: nat,
          keys: TokenKey -> bool)
    returns (carry: int)
    requires m <= |es| && UniqueKeys(es)
    ensures Fits(es, key, value) ==> carry == 0
    ensures Total(ScanUpTo(es, key, value, decimals, m), keys)
         == Total(es, keys) + (if keys(key) && FindKey(es, key) < m then value else 0) + carry * TWO_64
  {
    var k := FindKey(es, key);
    var scanned := ScanUpTo(es, key, value, decimals, m);
    if k < m {
      var e := es[k].(amount := Add(es[k].amount, value));
      SumUpdate(es, k, e, Weight(keys));
      ScanAmounts(es, key, value, decimals, m);
      SumSame(scanned, es[k := e], Weight(keys));
      carry := if keys(key) then -Carry(es[k].amount + value) else 0;
    } else {
      SumSame(scanned, es, Weight(keys));
      carry := 0;
    }
  }

  lemma ScanAmounts(es: seq<TokenTransfer>, key: TokenKey, value: Long, decimals: int, m: nat)
    requires FindKey(es, key) < m <= |es| && UniqueKeys(es)
    ensures var k := FindKey(es, key);
            var scanned, added := ScanUpTo(es, key, value, decimals, m),
                es[k := es[k].(amount := Add(es[k].amount, value))];
            forall i | 0 <= i < |es| :: scanned[i].key == added[i].key && scanned[i].amount == added[i].amount
  {
    var k := FindKey(es, key);
    forall i | 0 <= i < |es| && i != k ensures es[i].key != key {
      assert es[i].key != es[k].key;
    }
  }

  lemma DecimalsTotal(es: seq<TokenTransfer>, key: TokenKey, value: Long, decimals: int, keys: TokenKey -> bool)
    returns (carry: int)
    requires UniqueKeys(es)
    ensures Fits(es, key, value) ==> carry == 0
    ensures var m := FirstMismatch(es, key.token, decimals);
            var credited := m == |es| || FindKey(es, key) < m;
            (Total(AddAmountWithDecimals(es, key, value, decimals), keys)
             == Total(es, keys) + (if credited && keys(key) then value else 0) + carry * TWO_64)
  {
    var m := FirstMismatch(es, key.token, decimals);
    carry := ScanTotal(es, key, value, decimals, m, keys);
    if m == |es| == FindKey(es, key) {
      SumAppend(ScanUpTo(es, key, value, decimals, m), Entry(key, Some(decimals), value, false), Weight(keys));
    }
  }

  /** What the call adds to the token entries of the selected pairs. */
  ghost function TokenStep(s: Lists, c: Call, keys: TokenKey -> bool): int
  {
    if (c.AddToken? || c.AddTokenWithDecimals?) && Credited(s, c) && keys(c.key) then c.value else 0
  }

  predicate CallFits(s: Lists, c: Call)
  {
    match c
    case AddToken(key, value, _) => Fits(s.tokens, key, value)
    case AddTokenWithDecimals(key, value, _) => Fits(s.tokens, key, value)
    case AddU2U(account, value, _) => Fits(s.u2us, account, value)
    case AddNft(_, _, _, _, _) => true
  }

  /** No addition of the run leaves the signed 64-bit range. */
  ghost predicate AllFit(calls: seq<Call>)
  {
    forall i | 0 <= i < |calls| :: CallFits(Run(calls[..i]), calls[i])
  }

  lemma {:induction false} AllFitBefore(calls: seq<Call>)
    requires calls != [] && AllFit(calls)
    ensures AllFit(calls[..|calls| - 1]) && CallFits(Run(calls[..|calls| - 1]), calls[|calls| - 1])
  {
    var rest := calls[..|calls| - 1];
    forall i | 0 <= i < |rest| ensures CallFits(Run(rest[..i]), rest[i]) {
      assert rest[..i] == calls[..i];
    }
  }

  lemma ApplyTotal(s: Lists, c: Call, keys: TokenKey -> bool) returns (carry: int)
    requires UniqueKeys(s.tokens)
    ensures CallFits(s, c) ==> carry == 0
    ensures Total(Apply(s, c).tokens, keys) == Total(s.tokens, keys) + TokenStep(s, c, keys) + carry * TWO_64
  {
    match c
    case AddToken(key, value, approved) => carry := AddAmountTotal(s.tokens, key, value, approved, keys);
    case AddTokenWithDecimals(key, value, decimals) => carry := DecimalsTotal(s.tokens, key, value, decimals, keys);
    case _ => carry := 0;
  }

  /**
   What the run asked to move on the selected (token, account) pairs, over unbounded integers; a
   call that throws counts when it was credited.
   */
  ghost function TokenRequests(calls: seq<Call>, keys: TokenKey -> bool): int
  {
    if calls == [] then 0
    else TokenRequests(calls[..|calls| - 1], keys) + TokenStep(Run(calls[..|calls| - 1]), calls[|calls| - 1], keys)
  }

  ghost function TokenValue(keys: TokenKey -> bool): Call -> int
  {
    (c: Call) => if (c.AddToken? || c.AddTokenWithDecimals?) && keys(c.key) then c.value else 0
  }

  ghost function U2UValue(accounts: AccountId -> bool): Call -> int
  {
    (c: Call) => if c.AddU2U? && accounts(c.account) then c.value else 0
  }

  /** Where no call of the run throws, the requests are the plain sum of the calls' values. */
  lemma {:induction false} RequestsWithoutThrow(calls: seq<Call>, keys: TokenKey -> bool)
    requires forall i | 0 <= i < |calls| :: !Throws(Run(calls[..i]), calls[i])
    ensures TokenRequests(calls, keys) == Sum(calls, TokenValue(keys))
  {
    if calls != [] {
      var rest := calls[..|calls| - 1];
      forall i | 0 <= i < |rest| ensures !Throws(Run(rest[..i]), rest[i]) {
        assert rest[..i] == calls[..i];
      }
      RequestsWithoutThrow(rest, keys);
    }
  }

  lemma {:induction false} TokenCarry(calls: seq<Call>, keys: TokenKey -> bool) returns (carry: int)
    ensures AllFit(calls) ==> carry == 0
    ensures Total(Run(calls).tokens, keys) == TokenRequests(calls, keys) + carry * TWO_64
  {
    if calls == [] {
      carry := 0;
    } else {
      var rest := calls[..|calls| - 1];
      var before := TokenCarry(rest, keys);
      if AllFit(calls) { AllFitBefore(calls); }
      RunUnique(rest);
      var step := ApplyTotal(Run(rest), calls[|calls| - 1], keys);
      carry := before + step;
    }
  }

  lemma {:induction false} U2UCarry(calls: seq<Call>, accounts: AccountId -> bool) returns (carry: int)
    ensures AllFit(calls) ==> carry == 0
    ensures Total(Run(calls).u2us, accounts) == Sum(calls, U2UValue(accounts)) + carry * TWO_64
  {
    carry := 0;
    if calls != [] {
      var rest, c := calls[..|calls| - 1], calls[|calls| - 1];
      var before := U2UCarry(rest, accounts);
      if AllFit(calls) { AllFitBefore(calls); }
      var step := 0;
      if c.AddU2U? {
        step := AddAmountTotal(Run(rest).u2us, c.account, c.value, c.approved, accounts);
      }
      carry := before + step;
    }
  }

  /**
   Conservation over every run, for every selection of (token, account) pairs (one pair, all the
   accounts of a token, ...): the entries total the credited requests modulo 2^64, and exactly
   when no addition overflows.
   */
  lemma {:induction false} TokensConserved(calls: seq<Call>, keys: TokenKey -> bool)
    ensures Congruent(Total(Run(calls).tokens, keys), TokenRequests(calls, keys))
    ensures AllFit(calls) ==> Total(Run(calls).tokens, keys) == TokenRequests(calls, keys)
  {
    var carry := TokenCarry(calls, keys);
    MultipleApart(Total(Run(calls).tokens, keys), TokenRequests(calls, keys), carry);
  }

  /** Conservation of the U2U amounts, for every selection of accounts. */
  lemma {:induction false} U2UsConserved(calls: seq<Call>, accounts: AccountId -> bool)
    ensures Congruent(Total(Run(calls).u2us, accounts), Sum(calls, U2UValue(accounts)))
    ensures AllFit(calls) ==> Total(Run(calls).u2us, accounts) == Sum(calls, U2UValue(accounts))
  {
    var carry := U2UCarry(calls, accounts);
    MultipleApart(Total(Run(calls).u2us, accounts), Sum(calls, U2UValue(accounts)), carry);
  }

  /** With unique keys, the total at one key is that key's amount. */
  lemma {:induction false} TotalAtKey<K>(es: seq<Entry<K>>, key: K)
    requires UniqueKeys(es)
    ensures Total(es, Only(key)) == (if FindKey(es, key) < |es| then es[FindKey(es, key)].amount else 0)
  {
    if es != [] {
      var n := |es| - 1;
      TotalAtKey(es[..n], key);
      var k := FindKey(es, key);
      var j := FindKey(es[..n], key);
      assert k < n ==> es[..n][k].key == key;
      assert j < n ==> es[..n][j].key == key && es[j].key == key;
    }
  }

  /** The amount kept for a pair is exactly the 64-bit wrap of what was asked for it. */
  lemma TokenAmount(calls: seq<Call>, key: TokenKey)
    ensures var es := Run(calls).tokens;
            FindKey(es, key) < |es| ==> es[FindKey(es, key)].amount == Wrap(TokenRequests(calls, Only(key)))
  {
    RunUnique(calls);
    TotalAtKey(Run(calls).tokens, key);
    var carry := TokenCarry(calls, Only(key));
    MultipleApart(Total(Run(calls).tokens, Only(key)), TokenRequests(calls, Only(key)), carry);
  }

  lemma U2UAmount(calls: seq<Call>, account: AccountId)
    ensures var es := Run(calls).u2us;
            FindKey(es, account) < |es| ==> es[FindKey(es, account)].amount == Wrap(Sum(calls, U2UValue(Only(account))))
  {
    RunUnique(calls);
    TotalAtKey(Run(calls).u2us, account);
    var carry := U2UCarry(calls, Only(account));
    MultipleApart(Total(Run(calls).u2us, Only(account)), Sum(calls, U2UValue(Only(account))), carry);
  }
}
