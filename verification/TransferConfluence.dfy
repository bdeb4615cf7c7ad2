/** Call order: when reordering the `add…Transfer` calls leaves the emitted lists unchanged. */
module TransferConfluence {
  import opened Results
  import opened Longs
  import opened Ordering
  import opened Sequences
  import opened Identifiers
  import opened Sums
  import opened Transfers
  import opened TransferTotals

  /** The comparator `_makeTransactionData` sorts the token transfers with. */
  function CompareTokenTransfers(a: TokenTransfer, b: TokenTransfer): int
  {
    if CompareTokens(a.key.token, b.key.token) != 0 then CompareTokens(a.key.token, b.key.token)
    else CompareAccounts(a.key.account, b.key.account)
  }

  function CompareU2UTransfers(a: U2UTransfer, b: U2UTransfer): int
  {
    CompareAccounts(a.key, b.key)
  }

  lemma TokenTransfersConsistent(all: set<TokenTransfer>, accounts: set<AccountId>)
    requires AllOrderable(accounts) && forall e | e in all :: e.key.account in accounts
    ensures Consistent(CompareTokenTransfers, all)
  {
    forall a, b | a in all && b in all
      ensures CompareTokenTransfers(a, b) < 0 <==> CompareTokenTransfers(b, a) > 0
    {
      CompareAccountsAntisymmetric(a.key.account, b.key.account);
    }
    forall a, b, c {:trigger CompareTokenTransfers(a, b), CompareTokenTransfers(b, c)}
      | a in all && b in all && c in all && CompareTokenTransfers(a, b) <= 0 && CompareTokenTransfers(b, c) <= 0
      ensures CompareTokenTransfers(a, c) <= 0
    {
      if a.key.token == b.key.token == c.key.token {
        CompareAccountsTransitive(a.key.account, b.key.account, c.key.account);
      }
    }
  }

  lemma U2UTransfersConsistent(all: set<U2UTransfer>, accounts: set<AccountId>)
    requires AllOrderable(accounts) && forall e | e in all :: e.key in accounts
    ensures Consistent(CompareU2UTransfers, all)
  {
    forall a, b | a in all && b in all
      ensures CompareU2UTransfers(a, b) < 0 <==> CompareU2UTransfers(b, a) > 0
    {
      CompareAccountsAntisymmetric(a.key, b.key);
    }
    forall a, b, c {:trigger CompareU2UTransfers(a, b), CompareU2UTransfers(b, c)}
      | a in all && b in all && c in all && CompareU2UTransfers(a, b) <= 0 && CompareU2UTransfers(b, c) <= 0
      ensures CompareU2UTransfers(a, c) <= 0
    {
      CompareAccountsTransitive(a.key, b.key, c.key);
    }
  }

  /** The account lists the transaction emits after a run. */
  function EmittedTokens(calls: seq<Call>): seq<TokenTransfer>
  {
    Sort(CompareTokenTransfers, Run(calls).tokens)
  }

  function EmittedU2Us(calls: seq<Call>): seq<U2UTransfer>
  {
    Sort(CompareU2UTransfers, Run(calls).u2us)
  }

  lemma ArrangedKeys<K>(es: seq<Entry<K>>, fs: seq<Entry<K>>)
    requires UniqueKeys(es) && multiset(es) == multiset(fs)
    ensures UniqueKeys(fs)
  {
    SameElements(es, fs);
    forall i, j | 0 <= i < j < |fs| ensures fs[i].key != fs[j].key {
      TwiceInMultiset(fs, i, j);
      UniqueMembers(es, fs[i]);
      assert fs[i] in es && fs[j] in es;
    }
  }

  lemma TwiceInMultiset<T>(xs: seq<T>, i: nat, j: nat)
    requires i < j < |xs|
    ensures xs[i] == xs[j] ==> multiset(xs)[xs[i]] >= 2
  {
    assert xs == xs[..j] + [xs[j]] + xs[j + 1..];
    assert xs[..j][i] == xs[i] && xs[i] in xs[..j];
  }

  /** The lower token, or in one token the lower account. */
  ghost predicate KeyBefore(a: TokenKey, b: TokenKey)
  {
    Before(a.token, b.token) || (a.token == b.token && AccountBefore(a.account, b.account))
  }

  lemma CompareTransfersSign(a: TokenTransfer, b: TokenTransfer)
    requires Orderable(a.key.account, b.key.account)
    ensures CompareTokenTransfers(a, b) < 0 <==> KeyBefore(a.key, b.key)
  {
    CompareTokensSign(a.key.token, b.key.token);
    CompareAccountsSign(a.key.account, b.key.account);
  }

  ghost predicate TokensIncrease(ts: seq<TokenTransfer>)
  {
    forall i, j | 0 <= i < j < |ts| :: KeyBefore(ts[i].key, ts[j].key)
  }

  ghost predicate AmountsIncrease(us: seq<U2UTransfer>)
  {
    forall i, j | 0 <= i < j < |us| :: AccountBefore(us[i].key, us[j].key)
  }

  lemma {:induction false} TokensInOrder(es: seq<TokenTransfer>, accounts: set<AccountId>)
    requires AllOrderable(accounts) && UniqueKeys(es) && forall e | e in es :: e.key.account in accounts
    ensures TokensIncrease(Sort(CompareTokenTransfers, es))
  {
    var all := set e | e in es;
    var ts := Sort(CompareTokenTransfers, es);
    TokenTransfersConsistent(all, accounts);
    SortSorted(CompareTokenTransfers, es, all);
    ArrangedKeys(es, ts);
    SameElements(es, ts);
    forall i, j | 0 <= i < j < |ts| ensures KeyBefore(ts[i].key, ts[j].key) {
      assert ts[i] in ts && ts[j] in ts;
      CompareTokensSign(ts[i].key.token, ts[j].key.token);
      CompareAccountsZero(ts[i].key.account, ts[j].key.account);
      CompareTransfersSign(ts[i], ts[j]);
    }
  }

  lemma {:induction false} U2UsInOrder(es: seq<U2UTransfer>, accounts: set<AccountId>)
    requires AllOrderable(accounts) && UniqueKeys(es) && forall e | e in es :: e.key in accounts
    ensures AmountsIncrease(Sort(CompareU2UTransfers, es))
  {
    var all := set e | e in es;
    var us := Sort(CompareU2UTransfers, es);
    U2UTransfersConsistent(all, accounts);
    SortSorted(CompareU2UTransfers, es, all);
    ArrangedKeys(es, us);
    SameElements(es, us);
    forall i, j | 0 <= i < j < |us| ensures AccountBefore(us[i].key, us[j].key) {
      assert us[i] in us && us[j] in us;
      CompareAccountsZero(us[i].key, us[j].key);
      CompareAccountsSign(us[i].key, us[j].key);
    }
  }

  /** The emitted lists strictly increase, token transfers by token and then account, amounts by account. */
  lemma {:induction false} EmittedInOrder(calls: seq<Call>, accounts: set<AccountId>)
    requires AllOrderable(accounts)
    requires (forall e | e in Run(calls).tokens :: e.key.account in accounts)
    requires forall e | e in Run(calls).u2us :: e.key in accounts
    ensures TokensIncrease(EmittedTokens(calls)) && AmountsIncrease(EmittedU2Us(calls))
  {
    RunUnique(calls);
    TokensInOrder(Run(calls).tokens, accounts);
    U2UsInOrder(Run(calls).u2us, accounts);
  }

  /** Merges requests, given as entries of their own, one after the other. */
  function Merge<K(==)>(adds: seq<Entry<K>>): (es: seq<Entry<K>>)
  {
    if adds == [] then []
    else
      var last := adds[|adds| - 1];
      AddAmount(Merge(adds[..|adds| - 1]), last.key, last.amount, last.isApproved)
  }

  lemma {:induction false} FindKeyAppend<K>(es: seq<Entry<K>>, e: Entry<K>, key: K)
    ensures FindKey(es + [e], key) ==
            if FindKey(es, key) < |es| then FindKey(es, key) else if e.key == key then |es| else |es| + 1
  {
    var k, j := FindKey(es + [e], key), FindKey(es, key);
    assert j < |es| ==> (es + [e])[j].key == key;
    assert k < |es| ==> es[k].key == key;
    assert (es + [e])[|es|].key == e.key;
    assert forall i | 0 <= i < |es| :: (es + [e])[i] == es[i];
  }

  lemma FindKeyUpdate<K>(es: seq<Entry<K>>, k: nat, e: Entry<K>, key: K)
    requires k < |es| && e.key == es[k].key
    ensures FindKey(es[k := e], key) == FindKey(es, key)
  {
    var i, j := FindKey(es[k := e], key), FindKey(es, key);
    assert i < |es| ==> es[i].key == key;
    assert j < |es| ==> es[k := e][j].key == key;
  }

  /** What merging keeps for a key: nothing, or the first request's flag with no decimals. */
  ghost predicate Kept<K(!new)>(es: seq<Entry<K>>, adds: seq<Entry<K>>, key: K)
  {
    var k, first := FindKey(es, key), FindKey(adds, key);
    && (k < |es| <==> first < |adds|)
    && (k < |es| ==> es[k].expectedDecimals == None && es[k].isApproved == adds[first].isApproved)
  }

  lemma {:induction false} MergeKept<K(!new)>(adds: seq<Entry<K>>, key: K)
    ensures Kept(Merge(adds), adds, key)
  {
    if adds != [] {
      var rest, last := adds[..|adds| - 1], adds[|adds| - 1];
      MergeKept(rest, key);
      MergeKept(rest, last.key);
      var es := Merge(rest);
      var k := FindKey(es, last.key);
      assert adds == rest + [last];
      FindKeyAppend(rest, last, key);
      if k < |es| {
        FindKeyUpdate(es, k, Merge(adds)[k], key);
      } else {
        FindKeyAppend(es, Entry(last.key, None, last.amount, last.isApproved), key);
      }
    }
  }

  lemma {:induction false} MergeUnique<K>(adds: seq<Entry<K>>)
    ensures UniqueKeys(Merge(adds))
  {
    if adds != [] {
      MergeUnique(adds[..|adds| - 1]);
    }
  }

  lemma {:induction false} MergeCarry<K>(adds: seq<Entry<K>>, keys: K -> bool) returns (carry: int)
    ensures Total(Merge(adds), keys) == Total(adds, keys) + carry * TWO_64
  {
    carry := 0;
    if adds != [] {
      var rest, last := adds[..|adds| - 1], adds[|adds| - 1];
      var before := MergeCarry(rest, keys);
      var step := AddAmountTotal(Merge(rest), last.key, last.amount, last.isApproved, keys);
      carry := before + step;
    }
  }

  lemma MergeAmount<K>(adds: seq<Entry<K>>, key: K)
    ensures var es := Merge(adds);
            FindKey(es, key) < |es| ==> es[FindKey(es, key)].amount == Wrap(Total(adds, Only(key)))
  {
    MergeUnique(adds);
    TotalAtKey(Merge(adds), key);
    var carry := MergeCarry(adds, Only(key));
    MultipleApart(Total(Merge(adds), Only(key)), Total(adds, Only(key)), carry);
  }

  /** Requests for the same key carry the same approval flag. */
  ghost predicate FlagsAgree<K>(adds: seq<Entry<K>>)
  {
    forall i, j | 0 <= i < |adds| && 0 <= j < |adds| && adds[i].key == adds[j].key ::
      adds[i].isApproved == adds[j].isApproved
  }

  lemma MergeMember<K(!new)>(adds: seq<Entry<K>>, other: seq<Entry<K>>, e: Entry<K>)
    requires multiset(adds) == multiset(other) && FlagsAgree(adds)
    requires e in Merge(adds)
    ensures e in Merge(other)
  {
    var es, fs := Merge(adds), Merge(other);
    MergeUnique(adds);
    var i :| 0 <= i < |es| && es[i] == e;
    var k := FindKey(es, e.key);
    assert k == i;
    MergeKept(adds, e.key);
    MergeKept(other, e.key);
    SameElements(adds, other);
    var first, second := FindKey(adds, e.key), FindKey(other, e.key);
    assert adds[first] in other;
    assert second < |other|;
    assert other[second] in adds;
    MergeAmount(adds, e.key);
    MergeAmount(other, e.key);
    SumPermutation(adds, other, Weight(Only(e.key)));
    assert fs[FindKey(fs, e.key)] == e;
  }

  lemma UniqueMembers<K>(es: seq<Entry<K>>, e: Entry<K>)
    requires UniqueKeys(es)
    ensures multiset(es)[e] == if e in es then 1 else 0
  {
    if e in es {
      var i :| 0 <= i < |es| && es[i] == e;
      assert es == es[..i] + [e] + es[i + 1..];
      assert e !in es[..i] && e !in es[i + 1..];
    }
  }

  /** Merging is confluent: permuted requests merge to the same entries. */
  lemma {:induction false} MergePermutation<K(!new)>(adds: seq<Entry<K>>, other: seq<Entry<K>>)
    requires multiset(adds) == multiset(other) && FlagsAgree(adds)
    ensures multiset(Merge(adds)) == multiset(Merge(other))
  {
    SameElements(adds, other);
    assert FlagsAgree(other) by {
      forall i, j | 0 <= i < |other| && 0 <= j < |other| && other[i].key == other[j].key
        ensures other[i].isApproved == other[j].isApproved
      {
        assert other[i] in adds && other[j] in adds;
      }
    }
    forall e ensures multiset(Merge(adds))[e] == multiset(Merge(other))[e] {
      MergeUnique(adds);
      MergeUnique(other);
      UniqueMembers(Merge(adds), e);
      UniqueMembers(Merge(other), e);
      if e in Merge(adds) { MergeMember(adds, other, e); }
      if e in Merge(other) { MergeMember(other, adds, e); }
    }
  }

  /** The token requests of a run, in order. */
  function TokenAdds(calls: seq<Call>): (adds: seq<TokenTransfer>)
  {
    if calls == [] then []
    else
      var adds, c := TokenAdds(calls[..|calls| - 1]), calls[|calls| - 1];
      if c.AddToken? then adds + [Entry(c.key, None, c.value, c.approved)] else adds
  }

  function U2UAdds(calls: seq<Call>): (adds: seq<U2UTransfer>)
  {
    if calls == [] then []
    else
      var adds, c := U2UAdds(calls[..|calls| - 1]), calls[|calls| - 1];
      if c.AddU2U? then adds + [Entry(c.account, None, c.value, c.approved)] else adds
  }

  /** No call sets decimals. */
  ghost predicate Plain(calls: seq<Call>)
  {
    forall c | c in calls :: !c.AddTokenWithDecimals?
  }

  lemma {:induction false} RunMerges(calls: seq<Call>)
    requires Plain(calls)
    ensures Run(calls).tokens == Merge(TokenAdds(calls))
    ensures Run(calls).u2us == Merge(U2UAdds(calls))
  {
    if calls != [] {
      var rest, c := calls[..|calls| - 1], calls[|calls| - 1];
      RunMerges(rest);
      var tokens, u2us := TokenAdds(calls), U2UAdds(calls);
      assert c.AddToken? ==> tokens[..|tokens| - 1] == TokenAdds(rest);
      assert c.AddU2U? ==> u2us[..|u2us| - 1] == U2UAdds(rest);
    }
  }

  lemma {:induction false} AddsConcat(calls: seq<Call>, more: seq<Call>)
    ensures TokenAdds(calls + more) == TokenAdds(calls) + TokenAdds(more)
    ensures U2UAdds(calls + more) == U2UAdds(calls) + U2UAdds(more)
  {
    if more == [] {
      assert calls + more == calls;
    } else {
      AddsConcat(calls, more[..|more| - 1]);
      assert (calls + more)[..|calls + more| - 1] == calls + more[..|more| - 1];
    }
  }

  lemma {:induction false} AddsExtract(calls: seq<Call>, j: nat)
    requires j < |calls|
    ensures multiset(TokenAdds(calls)) ==
              multiset(TokenAdds(calls[..j] + calls[j + 1..])) + multiset(TokenAdds([calls[j]]))
    ensures multiset(U2UAdds(calls)) == multiset(U2UAdds(calls[..j] + calls[j + 1..])) + multiset(U2UAdds([calls[j]]))
  {
    var before, c, after := calls[..j], calls[j], calls[j + 1..];
    SplitAt(calls, j);
    AddsConcat(before + [c], after);
    AddsConcat(before, [c]);
    AddsConcat(before, after);
    MultisetMiddle(TokenAdds(before), TokenAdds([c]), TokenAdds(after));
    MultisetMiddle(U2UAdds(before), U2UAdds([c]), U2UAdds(after));
  }

  lemma MultisetMiddle<T>(before: seq<T>, middle: seq<T>, after: seq<T>)
    ensures multiset(before + middle + after) == multiset(before + after) + multiset(middle)
  {
  }

  lemma {:induction false} AddsPermutation(calls: seq<Call>, other: seq<Call>)
    requires multiset(calls) == multiset(other)
    ensures multiset(TokenAdds(calls)) == multiset(TokenAdds(other))
    ensures multiset(U2UAdds(calls)) == multiset(U2UAdds(other))
    decreases |calls|
  {
    if calls == [] {
      assert |multiset(other)| == |other|;
    } else {
      var n := |calls| - 1;
      var j := RemoveOne(calls, other);
      AddsPermutation(calls[..n], other[..j] + other[j + 1..]);
      AddsExtract(other, j);
      AddsExtract(calls, n);
      assert calls[..n] + calls[n + 1..] == calls[..n];
    }
  }

  ghost predicate SameSlot(c: Call, d: Call)
  {
    (c.AddToken? && d.AddToken? && c.key == d.key) || (c.AddU2U? && d.AddU2U? && c.account == d.account)
  }

  /** Calls that merge into one entry carry the same approval flag. */
  ghost predicate ApprovalsAgree(calls: seq<Call>)
  {
    forall c, d | c in calls && d in calls && SameSlot(c, d) :: c.approved == d.approved
  }

  lemma {:induction false} AddsFromCalls(calls: seq<Call>)
    ensures forall e | e in TokenAdds(calls) ::
              e.expectedDecimals == None && AddToken(e.key, e.amount, e.isApproved) in calls
    ensures forall e | e in U2UAdds(calls) ::
              e.expectedDecimals == None && AddU2U(e.key, e.amount, e.isApproved) in calls
  {
    if calls != [] {
      AddsFromCalls(calls[..|calls| - 1]);
    }
  }

  lemma ApprovalsFlags(calls: seq<Call>)
    requires ApprovalsAgree(calls)
    ensures FlagsAgree(TokenAdds(calls)) && FlagsAgree(U2UAdds(calls))
  {
    AddsFromCalls(calls);
    var tokens, u2us := TokenAdds(calls), U2UAdds(calls);
    forall i, j | 0 <= i < |tokens| && 0 <= j < |tokens| && tokens[i].key == tokens[j].key
      ensures tokens[i].isApproved == tokens[j].isApproved
    {
      assert tokens[i] in tokens && tokens[j] in tokens;
      assert SameSlot(AddToken(tokens[i].key, tokens[i].amount, tokens[i].isApproved),
                      AddToken(tokens[j].key, tokens[j].amount, tokens[j].isApproved));
    }
    forall i, j | 0 <= i < |u2us| && 0 <= j < |u2us| && u2us[i].key == u2us[j].key
      ensures u2us[i].isApproved == u2us[j].isApproved
    {
      assert u2us[i] in u2us && u2us[j] in u2us;
      assert SameSlot(AddU2U(u2us[i].key, u2us[i].amount, u2us[i].isApproved),
          AddU2U(u2us[j].key, u2us[j].amount, u2us[j].isApproved));
    }
  }

  /** The accounts the fungible calls name. */
  ghost predicate Names(calls: seq<Call>, accounts: set<AccountId>)
  {
    forall c | c in calls ::
      && ((c.AddToken? || c.AddTokenWithDecimals?) ==> c.key.account in accounts)
      && (c.AddU2U? ==> c.account in accounts)
  }

  lemma UniqueEntry<K>(es: seq<Entry<K>>, a: Entry<K>, b: Entry<K>)
    requires UniqueKeys(es) && a in es && b in es && a.key == b.key
    ensures a == b
  {
  }

  lemma {:induction false} SortedTokensEqual(es: seq<TokenTransfer>, fs: seq<TokenTransfer>, accounts: set<AccountId>)
    requires UniqueKeys(es) && multiset(es) == multiset(fs)
    requires AllOrderable(accounts) && forall e | e in es :: e.key.account in accounts
    ensures Sort(CompareTokenTransfers, es) == Sort(CompareTokenTransfers, fs)
  {
    var all := set e | e in es;
    TokenTransfersConsistent(all, accounts);
    forall a, b {:trigger CompareTokenTransfers(a, b)} | a in all && b in all && CompareTokenTransfers(a, b) == 0
      ensures a == b
    {
      CompareTokensSign(a.key.token, b.key.token);
      CompareAccountsZero(a.key.account, b.key.account);
      UniqueEntry(es, a, b);
    }
    SortPermutation(CompareTokenTransfers, es, fs, all);
  }

  lemma {:induction false} SortedU2UsEqual(es: seq<U2UTransfer>, fs: seq<U2UTransfer>, accounts: set<AccountId>)
    requires UniqueKeys(es) && multiset(es) == multiset(fs)
    requires AllOrderable(accounts) && forall e | e in es :: e.key in accounts
    ensures Sort(CompareU2UTransfers, es) == Sort(CompareU2UTransfers, fs)
  {
    var all := set e | e in es;
    U2UTransfersConsistent(all, accounts);
    forall a, b {:trigger CompareU2UTransfers(a, b)} | a in all && b in all && CompareU2UTransfers(a, b) == 0
      ensures a == b
    {
      CompareAccountsZero(a.key, b.key);
      UniqueEntry(es, a, b);
    }
    SortPermutation(CompareU2UTransfers, es, fs, all);
  }

  /** The entries of a run name accounts its calls named. */
  lemma EntriesNamed(calls: seq<Call>, accounts: set<AccountId>)
    requires Plain(calls) && Names(calls, accounts)
    ensures forall e | e in Run(calls).tokens :: e.key.account in accounts
    ensures forall e | e in Run(calls).u2us :: e.key in accounts
  {
    RunMerges(calls);
    AddsFromCalls(calls);
    RunUnique(calls);
    forall e | e in Run(calls).tokens ensures e.key.account in accounts {
      MergeKept(TokenAdds(calls), e.key);
      var add := TokenAdds(calls)[FindKey(TokenAdds(calls), e.key)];
      assert AddToken(add.key, add.amount, add.isApproved) in calls;
    }
    forall e | e in Run(calls).u2us ensures e.key in accounts {
      MergeKept(U2UAdds(calls), e.key);
      var add := U2UAdds(calls)[FindKey(U2UAdds(calls), e.key)];
      assert AddU2U(add.key, add.amount, add.isApproved) in calls;
    }
  }

  /** Reordering calls whose approval flags agree leaves both emitted lists unchanged. */
  lemma Reordered(calls: seq<Call>, other: seq<Call>, accounts: set<AccountId>)
    requires Plain(calls) && multiset(calls) == multiset(other) && ApprovalsAgree(calls)
    requires AllOrderable(accounts) && Names(calls, accounts)
    ensures EmittedTokens(calls) == EmittedTokens(other)
    ensures EmittedU2Us(calls) == EmittedU2Us(other)
  {
    SameElements(calls, other);
    RunMerges(calls);
    RunMerges(other);
    AddsPermutation(calls, other);
    ApprovalsFlags(calls);
    EntriesNamed(calls, accounts);
    RunUnique(calls);
    MergePermutation(TokenAdds(calls), TokenAdds(other));
    SortedTokensEqual(Run(calls).tokens, Run(other).tokens, accounts);
    MergePermutation(U2UAdds(calls), U2UAdds(other));
    SortedU2UsEqual(Run(calls).u2us, Run(other).u2us, accounts);
  }

  /** `calls` with call `i` made first. */
  function Promote(calls: seq<Call>, i: nat): (r: seq<Call>)
    requires i < |calls|
    ensures multiset(r) == multiset(calls)
  {
    SplitAt(calls, i);
    [calls[i]] + (calls[..i] + calls[i + 1..])
  }

  /** The first call for an entry decides its approval flag. */
  lemma PromotedFlag(calls: seq<Call>, i: nat)
    requires i < |calls| && Plain(calls)
    ensures calls[i].AddToken? ==>
              exists e :: e in EmittedTokens(Promote(calls, i)) && e.key == calls[i].key
                          && e.isApproved == calls[i].approved
    ensures calls[i].AddU2U? ==>
              exists e :: e in EmittedU2Us(Promote(calls, i)) && e.key == calls[i].account
                          && e.isApproved == calls[i].approved
  {
    var c, p := calls[i], Promote(calls, i);
    SameElements(p, calls);
    RunMerges(p);
    AddsConcat([c], calls[..i] + calls[i + 1..]);
    if c.AddToken? {
      MergeKept(TokenAdds(p), c.key);
      var es := Run(p).tokens;
      SameElements(EmittedTokens(p), es);
      assert es[FindKey(es, c.key)] in EmittedTokens(p);
    } else if c.AddU2U? {
      MergeKept(U2UAdds(p), c.account);
      var es := Run(p).u2us;
      SameElements(EmittedU2Us(p), es);
      assert es[FindKey(es, c.account)] in EmittedU2Us(p);
    }
  }

  lemma {:induction false} EmittedUnique(calls: seq<Call>)
    ensures forall e, f | e in EmittedTokens(calls) && f in EmittedTokens(calls) && e.key == f.key :: e == f
    ensures forall e, f | e in EmittedU2Us(calls) && f in EmittedU2Us(calls) && e.key == f.key :: e == f
  {
    RunUnique(calls);
    ArrangedUnique(Run(calls).tokens, EmittedTokens(calls));
    ArrangedUnique(Run(calls).u2us, EmittedU2Us(calls));
  }

  lemma ArrangedUnique<K>(es: seq<Entry<K>>, fs: seq<Entry<K>>)
    requires UniqueKeys(es) && multiset(es) == multiset(fs)
    ensures forall e, f | e in fs && f in fs && e.key == f.key :: e == f
  {
    SameElements(es, fs);
    forall e, f | e in fs && f in fs && e.key == f.key ensures e == f {
      UniqueEntry(es, e, f);
    }
  }

  lemma Disagreement(calls: seq<Call>, i: nat, j: nat)
    requires i < |calls| && j < |calls| && Plain(calls)
    requires SameSlot(calls[i], calls[j]) && calls[i].approved != calls[j].approved
    ensures EmittedTokens(Promote(calls, i)) != EmittedTokens(Promote(calls, j))
         || EmittedU2Us(Promote(calls, i)) != EmittedU2Us(Promote(calls, j))
  {
    var p, q := Promote(calls, i), Promote(calls, j);
    PromotedFlag(calls, i);
    PromotedFlag(calls, j);
    EmittedUnique(p);
  }

  ghost predicate OrderIrrelevant(calls: seq<Call>)
  {
    forall other | multiset(other) == multiset(calls) ::
      EmittedTokens(other) == EmittedTokens(calls) && EmittedU2Us(other) == EmittedU2Us(calls)
  }

  /**
   Confluence: for calls without decimals over orderable accounts, the emitted fungible lists are
   the same for every order of the calls exactly when calls for one entry agree on approval.
   */
  lemma OrderIrrelevantIffApprovalsAgree(calls: seq<Call>, accounts: set<AccountId>)
    requires Plain(calls) && AllOrderable(accounts) && Names(calls, accounts)
    ensures OrderIrrelevant(calls) <==> ApprovalsAgree(calls)
  {
    if ApprovalsAgree(calls) {
      forall other | multiset(other) == multiset(calls)
        ensures EmittedTokens(other) == EmittedTokens(calls) && EmittedU2Us(other) == EmittedU2Us(calls)
      {
        Reordered(calls, other, accounts);
      }
    } else {
      var c, d :| c in calls && d in calls && SameSlot(c, d) && c.approved != d.approved;
      var i :| 0 <= i < |calls| && calls[i] == c;
      var j :| 0 <= j < |calls| && calls[j] == d;
      Disagreement(calls, i, j);
      assert multiset(Promote(calls, i)) == multiset(calls) == multiset(Promote(calls, j));
    }
  }
}
