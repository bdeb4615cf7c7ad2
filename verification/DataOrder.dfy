/** Call order and the emitted data: exactly when the order of the calls does not matter. */
module DataOrder {
  import opened Results
  import opened Ordering
  import opened Sequences
  import opened Identifiers
  import opened Transfers
  import opened TransferConfluence
  import opened TransferHistory
  import opened Grouping
  import opened TransferTransactions
  import opened DataConfluence

  /** Every order of the calls emits the same data. */
  ghost predicate DataIrrelevant(calls: seq<Call>)
  {
    forall other | multiset(other) == multiset(calls) :: DataOf(Run(other)) == DataOf(Run(calls))
  }

  /** However the sort may leave the NFT entries that tie, the merge gives the same groups. */
  ghost predicate TiesHarmless(calls: seq<Call>)
  {
    forall nn | multiset(nn) == multiset(Run(calls).nfts) && Sorted(CompareNftTransfers, nn) ::
      Groups(EmittedTokens(calls), nn) == Groups(EmittedTokens(calls), Arranged(Run(calls)).nfts)
  }

  lemma {:induction false} SameCalls(calls: seq<Call>, other: seq<Call>, accounts: set<AccountId>)
    requires multiset(calls) == multiset(other)
    ensures Plain(calls) ==> Plain(other)
    ensures Names(calls, accounts) ==> Names(other, accounts)
    ensures NamesParties(calls, accounts) ==> NamesParties(other, accounts)
  {
    SameElements(calls, other);
  }

  // ----- what the data determine

  lemma {:induction false} Selected(nn: seq<NftTransfer>, n: NftTransfer)
    ensures n in nn <==> n in Select(nn, n.token)
  {
    if nn != [] {
      Selected(nn[..|nn| - 1], n);
      assert nn == nn[..|nn| - 1] + [nn[|nn| - 1]];
    }
  }

  /** The emitted data determine the fungible lists and the NFT entries. */
  lemma {:induction false} DataDetermine(calls: seq<Call>, other: seq<Call>, accounts: set<AccountId>)
    requires Plain(calls) && Plain(other) && AllOrderable(accounts)
    requires Names(calls, accounts) && Names(other, accounts) && DataOf(Run(calls)) == DataOf(Run(other))
    ensures EmittedTokens(calls) == EmittedTokens(other) && EmittedU2Us(calls) == EmittedU2Us(other)
    ensures SameNfts(calls, other)
  {
    var ns, ms := Arranged(Run(calls)).nfts, Arranged(Run(other)).nfts;
    EntriesNamed(calls, accounts);
    EntriesNamed(other, accounts);
    DataGrouped(Run(calls), accounts);
    DataGrouped(Run(other), accounts);
    SameElements(Run(calls).nfts, ns);
    SameElements(Run(other).nfts, ms);
    forall n ensures n in Run(calls).nfts <==> n in Run(other).nfts {
      Selected(ns, n);
      Selected(ms, n);
      assert Select(ns, n.token) == NftsOf(DataOf(Run(calls)).tokenTransfers, n.token) == Select(ms, n.token);
    }
  }

  // ----- every sorted arrangement comes from some order of the calls

  function Asks(nn: seq<NftTransfer>): (r: seq<Call>)
    ensures |r| == |nn|
  {
    seq(|nn|, i requires 0 <= i < |nn| => Asking(nn[i]))
  }

  /** An order that begins with the calls that ask for the first `k` entries. */
  lemma {:induction false} Fronted(calls: seq<Call>, nn: seq<NftTransfer>, k: nat) returns (other: seq<Call>)
    requires UniqueNfts(nn) && k <= |nn| && forall n | n in nn :: Asking(n) in calls
    ensures multiset(other) == multiset(calls) && k <= |other| && other[..k] == Asks(nn)[..k]
  {
    if k == 0 {
      other := calls;
    } else {
      var rest := Fronted(calls, nn, k - 1);
      var c := Asks(nn)[k - 1];
      SameElements(calls, rest);
      assert nn[k - 1] in nn && c in rest;
      var j :| 0 <= j < |rest| && rest[j] == c;
      assert j >= k - 1 by {
        assert j < k - 1 ==> rest[..k - 1][j] == Asks(nn)[..k - 1][j] == Asking(nn[j]);
      }
      other := MovedTo(rest, k - 1, j);
    }
  }

  lemma MovedTo<T>(xs: seq<T>, i: nat, j: nat) returns (r: seq<T>)
    requires i <= j < |xs|
    ensures multiset(r) == multiset(xs) && i < |r| && r[..i + 1] == xs[..i] + [xs[j]]
  {
    r := xs[..i] + [xs[j]] + (xs[i..j] + xs[j + 1..]);
    assert xs == xs[..i] + xs[i..j] + [xs[j]] + xs[j + 1..];
  }

  lemma RunNext(calls: seq<Call>, k: nat)
    requires 0 < k <= |calls|
    ensures Run(calls[..k]) == Apply(Run(calls[..k - 1]), calls[k - 1]) && calls[k - 1] in calls
  {
    assert calls[..k][..k - 1] == calls[..k - 1];
  }

  lemma NewAppended(ns: seq<NftTransfer>, n: NftTransfer)
    requires forall m | m in ns :: m.token != n.token || m.serial != n.serial
    ensures SetNft(ns, n) == ns + [n]
  {
    assert forall i | 0 <= i < |ns| :: ns[i] in ns;
  }

  lemma {:induction false} RunAsked(other: seq<Call>, nn: seq<NftTransfer>, k: nat)
    requires UniqueNfts(nn) && |nn| <= |other| && other[..|nn|] == Asks(nn) && k <= |nn|
    ensures Run(other[..k]).nfts == nn[..k]
  {
    if k > 0 {
      RunAsked(other, nn, k - 1);
      RunNext(other, k);
      assert other[k - 1] == other[..|nn|][k - 1] == Asking(nn[k - 1]);
      NewAppended(nn[..k - 1], nn[k - 1]);
      assert nn[..k] == nn[..k - 1] + [nn[k - 1]];
    }
  }

  /** Calls that ask for what is there change nothing. */
  lemma {:induction false} RunKept(other: seq<Call>, nn: seq<NftTransfer>, k: nat)
    requires UniqueNfts(nn) && |nn| <= k <= |other| && Run(other[..|nn|]).nfts == nn
    requires forall c | c in other && c.AddNft? :: Asked(c) in nn
    ensures Run(other[..k]).nfts == nn
    decreases k
  {
    if k > |nn| {
      RunKept(other, nn, k - 1);
      var c := other[k - 1];
      RunNext(other, k);
      if c.AddNft? {
        KnownKept(nn, Asked(c));
      }
    }
  }

  lemma KnownKept(nn: seq<NftTransfer>, n: NftTransfer)
    requires UniqueNfts(nn) && n in nn
    ensures SetNft(nn, n) == nn
  {
    FindUnique(nn, n);
  }

  lemma {:induction false} ArrangementReached(calls: seq<Call>, nn: seq<NftTransfer>, accounts: set<AccountId>)
    returns (other: seq<Call>)
    requires NftsAgree(calls) && AllOrderable(accounts) && NamesParties(calls, accounts)
    requires multiset(nn) == multiset(Run(calls).nfts) && Sorted(CompareNftTransfers, nn)
    ensures multiset(other) == multiset(calls) && Arranged(Run(other)).nfts == nn
  {
    RunUnique(calls);
    SameElements(nn, Run(calls).nfts);
    UniqueArranged(Run(calls).nfts, nn);
    forall n ensures n in nn <==> Asking(n) in calls {
      AgreedEntry(calls, n);
    }
    other := Fronted(calls, nn, |nn|);
    SameElements(calls, other);
    forall c | c in other && c.AddNft? ensures Asked(c) in nn {
      assert Asking(Asked(c)) == c;
    }
    assert Asks(nn)[..|nn|] == Asks(nn) && nn[..|nn|] == nn && other[..|other|] == other;
    RunAsked(other, nn, |nn|);
    RunKept(other, nn, |other|);
    InOrder(nn, accounts, calls);
  }

  lemma {:induction false} UniqueArranged(ns: seq<NftTransfer>, nn: seq<NftTransfer>)
    requires UniqueNfts(ns) && multiset(ns) == multiset(nn)
    ensures UniqueNfts(nn)
  {
    SameElements(ns, nn);
    forall i, j | 0 <= i < j < |nn| ensures nn[i].token != nn[j].token || nn[i].serial != nn[j].serial {
      TwiceInMultiset(nn, i, j);
      OnceIn(ns, nn[i]);
      assert nn[i] in ns && nn[j] in ns;
    }
  }

  lemma InOrder(nn: seq<NftTransfer>, accounts: set<AccountId>, calls: seq<Call>)
    requires AllOrderable(accounts) && NamesParties(calls, accounts) && Sorted(CompareNftTransfers, nn)
    requires forall n | n in nn :: Asking(n) in calls
    ensures Sort(CompareNftTransfers, nn) == nn
  {
    var all := set n | n in nn;
    forall n | n in all ensures n.sender in accounts && n.receiver in accounts {
      assert Asking(n) in calls;
    }
    NftTransfersConsistent(all, accounts);
    SortInOrder(CompareNftTransfers, nn, all);
  }

  // ----- the exact condition

  lemma {:induction false} MustBeHarmless(calls: seq<Call>, nn: seq<NftTransfer>, accounts: set<AccountId>)
    requires DataIrrelevant(calls) && NftsAgree(calls) && OrderIrrelevant(calls)
    requires AllOrderable(accounts) && NamesParties(calls, accounts)
    requires multiset(nn) == multiset(Run(calls).nfts) && Sorted(CompareNftTransfers, nn)
    ensures Groups(EmittedTokens(calls), nn) == Groups(EmittedTokens(calls), Arranged(Run(calls)).nfts)
  {
    var other := ArrangementReached(calls, nn, accounts);
    assert DataOf(Run(other)) == DataOf(Run(calls)) && EmittedTokens(other) == EmittedTokens(calls);
  }

  lemma {:induction false} HarmlessData(calls: seq<Call>, other: seq<Call>, accounts: set<AccountId>)
    requires Plain(calls) && AllOrderable(accounts) && Names(calls, accounts) && NamesParties(calls, accounts)
    requires ApprovalsAgree(calls) && NftsAgree(calls) && TiesHarmless(calls) && multiset(other) == multiset(calls)
    ensures DataOf(Run(other)) == DataOf(Run(calls))
  {
    Reordered(calls, other, accounts);
    SameEntries(calls, other);
    EntriesSorted(other, accounts, calls);
  }

  lemma {:induction false} EntriesSorted(other: seq<Call>, accounts: set<AccountId>, calls: seq<Call>)
    requires AllOrderable(accounts) && NamesParties(calls, accounts) && NftsAgree(calls)
    requires multiset(other) == multiset(calls)
    ensures Sorted(CompareNftTransfers, Arranged(Run(other)).nfts)
  {
    SameElements(other, calls);
    var all := set n | n in Run(other).nfts;
    forall n | n in all ensures n.sender in accounts && n.receiver in accounts {
      AgreedEntry(other, n);
      assert Asking(n) in calls;
    }
    NftTransfersConsistent(all, accounts);
    SortSorted(CompareNftTransfers, Run(other).nfts, all);
  }

  /**
   Confluence of the data: for calls without decimals over orderable accounts, every order emits the same
   data exactly when calls for one entry agree on approval, calls for one NFT agree, and the merge does
   not tell the sorted arrangements of the NFT entries apart.
   */
  lemma {:induction false} DataIrrelevantIff(calls: seq<Call>, accounts: set<AccountId>)
    requires Plain(calls) && AllOrderable(accounts) && Names(calls, accounts) && NamesParties(calls, accounts)
    ensures DataIrrelevant(calls) <==> ApprovalsAgree(calls) && NftsAgree(calls) && TiesHarmless(calls)
  {
    if DataIrrelevant(calls) {
      MustAgreeAll(calls, accounts);
      forall nn | multiset(nn) == multiset(Run(calls).nfts) && Sorted(CompareNftTransfers, nn)
        ensures Groups(EmittedTokens(calls), nn) == Groups(EmittedTokens(calls), Arranged(Run(calls)).nfts)
      {
        MustBeHarmless(calls, nn, accounts);
      }
    }
    if ApprovalsAgree(calls) && NftsAgree(calls) && TiesHarmless(calls) {
      forall other | multiset(other) == multiset(calls) ensures DataOf(Run(other)) == DataOf(Run(calls)) {
        HarmlessData(calls, other, accounts);
      }
    }
  }

  lemma {:induction false} MustAgreeAll(calls: seq<Call>, accounts: set<AccountId>)
    requires Plain(calls) && AllOrderable(accounts) && Names(calls, accounts) && DataIrrelevant(calls)
    ensures ApprovalsAgree(calls) && NftsAgree(calls) && OrderIrrelevant(calls)
  {
    forall other | multiset(other) == multiset(calls)
      ensures EmittedTokens(other) == EmittedTokens(calls) && EmittedU2Us(other) == EmittedU2Us(calls)
      ensures SameNfts(other, calls)
    {
      SameCalls(calls, other, accounts);
      DataDetermine(calls, other, accounts);
    }
    AllMustAgree(calls);
    OrderIrrelevantIffApprovalsAgree(calls, accounts);
  }

  // ----- a tie without effect

  /** Two tokens, each with a token transfer and an NFT; the two NFTs tie in the sort. */
  function TiedCalls(one: TokenId, two: TokenId, account: AccountId): seq<Call>
  {
    [AddToken(TokenKey(one, account), 1, false)] + [AddToken(TokenKey(two, account), 1, false)]
    + [AddNft(one, 1, account, account, false)] + [AddNft(two, 1, account, account, false)]
  }

  function Credit(token: TokenId, account: AccountId): TokenTransfer
  {
    Entry(TokenKey(token, account), Option.None, 1, false)
  }

  function FirstOf(token: TokenId, account: AccountId): NftTransfer
  {
    NftTransfer(token, 1, account, account, false)
  }

  lemma TiedCallsRun(one: TokenId, two: TokenId, account: AccountId)
    requires one != two
    ensures Run(TiedCalls(one, two, account)) ==
              Lists([Credit(one, account), Credit(two, account)], [], [FirstOf(one, account), FirstOf(two, account)])
  {
    var a, b := AddToken(TokenKey(one, account), 1, false), AddToken(TokenKey(two, account), 1, false);
    var c, d := AddNft(one, 1, account, account, false), AddNft(two, 1, account, account, false);
    RunOne([], a);
    assert [] + [a] == [a];
    RunOne([a], b);
    RunOne([a] + [b], c);
    RunOne([a] + [b] + [c], d);
    var s1 := Run([a]);
    assert s1 == Lists([Credit(one, account)], [], []);
    assert FindKey(s1.tokens, TokenKey(two, account)) == 1 by { assert s1.tokens[0].key != TokenKey(two, account); }
    var s3 := Run([a] + [b] + [c]);
    assert s3.nfts == [FirstOf(one, account)];
    assert FindNft(s3.nfts, two, 1) == 1 by { assert s3.nfts[0].token != two; }
  }

  lemma FinishSteps(tt: seq<TokenTransfer>, nn: seq<NftTransfer>, c: Cursor, d: Cursor)
    requires InRange(tt, nn, c) && (c.i < |tt| || c.j < |nn|) && Place(tt, nn, c) == d
    ensures InRange(tt, nn, d) && Finish(tt, nn, c) == Finish(tt, nn, d)
  {
  }

  /** The group of a token with its token transfer and these NFTs. */
  function GroupOf(token: TokenId, account: AccountId, nfts: seq<NftTransfer>): Group
  {
    Group(token, Option.None, [Credit(token, account)], nfts)
  }

  lemma GroupsInOrder(one: TokenId, two: TokenId, account: AccountId, tt: seq<TokenTransfer>, nn: seq<NftTransfer>)
    requires Before(one, two) && tt == [Credit(one, account), Credit(two, account)]
    requires nn == [FirstOf(one, account), FirstOf(two, account)]
    ensures Groups(tt, nn) == [GroupOf(one, account, [nn[0]]), GroupOf(two, account, [nn[1]])]
  {
    CompareTokensSign(one, two);
    CompareTokensSign(one, one);
    CompareTokensSign(two, two);
    var g, h := GroupOf(one, account, [nn[0]]), GroupOf(two, account, [nn[1]]);
    assert START.groups + [g] == [g] && [g] + [h] == [g, h];
    FinishSteps(tt, nn, START, Cursor(1, 1, [g]));
    FinishSteps(tt, nn, Cursor(1, 1, [g]), Cursor(2, 2, [g, h]));
  }

  lemma GroupsSwapped(one: TokenId, two: TokenId, account: AccountId, tt: seq<TokenTransfer>, nn: seq<NftTransfer>)
    requires Before(one, two) && tt == [Credit(one, account), Credit(two, account)]
    requires nn == [FirstOf(two, account), FirstOf(one, account)]
    ensures Groups(tt, nn) == [GroupOf(one, account, [nn[1]]), GroupOf(two, account, [nn[0]])]
  {
    CompareTokensSign(one, two);
    CompareTokensSign(one, one);
    CompareTokensSign(two, two);
    var e, g, h := GroupOf(one, account, []), GroupOf(one, account, [nn[1]]), GroupOf(two, account, [nn[0]]);
    assert START.groups + [e] == [e] && [e] + [h] == [e, h];
    FinishSteps(tt, nn, START, Cursor(1, 0, [e]));
    FinishSteps(tt, nn, Cursor(1, 0, [e]), Cursor(2, 1, [e, h]));
    FirstOfTwo(e, h);
    assert e.nfts + [nn[1]] == [nn[1]];
    assert WithNft([e, h], 0, nn[1]) == [g, h];
    FinishSteps(tt, nn, Cursor(2, 1, [e, h]), Cursor(2, 2, [g, h]));
  }

  lemma FirstOfTwo(e: Group, h: Group)
    requires e.token != h.token
    ensures LastGroup([e, h], e.token) == 0
  {
    var k := LastGroup([e, h], e.token);
    assert [e, h][0] == e && [e, h][1] == h;
  }

  lemma TwoArrangements<T>(xs: seq<T>, ys: seq<T>)
    requires |xs| == 2 && multiset(ys) == multiset(xs)
    ensures ys == xs || ys == [xs[1], xs[0]]
  {
    SameElements(xs, ys);
    assert ys[0] in xs && ys[1] in xs && xs[0] in ys && xs[1] in ys;
  }

  lemma {:induction false} TiedArrangements(one: TokenId, two: TokenId, account: AccountId, tt: seq<TokenTransfer>,
          nn: seq<NftTransfer>, mm: seq<NftTransfer>)
    requires Before(one, two) && tt == [Credit(one, account), Credit(two, account)]
    requires nn == [FirstOf(one, account), FirstOf(two, account)] && multiset(mm) == multiset(nn)
    ensures Groups(tt, mm) == Groups(tt, nn)
  {
    TwoArrangements(nn, mm);
    GroupsInOrder(one, two, account, tt, nn);
    if mm != nn {
      GroupsSwapped(one, two, account, tt, mm);
    }
  }

  lemma {:induction false} TiedHarmless(one: TokenId, two: TokenId, account: AccountId)
    requires Before(one, two)
    ensures TiesHarmless(TiedCalls(one, two, account))
  {
    var calls := TiedCalls(one, two, account);
    var tt, nn := [Credit(one, account), Credit(two, account)], [FirstOf(one, account), FirstOf(two, account)];
    CompareTokensSign(one, two);
    TiedCallsRun(one, two, account);
    TwoTokensArranged(tt, account);
    TwoNftsArranged(nn, account);
    forall mm | multiset(mm) == multiset(Run(calls).nfts) && Sorted(CompareNftTransfers, mm)
      ensures Groups(EmittedTokens(calls), mm) == Groups(EmittedTokens(calls), Arranged(Run(calls)).nfts)
    {
      TiedArrangements(one, two, account, tt, nn, mm);
    }
  }

  lemma {:induction false} TiedCallsAgree(one: TokenId, two: TokenId, account: AccountId)
    requires one != two
    ensures var calls := TiedCalls(one, two, account);
            && Plain(calls) && Names(calls, {account}) && NamesParties(calls, {account})
            && ApprovalsAgree(calls) && NftsAgree(calls)
  {
  }

  lemma TiedCallsTie(one: TokenId, two: TokenId, account: AccountId)
    requires one != two
    ensures !TiesAgree(TiedCalls(one, two, account))
  {
    var calls := TiedCalls(one, two, account);
    NftCompareZero(FirstOf(one, account), FirstOf(two, account));
    assert calls[2] == Asking(FirstOf(one, account)) && calls[3] == Asking(FirstOf(two, account));
    assert calls[2] in calls && calls[3] in calls;
    assert Asked(calls[2]) == FirstOf(one, account) && Asked(calls[3]) == FirstOf(two, account);
  }

  /** For any two tokens in order: NFTs of two tokens tie, and yet every order of the calls emits the same data. */
  lemma {:induction false} TieWithoutEffect(one: TokenId, two: TokenId, account: AccountId)
    requires Before(one, two)
    ensures !TiesAgree(TiedCalls(one, two, account)) && DataIrrelevant(TiedCalls(one, two, account))
  {
    CompareTokensSign(one, two);
    TiedCallsAgree(one, two, account);
    TiedCallsTie(one, two, account);
    TiedHarmless(one, two, account);
    DataIrrelevantIff(TiedCalls(one, two, account), {account});
  }
}
