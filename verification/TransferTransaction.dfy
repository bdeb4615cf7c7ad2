/** The transaction object: its three lists, the add methods and the data it emits. */
module TransferTransactions {
  import opened Results
  import opened Longs
  import opened Ordering
  import opened Sequences
  import opened Identifiers
  import opened Sums
  import opened Transfers
  import opened TransferTotals
  import opened TransferConfluence
  import opened Grouping
  import opened GroupDistinctness
  import opened TransferHistory

  datatype Error = Frozen | DecimalsMismatch

  datatype TransactionData = TransactionData(accountAmounts: seq<U2UTransfer>, tokenTransfers: seq<Group>)

  /** The comparator `_makeTransactionData` sorts the NFT transfers with; the token plays no part. */
  function CompareNftTransfers(a: NftTransfer, b: NftTransfer): int
  {
    if CompareAccounts(a.sender, b.sender) != 0 then CompareAccounts(a.sender, b.sender)
    else if CompareAccounts(a.receiver, b.receiver) != 0 then CompareAccounts(a.receiver, b.receiver)
    else CompareInt(a.serial, b.serial)
  }

  /** The lists as `_makeTransactionData` leaves them. */
  function Arranged(s: Lists): Lists
  {
    Lists(Sort(CompareTokenTransfers, s.tokens), Sort(CompareU2UTransfers, s.u2us), Sort(CompareNftTransfers, s.nfts))
  }

  function DataOf(s: Lists): TransactionData
  {
    TransactionData(Arranged(s).u2us, Groups(Arranged(s).tokens, Arranged(s).nfts))
  }

  class TransferTransaction {
    var frozen: bool
    var tokenTransfers: seq<TokenTransfer>
    var u2uTransfers: seq<U2UTransfer>
    var nftTransfers: seq<NftTransfer>

    function Contents(): Lists
      reads this
    {
      Lists(tokenTransfers, u2uTransfers, nftTransfers)
    }

    constructor ()
      ensures !frozen && Contents() == EMPTY
    {
      frozen := false;
      tokenTransfers, u2uTransfers, nftTransfers := [], [], [];
    }

    method AddTokenTransfer(token: TokenId, account: AccountId, value: Long, approved: bool)
      returns (r: Result<(), Error>)
      modifies this
      ensures frozen == old(frozen)
      ensures old(frozen) ==> r == Err(Frozen) && Contents() == old(Contents())
      ensures !old(frozen) ==> r.Ok?
      ensures !old(frozen) ==> Contents() == Apply(old(Contents()), AddToken(TokenKey(token, account), value, approved))
    {
      if frozen {
        return Err(Frozen);
      }
      ghost var key := TokenKey(token, account);
      for i := 0 to |tokenTransfers|
        invariant !frozen && Contents() == old(Contents())
        invariant forall k | 0 <= k < i :: tokenTransfers[k].key != key
      {
        var e := tokenTransfers[i];
        CompareTokensSign(e.key.token, token);
        CompareAccountsZero(e.key.account, account);
        if CompareTokens(e.key.token, token) == 0 && CompareAccounts(e.key.account, account) == 0 {
          tokenTransfers := tokenTransfers[i := e.(amount := Add(e.amount, value), expectedDecimals := None)];
          return Ok(());
        }
      }
      tokenTransfers := tokenTransfers + [Entry(TokenKey(token, account), None, value, approved)];
      return Ok(());
    }

    method AddTokenTransferWithDecimals(token: TokenId, account: AccountId, value: Long, decimals: int)
      returns (r: Result<(), Error>)
      modifies this
      ensures frozen == old(frozen)
      ensures old(frozen) ==> r == Err(Frozen) && Contents() == old(Contents())
      ensures var c := AddTokenWithDecimals(TokenKey(token, account), value, decimals);
              !old(frozen) ==>
                && r == (if Throws(old(Contents()), c) then Err(DecimalsMismatch) else Ok(()))
                && Contents() == Apply(old(Contents()), c)
    {
      if frozen {
        return Err(Frozen);
      }
      ghost var es, key := tokenTransfers, TokenKey(token, account);
      var found := false;
      for i := 0 to |tokenTransfers|
        invariant !frozen && |tokenTransfers| == |es| && u2uTransfers == old(u2uTransfers)
        invariant nftTransfers == old(nftTransfers)
        invariant tokenTransfers == ScanUpTo(es, key, value, decimals, i)
        invariant forall k | 0 <= k < i :: !Mismatch(es[k], token, decimals)
        invariant found <==> FindKey(es, key) < i
      {
        var e := tokenTransfers[i];
        CompareTokensSign(e.key.token, token);
        CompareAccountsZero(e.key.account, account);
        if CompareTokens(e.key.token, token) == 0 {
          if e.expectedDecimals.Some? && e.expectedDecimals.value != decimals {
            assert FirstMismatch(es, token, decimals) == i;
            return Err(DecimalsMismatch);
          }
          tokenTransfers := tokenTransfers[i := e.(expectedDecimals := Some(decimals))];
          if CompareAccounts(e.key.account, account) == 0 {
            tokenTransfers := tokenTransfers[i := e.(expectedDecimals := Some(decimals),
                amount := Add(e.amount, value))];
            found := true;
          }
        }
      }
      if found {
        return Ok(());
      }
      tokenTransfers := tokenTransfers + [Entry(TokenKey(token, account), Some(decimals), value, false)];
      return Ok(());
    }

    method AddU2UTransfer(account: AccountId, value: Long, approved: bool) returns (r: Result<(), Error>)
      modifies this
      ensures frozen == old(frozen)
      ensures old(frozen) ==> r == Err(Frozen) && Contents() == old(Contents())
      ensures !old(frozen) ==> r.Ok? && Contents() == Apply(old(Contents()), AddU2U(account, value, approved))
    {
      if frozen {
        return Err(Frozen);
      }
      for i := 0 to |u2uTransfers|
        invariant !frozen && Contents() == old(Contents())
        invariant forall k | 0 <= k < i :: u2uTransfers[k].key != account
      {
        var e := u2uTransfers[i];
        CompareAccountsZero(e.key, account);
        if CompareAccounts(e.key, account) == 0 {
          u2uTransfers := u2uTransfers[i := e.(amount := Add(e.amount, value), expectedDecimals := None)];
          return Ok(());
        }
      }
      u2uTransfers := u2uTransfers + [Entry(account, None, value, approved)];
      return Ok(());
    }

    method AddNftTransfer(token: TokenId, serial: Long, sender: AccountId, receiver: AccountId, approved: bool)
      returns (r: Result<(), Error>)
      modifies this
      ensures frozen == old(frozen)
      ensures old(frozen) ==> r == Err(Frozen) && Contents() == old(Contents())
      ensures !old(frozen) ==> r.Ok?
      ensures !old(frozen) ==> Contents() == Apply(old(Contents()), AddNft(token, serial, sender, receiver, approved))
    {
      if frozen {
        return Err(Frozen);
      }
      for i := 0 to |nftTransfers|
        invariant !frozen && Contents() == old(Contents())
        invariant forall k | 0 <= k < i :: nftTransfers[k].token != token || nftTransfers[k].serial != serial
      {
        var n := nftTransfers[i];
        CompareTokensSign(n.token, token);
        if CompareTokens(n.token, token) == 0 && CompareInt(n.serial, serial) == 0 {
          nftTransfers := nftTransfers[i := n.(sender := sender, receiver := receiver)];
          return Ok(());
        }
      }
      nftTransfers := nftTransfers + [NftTransfer(token, serial, sender, receiver, approved)];
      return Ok(());
    }

    /** Sorts the lists in place and merges the token and NFT transfers into groups. */
    method MakeTransactionData() returns (data: TransactionData)
      modifies this
      ensures frozen == old(frozen) && Contents() == Arranged(old(Contents()))
      ensures data == DataOf(old(Contents()))
    {
      tokenTransfers := Sort(CompareTokenTransfers, tokenTransfers);
      nftTransfers := Sort(CompareNftTransfers, nftTransfers);
      var groups := MergeGroups();
      u2uTransfers := Sort(CompareU2UTransfers, u2uTransfers);
      data := TransactionData(u2uTransfers, groups);
    }

    /** The merge: two cursors, one placement in each iteration. */
    method MergeGroups() returns (groups: seq<Group>)
      ensures groups == Groups(tokenTransfers, nftTransfers)
    {
      var i: nat, j: nat := 0, 0;
      groups := [];
      while i < |tokenTransfers| || j < |nftTransfers|
        invariant InRange(tokenTransfers, nftTransfers, Cursor(i, j, groups))
        invariant Finish(tokenTransfers, nftTransfers, Cursor(i, j, groups)) == Groups(tokenTransfers, nftTransfers)
        decreases |tokenTransfers| + |nftTransfers| - i - j
      {
        if i < |tokenTransfers| && j < |nftTransfers| {
          i, j, groups := PlaceFromBoth(i, j, groups);
        } else if i < |tokenTransfers| {
          groups := PlaceLastTransfer(tokenTransfers[i], groups, i, j);
          i := i + 1;
        } else {
          groups := PlaceLastNft(nftTransfers[j], groups, i, j);
          j := j + 1;
        }
      }
    }

    /** While both lists last: the last group takes what it can, otherwise the smaller token opens a group. */
    method PlaceFromBoth(i: nat, j: nat, groups: seq<Group>) returns (nextI: nat, nextJ: nat, r: seq<Group>)
      requires i < |tokenTransfers| && j < |nftTransfers|
      ensures Cursor(nextI, nextJ, r) == Place(tokenTransfers, nftTransfers, Cursor(i, j, groups))
    {
      var t, n, last := tokenTransfers[i], nftTransfers[j], |groups| - 1;
      if last >= 0 && CompareTokens(groups[last].token, t.key.token) == 0 {
        return i + 1, j, WithTransfer(groups, last, t);
      } else if last >= 0 && CompareTokens(groups[last].token, n.token) == 0 {
        return i, j + 1, WithNft(groups, last, n);
      }
      var order := CompareTokens(t.key.token, n.token);
      if order == 0 {
        return i + 1, j + 1, groups + [Group(t.key.token, t.expectedDecimals, [t], [n])];
      } else if order < 0 {
        return i + 1, j, groups + [Group(t.key.token, t.expectedDecimals, [t], [])];
      } else {
        return i, j + 1, groups + [Group(n.token, None, [], [n])];
      }
    }

    /** Only token transfers are left. */
    method PlaceLastTransfer(t: TokenTransfer, groups: seq<Group>, ghost i: nat, ghost j: nat) returns (r: seq<Group>)
      requires i < |tokenTransfers| && j == |nftTransfers| && t == tokenTransfers[i]
      ensures Cursor(i + 1, j, r) == Place(tokenTransfers, nftTransfers, Cursor(i, j, groups))
    {
      var k := FindLast(groups, t.key.token);
      if k < |groups| {
        return WithTransfer(groups, k, t);
      }
      return groups + [Group(t.key.token, t.expectedDecimals, [t], [])];
    }

    /** Only NFT transfers are left. */
    method PlaceLastNft(n: NftTransfer, groups: seq<Group>, ghost i: nat, ghost j: nat) returns (r: seq<Group>)
      requires i == |tokenTransfers| && j < |nftTransfers| && n == nftTransfers[j]
      ensures Cursor(i, j + 1, r) == Place(tokenTransfers, nftTransfers, Cursor(i, j, groups))
    {
      var k := FindLast(groups, n.token);
      if k < |groups| {
        return WithNft(groups, k, n);
      }
      return groups + [Group(n.token, None, [], [n])];
    }
  }

  /** The scan over the groups keeps the last match. */
  method FindLast(groups: seq<Group>, token: TokenId) returns (k: nat)
    ensures k == LastGroup(groups, token)
  {
    k := |groups|;
    for l := 0 to |groups|
      invariant k == |groups| || (k < l && groups[k].token == token)
      invariant forall m | 0 <= m < l && (k == |groups| || k < m) :: groups[m].token != token
    {
      CompareTokensSign(groups[l].token, token);
      if CompareTokens(groups[l].token, token) == 0 {
        k := l;
      }
    }
  }

  lemma {:induction false} SortedTransfersByToken(es: seq<TokenTransfer>, accounts: set<AccountId>)
    requires AllOrderable(accounts) && forall e | e in es :: e.key.account in accounts
    ensures SortedByToken(Sort(CompareTokenTransfers, es))
  {
    var all := set e | e in es;
    TokenTransfersConsistent(all, accounts);
    SortSorted(CompareTokenTransfers, es, all);
    var tt := Sort(CompareTokenTransfers, es);
    forall i, j | 0 <= i < j < |tt| ensures !Before(tt[j].key.token, tt[i].key.token) {
      assert CompareTokenTransfers(tt[i], tt[j]) <= 0;
      CompareTokensSign(tt[i].key.token, tt[j].key.token);
    }
  }

  lemma NftTransfersConsistent(all: set<NftTransfer>, accounts: set<AccountId>)
    requires AllOrderable(accounts) && forall n | n in all :: n.sender in accounts && n.receiver in accounts
    ensures Consistent(CompareNftTransfers, all)
  {
    forall a, b | a in all && b in all
      ensures CompareNftTransfers(a, b) < 0 <==> CompareNftTransfers(b, a) > 0
    {
      CompareAccountsAntisymmetric(a.sender, b.sender);
      CompareAccountsAntisymmetric(a.receiver, b.receiver);
    }
    forall a, b, c {:trigger CompareNftTransfers(a, b), CompareNftTransfers(b, c)}
      | a in all && b in all && c in all && CompareNftTransfers(a, b) <= 0 && CompareNftTransfers(b, c) <= 0
      ensures CompareNftTransfers(a, c) <= 0
    {
      NftsTransitive(a, b, c);
    }
  }

  lemma NftsTransitive(a: NftTransfer, b: NftTransfer, c: NftTransfer)
    requires AllOrderable({a.sender, b.sender, c.sender, a.receiver, b.receiver, c.receiver})
    requires CompareNftTransfers(a, b) <= 0 && CompareNftTransfers(b, c) <= 0
    ensures CompareNftTransfers(a, c) <= 0
  {
    LessTransitive(a.sender, b.sender, c.sender);
    if CompareAccounts(a.sender, c.sender) == 0 {
      CompareAccountsZero(a.sender, a.sender);
      LessTransitive(a.receiver, b.receiver, c.receiver);
      CompareAccountsZero(a.receiver, a.receiver);
    }
  }

  /** Transitivity, and strictness where one of the two steps is strict. */
  lemma LessTransitive(a: AccountId, b: AccountId, c: AccountId)
    requires Orderable(a, b) && Orderable(b, c) && Orderable(a, c)
    requires CompareAccounts(a, b) <= 0 && CompareAccounts(b, c) <= 0
    ensures CompareAccounts(a, c) <= 0
    ensures CompareAccounts(a, c) == 0 ==> a == b == c
  {
    CompareAccountsTransitive(a, b, c);
    if CompareAccounts(a, c) == 0 {
      CompareAccountsZero(a, c);
      CompareAccountsAntisymmetric(a, b);
      CompareAccountsZero(a, b);
    }
  }

  /** The lower sender, or then the lower receiver, or then a serial that is not higher. */
  ghost predicate NftInOrder(a: NftTransfer, b: NftTransfer)
  {
    || AccountBefore(a.sender, b.sender)
    || (a.sender == b.sender
        && (AccountBefore(a.receiver, b.receiver) || (a.receiver == b.receiver && a.serial <= b.serial)))
  }

  lemma CompareNftsSign(a: NftTransfer, b: NftTransfer)
    requires Orderable(a.sender, b.sender) && Orderable(a.receiver, b.receiver)
    ensures CompareNftTransfers(a, b) <= 0 <==> NftInOrder(a, b)
  {
    CompareAccountsZero(a.sender, b.sender);
    CompareAccountsZero(a.receiver, b.receiver);
    CompareAccountsSign(a.sender, b.sender);
    CompareAccountsSign(a.receiver, b.receiver);
  }

  ghost predicate SameOrderKeys(a: NftTransfer, b: NftTransfer)
  {
    a.sender == b.sender && a.receiver == b.receiver && a.serial == b.serial
  }

  /** The transfers with the sender, receiver and serial of `n`, in list order. */
  ghost function LikeNft(n: NftTransfer, nn: seq<NftTransfer>): seq<NftTransfer>
  {
    if nn == [] then []
    else LikeNft(n, nn[..|nn| - 1]) + if SameOrderKeys(n, nn[|nn| - 1]) then [nn[|nn| - 1]] else []
  }

  lemma {:induction false} TiesAlike(n: NftTransfer, nn: seq<NftTransfer>)
    ensures Ties(CompareNftTransfers, n, nn) == LikeNft(n, nn)
  {
    if nn != [] {
      TiesAlike(n, nn[..|nn| - 1]);
      CompareAccountsZero(n.sender, nn[|nn| - 1].sender);
      CompareAccountsZero(n.receiver, nn[|nn| - 1].receiver);
    }
  }

  lemma {:induction false} ArrangedInOrder(ns: seq<NftTransfer>, nn: seq<NftTransfer>, accounts: set<AccountId>)
    requires AllOrderable(accounts) && forall m | m in ns :: m.sender in accounts && m.receiver in accounts
    requires multiset(ns) == multiset(nn) && Sorted(CompareNftTransfers, nn)
    ensures forall i, j | 0 <= i < j < |nn| :: NftInOrder(nn[i], nn[j])
  {
    SameElements(ns, nn);
    forall i, j | 0 <= i < j < |nn| ensures NftInOrder(nn[i], nn[j]) {
      assert nn[i] in nn && nn[j] in nn;
      CompareNftsSign(nn[i], nn[j]);
    }
  }

  /** The NFT transfers are put in order by sender, receiver and serial; where those agree, call order stays. */
  lemma NftsArranged(s: Lists, accounts: set<AccountId>, n: NftTransfer)
    requires AllOrderable(accounts) && forall m | m in s.nfts :: m.sender in accounts && m.receiver in accounts
    requires n.sender in accounts && n.receiver in accounts
    ensures Sorted(CompareNftTransfers, Arranged(s).nfts)
    ensures forall i, j | 0 <= i < j < |Arranged(s).nfts| :: NftInOrder(Arranged(s).nfts[i], Arranged(s).nfts[j])
    ensures LikeNft(n, Arranged(s).nfts) == LikeNft(n, s.nfts)
    ensures Ties(CompareNftTransfers, n, Arranged(s).nfts) == Ties(CompareNftTransfers, n, s.nfts)
  {
    var all := (set m | m in s.nfts) + {n};
    NftTransfersConsistent(all, accounts);
    SortSorted(CompareNftTransfers, s.nfts, all);
    SortStable(CompareNftTransfers, s.nfts, n, all);
    TiesAlike(n, s.nfts);
    TiesAlike(n, Arranged(s).nfts);
    ArrangedInOrder(s.nfts, Arranged(s).nfts, accounts);
  }

  lemma SortInOrder<T>(cmp: (T, T) -> int, xs: seq<T>, all: set<T>)
    requires Consistent(cmp, all) && Within(xs, all) && Sorted(cmp, xs)
    ensures Sort(cmp, xs) == xs
  {
    SortDetermined(cmp, xs, xs, all);
  }

  lemma {:induction false} SortAgain<T>(cmp: (T, T) -> int, xs: seq<T>, all: set<T>)
    requires Consistent(cmp, all) && Within(xs, all)
    ensures Sort(cmp, Sort(cmp, xs)) == Sort(cmp, xs)
  {
    SortSorted(cmp, xs, all);
    SameWithin(xs, Sort(cmp, xs), all);
    SortDetermined(cmp, Sort(cmp, xs), Sort(cmp, xs), all);
  }

  /** Making the data again, with no call in between, finds the lists in order and emits the same data. */
  lemma DataAgain(s: Lists, accounts: set<AccountId>)
    requires AllOrderable(accounts) && (forall e | e in s.tokens :: e.key.account in accounts)
    requires (forall e | e in s.u2us :: e.key in accounts)
    requires forall n | n in s.nfts :: n.sender in accounts && n.receiver in accounts
    ensures Arranged(Arranged(s)) == Arranged(s) && DataOf(Arranged(s)) == DataOf(s)
  {
    var tokens, u2us, nfts := set e | e in s.tokens, set e | e in s.u2us, set n | n in s.nfts;
    TokenTransfersConsistent(tokens, accounts);
    U2UTransfersConsistent(u2us, accounts);
    NftTransfersConsistent(nfts, accounts);
    SortAgain(CompareTokenTransfers, s.tokens, tokens);
    SortAgain(CompareU2UTransfers, s.u2us, u2us);
    SortAgain(CompareNftTransfers, s.nfts, nfts);
  }

  /** Two token transfers and two NFT transfers. */
  function FourCalls(one: TokenId, two: TokenId, three: TokenId, account: AccountId): seq<Call>
  {
    [AddToken(TokenKey(one, account), 1, false)] + [AddToken(TokenKey(three, account), 1, false)]
    + [AddNft(two, 1, account, account, false)] + [AddNft(one, 2, account, account, false)]
  }

  lemma FourCallsRun(one: TokenId, two: TokenId, three: TokenId, account: AccountId)
    requires Before(one, two) && Before(two, three)
    ensures var s := Run(FourCalls(one, two, three, account));
            && s.tokens == [Entry(TokenKey(one, account), Option.None, 1, false),
                Entry(TokenKey(three, account), Option.None, 1, false)]
            && s.nfts == [NftTransfer(two, 1, account, account, false), NftTransfer(one, 2, account, account, false)]
            && s.u2us == []
  {
    CompareTokensSign(one, two);
    var a, b := AddToken(TokenKey(one, account), 1, false), AddToken(TokenKey(three, account), 1, false);
    var c, d := AddNft(two, 1, account, account, false), AddNft(one, 2, account, account, false);
    RunOne([], a);
    assert [] + [a] == [a];
    RunOne([a], b);
    RunOne([a] + [b], c);
    RunOne([a] + [b] + [c], d);
    var s1 := Run([a]);
    assert s1 == Lists([Entry(TokenKey(one, account), Option.None, 1, false)], [], []);
    assert FindKey(s1.tokens, TokenKey(three, account)) == 1 by { assert s1.tokens[0].key != TokenKey(three, account); }
    var s3 := Run([a] + [b] + [c]);
    assert s3.nfts == [NftTransfer(two, 1, account, account, false)];
    assert FindNft(s3.nfts, one, 2) == 1 by { assert s3.nfts[0].token != one; }
  }

  lemma TwoTokensArranged(es: seq<TokenTransfer>, account: AccountId)
    requires |es| == 2 && Before(es[0].key.token, es[1].key.token) && es[0].key.account == es[1].key.account == account
    ensures Sort(CompareTokenTransfers, es) == es
  {
    var all := {es[0], es[1]};
    TokenTransfersConsistent(all, {account});
    SortInOrder(CompareTokenTransfers, es, all);
  }

  lemma TwoNftsArranged(ns: seq<NftTransfer>, account: AccountId)
    requires |ns| == 2 && ns[0].serial <= ns[1].serial
    requires ns[0].sender == ns[0].receiver == account && ns[1].sender == ns[1].receiver == account
    ensures Sort(CompareNftTransfers, ns) == ns
  {
    var all := {ns[0], ns[1]};
    NftTransfersConsistent(all, {account});
    assert Sorted(CompareNftTransfers, ns) by {
      CompareAccountsZero(account, account);
      assert CompareNftTransfers(ns[0], ns[1]) <= 0;
    }
    SortInOrder(CompareNftTransfers, ns, all);
  }

  /** For any three tokens in order, four calls for which the merge emits two groups for one token. */
  lemma {:induction false} TokenSplit(one: TokenId, two: TokenId, three: TokenId, account: AccountId)
    requires Before(one, two) && Before(two, three)
    ensures !DistinctTokens(DataOf(Run(FourCalls(one, two, three, account))).tokenTransfers)
  {
    FourCallsRun(one, two, three, account);
    var s := Run(FourCalls(one, two, three, account));
    TwoTokensArranged(s.tokens, account);
    TwoNftsArranged(s.nfts, account);
    RepeatedGroup(one, two, three, account);
  }

  /**
   Conservation end to end, for every run of calls, every account, and every order the sorts may
   leave the lists in: what the groups carry on any selection of (token, account) pairs is congruent
   modulo 2^64 to what the calls asked for, and equal to it when no addition overflows; no pair is
   emitted twice, and each token's NFTs are emitted once, in groups of that token.
   */
  lemma {:induction false} MergeConserved(calls: seq<Call>, tt: seq<TokenTransfer>, nn: seq<NftTransfer>,
          keys: TokenKey -> bool)
    requires multiset(tt) == multiset(Run(calls).tokens) && multiset(nn) == multiset(Run(calls).nfts)
    ensures var gs := Groups(tt, nn);
            && Congruent(Total(Flatten(gs), keys), TokenRequests(calls, keys))
            && (AllFit(calls) ==> Total(Flatten(gs), keys) == TokenRequests(calls, keys))
            && UniqueKeys(Flatten(gs)) && multiset(Flatten(gs)) == multiset(Run(calls).tokens)
            && (forall token :: NftsOf(gs, token) == Select(nn, token))
            && (forall k | 0 <= k < |gs| :: OwnTokens(gs[k]))
  {
    GroupsComplete(tt, nn);
    TokensConserved(calls, keys);
    SumPermutation(Flatten(Groups(tt, nn)), Run(calls).tokens, Weight(keys));
    RunUnique(calls);
    ArrangedKeys(Run(calls).tokens, Flatten(Groups(tt, nn)));
  }

  /** The same of the emitted data, with the account amounts. */
  lemma {:induction false} DataConserved(calls: seq<Call>, keys: TokenKey -> bool, holders: AccountId -> bool)
    ensures var data := DataOf(Run(calls));
            && Congruent(Total(Flatten(data.tokenTransfers), keys), TokenRequests(calls, keys))
            && (AllFit(calls) ==> Total(Flatten(data.tokenTransfers), keys) == TokenRequests(calls, keys))
            && multiset(Flatten(data.tokenTransfers)) == multiset(Run(calls).tokens)
            && multiset(data.accountAmounts) == multiset(Run(calls).u2us)
            && Congruent(Total(data.accountAmounts, holders), Sum(calls, U2UValue(holders)))
            && (AllFit(calls) ==> Total(data.accountAmounts, holders) == Sum(calls, U2UValue(holders)))
  {
    var s := Run(calls);
    MergeConserved(calls, Arranged(s).tokens, Arranged(s).nfts, keys);
    U2UsConserved(calls, holders);
    SumPermutation(Arranged(s).u2us, s.u2us, Weight(holders));
  }

  /** Over orderable accounts the emitted groups are those of the sorted lists. */
  lemma DataGrouped(s: Lists, accounts: set<AccountId>)
    requires AllOrderable(accounts) && forall e | e in s.tokens :: e.key.account in accounts
    ensures var data := DataOf(s);
            && Flatten(data.tokenTransfers) == Arranged(s).tokens
            && (forall token :: NftsOf(data.tokenTransfers, token) == Select(Arranged(s).nfts, token))
            && (forall k | 0 <= k < |data.tokenTransfers| :: WellFormed(data.tokenTransfers[k]))
            && FungibleOrder(data.tokenTransfers)
  {
    SortedTransfersByToken(s.tokens, accounts);
    GroupsSound(Arranged(s).tokens, Arranged(s).nfts);
  }
}
