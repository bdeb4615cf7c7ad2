/** Call order and the whole of the emitted data, NFT transfers included. */
module DataConfluence {
  import opened Results
  import opened Longs
  import opened Ordering
  import opened Sequences
  import opened Identifiers
  import opened Transfers
  import opened TransferConfluence
  import opened TransferHistory
  import opened TransferTransactions

  /** The call that asks for just this transfer. */
  function Asking(n: NftTransfer): Call
  {
    AddNft(n.token, n.serial, n.sender, n.receiver, n.isApproved)
  }

  function Asked(c: Call): NftTransfer
    requires c.AddNft?
  {
    NftTransfer(c.token, c.serial, c.sender, c.receiver, c.approved)
  }

  /** Calls for one NFT name the same parties and the same approval. */
  ghost predicate NftsAgree(calls: seq<Call>)
  {
    forall c, d | c in calls && d in calls && c.AddNft? && ForNft(d, c.token, c.serial) :: c == d
  }

  /** Calls that the sort cannot tell apart are for one token. */
  ghost predicate TiesAgree(calls: seq<Call>)
  {
    forall c, d | c in calls && d in calls && c.AddNft? && d.AddNft? && CompareNftTransfers(Asked(c), Asked(d)) == 0 ::
      c.token == d.token
  }

  ghost predicate NamesParties(calls: seq<Call>, accounts: set<AccountId>)
  {
    forall c | c in calls && c.AddNft? :: c.sender in accounts && c.receiver in accounts
  }

  // ----- the entries where the calls agree

  lemma {:induction false} FirstLast(calls: seq<Call>, token: TokenId, serial: Long)
    ensures FirstNft(calls, token, serial).Some? ==> FirstNft(calls, token, serial).value in calls
    ensures LastNft(calls, token, serial).Some? ==> LastNft(calls, token, serial).value in calls
    ensures forall c | c in calls && ForNft(c, token, serial) :: LastNft(calls, token, serial).Some?
  {
    if calls != [] {
      FirstLast(calls[..|calls| - 1], token, serial);
      assert calls == calls[..|calls| - 1] + [calls[|calls| - 1]];
    }
  }

  lemma FindUnique(ns: seq<NftTransfer>, n: NftTransfer)
    requires UniqueNfts(ns) && n in ns
    ensures FindNft(ns, n.token, n.serial) < |ns| && ns[FindNft(ns, n.token, n.serial)] == n
  {
    var i :| 0 <= i < |ns| && ns[i] == n;
  }

  /** Where the calls agree, the entries are just what they ask for. */
  lemma AgreedEntry(calls: seq<Call>, n: NftTransfer)
    requires NftsAgree(calls)
    ensures n in Run(calls).nfts <==> Asking(n) in calls
  {
    var ns, k := Run(calls).nfts, FindNft(Run(calls).nfts, n.token, n.serial);
    RunUnique(calls);
    NftRemembered(calls, n.token, n.serial);
    FirstLast(calls, n.token, n.serial);
    if n in ns {
      FindUnique(ns, n);
    }
    if k < |ns| {
      var first, last := FirstNft(calls, n.token, n.serial).value, LastNft(calls, n.token, n.serial).value;
      assert first == last;
      assert Asking(n) in calls ==> Asking(n) == last;
    } else {
      assert Asking(n) in calls ==> ForNft(Asking(n), n.token, n.serial);
    }
  }

  lemma OnceIn(ns: seq<NftTransfer>, n: NftTransfer)
    requires UniqueNfts(ns)
    ensures multiset(ns)[n] == if n in ns then 1 else 0
  {
    if n in ns {
      var i :| 0 <= i < |ns| && ns[i] == n;
      assert ns == ns[..i] + [n] + ns[i + 1..];
      assert n !in ns[..i] && n !in ns[i + 1..];
    }
  }

  lemma {:induction false} SameEntries(calls: seq<Call>, other: seq<Call>)
    requires NftsAgree(calls) && multiset(calls) == multiset(other)
    ensures multiset(Run(calls).nfts) == multiset(Run(other).nfts)
  {
    SameElements(calls, other);
    RunUnique(calls);
    RunUnique(other);
    forall n ensures multiset(Run(calls).nfts)[n] == multiset(Run(other).nfts)[n] {
      AgreedEntry(calls, n);
      AgreedEntry(other, n);
      OnceIn(Run(calls).nfts, n);
      OnceIn(Run(other).nfts, n);
    }
  }

  lemma NftCompareZero(a: NftTransfer, b: NftTransfer)
    ensures CompareNftTransfers(a, b) == 0 <==> a.sender == b.sender && a.receiver == b.receiver && a.serial == b.serial
  {
    CompareAccountsZero(a.sender, b.sender);
    CompareAccountsZero(a.receiver, b.receiver);
  }

  lemma {:induction false} NftsReordered(calls: seq<Call>, other: seq<Call>, accounts: set<AccountId>)
    requires NftsAgree(calls) && TiesAgree(calls) && multiset(calls) == multiset(other)
    requires AllOrderable(accounts) && NamesParties(calls, accounts)
    ensures Arranged(Run(calls)).nfts == Arranged(Run(other)).nfts
  {
    var ns := Run(calls).nfts;
    var all := set n | n in ns;
    forall n | n in ns ensures Asking(n) in calls {
      AgreedEntry(calls, n);
    }
    NftTransfersConsistent(all, accounts);
    forall a, b {:trigger CompareNftTransfers(a, b)} | a in all && b in all && CompareNftTransfers(a, b) == 0
      ensures a == b {
      NftCompareZero(a, b);
      assert Asked(Asking(a)) == a && Asked(Asking(b)) == b;
      assert ForNft(Asking(b), Asking(a).token, Asking(a).serial);
    }
    SameEntries(calls, other);
    SortPermutation(CompareNftTransfers, ns, Run(other).nfts, all);
  }

  // ----- two orders that differ where the calls do not agree

  /** `calls` with call `i` made last. */
  function Demote(calls: seq<Call>, i: nat): (r: seq<Call>)
    requires i < |calls|
    ensures multiset(r) == multiset(calls)
  {
    SplitAt(calls, i);
    calls[..i] + calls[i + 1..] + [calls[i]]
  }

  lemma {:induction false} FirstKept(c: Call, rest: seq<Call>)
    requires c.AddNft?
    ensures FirstNft([c] + rest, c.token, c.serial) == Some(c)
    decreases |rest|
  {
    var calls := [c] + rest;
    if rest == [] {
      assert calls[..|calls| - 1] == [];
    } else {
      assert calls[..|calls| - 1] == [c] + rest[..|rest| - 1];
      FirstKept(c, rest[..|rest| - 1]);
    }
  }

  /** The entry of a call made first is the first of the list. */
  lemma {:induction false} FirstPromoted(c: Call, rest: seq<Call>)
    requires c.AddNft?
    ensures var ns := Run([c] + rest).nfts; ns != [] && ns[0].token == c.token && ns[0].serial == c.serial
    decreases |rest|
  {
    if rest == [] {
      RunOne([], c);
      assert [] + [c] == [c] + rest;
    } else {
      var last := rest[|rest| - 1];
      FirstPromoted(c, rest[..|rest| - 1]);
      RunOne([c] + rest[..|rest| - 1], last);
      assert [c] + rest == [c] + rest[..|rest| - 1] + [last];
    }
  }

  lemma LastDemoted(calls: seq<Call>, i: nat)
    requires i < |calls| && calls[i].AddNft?
    ensures LastNft(Demote(calls, i), calls[i].token, calls[i].serial) == Some(calls[i])
  {
  }

  /** The one entry of an NFT, by its parties and approval. */
  lemma {:induction false} EntryOf(calls: seq<Call>, n: NftTransfer)
    requires n in Run(calls).nfts
    ensures LastNft(calls, n.token, n.serial).Some? && FirstNft(calls, n.token, n.serial).Some?
    ensures var first, last := FirstNft(calls, n.token, n.serial).value, LastNft(calls, n.token, n.serial).value;
            n.sender == last.sender && n.receiver == last.receiver && n.isApproved == first.approved
  {
    RunUnique(calls);
    FindUnique(Run(calls).nfts, n);
    NftRemembered(calls, n.token, n.serial);
  }

  lemma {:induction false} EntryExists(calls: seq<Call>, token: TokenId, serial: Long) returns (n: NftTransfer)
    requires LastNft(calls, token, serial).Some?
    ensures n in Run(calls).nfts && n.token == token && n.serial == serial
  {
    NftRemembered(calls, token, serial);
    var ns := Run(calls).nfts;
    n := ns[FindNft(ns, token, serial)];
  }

  /** The two runs leave the same NFT entries, in whatever order. */
  ghost predicate SameNfts(calls: seq<Call>, other: seq<Call>)
  {
    forall n :: n in Run(calls).nfts <==> n in Run(other).nfts
  }

  /** Orders that leave the same NFT entries remember the same first approval and the same last parties. */
  lemma {:induction false} SameMemory(calls: seq<Call>, other: seq<Call>, token: TokenId, serial: Long)
    requires SameNfts(calls, other) && LastNft(calls, token, serial).Some?
    ensures FirstNft(calls, token, serial).Some? && FirstNft(other, token, serial).Some?
    ensures LastNft(other, token, serial).Some?
    ensures FirstNft(calls, token, serial).value.approved == FirstNft(other, token, serial).value.approved
    ensures LastNft(calls, token, serial).value.sender == LastNft(other, token, serial).value.sender
    ensures LastNft(calls, token, serial).value.receiver == LastNft(other, token, serial).value.receiver
  {
    var n := EntryExists(calls, token, serial);
    EntryOf(calls, n);
    EntryOf(other, n);
  }

  lemma {:induction false} TiesFirst(x: NftTransfer, ns: seq<NftTransfer>)
    requires ns != [] && CompareNftTransfers(x, ns[0]) == 0
    ensures Ties(CompareNftTransfers, x, ns) != [] && Ties(CompareNftTransfers, x, ns)[0] == ns[0]
  {
    var init := ns[..|ns| - 1];
    if init == [] {
      assert Ties(CompareNftTransfers, x, init) == [];
    } else {
      TiesFirst(x, init);
    }
  }

  // ----- the exact condition

  ghost predicate NftOrderIrrelevant(calls: seq<Call>)
  {
    forall other | multiset(other) == multiset(calls) :: Arranged(Run(other)).nfts == Arranged(Run(calls)).nfts
  }

  /** Every order of the calls leaves the same NFT entries. */
  ghost predicate NftsIrrelevant(calls: seq<Call>)
  {
    forall other | multiset(other) == multiset(calls) :: SameNfts(other, calls)
  }

  lemma {:induction false} IrrelevantNfts(calls: seq<Call>)
    requires NftOrderIrrelevant(calls)
    ensures NftsIrrelevant(calls)
  {
    forall other | multiset(other) == multiset(calls) ensures SameNfts(other, calls) {
      SameElements(Run(other).nfts, Arranged(Run(other)).nfts);
      SameElements(Run(calls).nfts, Arranged(Run(calls)).nfts);
    }
  }

  lemma {:induction false} MustAgree(calls: seq<Call>, i: nat, j: nat)
    requires NftsIrrelevant(calls) && i < |calls| && j < |calls|
    requires calls[i].AddNft? && ForNft(calls[j], calls[i].token, calls[i].serial)
    ensures calls[i] == calls[j]
  {
    var c, d := calls[i], calls[j];
    FirstKept(c, calls[..i] + calls[i + 1..]);
    FirstKept(d, calls[..j] + calls[j + 1..]);
    LastDemoted(calls, i);
    LastDemoted(calls, j);
    FirstLast(Promote(calls, i), c.token, c.serial);
    assert Promote(calls, i)[0] in Promote(calls, i);
    assert SameNfts(Promote(calls, i), calls) && SameNfts(Promote(calls, j), calls);
    SameMemory(Promote(calls, i), Promote(calls, j), c.token, c.serial);
    assert SameNfts(Demote(calls, i), calls) && SameNfts(Demote(calls, j), calls);
    SameMemory(Demote(calls, i), Demote(calls, j), c.token, c.serial);
  }

  lemma {:induction false} AllMustAgree(calls: seq<Call>)
    requires NftsIrrelevant(calls)
    ensures NftsAgree(calls)
  {
    forall c, d | c in calls && d in calls && c.AddNft? && ForNft(d, c.token, c.serial) ensures c == d {
      var i: nat :| i < |calls| && calls[i] == c;
      var j: nat :| j < |calls| && calls[j] == d;
      MustAgree(calls, i, j);
    }
  }

  lemma {:induction false} TiedFirst(calls: seq<Call>, i: nat, x: NftTransfer, accounts: set<AccountId>)
    requires NftsAgree(calls) && i < |calls| && calls[i].AddNft? && CompareNftTransfers(x, Asked(calls[i])) == 0
    requires AllOrderable(accounts) && NamesParties(calls, accounts) && x.sender in accounts && x.receiver in accounts
    ensures var ties := Ties(CompareNftTransfers, x, Arranged(Run(Promote(calls, i))).nfts);
            ties != [] && ties[0] == Asked(calls[i])
  {
    var p := Promote(calls, i);
    SameElements(p, calls);
    FirstPromoted(calls[i], calls[..i] + calls[i + 1..]);
    var ns := Run(p).nfts;
    AgreedEntry(p, ns[0]);
    assert ns[0] == Asked(calls[i]);
    TiesFirst(x, ns);
    forall n | n in ns ensures n.sender in accounts && n.receiver in accounts {
      AgreedEntry(p, n);
    }
    NftsArranged(Run(p), accounts, x);
  }

  lemma MustTieAgree(calls: seq<Call>, i: nat, j: nat, accounts: set<AccountId>)
    requires NftOrderIrrelevant(calls) && NftsAgree(calls) && i < |calls| && j < |calls|
    requires AllOrderable(accounts) && NamesParties(calls, accounts)
    requires calls[i].AddNft? && calls[j].AddNft? && CompareNftTransfers(Asked(calls[i]), Asked(calls[j])) == 0
    ensures calls[i].token == calls[j].token
  {
    var x := Asked(calls[i]);
    NftCompareZero(x, x);
    TiedFirst(calls, i, x, accounts);
    TiedFirst(calls, j, x, accounts);
  }

  /**
   The emitted NFT list is the same for every order of the calls exactly when calls for one NFT agree
   on parties and approval and no two tokens tie in the sort.
   */
  lemma {:induction false} NftOrderIrrelevantIff(calls: seq<Call>, accounts: set<AccountId>)
    requires AllOrderable(accounts) && NamesParties(calls, accounts)
    ensures NftOrderIrrelevant(calls) <==> NftsAgree(calls) && TiesAgree(calls)
  {
    if NftsAgree(calls) && TiesAgree(calls) {
      forall other | multiset(other) == multiset(calls) ensures Arranged(Run(other)).nfts == Arranged(Run(calls)).nfts {
        NftsReordered(calls, other, accounts);
      }
    }
    if NftOrderIrrelevant(calls) {
      IrrelevantNfts(calls);
      AllMustAgree(calls);
      forall c, d | c in calls && d in calls && c.AddNft? && d.AddNft? && CompareNftTransfers(Asked(c), Asked(d)) == 0
        ensures c.token == d.token
      {
        var i: nat :| i < |calls| && calls[i] == c;
        var j: nat :| j < |calls| && calls[j] == d;
        MustTieAgree(calls, i, j, accounts);
      }
    }
  }

  ghost predicate ArrangementIrrelevant(calls: seq<Call>)
  {
    forall other | multiset(other) == multiset(calls) :: Arranged(Run(other)) == Arranged(Run(calls))
  }

  lemma ArrangedParts(calls: seq<Call>, other: seq<Call>)
    ensures Arranged(Run(other)) == Arranged(Run(calls)) <==>
            && EmittedTokens(other) == EmittedTokens(calls) && EmittedU2Us(other) == EmittedU2Us(calls)
            && Arranged(Run(other)).nfts == Arranged(Run(calls)).nfts
  {
  }

  lemma {:induction false} IrrelevantParts(calls: seq<Call>)
    ensures ArrangementIrrelevant(calls) <==> OrderIrrelevant(calls) && NftOrderIrrelevant(calls)
  {
    forall other | multiset(other) == multiset(calls)
      ensures Arranged(Run(other)) == Arranged(Run(calls)) <==>
              && EmittedTokens(other) == EmittedTokens(calls) && EmittedU2Us(other) == EmittedU2Us(calls)
              && Arranged(Run(other)).nfts == Arranged(Run(calls)).nfts
    {
      ArrangedParts(calls, other);
    }
  }

  /**
   Confluence of the sorted lists: for calls without decimals over orderable accounts, every order leaves
   the three of them the same, and so emits the same data, exactly when calls for one entry agree on
   approval, calls for one NFT agree, and no two tokens tie in the NFT sort.
   */
  lemma ArrangementIrrelevantIff(calls: seq<Call>, accounts: set<AccountId>)
    requires Plain(calls) && AllOrderable(accounts) && Names(calls, accounts) && NamesParties(calls, accounts)
    ensures ArrangementIrrelevant(calls) <==> ApprovalsAgree(calls) && NftsAgree(calls) && TiesAgree(calls)
    ensures ArrangementIrrelevant(calls) ==>
              forall other | multiset(other) == multiset(calls) :: DataOf(Run(other)) == DataOf(Run(calls))
  {
    OrderIrrelevantIffApprovalsAgree(calls, accounts);
    NftOrderIrrelevantIff(calls, accounts);
    IrrelevantParts(calls);
    if ArrangementIrrelevant(calls) {
      forall other | multiset(other) == multiset(calls) ensures DataOf(Run(other)) == DataOf(Run(calls)) {
        SameData(Run(other), Run(calls));
      }
    }
  }

  lemma SameData(s: Lists, t: Lists)
    requires Arranged(s) == Arranged(t)
    ensures DataOf(s) == DataOf(t)
  {
  }
}
