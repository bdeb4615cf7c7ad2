/** When the merge opens a second group for a token. */
module GroupDistinctness {
  import opened Results
  import opened Identifiers
  import opened Transfers
  import opened Grouping

  ghost predicate DistinctTokens(gs: seq<Group>)
  {
    forall k, l | 0 <= k < l < |gs| :: gs[k].token != gs[l].token
  }

  ghost predicate HasGroup(gs: seq<Group>, token: TokenId)
  {
    exists k :: 0 <= k < |gs| && gs[k].token == token
  }

  /** The token occurs among the first `i` token transfers. */
  ghost predicate AmongTransfers(tt: seq<TokenTransfer>, i: nat, token: TokenId)
    requires i <= |tt|
  {
    exists p :: 0 <= p < i && tt[p].key.token == token
  }

  ghost predicate AmongNfts(nn: seq<NftTransfer>, j: nat, token: TokenId)
    requires j <= |nn|
  {
    exists q :: 0 <= q < j && nn[q].token == token
  }

  /** The tokens of the first `j` NFTs all come before `token`. */
  ghost predicate AllBefore(nn: seq<NftTransfer>, j: nat, token: TokenId)
    requires j <= |nn|
  {
    forall q | 0 <= q < j :: Before(nn[q].token, token)
  }

  /**
   NFT `j` comes back to a token: it does not continue the token of the NFT before it, the NFTs
   before it have not all stayed below its token although they stayed below the largest token with
   token transfers, and its token has token transfers or an earlier NFT.
   */
  ghost predicate Revisits(tt: seq<TokenTransfer>, nn: seq<NftTransfer>, j: nat)
  {
    && 0 < j < |nn| && tt != []
    && nn[j - 1].token != nn[j].token
    && AllBefore(nn, j, tt[|tt| - 1].key.token)
    && !AllBefore(nn, j, nn[j].token)
    && (AmongNfts(nn, j, nn[j].token) || AmongTransfers(tt, |tt|, nn[j].token))
  }

  ghost predicate RevisitsBelow(tt: seq<TokenTransfer>, nn: seq<NftTransfer>, m: nat)
  {
    exists j: nat :: j < m && Revisits(tt, nn, j)
  }

  /** The tokens with a group are the tokens read so far. */
  ghost predicate Covered(tt: seq<TokenTransfer>, nn: seq<NftTransfer>, c: Cursor)
    requires InRange(tt, nn, c)
  {
    forall token :: HasGroup(c.groups, token) <==> AmongTransfers(tt, c.i, token) || AmongNfts(nn, c.j, token)
  }

  /** While both lists last: where the last group and the transfers read stand to the next NFT. */
  ghost predicate Interleaved(tt: seq<TokenTransfer>, nn: seq<NftTransfer>, c: Cursor)
    requires InRange(tt, nn, c) && c.j < |nn|
  {
    && (c.j > 0 ==>
          && c.groups != []
          && var last := c.groups[|c.groups| - 1].token;
             last == nn[c.j - 1].token || (Before(last, nn[c.j].token) && AllBefore(nn, c.j, last)))
    && (forall p | 0 <= p < c.i :: Before(tt[p].key.token, nn[c.j].token) || !AllBefore(nn, c.j, tt[p].key.token))
  }

  /** What every iteration keeps: tokens are distinct so far exactly when no NFT so far came back. */
  ghost predicate Tracked(tt: seq<TokenTransfer>, nn: seq<NftTransfer>, c: Cursor)
    requires InRange(tt, nn, c)
  {
    && Covered(tt, nn, c)
    && (c.i < |tt| && c.j < |nn| ==>
        Interleaved(tt, nn, c) && (DistinctTokens(c.groups) <==> !RevisitsBelow(tt, nn, c.j)))
    && (c.i == |tt| || c.j == |nn| ==> (DistinctTokens(c.groups) <==> !RevisitsBelow(tt, nn, |nn|)))
  }

  lemma OpenGroup(gs: seq<Group>, g: Group)
    ensures DistinctTokens(gs + [g]) <==> DistinctTokens(gs) && !HasGroup(gs, g.token)
    ensures forall token :: HasGroup(gs + [g], token) <==> HasGroup(gs, token) || g.token == token
  {
    var r := gs + [g];
    assert r[|gs|] == g && forall k | 0 <= k < |gs| :: r[k] == gs[k];
    if DistinctTokens(r) {
      forall k, l | 0 <= k < l < |gs| ensures gs[k].token != gs[l].token {
        assert r[k].token != r[l].token;
      }
      forall k | 0 <= k < |gs| ensures gs[k].token != g.token {
        assert r[k].token != r[|gs|].token;
      }
    }
    forall token | HasGroup(gs, token) || g.token == token ensures HasGroup(r, token) {
      if g.token != token {
        var k :| 0 <= k < |gs| && gs[k].token == token;
        assert r[k].token == token;
      }
    }
  }

  lemma SameGroups(gs: seq<Group>, fs: seq<Group>)
    requires |gs| == |fs| && forall k | 0 <= k < |gs| :: gs[k].token == fs[k].token
    ensures DistinctTokens(gs) <==> DistinctTokens(fs)
    ensures forall token :: HasGroup(gs, token) <==> HasGroup(fs, token)
  {
    forall token ensures HasGroup(gs, token) <==> HasGroup(fs, token) {
      if HasGroup(gs, token) {
        var k :| 0 <= k < |gs| && gs[k].token == token;
        assert fs[k].token == token;
      }
      if HasGroup(fs, token) {
        var k :| 0 <= k < |fs| && fs[k].token == token;
        assert gs[k].token == token;
      }
    }
  }

  lemma AmongTransfersNext(tt: seq<TokenTransfer>, i: nat)
    requires i < |tt|
    ensures forall token :: AmongTransfers(tt, i + 1, token) <==>
              AmongTransfers(tt, i, token) || tt[i].key.token == token
  {
    assert tt[i].key.token == tt[i].key.token && AmongTransfers(tt, i + 1, tt[i].key.token);
  }

  lemma AmongNftsNext(nn: seq<NftTransfer>, j: nat)
    requires j < |nn|
    ensures forall token :: AmongNfts(nn, j + 1, token) <==> AmongNfts(nn, j, token) || nn[j].token == token
  {
    assert nn[j].token == nn[j].token && AmongNfts(nn, j + 1, nn[j].token);
  }

  lemma PlaceCovered(tt: seq<TokenTransfer>, nn: seq<NftTransfer>, c: Cursor)
    requires InRange(tt, nn, c) && (c.i < |tt| || c.j < |nn|) && Covered(tt, nn, c)
    ensures Covered(tt, nn, Place(tt, nn, c))
  {
    var r := Place(tt, nn, c);
    if c.i < |tt| { AmongTransfersNext(tt, c.i); }
    if c.j < |nn| { AmongNftsNext(nn, c.j); }
    if c.i < |tt| && c.j < |nn| { CompareTokensSign(tt[c.i].key.token, nn[c.j].token); }
    if |r.groups| > |c.groups| {
      PlaceOpens(tt, nn, c);
      OpenGroup(c.groups, r.groups[|c.groups|]);
    } else {
      SameGroups(c.groups, r.groups);
    }
  }

  lemma AllBeforeNext(nn: seq<NftTransfer>, j: nat, token: TokenId)
    requires j < |nn|
    ensures AllBefore(nn, j + 1, token) <==> AllBefore(nn, j, token) && Before(nn[j].token, token)
  {
  }

  lemma RevisitsBelowNext(tt: seq<TokenTransfer>, nn: seq<NftTransfer>, m: nat)
    ensures RevisitsBelow(tt, nn, m + 1) <==> RevisitsBelow(tt, nn, m) || Revisits(tt, nn, m)
  {
    assert Revisits(tt, nn, m) ==> RevisitsBelow(tt, nn, m + 1);
    if RevisitsBelow(tt, nn, m) {
      var j: nat :| j < m && Revisits(tt, nn, j);
      assert j < m + 1 && Revisits(tt, nn, j);
    }
  }

  /** Once the NFTs reach the largest token with token transfers, none comes back. */
  lemma NoLaterRevisit(tt: seq<TokenTransfer>, nn: seq<NftTransfer>, j: nat)
    requires tt != [] && j <= |nn|
    requires !AllBefore(nn, j, tt[|tt| - 1].key.token) || (j < |nn| && Before(tt[|tt| - 1].key.token, nn[j].token))
    ensures RevisitsBelow(tt, nn, |nn|) <==> RevisitsBelow(tt, nn, j)
  {
    var top := tt[|tt| - 1].key.token;
    forall m: nat | j <= m < |nn| ensures !Revisits(tt, nn, m) {
      if AllBefore(nn, m, top) {
        assert m == j by { assert m > j ==> Before(nn[j].token, top); }
        assert AllBefore(nn, m, nn[m].token);
      }
    }
    if RevisitsBelow(tt, nn, j) {
      var m: nat :| m < j && Revisits(tt, nn, m);
      assert m < |nn| && Revisits(tt, nn, m);
    }
    if RevisitsBelow(tt, nn, |nn|) {
      var m: nat :| m < |nn| && Revisits(tt, nn, m);
      assert m < j && Revisits(tt, nn, m);
    }
  }

  /** The state at the top of an iteration with both lists non-empty. */
  ghost predicate AtBoth(tt: seq<TokenTransfer>, nn: seq<NftTransfer>, c: Cursor)
  {
    && SortedByToken(tt) && Contents(tt, nn, c) && Shaped(tt, c) && Tracked(tt, nn, c)
    && c.i < |tt| && c.j < |nn|
  }

  ghost function LastToken(c: Cursor): TokenId
    requires c.groups != []
  {
    c.groups[|c.groups| - 1].token
  }

  lemma TransferTokensKept(tt: seq<TokenTransfer>, nn: seq<NftTransfer>, c: Cursor)
    requires AtBoth(tt, nn, c) && c.groups != [] && LastToken(c) == tt[c.i].key.token
    ensures c.i > 0 && tt[c.i - 1].key.token == tt[c.i].key.token
  {
    var last := c.groups[|c.groups| - 1];
    CompareTokensSign(last.token, last.token);
    assert last.transfers != [] && WellFormed(last);
    assert Flatten(c.groups)[|Flatten(c.groups)| - 1] == last.transfers[|last.transfers| - 1];
    assert tt[c.i - 1] == tt[..c.i][c.i - 1];
  }

  lemma PushTransferTracked(tt: seq<TokenTransfer>, nn: seq<NftTransfer>, c: Cursor, r: Cursor)
    requires AtBoth(tt, nn, c) && c.groups != [] && LastToken(c) == tt[c.i].key.token
    requires r == Cursor(c.i + 1, c.j, WithTransfer(c.groups, |c.groups| - 1, tt[c.i]))
    requires Covered(tt, nn, r)
    ensures Tracked(tt, nn, r)
  {
    TransferTokensKept(tt, nn, c);
    SameGroups(c.groups, r.groups);
    if r.i == |tt| {
      NoLaterRevisit(tt, nn, c.j);
    } else {
      assert LastToken(r) == LastToken(c);
    }
  }

  lemma PushNftTracked(tt: seq<TokenTransfer>, nn: seq<NftTransfer>, c: Cursor, r: Cursor)
    requires AtBoth(tt, nn, c) && c.groups != [] && LastToken(c) == nn[c.j].token
    requires r == Cursor(c.i, c.j + 1, WithNft(c.groups, |c.groups| - 1, nn[c.j]))
    requires Covered(tt, nn, r)
    ensures Tracked(tt, nn, r)
  {
    SameGroups(c.groups, r.groups);
    RevisitsBelowNext(tt, nn, c.j);
    CompareTokensSign(nn[c.j].token, nn[c.j].token);
    assert !Revisits(tt, nn, c.j);
    NextNftInterleaved(tt, nn, c, r);
  }

  /** Reading NFT `j` into the last group re-establishes the standing towards the next one. */
  lemma NextNftInterleaved(tt: seq<TokenTransfer>, nn: seq<NftTransfer>, c: Cursor, r: Cursor)
    requires InRange(tt, nn, c) && c.j < |nn| && Interleaved(tt, nn, c)
    requires r.i == c.i && r.j == c.j + 1 && InRange(tt, nn, r)
    requires r.groups != [] && LastToken(r) == nn[c.j].token
    ensures r.j < |nn| ==> Interleaved(tt, nn, r)
  {
    forall p | 0 <= p < c.i ensures !AllBefore(nn, r.j, tt[p].key.token) {
      AllBeforeNext(nn, c.j, tt[p].key.token);
    }
  }

  /** When the last group is not the next transfer's, every NFT read is before that transfer. */
  lemma ReadNftsBefore(tt: seq<TokenTransfer>, nn: seq<NftTransfer>, c: Cursor)
    requires AtBoth(tt, nn, c) && (c.groups != [] ==> LastToken(c) != tt[c.i].key.token)
    ensures AllBefore(nn, c.j, tt[c.i].key.token)
    ensures !HasGroup(c.groups, tt[c.i].key.token)
  {
    var next := tt[c.i].key.token;
    CompareTokensSign(next, next);
    forall q | 0 <= q < c.j ensures Before(nn[q].token, next) {
      assert AmongNfts(nn, c.j, nn[q].token);
      assert HasGroup(c.groups, nn[q].token);
    }
  }

  lemma OpenBothTracked(tt: seq<TokenTransfer>, nn: seq<NftTransfer>, c: Cursor, g: Group, r: Cursor)
    requires AtBoth(tt, nn, c) && (c.groups != [] ==> LastToken(c) != tt[c.i].key.token)
    requires g.token == tt[c.i].key.token == nn[c.j].token && r == Cursor(c.i + 1, c.j + 1, c.groups + [g])
    requires Covered(tt, nn, r)
    ensures Tracked(tt, nn, r)
  {
    ReadNftsBefore(tt, nn, c);
    OpenGroup(c.groups, g);
    RevisitsBelowNext(tt, nn, c.j);
    assert !Revisits(tt, nn, c.j);
    BothInterleaved(tt, nn, c, g, r);
    if r.i == |tt| {
      NoLaterRevisit(tt, nn, r.j);
    }
  }

  lemma BothInterleaved(tt: seq<TokenTransfer>, nn: seq<NftTransfer>, c: Cursor, g: Group, r: Cursor)
    requires InRange(tt, nn, c) && InRange(tt, nn, r) && c.i < |tt| && c.j < |nn| && Interleaved(tt, nn, c)
    requires g.token == tt[c.i].key.token == nn[c.j].token && r == Cursor(c.i + 1, c.j + 1, c.groups + [g])
    ensures r.j < |nn| ==> Interleaved(tt, nn, r)
  {
    CompareTokensSign(g.token, g.token);
    AllBeforeNext(nn, c.j, g.token);
    NextNftInterleaved(tt, nn, c, Cursor(c.i, r.j, r.groups));
  }

  lemma OpenTransferTracked(tt: seq<TokenTransfer>, nn: seq<NftTransfer>, c: Cursor, g: Group, r: Cursor)
    requires AtBoth(tt, nn, c) && (c.groups != [] ==> LastToken(c) != tt[c.i].key.token)
    requires g.token == tt[c.i].key.token && Before(g.token, nn[c.j].token) && r == Cursor(c.i + 1, c.j, c.groups + [g])
    requires Covered(tt, nn, r)
    ensures Tracked(tt, nn, r)
  {
    ReadNftsBefore(tt, nn, c);
    OpenGroup(c.groups, g);
    if r.i == |tt| {
      NoLaterRevisit(tt, nn, r.j);
    }
  }

  lemma EarlierToken(tt: seq<TokenTransfer>, p: nat, i: nat)
    requires SortedByToken(tt) && p < |tt| && i < |tt|
    ensures Before(tt[p].key.token, tt[i].key.token) ==> p < i
  {
    assert p > i ==> !Before(tt[p].key.token, tt[i].key.token);
    CompareTokensSign(tt[i].key.token, tt[i].key.token);
  }

  /** A group opened for an NFT alone repeats a token exactly when the NFT comes back to it. */
  lemma OpenNftRevisits(tt: seq<TokenTransfer>, nn: seq<NftTransfer>, c: Cursor)
    requires AtBoth(tt, nn, c)
    requires c.groups != [] ==> LastToken(c) != tt[c.i].key.token && LastToken(c) != nn[c.j].token
    requires Before(nn[c.j].token, tt[c.i].key.token)
    ensures HasGroup(c.groups, nn[c.j].token) <==> Revisits(tt, nn, c.j)
  {
    var token, top := nn[c.j].token, tt[|tt| - 1].key.token;
    ReadNftsBefore(tt, nn, c);
    assert c.i < |tt| - 1 ==> !Before(top, tt[c.i].key.token);
    assert AllBefore(nn, c.j, top);
    CompareTokensSign(token, token);
    if AmongTransfers(tt, |tt|, token) {
      var p :| 0 <= p < |tt| && tt[p].key.token == token;
      EarlierToken(tt, p, c.i);
      assert AmongTransfers(tt, c.i, token);
    }
    if AmongTransfers(tt, c.i, token) {
      assert AmongTransfers(tt, |tt|, token);
    }
  }

  lemma OpenNftTracked(tt: seq<TokenTransfer>, nn: seq<NftTransfer>, c: Cursor, g: Group, r: Cursor)
    requires AtBoth(tt, nn, c)
    requires c.groups != [] ==> LastToken(c) != tt[c.i].key.token && LastToken(c) != nn[c.j].token
    requires Before(nn[c.j].token, tt[c.i].key.token)
    requires g.token == nn[c.j].token && r == Cursor(c.i, c.j + 1, c.groups + [g])
    requires Covered(tt, nn, r)
    ensures Tracked(tt, nn, r)
  {
    OpenNftRevisits(tt, nn, c);
    OpenGroup(c.groups, g);
    RevisitsBelowNext(tt, nn, c.j);
    NextNftInterleaved(tt, nn, c, r);
  }

  lemma PlaceEitherTracked(tt: seq<TokenTransfer>, nn: seq<NftTransfer>, c: Cursor)
    requires AtBoth(tt, nn, c)
    ensures Tracked(tt, nn, PlaceEither(tt, nn, c))
  {
    var r := PlaceEither(tt, nn, c);
    var t, n := tt[c.i].key.token, nn[c.j].token;
    PlaceCovered(tt, nn, c);
    CompareTokensSign(t, n);
    if c.groups != [] {
      CompareTokensSign(LastToken(c), t);
      CompareTokensSign(LastToken(c), n);
    }
    if c.groups != [] && LastToken(c) == t {
      PushTransferTracked(tt, nn, c, r);
    } else if c.groups != [] && LastToken(c) == n {
      PushNftTracked(tt, nn, c, r);
    } else if t == n {
      OpenBothTracked(tt, nn, c, r.groups[|c.groups|], r);
    } else if Before(t, n) {
      OpenTransferTracked(tt, nn, c, r.groups[|c.groups|], r);
    } else {
      OpenNftTracked(tt, nn, c, r.groups[|c.groups|], r);
    }
  }

  /** Once one list is used up, a group is only opened for a token that has none. */
  lemma PlaceRestTracked(tt: seq<TokenTransfer>, nn: seq<NftTransfer>, c: Cursor)
    requires InRange(tt, nn, c) && (c.i < |tt| || c.j < |nn|) && (c.i == |tt| || c.j == |nn|)
    requires Tracked(tt, nn, c)
    ensures Tracked(tt, nn, Place(tt, nn, c))
  {
    var r := Place(tt, nn, c);
    PlaceCovered(tt, nn, c);
    if |r.groups| > |c.groups| {
      PlaceOpens(tt, nn, c);
      OpenGroup(c.groups, r.groups[|c.groups|]);
    } else {
      SameGroups(c.groups, r.groups);
    }
  }

  lemma {:induction false} FinishTracked(tt: seq<TokenTransfer>, nn: seq<NftTransfer>, c: Cursor)
    requires SortedByToken(tt) && Contents(tt, nn, c) && Shaped(tt, c) && Tracked(tt, nn, c)
    ensures DistinctTokens(Finish(tt, nn, c)) <==> !RevisitsBelow(tt, nn, |nn|)
    decreases |tt| + |nn| - c.i - c.j
  {
    if c.i < |tt| || c.j < |nn| {
      PlaceContents(tt, nn, c);
      PlaceShaped(tt, nn, c);
      if c.i < |tt| && c.j < |nn| {
        PlaceEitherTracked(tt, nn, c);
      } else {
        PlaceRestTracked(tt, nn, c);
      }
      FinishTracked(tt, nn, Place(tt, nn, c));
    }
  }

  lemma StartTracked(tt: seq<TokenTransfer>, nn: seq<NftTransfer>)
    ensures Contents(tt, nn, START) && Shaped(tt, START) && Tracked(tt, nn, START)
  {
    assert tt[..0] == [] && nn[..0] == [];
  }

  /** One group per token, exactly when no NFT of the sorted list comes back to a token. */
  lemma DistinctIffNoRevisit(tt: seq<TokenTransfer>, nn: seq<NftTransfer>)
    requires SortedByToken(tt)
    ensures DistinctTokens(Groups(tt, nn)) <==> !exists j: nat :: j < |nn| && Revisits(tt, nn, j)
  {
    StartTracked(tt, nn);
    FinishTracked(tt, nn, START);
  }

  ghost predicate NftsSortedByToken(nn: seq<NftTransfer>)
  {
    forall i, j | 0 <= i < j < |nn| :: !Before(nn[j].token, nn[i].token)
  }

  /** With NFTs in token order, or with no token transfers, every token gets one group. */
  lemma DistinctWhenInOrder(tt: seq<TokenTransfer>, nn: seq<NftTransfer>)
    requires SortedByToken(tt) && (NftsSortedByToken(nn) || tt == [])
    ensures DistinctTokens(Groups(tt, nn))
  {
    DistinctIffNoRevisit(tt, nn);
    forall j: nat | j < |nn| ensures !Revisits(tt, nn, j) {
      if j > 0 && tt != [] && nn[j - 1].token != nn[j].token {
        CompareTokensSign(nn[j - 1].token, nn[j].token);
        forall q | 0 <= q < j ensures Before(nn[q].token, nn[j].token) {
          assert q < j - 1 ==> !Before(nn[j - 1].token, nn[q].token);
        }
      }
    }
  }

  ghost predicate IncreasingTokens(gs: seq<Group>)
  {
    forall k, l | 0 <= k < l < |gs| :: Before(gs[k].token, gs[l].token)
  }

  ghost predicate NotBeyond(gs: seq<Group>, token: TokenId)
  {
    forall k | 0 <= k < |gs| :: !Before(token, gs[k].token)
  }

  ghost predicate Advancing(nn: seq<NftTransfer>, c: Cursor)
  {
    IncreasingTokens(c.groups) && (c.j < |nn| ==> NotBeyond(c.groups, nn[c.j].token))
  }

  lemma PlaceAdvances(tt: seq<TokenTransfer>, nn: seq<NftTransfer>, c: Cursor)
    requires SortedByToken(tt) && NftsSortedByToken(nn)
    requires Contents(tt, nn, c) && Shaped(tt, c) && Advancing(nn, c) && (c.i < |tt| || c.j < |nn|)
    ensures Advancing(nn, Place(tt, nn, c))
  {
    var r := Place(tt, nn, c);
    if |r.groups| > |c.groups| {
      PlaceOpensBeyond(tt, nn, c);
      PlaceOpens(tt, nn, c);
      OpenIncreasing(c.groups, r.groups[|c.groups|], if c.j < |nn| then nn[c.j].token else tt[c.i].key.token);
    } else {
      PushIncreasing(c.groups, r.groups, if c.j < |nn| then nn[c.j].token else tt[c.i].key.token);
    }
    if r.j < |nn| {
      assert r.j > c.j ==> !Before(nn[r.j].token, nn[c.j].token);
      CompareTokensSign(nn[c.j].token, nn[c.j].token);
      NotBeyondLater(r.groups, nn[c.j].token, nn[r.j].token);
    }
  }

  lemma OpenIncreasing(gs: seq<Group>, g: Group, next: TokenId)
    requires IncreasingTokens(gs) && forall k | 0 <= k < |gs| :: Before(gs[k].token, g.token)
    ensures IncreasingTokens(gs + [g])
    ensures NotBeyond(gs, next) && !Before(next, g.token) ==> NotBeyond(gs + [g], next)
  {
  }

  lemma PushIncreasing(gs: seq<Group>, fs: seq<Group>, next: TokenId)
    requires |gs| == |fs| && forall k | 0 <= k < |gs| :: gs[k].token == fs[k].token
    requires IncreasingTokens(gs)
    ensures IncreasingTokens(fs)
    ensures NotBeyond(gs, next) ==> NotBeyond(fs, next)
  {
  }

  lemma NotBeyondLater(gs: seq<Group>, token: TokenId, later: TokenId)
    requires NotBeyond(gs, token) && !Before(later, token)
    ensures NotBeyond(gs, later)
  {
  }

  lemma PlaceOpensBeyond(tt: seq<TokenTransfer>, nn: seq<NftTransfer>, c: Cursor)
    requires SortedByToken(tt) && Contents(tt, nn, c) && Shaped(tt, c) && Advancing(nn, c) && (c.i < |tt| || c.j < |nn|)
    requires |Place(tt, nn, c).groups| > |c.groups|
    ensures forall k | 0 <= k < |c.groups| :: Before(c.groups[k].token, Place(tt, nn, c).groups[|c.groups|].token)
    ensures c.j < |nn| ==> !Before(nn[c.j].token, Place(tt, nn, c).groups[|c.groups|].token)
  {
    if c.i < |tt| {
      BehindIsLast(c.groups, tt[c.i].key.token);
      if c.j < |nn| {
        CompareTokensSign(tt[c.i].key.token, nn[c.j].token);
      }
    }
  }

  lemma {:induction false} FinishIncreasing(tt: seq<TokenTransfer>, nn: seq<NftTransfer>, c: Cursor)
    requires SortedByToken(tt) && NftsSortedByToken(nn)
    requires Contents(tt, nn, c) && Shaped(tt, c) && Advancing(nn, c)
    ensures IncreasingTokens(Finish(tt, nn, c))
    decreases |tt| + |nn| - c.i - c.j
  {
    if c.i < |tt| || c.j < |nn| {
      PlaceContents(tt, nn, c);
      PlaceShaped(tt, nn, c);
      PlaceAdvances(tt, nn, c);
      FinishIncreasing(tt, nn, Place(tt, nn, c));
    }
  }

  /** With NFTs in token order the groups come in strictly increasing token order. */
  lemma IncreasingWhenInOrder(tt: seq<TokenTransfer>, nn: seq<NftTransfer>)
    requires SortedByToken(tt) && NftsSortedByToken(nn)
    ensures IncreasingTokens(Groups(tt, nn))
  {
    StartTracked(tt, nn);
    FinishIncreasing(tt, nn, START);
  }

  /** Sorted lists that split one token over two groups: any three tokens in order give some. */
  lemma RepeatedGroup(one: TokenId, two: TokenId, three: TokenId, account: AccountId)
    requires Before(one, two) && Before(two, three)
    ensures var tt := [Entry(TokenKey(one, account), Option.None, 1, false),
              Entry(TokenKey(three, account), Option.None, 1, false)];
            var nn := [NftTransfer(two, 1, account, account, false), NftTransfer(one, 2, account, account, false)];
            SortedByToken(tt) && !DistinctTokens(Groups(tt, nn))
  {
    var tt := [Entry(TokenKey(one, account), Option.None, 1, false),
        Entry(TokenKey(three, account), Option.None, 1, false)];
    var nn := [NftTransfer(two, 1, account, account, false), NftTransfer(one, 2, account, account, false)];
    CompareTokensSign(one, two);
    DistinctIffNoRevisit(tt, nn);
    assert tt[0].key.token == one && AmongTransfers(tt, |tt|, one);
    assert !Before(nn[0].token, one);
    assert Revisits(tt, nn, 1);
  }
}
