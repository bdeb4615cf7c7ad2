/** How sorted transfers are interleaved into per-token groups. */
module Grouping {
  import opened Results
  import opened Identifiers
  import opened Transfers

  datatype Group = Group(
    token: TokenId, expectedDecimals: Option<int>, transfers: seq<TokenTransfer>, nfts: seq<NftTransfer>)

  /** The two read positions and the groups built so far. */
  datatype Cursor = Cursor(i: nat, j: nat, groups: seq<Group>)

  function WithTransfer(gs: seq<Group>, k: nat, t: TokenTransfer): (r: seq<Group>)
    requires k < |gs|
  {
    gs[k := gs[k].(transfers := gs[k].transfers + [t])]
  }

  function WithNft(gs: seq<Group>, k: nat, n: NftTransfer): (r: seq<Group>)
    requires k < |gs|
  {
    gs[k := gs[k].(nfts := gs[k].nfts + [n])]
  }

  /** The last group of the token, or the number of groups when there is none. */
  function LastGroup(gs: seq<Group>, token: TokenId): (k: nat)
    ensures k <= |gs|
    ensures k < |gs| ==> gs[k].token == token
    ensures forall l | 0 <= l < |gs| && (k == |gs| || k < l) :: gs[l].token != token
  {
    if gs == [] then 0
    else if gs[|gs| - 1].token == token then |gs| - 1
    else var k := LastGroup(gs[..|gs| - 1], token); if k == |gs| - 1 then |gs| else k
  }

  ghost predicate InRange(tt: seq<TokenTransfer>, nn: seq<NftTransfer>, c: Cursor)
  {
    c.i <= |tt| && c.j <= |nn|
  }

  /** While both lists last: extend the last group, or open the group of the smaller token. */
  function PlaceEither(tt: seq<TokenTransfer>, nn: seq<NftTransfer>, c: Cursor): (r: Cursor)
    requires c.i < |tt| && c.j < |nn|
  {
    var t, n, last := tt[c.i], nn[c.j], |c.groups| - 1;
    if last >= 0 && CompareTokens(c.groups[last].token, t.key.token) == 0 then
      Cursor(c.i + 1, c.j, WithTransfer(c.groups, last, t))
    else if last >= 0 && CompareTokens(c.groups[last].token, n.token) == 0 then
      Cursor(c.i, c.j + 1, WithNft(c.groups, last, n))
    else
      var order := CompareTokens(t.key.token, n.token);
      if order == 0 then Cursor(c.i + 1, c.j + 1, c.groups + [Group(t.key.token, t.expectedDecimals, [t], [n])])
      else if order < 0 then Cursor(c.i + 1, c.j, c.groups + [Group(t.key.token, t.expectedDecimals, [t], [])])
      else Cursor(c.i, c.j + 1, c.groups + [Group(n.token, None, [], [n])])
  }

  /** When only token transfers are left. */
  function PlaceTransfer(tt: seq<TokenTransfer>, c: Cursor): (r: Cursor)
    requires c.i < |tt|
  {
    var t := tt[c.i];
    var k := LastGroup(c.groups, t.key.token);
    if k < |c.groups| then Cursor(c.i + 1, c.j, WithTransfer(c.groups, k, t))
    else Cursor(c.i + 1, c.j, c.groups + [Group(t.key.token, t.expectedDecimals, [t], [])])
  }

  /** When only NFT transfers are left. */
  function PlaceNft(nn: seq<NftTransfer>, c: Cursor): (r: Cursor)
    requires c.j < |nn|
  {
    var n := nn[c.j];
    var k := LastGroup(c.groups, n.token);
    if k < |c.groups| then Cursor(c.i, c.j + 1, WithNft(c.groups, k, n))
    else Cursor(c.i, c.j + 1, c.groups + [Group(n.token, None, [], [n])])
  }

  function Place(tt: seq<TokenTransfer>, nn: seq<NftTransfer>, c: Cursor): (r: Cursor)
    requires InRange(tt, nn, c) && (c.i < |tt| || c.j < |nn|)
    ensures InRange(tt, nn, r) && c.i + c.j < r.i + r.j
  {
    if c.i < |tt| && c.j < |nn| then PlaceEither(tt, nn, c)
    else if c.i < |tt| then PlaceTransfer(tt, c)
    else PlaceNft(nn, c)
  }

  /** The groups after the loop has run from `c` to the end. */
  function Finish(tt: seq<TokenTransfer>, nn: seq<NftTransfer>, c: Cursor): (gs: seq<Group>)
    requires InRange(tt, nn, c)
    decreases |tt| + |nn| - c.i - c.j
  {
    if c.i < |tt| || c.j < |nn| then Finish(tt, nn, Place(tt, nn, c)) else c.groups
  }

  const START := Cursor(0, 0, [])

  function Groups(tt: seq<TokenTransfer>, nn: seq<NftTransfer>): (gs: seq<Group>)
  {
    Finish(tt, nn, START)
  }

  /** All token transfers, group by group. */
  ghost function Flatten(gs: seq<Group>): seq<TokenTransfer>
  {
    if gs == [] then [] else Flatten(gs[..|gs| - 1]) + gs[|gs| - 1].transfers
  }

  /** The NFT transfers of the token, group by group. */
  ghost function NftsOf(gs: seq<Group>, token: TokenId): seq<NftTransfer>
  {
    if gs == [] then []
    else
      NftsOf(gs[..|gs| - 1], token) + if gs[|gs| - 1].token == token then gs[|gs| - 1].nfts else []
  }

  ghost function Select(nn: seq<NftTransfer>, token: TokenId): seq<NftTransfer>
  {
    if nn == [] then []
    else Select(nn[..|nn| - 1], token) + if nn[|nn| - 1].token == token then [nn[|nn| - 1]] else []
  }

  ghost predicate SortedByToken(tt: seq<TokenTransfer>)
  {
    forall i, j | 0 <= i < j < |tt| :: !Before(tt[j].key.token, tt[i].key.token)
  }

  /** A group holds its own token's transfers only, is not empty, and takes its first transfer's decimals. */
  ghost predicate WellFormed(g: Group)
  {
    && (forall k | 0 <= k < |g.transfers| :: g.transfers[k].key.token == g.token)
    && (forall k | 0 <= k < |g.nfts| :: g.nfts[k].token == g.token)
    && (g.transfers != [] || g.nfts != [])
    && g.expectedDecimals == if g.transfers == [] then None else g.transfers[0].expectedDecimals
  }

  /** Groups with token transfers come in strictly increasing token order: one group a token. */
  ghost predicate FungibleOrder(gs: seq<Group>)
  {
    forall k, l | 0 <= k < l < |gs| && gs[k].transfers != [] && gs[l].transfers != [] ::
      Before(gs[k].token, gs[l].token)
  }

  /**
   While token transfers remain, every group's token is before the next one's, except that the last
   group may be the one the next transfer belongs to.
   */
  ghost predicate Behind(gs: seq<Group>, next: TokenId)
  {
    forall k | 0 <= k < |gs| ::
        Before(gs[k].token, next) || (k == |gs| - 1 && gs[k].token == next && gs[k].transfers != [])
  }

  /** The groups hold exactly what has been read, in the order it was read. */
  ghost predicate Contents(tt: seq<TokenTransfer>, nn: seq<NftTransfer>, c: Cursor)
  {
    && InRange(tt, nn, c)
    && Flatten(c.groups) == tt[..c.i]
    && (forall token :: NftsOf(c.groups, token) == Select(nn[..c.j], token))
  }

  /** The shape of the groups that every iteration of the merge loop keeps. */
  ghost predicate Shaped(tt: seq<TokenTransfer>, c: Cursor)
  {
    && (forall k | 0 <= k < |c.groups| :: WellFormed(c.groups[k]))
    && FungibleOrder(c.groups)
    && (c.i < |tt| ==> Behind(c.groups, tt[c.i].key.token))
  }

  lemma TransfersAppend(gs: seq<Group>, g: Group)
    ensures Flatten(gs + [g]) == Flatten(gs) + g.transfers
    ensures forall token :: NftsOf(gs + [g], token) == NftsOf(gs, token) + if g.token == token then g.nfts else []
  {
    assert (gs + [g])[..|gs|] == gs;
  }

  /** A transfer goes to the end when no later group holds transfers. */
  lemma {:induction false} TransferPushed(gs: seq<Group>, k: nat, t: TokenTransfer)
    requires k < |gs| && forall l | k < l < |gs| :: gs[l].transfers == []
    ensures Flatten(WithTransfer(gs, k, t)) == Flatten(gs) + [t]
  {
    var n := |gs| - 1;
    if k == n {
      assert WithTransfer(gs, k, t)[..n] == gs[..n];
    } else {
      TransferPushed(gs[..n], k, t);
      assert WithTransfer(gs, k, t)[..n] == WithTransfer(gs[..n], k, t);
    }
  }

  lemma {:induction false} TransferKeepsNfts(gs: seq<Group>, k: nat, t: TokenTransfer, token: TokenId)
    requires k < |gs|
    ensures NftsOf(WithTransfer(gs, k, t), token) == NftsOf(gs, token)
  {
    var n := |gs| - 1;
    if k == n {
      assert WithTransfer(gs, k, t)[..n] == gs[..n];
    } else {
      TransferKeepsNfts(gs[..n], k, t, token);
      assert WithTransfer(gs, k, t)[..n] == WithTransfer(gs[..n], k, t);
    }
  }

  lemma {:induction false} NftKeepsTransfers(gs: seq<Group>, k: nat, n: NftTransfer)
    requires k < |gs|
    ensures Flatten(WithNft(gs, k, n)) == Flatten(gs)
  {
    var m := |gs| - 1;
    if k == m {
      assert WithNft(gs, k, n)[..m] == gs[..m];
    } else {
      NftKeepsTransfers(gs[..m], k, n);
      assert WithNft(gs, k, n)[..m] == WithNft(gs[..m], k, n);
    }
  }

  /** Pushed to the last group of its token, an NFT comes last among its token's. */
  lemma {:induction false} NftPushed(gs: seq<Group>, k: nat, n: NftTransfer, token: TokenId)
    requires k < |gs| && gs[k].token == n.token && forall l | k < l < |gs| :: gs[l].token != n.token
    ensures NftsOf(WithNft(gs, k, n), token) == NftsOf(gs, token) + if token == n.token then [n] else []
  {
    var m := |gs| - 1;
    if k == m {
      assert WithNft(gs, k, n)[..m] == gs[..m];
    } else {
      NftPushed(gs[..m], k, n, token);
      assert WithNft(gs, k, n)[..m] == WithNft(gs[..m], k, n);
    }
  }

  lemma SelectNext(nn: seq<NftTransfer>, j: nat, token: TokenId)
    requires j < |nn|
    ensures Select(nn[..j + 1], token) == Select(nn[..j], token) + if nn[j].token == token then [nn[j]] else []
  {
    assert nn[..j + 1][..j] == nn[..j];
  }

  lemma OpenContents(tt: seq<TokenTransfer>, nn: seq<NftTransfer>, c: Cursor, g: Group, r: Cursor)
    requires Contents(tt, nn, c) && InRange(tt, nn, r)
    requires r.groups == c.groups + [g]
    requires c.i <= r.i <= c.i + 1 && g.transfers == tt[c.i..r.i]
    requires c.j <= r.j <= c.j + 1 && g.nfts == nn[c.j..r.j]
    requires forall k | 0 <= k < |g.nfts| :: g.nfts[k].token == g.token
    ensures Contents(tt, nn, r)
  {
    TransfersAppend(c.groups, g);
    forall token ensures NftsOf(r.groups, token) == Select(nn[..r.j], token) {
      OpenNfts(nn, c, g, r, token);
    }
    assert tt[..r.i] == tt[..c.i] + tt[c.i..r.i];
  }

  lemma OpenNfts(nn: seq<NftTransfer>, c: Cursor, g: Group, r: Cursor, token: TokenId)
    requires c.j <= r.j <= c.j + 1 && r.j <= |nn| && g.nfts == nn[c.j..r.j]
    requires forall k | 0 <= k < |g.nfts| :: g.nfts[k].token == g.token
    requires NftsOf(c.groups, token) == Select(nn[..c.j], token)
    ensures NftsOf(c.groups, token) + (if g.token == token then g.nfts else []) == Select(nn[..r.j], token)
  {
    if c.j < r.j {
      SelectNext(nn, c.j, token);
      assert g.nfts == [nn[c.j]] && g.nfts[0] == nn[c.j];
    }
  }

  lemma PushTransferContents(tt: seq<TokenTransfer>, nn: seq<NftTransfer>, c: Cursor)
    requires Contents(tt, nn, c) && c.i < |tt| && c.groups != []
    ensures Contents(tt, nn, Cursor(c.i + 1, c.j, WithTransfer(c.groups, |c.groups| - 1, tt[c.i])))
  {
    var k := |c.groups| - 1;
    TransferPushed(c.groups, k, tt[c.i]);
    forall token ensures NftsOf(WithTransfer(c.groups, k, tt[c.i]), token) == Select(nn[..c.j], token) {
      TransferKeepsNfts(c.groups, k, tt[c.i], token);
    }
    assert tt[..c.i + 1] == tt[..c.i] + [tt[c.i]];
  }

  lemma PushNftContents(tt: seq<TokenTransfer>, nn: seq<NftTransfer>, c: Cursor, k: nat)
    requires Contents(tt, nn, c) && c.j < |nn| && k < |c.groups|
    requires c.groups[k].token == nn[c.j].token && forall l | k < l < |c.groups| :: c.groups[l].token != nn[c.j].token
    ensures Contents(tt, nn, Cursor(c.i, c.j + 1, WithNft(c.groups, k, nn[c.j])))
  {
    NftKeepsTransfers(c.groups, k, nn[c.j]);
    forall token ensures NftsOf(WithNft(c.groups, k, nn[c.j]), token) == Select(nn[..c.j + 1], token) {
      NftPushed(c.groups, k, nn[c.j], token);
      SelectNext(nn, c.j, token);
    }
  }

  lemma BehindIsLast(gs: seq<Group>, token: TokenId)
    requires Behind(gs, token)
    ensures LastGroup(gs, token) == if gs != [] && gs[|gs| - 1].token == token then |gs| - 1 else |gs|
  {
    CompareTokensSign(token, token);
  }

  lemma PlaceContents(tt: seq<TokenTransfer>, nn: seq<NftTransfer>, c: Cursor)
    requires Contents(tt, nn, c) && Shaped(tt, c) && (c.i < |tt| || c.j < |nn|)
    ensures Contents(tt, nn, Place(tt, nn, c))
  {
    var r := Place(tt, nn, c);
    if c.i < |tt| {
      BehindIsLast(c.groups, tt[c.i].key.token);
    }
    if |r.groups| > |c.groups| {
      PlaceOpens(tt, nn, c);
      OpenContents(tt, nn, c, r.groups[|c.groups|], r);
    } else {
      PlaceExtends(tt, nn, c);
      if r.i > c.i {
        PushTransferContents(tt, nn, c);
      } else {
        PushNftContents(tt, nn, c, LastGroup(c.groups, nn[c.j].token));
      }
    }
  }

  /** The group a step opens holds what the step reads. */
  lemma PlaceOpens(tt: seq<TokenTransfer>, nn: seq<NftTransfer>, c: Cursor)
    requires InRange(tt, nn, c) && (c.i < |tt| || c.j < |nn|)
    requires |Place(tt, nn, c).groups| > |c.groups|
    ensures var r := Place(tt, nn, c);
            && |r.groups| == |c.groups| + 1 && r.groups == c.groups + [r.groups[|c.groups|]]
            && WellFormed(r.groups[|c.groups|])
            && c.i <= r.i <= c.i + 1 && r.groups[|c.groups|].transfers == tt[c.i..r.i]
            && c.j <= r.j <= c.j + 1 && r.groups[|c.groups|].nfts == nn[c.j..r.j]
  {
    if c.i < |tt| && c.j < |nn| {
      CompareTokensSign(tt[c.i].key.token, nn[c.j].token);
    }
    if c.i < |tt| {
      assert tt[c.i..c.i + 1] == [tt[c.i]] && tt[c.i..c.i] == [];
    }
    if c.j < |nn| {
      assert nn[c.j..c.j + 1] == [nn[c.j]] && nn[c.j..c.j] == [];
    }
  }

  /** A step that opens no group extends the last group of the token it reads. */
  lemma PlaceExtends(tt: seq<TokenTransfer>, nn: seq<NftTransfer>, c: Cursor)
    requires InRange(tt, nn, c) && (c.i < |tt| || c.j < |nn|)
    requires |Place(tt, nn, c).groups| <= |c.groups|
    ensures var r := Place(tt, nn, c);
            if r.i > c.i then
              && c.i < |tt| && LastGroup(c.groups, tt[c.i].key.token) < |c.groups|
              && r == Cursor(c.i + 1, c.j, WithTransfer(c.groups, LastGroup(c.groups, tt[c.i].key.token), tt[c.i]))
            else
              && c.j < |nn| && LastGroup(c.groups, nn[c.j].token) < |c.groups|
              && r == Cursor(c.i, c.j + 1, WithNft(c.groups, LastGroup(c.groups, nn[c.j].token), nn[c.j]))
  {
    if c.i < |tt| && c.j < |nn| && c.groups != [] {
      CompareTokensSign(c.groups[|c.groups| - 1].token, tt[c.i].key.token);
      CompareTokensSign(c.groups[|c.groups| - 1].token, nn[c.j].token);
    }
  }

  lemma OpenShaped(tt: seq<TokenTransfer>, c: Cursor, g: Group, i: nat)
    requires SortedByToken(tt) && Shaped(tt, c) && WellFormed(g) && c.i <= i <= |tt| && i <= c.i + 1
    requires g.transfers != [] <==> i > c.i
    requires i > c.i ==> g.token == tt[c.i].key.token
    requires i == c.i < |tt| ==> Before(g.token, tt[c.i].key.token)
    requires c.i < |tt| && c.groups != [] ==> c.groups[|c.groups| - 1].token != tt[c.i].key.token
    ensures Shaped(tt, Cursor(i, 0, c.groups + [g]))
  {
    if i < |tt| {
      assert !Before(tt[i].key.token, tt[c.i].key.token);
    }
  }

  lemma PushTransferShaped(tt: seq<TokenTransfer>, c: Cursor)
    requires SortedByToken(tt) && Shaped(tt, c) && c.i < |tt| && c.groups != []
    requires c.groups[|c.groups| - 1].token == tt[c.i].key.token
    ensures Shaped(tt, Cursor(c.i + 1, 0, WithTransfer(c.groups, |c.groups| - 1, tt[c.i])))
  {
    if c.i + 1 < |tt| {
      assert !Before(tt[c.i + 1].key.token, tt[c.i].key.token);
    }
  }

  lemma PushNftShaped(tt: seq<TokenTransfer>, c: Cursor, k: nat, n: NftTransfer)
    requires Shaped(tt, c) && k < |c.groups| && c.groups[k].token == n.token
    ensures Shaped(tt, Cursor(c.i, 0, WithNft(c.groups, k, n)))
  {
  }

  lemma {:induction false} PlaceShaped(tt: seq<TokenTransfer>, nn: seq<NftTransfer>, c: Cursor)
    requires SortedByToken(tt) && Contents(tt, nn, c) && Shaped(tt, c) && (c.i < |tt| || c.j < |nn|)
    ensures Shaped(tt, Place(tt, nn, c))
  {
    var r := Place(tt, nn, c);
    if c.i < |tt| {
      BehindIsLast(c.groups, tt[c.i].key.token);
    }
    if |r.groups| > |c.groups| {
      PlaceOpens(tt, nn, c);
      PlaceOpensAhead(tt, nn, c);
      OpenShaped(tt, c, r.groups[|c.groups|], r.i);
    } else {
      PlaceExtends(tt, nn, c);
      if r.i > c.i {
        PushTransferShaped(tt, c);
      } else {
        PushNftShaped(tt, c, LastGroup(c.groups, nn[c.j].token), nn[c.j]);
      }
    }
  }

  lemma PlaceOpensAhead(tt: seq<TokenTransfer>, nn: seq<NftTransfer>, c: Cursor)
    requires InRange(tt, nn, c) && c.i <= |tt| && Shaped(tt, c) && (c.i < |tt| || c.j < |nn|)
    requires |Place(tt, nn, c).groups| > |c.groups|
    ensures var r := Place(tt, nn, c);
            && (r.i > c.i ==> r.groups[|c.groups|].token == tt[c.i].key.token)
            && (r.i == c.i < |tt| ==> Before(r.groups[|c.groups|].token, tt[c.i].key.token))
            && (c.i < |tt| && c.groups != [] ==> c.groups[|c.groups| - 1].token != tt[c.i].key.token)
  {
    if c.i < |tt| {
      BehindIsLast(c.groups, tt[c.i].key.token);
      if c.j < |nn| {
        CompareTokensSign(tt[c.i].key.token, nn[c.j].token);
      }
    }
  }

  lemma {:induction false} FinishSound(tt: seq<TokenTransfer>, nn: seq<NftTransfer>, c: Cursor)
    requires SortedByToken(tt) && Contents(tt, nn, c) && Shaped(tt, c)
    ensures var gs := Finish(tt, nn, c); Contents(tt, nn, Cursor(|tt|, |nn|, gs)) && Shaped(tt, Cursor(|tt|, |nn|, gs))
    decreases |tt| + |nn| - c.i - c.j
  {
    if c.i < |tt| || c.j < |nn| {
      PlaceContents(tt, nn, c);
      PlaceShaped(tt, nn, c);
      FinishSound(tt, nn, Place(tt, nn, c));
    }
  }

  /**
   The merge loses, duplicates and reorders nothing: the groups' token transfers, concatenated, are
   the sorted list; each token's NFTs, group by group, are that token's NFTs in sorted order; every
   transfer is in a group of its own token; and one group holds all the token transfers of a token.
   */
  lemma GroupsSound(tt: seq<TokenTransfer>, nn: seq<NftTransfer>)
    requires SortedByToken(tt)
    ensures var gs := Groups(tt, nn);
            && Flatten(gs) == tt
            && (forall token :: NftsOf(gs, token) == Select(nn, token))
            && (forall k | 0 <= k < |gs| :: WellFormed(gs[k]))
            && FungibleOrder(gs)
  {
    assert Flatten([]) == tt[..0];
    FinishSound(tt, nn, START);
    assert tt[..|tt|] == tt && nn[..|nn|] == nn;
  }

  // ----- what holds whatever order the lists are in

  ghost predicate OwnTokens(g: Group)
  {
    && (forall k | 0 <= k < |g.transfers| :: g.transfers[k].key.token == g.token)
    && (forall k | 0 <= k < |g.nfts| :: g.nfts[k].token == g.token)
  }

  /** The groups hold exactly what has been read, each transfer in a group of its own token. */
  ghost predicate Complete(tt: seq<TokenTransfer>, nn: seq<NftTransfer>, c: Cursor)
  {
    && InRange(tt, nn, c)
    && multiset(Flatten(c.groups)) == multiset(tt[..c.i])
    && (forall token :: NftsOf(c.groups, token) == Select(nn[..c.j], token))
    && (forall k | 0 <= k < |c.groups| :: OwnTokens(c.groups[k]))
  }

  lemma OneMore<T>(more: seq<T>, xs: seq<T>, ys: seq<T>, x: T)
    requires multiset(more) == multiset(xs) + multiset{x}
    ensures multiset(more + ys) == multiset(xs + ys) + multiset{x}
  {
  }

  lemma LastTransferAdded(gs: seq<Group>, t: TokenTransfer)
    requires gs != []
    ensures Flatten(WithTransfer(gs, |gs| - 1, t)) == Flatten(gs) + [t]
  {
    assert WithTransfer(gs, |gs| - 1, t)[..|gs| - 1] == gs[..|gs| - 1];
  }

  lemma {:induction false} TransferAdded(gs: seq<Group>, k: nat, t: TokenTransfer)
    requires k < |gs|
    ensures multiset(Flatten(WithTransfer(gs, k, t))) == multiset(Flatten(gs)) + multiset{t}
  {
    var n := |gs| - 1;
    if k == n {
      LastTransferAdded(gs, t);
    } else {
      TransferAdded(gs[..n], k, t);
      assert WithTransfer(gs, k, t)[..n] == WithTransfer(gs[..n], k, t);
      OneMore(Flatten(WithTransfer(gs[..n], k, t)), Flatten(gs[..n]), gs[n].transfers, t);
    }
  }

  lemma OpenComplete(tt: seq<TokenTransfer>, nn: seq<NftTransfer>, c: Cursor, g: Group, r: Cursor)
    requires Complete(tt, nn, c) && InRange(tt, nn, r) && r.groups == c.groups + [g] && WellFormed(g)
    requires c.i <= r.i <= c.i + 1 && g.transfers == tt[c.i..r.i]
    requires c.j <= r.j <= c.j + 1 && g.nfts == nn[c.j..r.j]
    ensures Complete(tt, nn, r)
  {
    TransfersAppend(c.groups, g);
    forall token ensures NftsOf(r.groups, token) == Select(nn[..r.j], token) {
      OpenNfts(nn, c, g, r, token);
    }
    assert tt[..r.i] == tt[..c.i] + tt[c.i..r.i];
  }

  lemma PrefixNext<T>(xs: seq<T>, i: nat)
    requires i < |xs|
    ensures multiset(xs[..i + 1]) == multiset(xs[..i]) + multiset{xs[i]}
  {
    assert xs[..i + 1] == xs[..i] + [xs[i]];
  }

  lemma TransferKeepsAllNfts(gs: seq<Group>, k: nat, t: TokenTransfer)
    requires k < |gs|
    ensures forall token :: NftsOf(WithTransfer(gs, k, t), token) == NftsOf(gs, token)
  {
    forall token ensures NftsOf(WithTransfer(gs, k, t), token) == NftsOf(gs, token) {
      TransferKeepsNfts(gs, k, t, token);
    }
  }

  lemma OwnKept(gs: seq<Group>, k: nat, t: TokenTransfer)
    requires k < |gs| && gs[k].token == t.key.token && forall l | 0 <= l < |gs| :: OwnTokens(gs[l])
    ensures forall l | 0 <= l < |gs| :: OwnTokens(WithTransfer(gs, k, t)[l])
  {
  }

  lemma PushTransferComplete(tt: seq<TokenTransfer>, nn: seq<NftTransfer>, c: Cursor, k: nat)
    requires Complete(tt, nn, c) && c.i < |tt| && k < |c.groups| && c.groups[k].token == tt[c.i].key.token
    ensures Complete(tt, nn, Cursor(c.i + 1, c.j, WithTransfer(c.groups, k, tt[c.i])))
  {
    var t := tt[c.i];
    TransferAdded(c.groups, k, t);
    TransferKeepsAllNfts(c.groups, k, t);
    OwnKept(c.groups, k, t);
    PrefixNext(tt, c.i);
  }

  lemma PushNftComplete(tt: seq<TokenTransfer>, nn: seq<NftTransfer>, c: Cursor, k: nat)
    requires Complete(tt, nn, c) && c.j < |nn| && k < |c.groups|
    requires c.groups[k].token == nn[c.j].token && forall l | k < l < |c.groups| :: c.groups[l].token != nn[c.j].token
    ensures Complete(tt, nn, Cursor(c.i, c.j + 1, WithNft(c.groups, k, nn[c.j])))
  {
    NftKeepsTransfers(c.groups, k, nn[c.j]);
    forall token ensures NftsOf(WithNft(c.groups, k, nn[c.j]), token) == Select(nn[..c.j + 1], token) {
      NftPushed(c.groups, k, nn[c.j], token);
      SelectNext(nn, c.j, token);
    }
  }

  lemma PlaceComplete(tt: seq<TokenTransfer>, nn: seq<NftTransfer>, c: Cursor)
    requires Complete(tt, nn, c) && (c.i < |tt| || c.j < |nn|)
    ensures Complete(tt, nn, Place(tt, nn, c))
  {
    var r := Place(tt, nn, c);
    if |r.groups| > |c.groups| {
      PlaceOpens(tt, nn, c);
      OpenComplete(tt, nn, c, r.groups[|c.groups|], r);
    } else {
      PlaceExtends(tt, nn, c);
      if r.i > c.i {
        PushTransferComplete(tt, nn, c, LastGroup(c.groups, tt[c.i].key.token));
      } else {
        PushNftComplete(tt, nn, c, LastGroup(c.groups, nn[c.j].token));
      }
    }
  }

  lemma {:induction false} FinishComplete(tt: seq<TokenTransfer>, nn: seq<NftTransfer>, c: Cursor)
    requires Complete(tt, nn, c)
    ensures Complete(tt, nn, Cursor(|tt|, |nn|, Finish(tt, nn, c)))
    decreases |tt| + |nn| - c.i - c.j
  {
    if c.i < |tt| || c.j < |nn| {
      PlaceComplete(tt, nn, c);
      FinishComplete(tt, nn, Place(tt, nn, c));
    }
  }

  /**
   For any two lists, sorted or not, the merge loses and duplicates nothing: the groups hold the
   given token transfers, each token's NFTs are in list order, and every transfer is in a group of
   its own token.
   */
  lemma GroupsComplete(tt: seq<TokenTransfer>, nn: seq<NftTransfer>)
    ensures var gs := Groups(tt, nn);
            && multiset(Flatten(gs)) == multiset(tt)
            && (forall token :: NftsOf(gs, token) == Select(nn, token))
            && (forall k | 0 <= k < |gs| :: OwnTokens(gs[k]))
  {
    FinishComplete(tt, nn, START);
    assert tt[..|tt|] == tt && nn[..|nn|] == nn;
  }
}
