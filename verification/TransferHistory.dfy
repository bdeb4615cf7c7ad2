/** What the lists remember of the calls: the last NFT parties, the first approval, the decimals. */
module TransferHistory {
  import opened Results
  import opened Longs
  import opened Identifiers
  import opened Transfers

  // ----- NFT transfers

  predicate ForNft(c: Call, token: TokenId, serial: Long)
  {
    c.AddNft? && c.token == token && c.serial == serial
  }

  function FirstNft(calls: seq<Call>, token: TokenId, serial: Long): (r: Option<Call>)
    ensures r.Some? ==> ForNft(r.value, token, serial)
  {
    if calls == [] then None
    else if FirstNft(calls[..|calls| - 1], token, serial).Some? then FirstNft(calls[..|calls| - 1], token, serial)
    else if ForNft(calls[|calls| - 1], token, serial) then Some(calls[|calls| - 1])
    else None
  }

  function LastNft(calls: seq<Call>, token: TokenId, serial: Long): (r: Option<Call>)
    ensures r.Some? ==> ForNft(r.value, token, serial)
  {
    if calls == [] then None
    else if ForNft(calls[|calls| - 1], token, serial) then Some(calls[|calls| - 1])
    else LastNft(calls[..|calls| - 1], token, serial)
  }

  lemma FindNftAppend(ns: seq<NftTransfer>, n: NftTransfer, token: TokenId, serial: Long)
    ensures FindNft(ns + [n], token, serial) ==
            if FindNft(ns, token, serial) < |ns| then FindNft(ns, token, serial)
            else if n.token == token && n.serial == serial then |ns| else |ns| + 1
  {
    var k, j := FindNft(ns + [n], token, serial), FindNft(ns, token, serial);
    assert j < |ns| ==> (ns + [n])[j] == ns[j];
    assert k < |ns| ==> (ns + [n])[k] == ns[k];
    assert (ns + [n])[|ns|] == n;
    assert forall i | 0 <= i < |ns| :: (ns + [n])[i] == ns[i];
  }

  lemma FindNftUpdate(ns: seq<NftTransfer>, k: nat, n: NftTransfer, token: TokenId, serial: Long)
    requires k < |ns| && n.token == ns[k].token && n.serial == ns[k].serial
    ensures FindNft(ns[k := n], token, serial) == FindNft(ns, token, serial)
  {
    var i, j := FindNft(ns[k := n], token, serial), FindNft(ns, token, serial);
    assert i < |ns| ==> ns[i].token == token && ns[i].serial == serial;
    assert j < |ns| ==> ns[k := n][j].token == token && ns[k := n][j].serial == serial;
  }

  /** The entry of an NFT has the parties of the last call for it and the approval of the first. */
  ghost predicate Remembered(ns: seq<NftTransfer>, first: Option<Call>, last: Option<Call>, token: TokenId,
          serial: Long)
    requires first.Some? ==> ForNft(first.value, token, serial)
    requires last.Some? ==> ForNft(last.value, token, serial)
  {
    var k := FindNft(ns, token, serial);
    && (k < |ns| <==> last.Some?) && (first.Some? <==> last.Some?)
    && (k < |ns| ==> ns[k] == NftTransfer(token, serial, last.value.sender, last.value.receiver, first.value.approved))
  }

  lemma {:induction false} NftRemembered(calls: seq<Call>, token: TokenId, serial: Long)
    ensures Remembered(Run(calls).nfts, FirstNft(calls, token, serial), LastNft(calls, token, serial), token, serial)
  {
    if calls != [] {
      var rest, c := calls[..|calls| - 1], calls[|calls| - 1];
      NftRemembered(rest, token, serial);
      if c.AddNft? {
        SetNftRemembered(Run(rest).nfts, c, token, serial);
      }
    }
  }

  lemma SetNftRemembered(ns: seq<NftTransfer>, c: Call, token: TokenId, serial: Long)
    requires c.AddNft?
    ensures var r := SetNft(ns, NftTransfer(c.token, c.serial, c.sender, c.receiver, c.approved));
            var j, k := FindNft(ns, token, serial), FindNft(r, token, serial);
            && (k < |r| <==> j < |ns| || ForNft(c, token, serial))
            && (k < |r| ==> r[k] == if ForNft(c, token, serial)
                                    then NftTransfer(token, serial, c.sender, c.receiver,
                                        if j < |ns| then ns[j].isApproved else c.approved)
                                    else ns[j])
  {
    var n := NftTransfer(c.token, c.serial, c.sender, c.receiver, c.approved);
    var i := FindNft(ns, c.token, c.serial);
    if i < |ns| {
      FindNftUpdate(ns, i, ns[i].(sender := c.sender, receiver := c.receiver), token, serial);
    } else {
      FindNftAppend(ns, n, token, serial);
    }
  }

  // ----- expected decimals

  /** The entries of one token agree on the decimals they expect, where they expect any. */
  ghost predicate DecimalsAgree(es: seq<TokenTransfer>)
  {
    forall i, j | 0 <= i < |es| && 0 <= j < |es| && es[i].key.token == es[j].key.token
                  && es[i].expectedDecimals.Some? && es[j].expectedDecimals.Some? ::
      es[i].expectedDecimals == es[j].expectedDecimals
  }

  /** The call throws after it has passed an entry of its token. */
  ghost predicate Stains(s: Lists, c: Call)
  {
    c.AddTokenWithDecimals? &&
    var m := FirstMismatch(s.tokens, c.key.token, c.decimals);
    m < |s.tokens| && exists i :: 0 <= i < m && s.tokens[i].key.token == c.key.token
  }

  lemma AddAmountAgrees(es: seq<TokenTransfer>, key: TokenKey, value: Long, approved: bool)
    requires DecimalsAgree(es)
    ensures DecimalsAgree(AddAmount(es, key, value, approved))
  {
  }

  lemma ScanAgrees(es: seq<TokenTransfer>, key: TokenKey, value: Long, decimals: int)
    requires DecimalsAgree(es)
    ensures var m := FirstMismatch(es, key.token, decimals);
            var stained := m < |es| && exists i :: 0 <= i < m && es[i].key.token == key.token;
            DecimalsAgree(ScanUpTo(es, key, value, decimals, m)) <==> !stained
  {
    var m := FirstMismatch(es, key.token, decimals);
    var r := ScanUpTo(es, key, value, decimals, m);
    if m < |es| {
      if i :| 0 <= i < m && es[i].key.token == key.token {
        assert r[i].expectedDecimals == Some(decimals) && r[m] == es[m];
      } else {
        assert r == es;
      }
    }
  }

  /** A call keeps the agreement exactly when it does not throw halfway. */
  lemma AgreementKeptIff(s: Lists, c: Call)
    requires DecimalsAgree(s.tokens)
    ensures DecimalsAgree(Apply(s, c).tokens) <==> !Stains(s, c)
  {
    match c
    case AddToken(key, value, approved) => AddAmountAgrees(s.tokens, key, value, approved);
    case AddTokenWithDecimals(key, value, decimals) =>
      ScanAgrees(s.tokens, key, value, decimals);
      if FirstMismatch(s.tokens, key.token, decimals) == |s.tokens| {
        AppendAgrees(s.tokens, key, value, decimals);
      }
    case _ =>
  }

  /** A call that throws leaves the lists as they were exactly when it has passed no entry of its token. */
  lemma {:induction false} ThrowUnchangedIff(s: Lists, c: Call)
    requires DecimalsAgree(s.tokens) && Throws(s, c)
    ensures Apply(s, c) == s <==> !Stains(s, c)
  {
    var es, m := s.tokens, FirstMismatch(s.tokens, c.key.token, c.decimals);
    var r := ScanUpTo(es, c.key, c.value, c.decimals, m);
    if i :| 0 <= i < m && es[i].key.token == c.key.token {
      assert es[m].expectedDecimals.Some? && es[i].expectedDecimals != Some(c.decimals);
      assert r[i].expectedDecimals == Some(c.decimals);
    } else {
      assert r == es;
    }
  }

  lemma AppendAgrees(es: seq<TokenTransfer>, key: TokenKey, value: Long, decimals: int)
    requires DecimalsAgree(es) && FirstMismatch(es, key.token, decimals) == |es|
    ensures DecimalsAgree(ScanUpTo(es, key, value, decimals, |es|) + [Entry(key, Some(decimals), value, false)])
  {
    ScanAgrees(es, key, value, decimals);
    var r := ScanUpTo(es, key, value, decimals, |es|);
    forall i | 0 <= i < |r| && r[i].key.token == key.token ensures r[i].expectedDecimals == Some(decimals) {
    }
  }

  /** Over every run without such a call the entries of each token agree. */
  lemma {:induction false} RunAgrees(calls: seq<Call>)
    requires forall i | 0 <= i < |calls| :: !Stains(Run(calls[..i]), calls[i])
    ensures DecimalsAgree(Run(calls).tokens)
  {
    if calls != [] {
      var rest := calls[..|calls| - 1];
      forall i | 0 <= i < |rest| ensures !Stains(Run(rest[..i]), rest[i]) {
        assert rest[..i] == calls[..i];
      }
      RunAgrees(rest);
      AgreementKeptIff(Run(rest), calls[|calls| - 1]);
    }
  }

  lemma RunOne(calls: seq<Call>, c: Call)
    ensures Run(calls + [c]) == Apply(Run(calls), c)
  {
    assert (calls + [c])[..|calls|] == calls;
  }

  /** A run after which two entries of one token expect different decimals: its last call throws halfway. */
  lemma StainedRun(token: TokenId, a: AccountId, b: AccountId, d: AccountId)
    requires a != b
    ensures var calls := [AddToken(TokenKey(token, a), 1, false)] + [AddTokenWithDecimals(TokenKey(token, b), 1, 8)]
                         + [AddToken(TokenKey(token, a), 1, false)] + [AddTokenWithDecimals(TokenKey(token, d), 1, 6)];
            !DecimalsAgree(Run(calls).tokens)
  {
    var ka, kb := TokenKey(token, a), TokenKey(token, b);
    var c1, c2, c4 := AddToken(ka, 1, false), AddTokenWithDecimals(kb, 1, 8),
        AddTokenWithDecimals(TokenKey(token, d), 1, 6);
    RunOne([], c1);
    assert [] + [c1] == [c1];
    RunOne([c1], c2);
    RunOne([c1] + [c2], c1);
    RunOne([c1] + [c2] + [c1], c4);
    var s1 := Run([c1]).tokens;
    assert s1 == [Entry(ka, None, 1, false)];
    assert FindKey(s1, kb) == 1 by { assert s1[0].key != kb; }
    var s2 := Run([c1] + [c2]).tokens;
    assert |s2| == 2 && s2[0] == Entry(ka, Some(8), 1, false) && s2[1] == Entry(kb, Some(8), 1, false);
    var s3 := Run([c1] + [c2] + [c1]).tokens;
    assert FindKey(s2, ka) == 0;
    assert |s3| == 2 && s3[0].key == ka && s3[0].expectedDecimals == None && s3[1] == s2[1];
    StainedScan(s3, TokenKey(token, d), 1, 6);
  }

  lemma StainedScan(es: seq<TokenTransfer>, key: TokenKey, value: Long, decimals: int)
    requires |es| == 2 && es[0].key.token == es[1].key.token == key.token
    requires es[0].expectedDecimals == None && es[1].expectedDecimals.Some? && es[1].expectedDecimals.value != decimals
    ensures !DecimalsAgree(AddAmountWithDecimals(es, key, value, decimals))
  {
    assert !Mismatch(es[0], key.token, decimals) && Mismatch(es[1], key.token, decimals);
    var m := FirstMismatch(es, key.token, decimals);
    assert m == 1;
    var r := AddAmountWithDecimals(es, key, value, decimals);
    assert r[0].expectedDecimals == Some(decimals) && r[1] == es[1];
  }
}
