/** What the entries of tokens and accounts remember of the calls: that they were made, and the first approval. */
module TransferMemory {
  import opened Results
  import opened Identifiers
  import opened Transfers
  import opened TransferConfluence

  // ----- token transfers

  /** The call names the pair and, if it sets decimals, does not throw. */
  predicate Makes(s: Lists, c: Call, key: TokenKey)
  {
    match c
    case AddToken(k, _, _) => k == key
    case AddTokenWithDecimals(k, _, _) => k == key && !Throws(s, c)
    case _ => false
  }

  /** The first call of the run that makes an entry for the pair, unless there is one. */
  function FirstMaking(calls: seq<Call>, key: TokenKey): (r: Option<Call>)
    ensures r.Some? ==> r.value.AddToken? || r.value.AddTokenWithDecimals?
  {
    if calls == [] then None
    else
      var init, c := calls[..|calls| - 1], calls[|calls| - 1];
      if FirstMaking(init, key).Some? then FirstMaking(init, key)
      else if Makes(Run(init), c, key) then Some(c) else None
  }

  /** A call with decimals asks for no approval. */
  predicate Approves(c: Call)
    requires c.AddToken? || c.AddTokenWithDecimals?
  {
    c.AddToken? && c.approved
  }

  /** The call reaches the entry at place `k`, or the place where it would be appended, with its decimals. */
  predicate Reaches(s: Lists, c: Call, key: TokenKey)
    requires c.AddTokenWithDecimals?
  {
    && c.key.token == key.token
    && (!Throws(s, c) || FindKey(s.tokens, key) < FirstMismatch(s.tokens, key.token, c.decimals))
  }

  /** The decimals last set for the pair; a call without decimals takes them away. */
  function LastDecimals(calls: seq<Call>, key: TokenKey): Option<int>
  {
    if calls == [] then None
    else
      var init, c := calls[..|calls| - 1], calls[|calls| - 1];
      if c.AddToken? && c.key == key then None
      else if c.AddTokenWithDecimals? && Reaches(Run(init), c, key) then Some(c.decimals)
      else LastDecimals(init, key)
  }

  /** The list has an entry for the pair exactly when some call made one, with these decimals and this approval. */
  ghost predicate Kept(es: seq<TokenTransfer>, key: TokenKey, first: Option<Call>, decimals: Option<int>)
    requires first.Some? ==> first.value.AddToken? || first.value.AddTokenWithDecimals?
  {
    var k := FindKey(es, key);
    && (k < |es| <==> first.Some?)
    && (k < |es| ==> es[k].isApproved == Approves(first.value) && es[k].expectedDecimals == decimals)
  }

  lemma FindSame<K>(es: seq<Entry<K>>, fs: seq<Entry<K>>, key: K)
    requires |es| == |fs| && forall i | 0 <= i < |es| :: es[i].key == fs[i].key
    ensures FindKey(es, key) == FindKey(fs, key)
  {
    var i, j := FindKey(es, key), FindKey(fs, key);
    assert i < |es| ==> fs[i].key == key;
    assert j < |fs| ==> es[j].key == key;
  }

  lemma AddKept(es: seq<TokenTransfer>, c: Call, key: TokenKey, first: Option<Call>, decimals: Option<int>)
    requires c.AddToken? && (first.Some? ==> first.value.AddToken? || first.value.AddTokenWithDecimals?)
    requires Kept(es, key, first, decimals)
    ensures Kept(AddAmount(es, c.key, c.value, c.approved), key,
              if first.Some? then first else if c.key == key then Some(c) else None,
              if c.key == key then None else decimals)
  {
    var k, r := FindKey(es, c.key), AddAmount(es, c.key, c.value, c.approved);
    if k < |es| {
      FindSame(es, r, key);
    } else {
      FindKeyAppend(es, Entry(c.key, Option.None, c.value, c.approved), key);
    }
  }

  /** What the scan leaves of the entry of a pair. */
  lemma ScannedEntry(es: seq<TokenTransfer>, c: Call, key: TokenKey)
    requires c.AddTokenWithDecimals?
    ensures var m := FirstMismatch(es, c.key.token, c.decimals);
            var r, k := ScanUpTo(es, c.key, c.value, c.decimals, m), FindKey(es, key);
            && FindKey(r, key) == k
            && (k < |es| ==>
                  && r[k].isApproved == es[k].isApproved
                  && r[k].expectedDecimals ==
                     if c.key.token == key.token && k < m then Some(c.decimals) else es[k].expectedDecimals)
  {
    var m := FirstMismatch(es, c.key.token, c.decimals);
    FindSame(es, ScanUpTo(es, c.key, c.value, c.decimals, m), key);
  }

  lemma ScanKept(s: Lists, c: Call, key: TokenKey, first: Option<Call>, decimals: Option<int>)
    requires c.AddTokenWithDecimals? && (first.Some? ==> first.value.AddToken? || first.value.AddTokenWithDecimals?)
    requires Kept(s.tokens, key, first, decimals)
    ensures Kept(Apply(s, c).tokens, key,
              if first.Some? then first else if Makes(s, c, key) then Some(c) else None,
              if Reaches(s, c, key) then Some(c.decimals) else decimals)
  {
    var es, m := s.tokens, FirstMismatch(s.tokens, c.key.token, c.decimals);
    var scanned := ScanUpTo(es, c.key, c.value, c.decimals, m);
    ScannedEntry(es, c, key);
    if m == |es| && FindKey(es, c.key) == |es| {
      FindKeyAppend(scanned, Entry(c.key, Some(c.decimals), c.value, false), key);
    }
  }

  /**
   Over every run of calls, whether or not some throw: a pair has an entry exactly when some call that
   names it made one; the approval is that of the first such call, a call with decimals approving
   nothing, and the decimals are those last set for it.
   */
  lemma {:induction false} TokenRemembered(calls: seq<Call>, key: TokenKey)
    ensures Kept(Run(calls).tokens, key, FirstMaking(calls, key), LastDecimals(calls, key))
  {
    if calls != [] {
      var init, c := calls[..|calls| - 1], calls[|calls| - 1];
      TokenRemembered(init, key);
      match c
      case AddToken(_, _, _) => AddKept(Run(init).tokens, c, key, FirstMaking(init, key), LastDecimals(init, key));
      case AddTokenWithDecimals(_, _, _) =>
        ScanKept(Run(init), c, key, FirstMaking(init, key), LastDecimals(init, key));
      case _ =>
    }
  }

  // ----- account amounts

  function FirstAmount(calls: seq<Call>, account: AccountId): (r: Option<Call>)
    ensures r.Some? ==> r.value.AddU2U?
  {
    if calls == [] then None
    else if FirstAmount(calls[..|calls| - 1], account).Some? then FirstAmount(calls[..|calls| - 1], account)
    else
      var c := calls[|calls| - 1];
      if c.AddU2U? && c.account == account then Some(c) else None
  }

  ghost predicate AmountKept(us: seq<U2UTransfer>, account: AccountId, first: Option<Call>)
    requires first.Some? ==> first.value.AddU2U?
  {
    var k := FindKey(us, account);
    (k < |us| <==> first.Some?) && (k < |us| ==> us[k].isApproved == first.value.approved)
  }

  lemma AddAmountKept(us: seq<U2UTransfer>, c: Call, account: AccountId, first: Option<Call>)
    requires c.AddU2U? && (first.Some? ==> first.value.AddU2U?) && AmountKept(us, account, first)
    ensures AmountKept(AddAmount(us, c.account, c.value, c.approved), account,
              if first.Some? then first else if c.account == account then Some(c) else None)
  {
    if FindKey(us, c.account) < |us| {
      FindSame(us, AddAmount(us, c.account, c.value, c.approved), account);
    } else {
      FindKeyAppend(us, Entry(c.account, Option.None, c.value, c.approved), account);
    }
  }

  /** An account has an amount exactly when some call named it, with the approval of the first such call. */
  lemma {:induction false} AmountRemembered(calls: seq<Call>, account: AccountId)
    ensures AmountKept(Run(calls).u2us, account, FirstAmount(calls, account))
  {
    if calls != [] {
      var init, c := calls[..|calls| - 1], calls[|calls| - 1];
      AmountRemembered(init, account);
      if c.AddU2U? {
        AddAmountKept(Run(init).u2us, c, account, FirstAmount(init, account));
      }
    }
  }

  /** A call throws exactly when an entry of its token expects other decimals. */
  lemma ThrowsIff(s: Lists, c: Call)
    ensures Throws(s, c) <==>
            c.AddTokenWithDecimals? && exists e :: e in s.tokens && e.key.token == c.key.token
                                                   && e.expectedDecimals.Some? && e.expectedDecimals.value != c.decimals
  {
    if c.AddTokenWithDecimals? {
      var es, m := s.tokens, FirstMismatch(s.tokens, c.key.token, c.decimals);
      if m < |es| {
        assert es[m] in es;
      }
      if e :| e in es && Mismatch(e, c.key.token, c.decimals) {
        var i :| 0 <= i < |es| && es[i] == e;
      }
    }
  }
}
