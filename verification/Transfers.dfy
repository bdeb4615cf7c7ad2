/** The lists a transfer transaction keeps and what each `add…Transfer` call does to them. */
module Transfers {
  import opened Results
  import opened Longs
  import opened Identifiers

  datatype TokenKey = TokenKey(token: TokenId, account: AccountId)

  /** One merged amount; `expectedDecimals` is only ever set on token entries. */
  datatype Entry<K> = Entry(key: K, expectedDecimals: Option<int>, amount: Long, isApproved: bool)

  type TokenTransfer = Entry<TokenKey>
  type U2UTransfer = Entry<AccountId>

  datatype NftTransfer = NftTransfer(
    token: TokenId, serial: Long, sender: AccountId, receiver: AccountId, isApproved: bool)

  datatype Lists = Lists(tokens: seq<TokenTransfer>, u2us: seq<U2UTransfer>, nfts: seq<NftTransfer>)

  const EMPTY: Lists := Lists([], [], [])

  datatype Call =
    | AddToken(key: TokenKey, value: Long, approved: bool)
    | AddTokenWithDecimals(key: TokenKey, value: Long, decimals: int)
    | AddU2U(account: AccountId, value: Long, approved: bool)
    | AddNft(token: TokenId, serial: Long, sender: AccountId, receiver: AccountId, approved: bool)

  /** One entry per key. */
  ghost predicate UniqueKeys<K>(es: seq<Entry<K>>)
  {
    forall i, j | 0 <= i < j < |es| :: es[i].key != es[j].key
  }

  /** The index of the first entry for `key`, or the length when there is none. */
  function FindKey<K(==)>(es: seq<Entry<K>>, key: K): (k: nat)
    ensures k <= |es|
    ensures k < |es| ==> es[k].key == key
    ensures forall i | 0 <= i < k :: es[i].key != key
  {
    if es == [] || es[0].key == key then 0 else 1 + FindKey(es[1..], key)
  }

  function AddAmount<K(==)>(es: seq<Entry<K>>, key: K, value: Long, approved: bool): (r: seq<Entry<K>>)
  {
    var k := FindKey(es, key);
    if k < |es| then es[k := es[k].(amount := Add(es[k].amount, value), expectedDecimals := None)]
    else es + [Entry(key, None, value, approved)]
  }

  predicate Mismatch(e: TokenTransfer, token: TokenId, decimals: int)
  {
    e.key.token == token && e.expectedDecimals.Some? && e.expectedDecimals.value != decimals
  }

  /** The index at which the decimals scan throws, or the length when it completes. */
  function FirstMismatch(es: seq<TokenTransfer>, token: TokenId, decimals: int): (m: nat)
    ensures m <= |es|
    ensures m < |es| ==> Mismatch(es[m], token, decimals)
    ensures forall i | 0 <= i < m :: !Mismatch(es[i], token, decimals)
  {
    if es == [] || Mismatch(es[0], token, decimals) then 0
    else 1 + FirstMismatch(es[1..], token, decimals)
  }

  /** What the decimals scan leaves in place of an entry it has passed. */
  function Scanned(e: TokenTransfer, key: TokenKey, value: Long, decimals: int): TokenTransfer
  {
    if e.key.token != key.token then e
    else if e.key.account != key.account then e.(expectedDecimals := Some(decimals))
    else e.(expectedDecimals := Some(decimals), amount := Add(e.amount, value))
  }

  function ScanUpTo(es: seq<TokenTransfer>, key: TokenKey, value: Long, decimals: int, m: nat): (r: seq<TokenTransfer>)
    requires m <= |es|
    ensures |r| == |es|
  {
    seq(|es|, i requires 0 <= i < |es| => if i < m then Scanned(es[i], key, value, decimals) else es[i])
  }

  function AddAmountWithDecimals(es: seq<TokenTransfer>, key: TokenKey, value: Long,
          decimals: int): (r: seq<TokenTransfer>)
  {
    var m := FirstMismatch(es, key.token, decimals);
    var scanned := ScanUpTo(es, key, value, decimals, m);
    if m < |es| || FindKey(es, key) < |es| then scanned
    else scanned + [Entry(key, Some(decimals), value, false)]
  }

  function FindNft(ns: seq<NftTransfer>, token: TokenId, serial: Long): (k: nat)
    ensures k <= |ns|
    ensures k < |ns| ==> ns[k].token == token && ns[k].serial == serial
    ensures forall i | 0 <= i < k :: ns[i].token != token || ns[i].serial != serial
  {
    if ns == [] || (ns[0].token == token && ns[0].serial == serial) then 0
    else 1 + FindNft(ns[1..], token, serial)
  }

  function SetNft(ns: seq<NftTransfer>, nft: NftTransfer): (r: seq<NftTransfer>)
  {
    var k := FindNft(ns, nft.token, nft.serial);
    if k < |ns| then ns[k := ns[k].(sender := nft.sender, receiver := nft.receiver)]
    else ns + [nft]
  }

  ghost predicate UniqueNfts(ns: seq<NftTransfer>)
  {
    forall i, j | 0 <= i < j < |ns| :: ns[i].token != ns[j].token || ns[i].serial != ns[j].serial
  }

  /** The call throws "expected decimals mis-match". */
  predicate Throws(s: Lists, c: Call)
  {
    c.AddTokenWithDecimals? && FirstMismatch(s.tokens, c.key.token, c.decimals) < |s.tokens|
  }

  /** The lists after the call, including the partial update of a call that throws. */
  function Apply(s: Lists, c: Call): Lists
  {
    match c
    case AddToken(key, value, approved) => s.(tokens := AddAmount(s.tokens, key, value, approved))
    case AddTokenWithDecimals(key, value, decimals) =>
      s.(tokens := AddAmountWithDecimals(s.tokens, key, value, decimals))
    case AddU2U(account, value, approved) => s.(u2us := AddAmount(s.u2us, account, value, approved))
    case AddNft(token, serial, sender, receiver, approved) =>
      s.(nfts := SetNft(s.nfts, NftTransfer(token, serial, sender, receiver, approved)))
  }

  /** The lists after a run of calls on a new transaction. */
  function Run(calls: seq<Call>): Lists
  {
    if calls == [] then EMPTY else Apply(Run(calls[..|calls| - 1]), calls[|calls| - 1])
  }

  ghost predicate Unique(s: Lists)
  {
    UniqueKeys(s.tokens) && UniqueKeys(s.u2us) && UniqueNfts(s.nfts)
  }

  lemma ApplyUnique(s: Lists, c: Call)
    requires Unique(s)
    ensures Unique(Apply(s, c))
  {
  }

  /**
   Every run leaves one entry per (token, account), per account and per (token, serial),
   whether or not some of its calls threw.
   */
  lemma {:induction false} RunUnique(calls: seq<Call>)
    ensures Unique(Run(calls))
  {
    if calls != [] {
      RunUnique(calls[..|calls| - 1]);
      ApplyUnique(Run(calls[..|calls| - 1]), calls[|calls| - 1]);
    }
  }
}
