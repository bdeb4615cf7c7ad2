/** Token and account identifiers and the orders `sort` is given for them. */
module Identifiers {
  import opened Longs
  import opened Ordering
  import Hex

  datatype TokenId = TokenId(shard: IdPart, realm: IdPart, num: IdPart)

  /** What names the account inside its shard and realm. */
  datatype Holder =
    | Number(num: IdPart)
    | AliasKey(text: string)
    | EvmAddress(bytes: seq<Hex.Byte>)

  datatype AccountId = AccountId(shard: IdPart, realm: IdPart, holder: Holder)

  function CompareTokens(a: TokenId, b: TokenId): (r: int)
  {
    if a.shard != b.shard then CompareInt(a.shard, b.shard)
    else if a.realm != b.realm then CompareInt(a.realm, b.realm)
    else CompareInt(a.num, b.num)
  }

  function CompareAccounts(a: AccountId, b: AccountId): (r: int)
  {
    if a.shard != b.shard then CompareInt(a.shard, b.shard)
    else if a.realm != b.realm then CompareInt(a.realm, b.realm)
    else match (a.holder, b.holder)
         case (AliasKey(t), AliasKey(o)) => CompareText(t, o)
         case (EvmAddress(t), EvmAddress(o)) => CompareText(Hex.Encode(t), Hex.Encode(o))
         case (Number(t), Number(o)) => CompareInt(t, o)
         case _ => 1
  }

  predicate SameKind(a: Holder, b: Holder)
  {
    a.Number? == b.Number? && a.AliasKey? == b.AliasKey?
  }

  /** Two accounts that `CompareAccounts` can order: not of two kinds in one shard and realm. */
  predicate Orderable(a: AccountId, b: AccountId)
  {
    a.shard == b.shard && a.realm == b.realm ==> SameKind(a.holder, b.holder)
  }

  ghost predicate AllOrderable(all: set<AccountId>)
  {
    forall a, b | a in all && b in all :: Orderable(a, b)
  }

  /** `a` has the lower shard, or in one shard the lower realm, or in one realm the lower number. */
  ghost predicate Before(a: TokenId, b: TokenId)
  {
    || a.shard < b.shard
    || (a.shard == b.shard && (a.realm < b.realm || (a.realm == b.realm && a.num < b.num)))
  }

  /** The comparison is negative on lower identifiers, 0 on equal ones, and positive on higher ones. */
  lemma CompareTokensSign(a: TokenId, b: TokenId)
    ensures CompareTokens(a, b) < 0 <==> Before(a, b)
    ensures CompareTokens(a, b) == 0 <==> a == b
    ensures CompareTokens(a, b) == -CompareTokens(b, a)
  {
  }

  function ByteValue(b: Hex.Byte): int
  {
    b
  }

  /** Numbers by value, alias keys by their text, EVM addresses byte by byte. */
  ghost predicate HolderBefore(a: Holder, b: Holder)
  {
    match (a, b)
    case (Number(t), Number(o)) => t < o
    case (AliasKey(t), AliasKey(o)) => Lexical(CodeUnit, t, o)
    case (EvmAddress(t), EvmAddress(o)) => Lexical(ByteValue, t, o)
    case _ => false
  }

  ghost predicate AccountBefore(a: AccountId, b: AccountId)
  {
    || a.shard < b.shard
    || (a.shard == b.shard && (a.realm < b.realm || (a.realm == b.realm && HolderBefore(a.holder, b.holder))))
  }

  /** Hex text keeps the order of the bytes. */
  lemma {:induction false} HexLexical(s: seq<Hex.Byte>, t: seq<Hex.Byte>)
    ensures Lexical(CodeUnit, Hex.Encode(s), Hex.Encode(t)) <==> Lexical(ByteValue, s, t)
  {
    var a, b := Hex.Encode(s), Hex.Encode(t);
    if s == [] || t == [] {
      LexicalEmpty(CodeUnit, a, b);
      LexicalEmpty(ByteValue, s, t);
    } else {
      LexicalFirst(CodeUnit, a, b);
      LexicalFirst(CodeUnit, a[1..], b[1..]);
      assert a[1..][1..] == Hex.Encode(s[1..]) && b[1..][1..] == Hex.Encode(t[1..]);
      HexLexical(s[1..], t[1..]);
      LexicalFirst(ByteValue, s, t);
      DigitOrder(s[0] / 16, t[0] / 16);
      DigitOrder(s[0] % 16, t[0] % 16);
    }
  }

  lemma DigitOrder(x: int, y: int)
    requires 0 <= x < 16 && 0 <= y < 16
    ensures Hex.DigitChar(x) < Hex.DigitChar(y) <==> x < y
    ensures Hex.DigitChar(x) == Hex.DigitChar(y) <==> x == y
  {
    Hex.DigitRoundTrip(x);
    Hex.DigitRoundTrip(y);
  }

  /** On accounts that it can order, the comparison is negative exactly on the lower account. */
  lemma CompareAccountsSign(a: AccountId, b: AccountId)
    requires Orderable(a, b)
    ensures CompareAccounts(a, b) < 0 <==> AccountBefore(a, b)
  {
    match (a.holder, b.holder)
    case (AliasKey(t), AliasKey(o)) => CompareTextLexical(t, o);
    case (EvmAddress(t), EvmAddress(o)) =>
      CompareTextLexical(Hex.Encode(t), Hex.Encode(o));
      HexLexical(t, o);
    case _ =>
  }

  /** The comparison answers 0 on equal identifiers only, whatever their kinds. */
  lemma CompareAccountsZero(a: AccountId, b: AccountId)
    ensures CompareAccounts(a, b) == 0 <==> a == b
  {
    match (a.holder, b.holder)
    case (AliasKey(t), AliasKey(o)) => CompareTextAntisymmetric(t, o);
    case (EvmAddress(t), EvmAddress(o)) =>
      CompareTextAntisymmetric(Hex.Encode(t), Hex.Encode(o));
      Hex.DecodePairsEncode(t);
      Hex.DecodePairsEncode(o);
    case _ =>
  }

  /** Swapping the arguments flips the sign exactly on orderable pairs. */
  lemma CompareAccountsAntisymmetric(a: AccountId, b: AccountId)
    ensures Orderable(a, b) <==> CompareAccounts(a, b) == -CompareAccounts(b, a)
  {
    match (a.holder, b.holder)
    case (AliasKey(t), AliasKey(o)) => CompareTextAntisymmetric(t, o);
    case (EvmAddress(t), EvmAddress(o)) => CompareTextAntisymmetric(Hex.Encode(t), Hex.Encode(o));
    case _ =>
  }

  lemma CompareAccountsTransitive(a: AccountId, b: AccountId, c: AccountId)
    requires Orderable(a, b) && Orderable(b, c)
    requires CompareAccounts(a, b) <= 0 && CompareAccounts(b, c) <= 0
    ensures CompareAccounts(a, c) <= 0
  {
    if a.shard == b.shard == c.shard && a.realm == b.realm == c.realm {
      match (a.holder, b.holder, c.holder)
      case (AliasKey(t), AliasKey(u), AliasKey(v)) => CompareTextTransitive(t, u, v);
      case (EvmAddress(t), EvmAddress(u), EvmAddress(v)) =>
        CompareTextTransitive(Hex.Encode(t), Hex.Encode(u), Hex.Encode(v));
      case _ =>
    }
  }

  /** `sort` may rely on the account comparison exactly when no shard and realm mixes kinds. */
  lemma AccountsConsistent(all: set<AccountId>)
    ensures Consistent(CompareAccounts, all) <==> AllOrderable(all)
  {
    if AllOrderable(all) {
      forall a, b | a in all && b in all
        ensures CompareAccounts(a, b) < 0 <==> CompareAccounts(b, a) > 0
      {
        CompareAccountsAntisymmetric(a, b);
      }
      forall a, b, c {:trigger CompareAccounts(a, b), CompareAccounts(b, c)}
        | a in all && b in all && c in all && CompareAccounts(a, b) <= 0 && CompareAccounts(b, c) <= 0
        ensures CompareAccounts(a, c) <= 0
      {
        CompareAccountsTransitive(a, b, c);
      }
    }
    if Consistent(CompareAccounts, all) {
      forall a, b | a in all && b in all ensures Orderable(a, b) {
        assert CompareAccounts(a, b) < 0 <==> CompareAccounts(b, a) > 0;
        CompareAccountsZero(a, b);
      }
    }
  }
}
