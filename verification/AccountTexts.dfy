/** The text form of account IDs. */
module AccountTexts {
  import opened Results
  import opened Longs
  import opened Identifiers
  import opened EntityIds
  import Decimals
  import Hex

  datatype ParsedAccount =
    | Account(id: AccountId)
    | SyntaxError
    | NegativePart
    | KeyText(shard: Long, realm: Long, text: string) // handed to PublicKey.fromString
    | LibraryNumber(shard: Long, realm: Long, text: string) // hex letters handed to Long.fromString

  /** The constructor's check. */
  function Construct(shard: Long, realm: Long, holder: Holder): ParsedAccount
  {
    if shard < 0 || realm < 0 then NegativePart else Account(AccountId(shard, realm, holder))
  }

  /** A text of 40 characters, or of 42 with 0x, is taken for an EVM address whatever it holds. */
  predicate LooksLikeAddress(text: string)
  {
    (|text| == 42 && text[..2] == "0x") || |text| == 40
  }

  /** Reads the parts; the checksum is dropped. */
  function FromParts(shard: string, realm: string, numOrHex: string): (r: ParsedAccount)
    requires Decimals.AllDigits(shard) && Decimals.AllDigits(realm)
  {
    var s, r := Decimals.Parse(shard), Decimals.Parse(realm);
    if |numOrHex| < 20 then
      if !Decimals.AllDigits(numOrHex) then LibraryNumber(s, r, numOrHex)
      else if Decimals.Parse(numOrHex) < 0 then NegativePart
      else Construct(s, r, Number(Decimals.Parse(numOrHex)))
    else if |numOrHex| == 40 then Construct(s, r, EvmAddress(Hex.Decode(numOrHex)))
    else KeyText(s, r, numOrHex)
  }

  function FromString(text: string): (r: ParsedAccount)
  {
    if LooksLikeAddress(text) then Account(AccountId(0, 0, EvmAddress(Hex.Decode(text))))
    else
      SplitDigits(text);
      match Split(text)
      case None => SyntaxError
      case Some(p) => FromParts(p.shard, p.realm, p.numOrHex)
  }

  function HolderText(h: Holder): string
  {
    match h
    case Number(num) => Decimals.Print(num)
    case EvmAddress(bytes) => Hex.Encode(bytes)
    case AliasKey(text) => text
  }

  function ToString(id: AccountId): (text: string)
  {
    Decimals.Print(id.shard) + ("." + (Decimals.Print(id.realm) + ("." + HolderText(id.holder))))
  }

  lemma {:induction false} PrintFirst(n: nat)
    ensures n >= 10 ==> |Decimals.Print(n)| >= 2
    ensures n < 10 ==> |Decimals.Print(n)| == 1
    ensures |Decimals.Print(n)| == 1 && Decimals.Print(n)[0] == '0' ==> n == 0
  {
    if n >= 10 {
      assert |Decimals.Print(n / 10)| >= 1;
    }
  }

  /** A dotted text is never the 42-character form with 0x. */
  lemma NotPrefixed(id: AccountId)
    ensures LooksLikeAddress(ToString(id)) <==> |ToString(id)| == 40
  {
    var shard, text := Decimals.Print(id.shard), ToString(id);
    if |text| == 42 {
      assert text[..2][1] == text[1];
      assert text[1] == if |shard| >= 2 then shard[1] else '.';
    }
  }

  /** Splitting a printed account gives back its three parts. */
  lemma SplitPrinted(id: AccountId)
    requires HolderText(id.holder) != "" && Hex.AllHex(HolderText(id.holder))
    ensures Split(ToString(id)) == Some(Parts(Decimals.Print(id.shard), Decimals.Print(id.realm),
              HolderText(id.holder), None))
  {
    var m := Full(Decimals.Print(id.shard), Decimals.Print(id.realm), HolderText(id.holder), None);
    assert HolderText(id.holder) + "" == HolderText(id.holder);
    assert Text(m) == ToString(id);
    MatchesText(m);
  }

  /** Printing and reading a numeric account gives it back exactly when its text is not 40 characters long. */
  lemma NumericRoundTrip(id: AccountId)
    requires id.holder.Number?
    ensures FromString(ToString(id)) == Account(id) <==> |ToString(id)| != 40
  {
    NotPrefixed(id);
    DigitsAreHex(HolderText(id.holder));
    if |ToString(id)| != 40 {
      ReadAsParts(id);
    }
    Decimals.ParsePrint(id.shard);
    Decimals.ParsePrint(id.realm);
    Decimals.ParsePrint(id.holder.num);
    Decimals.IdPartLength(id.holder.num);
  }

  /** A number alone is read as that account of shard 0 and realm 0. */
  lemma NumberAlone(num: IdPart)
    ensures FromString(Decimals.Print(num)) == Account(AccountId(0, 0, Number(num)))
  {
    Decimals.IdPartLength(num);
    ShortRead(Decimals.Print(num), "aaaaa");
    Decimals.ParsePrint(num);
    Decimals.ParsePrint(0);
    assert Decimals.Print(0) == "0";
  }

  /** The 20 bytes of an address in hex, with or without 0x before them, are read as that account of 0 and 0. */
  lemma {:induction false} AddressAlone(bytes: seq<Hex.Byte>)
    requires |bytes| == 20
    ensures FromString(Hex.Encode(bytes)) == Account(AccountId(0, 0, EvmAddress(bytes)))
    ensures FromString("0x" + Hex.Encode(bytes)) == Account(AccountId(0, 0, EvmAddress(bytes)))
  {
    var text := Hex.Encode(bytes);
    Hex.DecodeEncode(bytes);
    Hex.DecodePairsEncode(bytes);
    var prefixed := "0x" + text;
    assert prefixed[..2] == "0x" && prefixed[2..] == text;
  }

  /** What is read of three parts, whose last one is hex: by its length a number, a key or an address. */
  lemma {:induction false} PartsRead(shard: IdPart, realm: IdPart, last: string)
    requires last != "" && Hex.AllHex(last)
    ensures var text := Decimals.Print(shard) + "." + Decimals.Print(realm) + "." + last;
            !LooksLikeAddress(text) ==>
              FromString(text) ==
              if |last| == 40 then Account(AccountId(shard, realm, EvmAddress(Hex.Decode(last))))
              else if |last| >= 20 then KeyText(shard, realm, last)
              else if !Decimals.AllDigits(last) then LibraryNumber(shard, realm, last)
              else if Decimals.Value(last) >= TWO_63 then NegativePart
              else Account(AccountId(shard, realm, Number(Decimals.Value(last))))
  {
    FullRead(Decimals.Print(shard), Decimals.Print(realm), last, "aaaaa");
    Decimals.ParsePrint(shard);
    Decimals.ParsePrint(realm);
    if |last| < 20 && Decimals.AllDigits(last) {
      Decimals.ParseShort(last);
    }
  }

  /** A numeric account whose text is 40 characters long, so that it is read back as an EVM address. */
  lemma FortyCharacters()
    ensures var id := AccountId(1_000_000_000_000_000_000, 100_000_000_000_000_000, Number(1));
            |ToString(id)| == 40 && FromString(ToString(id)) != Account(id)
  {
    var id := AccountId(1_000_000_000_000_000_000, 100_000_000_000_000_000, Number(1));
    PowerLength(18);
    PowerLength(17);
    assert Decimals.Power10(9) == 1_000_000_000;
    assert Decimals.Power10(17) == 100_000_000_000_000_000;
    assert Decimals.Power10(18) == 1_000_000_000_000_000_000;
    NumericRoundTrip(id);
  }

  lemma {:induction false} PowerLength(k: nat)
    ensures |Decimals.Print(Decimals.Power10(k))| == k + 1
  {
    if k > 0 {
      PowerLength(k - 1);
      assert Decimals.Power10(k) / 10 == Decimals.Power10(k - 1);
      PowerPositive(k - 1);
    }
  }

  lemma PowerPositive(k: nat)
    ensures Decimals.Power10(k) >= 1
  {
  }

  /** Reading an EVM account whose text is 40 characters long loses its address. */
  lemma FortyCharacterEvm(id: AccountId)
    requires id.holder.EvmAddress? && |ToString(id)| == 40
    ensures FromString(ToString(id)) != Account(id)
  {
    var text, shard, realm := ToString(id), Decimals.Print(id.shard), Decimals.Print(id.realm);
    PrintFirst(id.shard);
    PrintFirst(id.realm);
    if id.shard == 0 && id.realm == 0 {
      assert text[1] == '.';
      assert text[..2][1] == '.';
      assert !Hex.IsHexChar(text[1]);
      assert Hex.Decode(text) == [];
      assert |id.holder.bytes| == 18;
    }
  }

  /** Printing and reading an EVM account gives it back exactly when its address has 20 bytes. */
  lemma EvmRoundTrip(id: AccountId)
    requires id.holder.EvmAddress?
    ensures FromString(ToString(id)) == Account(id) <==> |id.holder.bytes| == 20
  {
    NotPrefixed(id);
    Hex.EncodeIsHex(id.holder.bytes);
    Hex.DecodeEncode(id.holder.bytes);
    Decimals.ParsePrint(id.shard);
    Decimals.ParsePrint(id.realm);
    if |ToString(id)| == 40 {
      FortyCharacterEvm(id);
    } else if id.holder.bytes != [] {
      ReadAsParts(id);
    } else {
      EmptyAddress(id);
    }
  }

  lemma {:induction false} ReadAsParts(id: AccountId)
    requires HolderText(id.holder) != "" && Hex.AllHex(HolderText(id.holder)) && !LooksLikeAddress(ToString(id))
    ensures FromString(ToString(id)) ==
              FromParts(Decimals.Print(id.shard), Decimals.Print(id.realm), HolderText(id.holder))
  {
    SplitPrinted(id);
  }

  lemma EmptyAddress(id: AccountId)
    requires id.holder == EvmAddress([])
    ensures Split(ToString(id)) == None
  {
    var shard, realm := Decimals.Print(id.shard), Decimals.Print(id.realm);
    SpanOf(Decimals.IsDigit, shard, "." + (realm + "."));
    SpanOf(Decimals.IsDigit, realm, ".");
    assert HolderText(id.holder) == "";
    assert "." + "" == ".";
    assert ToString(id) == shard + ("." + (realm + "."));
    assert ("." + (realm + "."))[1..] == realm + ".";
  }

  lemma MatchNotPrefixed(m: Match)
    requires Proper(m)
    ensures LooksLikeAddress(Text(m)) <==> |Text(m)| == 40
  {
    var text := Text(m);
    if |text| == 42 {
      assert text[..2][1] == text[1];
      match m
      case Short(num, checksum) => assert text[1] == num[1];
      case Full(shard, _, _, _) => assert text[1] == if |shard| >= 2 then shard[1] else '.';
    }
  }

  /** The checksum in an account text plays no part in reading it, so a wrong one goes unnoticed. */
  lemma {:induction false} ChecksumIgnored(m: Match, checksum: string)
    requires Proper(m) && m.checksum.Some? && |checksum| == 5 && AllLower(checksum) && |Text(m)| != 40
    ensures FromString(Text(m)) == FromString(Text(m.(checksum := Some(checksum))))
  {
    var n := m.(checksum := Some(checksum));
    assert |Text(m)| == |Text(n)|;
    MatchNotPrefixed(m);
    MatchNotPrefixed(n);
    MatchesText(m);
    MatchesText(n);
    SameParts(m, n);
  }

  lemma {:induction false} SameParts(m: Match, n: Match)
    requires Proper(m) && n == m.(checksum := n.checksum) && Proper(n)
    ensures Split(Text(m)).Some? && Split(Text(n)) == Some(Split(Text(m)).value.(checksum := n.checksum))
  {
    MatchesText(m);
    MatchesText(n);
  }
}
