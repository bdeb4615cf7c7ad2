/** The text form of entity IDs, with and without a checksum. */
module EntityIds {
  import opened Results
  import opened Longs
  import opened Hex
  import opened Checksums
  import opened ChecksumDetection
  import Decimals

  // ----- the pattern of an entity ID

  predicate IsLower(c: char)
  {
    'a' <= c <= 'z'
  }

  predicate AllLower(text: string)
  {
    forall i | 0 <= i < |text| :: IsLower(text[i])
  }

  /** What the pattern captures: digits alone or shard.realm.num, then an optional checksum. */
  datatype Match =
    | Short(num: string, checksum: Option<string>)
    | Full(shard: string, realm: string, numOrHex: string, checksum: Option<string>)

  predicate Proper(m: Match)
  {
    && (match m
        case Short(num, _) => num != "" && Decimals.AllDigits(num)
        case Full(shard, realm, numOrHex, _) =>
          && shard != "" && Decimals.AllDigits(shard) && realm != "" && Decimals.AllDigits(realm)
          && numOrHex != "" && AllHex(numOrHex))
    && (m.checksum.Some? ==> |m.checksum.value| == 5 && AllLower(m.checksum.value))
  }

  function Suffix(checksum: Option<string>): string
  {
    if checksum.Some? then "-" + checksum.value else ""
  }

  /** The text that a match covers. */
  function Text(m: Match): string
  {
    match m
    case Short(num, checksum) => num + Suffix(checksum)
    case Full(shard, realm, numOrHex, checksum) => shard + ("." + (realm + ("." + (numOrHex + Suffix(checksum)))))
  }

  /** How many leading characters satisfy `p`. */
  function Span(p: char -> bool, text: string): (n: nat)
    ensures n <= |text|
    ensures forall i | 0 <= i < n :: p(text[i])
    ensures n < |text| ==> !p(text[n])
  {
    if text == "" || !p(text[0]) then 0 else 1 + Span(p, text[1..])
  }

  /** None: not a checksum suffix. Some(None): nothing left. */
  function MatchSuffix(text: string): (r: Option<Option<string>>)
  {
    if text == "" then Some(None)
    else if text[0] == '-' && |text| == 6 && AllLower(text[1..]) then Some(Some(text[1..]))
    else None
  }

  /** Matches a whole text against the pattern; the longest runs of digits are forced. */
  function MatchText(text: string): (r: Option<Match>)
  {
    var n := Span(Decimals.IsDigit, text);
    var rest := text[n..];
    if n == 0 then None
    else if rest == "" || rest[0] != '.' then
      (match MatchSuffix(rest)
       case None => None
       case Some(checksum) => Some(Short(text[..n], checksum)))
    else
      MatchFull(text[..n], rest[1..])
  }

  function MatchFull(shard: string, text: string): (r: Option<Match>)
  {
    var n := Span(Decimals.IsDigit, text);
    if n == 0 || n == |text| || text[n] != '.' then None
    else
      var rest := text[n + 1..];
      var h := Span(IsHexChar, rest);
      if h == 0 then None
      else
        match MatchSuffix(rest[h..])
        case None => None
        case Some(checksum) => Some(Full(shard, text[..n], rest[..h], checksum))
  }

  lemma SpanOf(p: char -> bool, run: string, rest: string)
    requires forall i | 0 <= i < |run| :: p(run[i])
    requires rest == "" || !p(rest[0])
    ensures Span(p, run + rest) == |run|
    ensures (run + rest)[..|run|] == run && (run + rest)[|run|..] == rest
  {
    var text := run + rest;
    assert forall i | 0 <= i < |run| :: text[i] == run[i];
    assert rest != "" ==> text[|run|] == rest[0];
  }

  lemma SuffixMatches(checksum: Option<string>)
    requires checksum.Some? ==> |checksum.value| == 5 && AllLower(checksum.value)
    ensures MatchSuffix(Suffix(checksum)) == Some(checksum)
    ensures var s := Suffix(checksum); s == "" || (!IsHexChar(s[0]) && s[0] != '.')
  {
    if checksum.Some? {
      assert Suffix(checksum)[1..] == checksum.value;
    }
  }

  lemma MatchesText(m: Match)
    requires Proper(m)
    ensures MatchText(Text(m)) == Some(m)
  {
    SuffixMatches(m.checksum);
    match m
    case Short(num, checksum) =>
      SpanOf(Decimals.IsDigit, num, Suffix(checksum));
    case Full(shard, realm, numOrHex, checksum) =>
      var tail := realm + ("." + (numOrHex + Suffix(checksum)));
      SpanOf(Decimals.IsDigit, shard, "." + tail);
      assert ("." + tail)[1..] == tail;
      SpanOf(Decimals.IsDigit, realm, "." + (numOrHex + Suffix(checksum)));
      assert tail[|realm| + 1..] == numOrHex + Suffix(checksum);
      SpanOf(IsHexChar, numOrHex, Suffix(checksum));
  }

  lemma SuffixMatched(text: string)
    requires MatchSuffix(text).Some?
    ensures var checksum := MatchSuffix(text).value;
            text == Suffix(checksum) && (checksum.Some? ==> |checksum.value| == 5 && AllLower(checksum.value))
  {
    if text != "" {
      assert text == [text[0]] + text[1..];
    }
  }

  /** What a match of the three-part form captures. */
  lemma FullCaptures(shard: string, text: string)
    requires MatchFull(shard, text).Some?
    ensures var m, n := MatchFull(shard, text).value, Span(Decimals.IsDigit, text);
            && 0 < n < |text| && text[n] == '.'
            && var rest := text[n + 1..];
               var h := Span(IsHexChar, rest);
               && h > 0 && MatchSuffix(rest[h..]).Some?
               && m == Full(shard, text[..n], rest[..h], MatchSuffix(rest[h..]).value)
  {
  }

  lemma FullProper(shard: string, text: string)
    requires shard != "" && Decimals.AllDigits(shard) && MatchFull(shard, text).Some?
    ensures Proper(MatchFull(shard, text).value)
  {
    FullCaptures(shard, text);
    var rest := text[Span(Decimals.IsDigit, text) + 1..];
    SuffixMatched(rest[Span(IsHexChar, rest)..]);
  }

  lemma FullText(shard: string, text: string)
    requires MatchFull(shard, text).Some?
    ensures Text(MatchFull(shard, text).value) == shard + ("." + text)
  {
    FullCaptures(shard, text);
    var n := Span(Decimals.IsDigit, text);
    var rest := text[n + 1..];
    var h := Span(IsHexChar, rest);
    SuffixMatched(rest[h..]);
    Pieces(text, n, h);
  }

  lemma Pieces(text: string, n: nat, h: nat)
    requires n < |text| && text[n] == '.' && n + 1 + h <= |text|
    ensures text == text[..n] + ("." + (text[n + 1..][..h] + text[n + 1..][h..]))
  {
    var rest := text[n + 1..];
    assert rest == rest[..h] + rest[h..];
  }

  /** A text matches the pattern exactly when it is the text of a proper match, and then of one only. */
  lemma MatchTextIff(text: string, m: Match)
    ensures MatchText(text) == Some(m) <==> Proper(m) && Text(m) == text
  {
    if Proper(m) && Text(m) == text {
      MatchesText(m);
    }
    if MatchText(text) == Some(m) {
      MatchedText(text);
    }
  }

  lemma {:induction false} MatchedText(text: string)
    requires MatchText(text).Some?
    ensures Proper(MatchText(text).value) && Text(MatchText(text).value) == text
  {
    var n := Span(Decimals.IsDigit, text);
    assert text == text[..n] + text[n..];
    if text[n..] == "" || text[n] != '.' {
      SuffixMatched(text[n..]);
      assert MatchText(text).value.Short?;
    } else {
      assert MatchText(text) == MatchFull(text[..n], text[n + 1..]);
      FullProper(text[..n], text[n + 1..]);
      FullText(text[..n], text[n + 1..]);
      assert text[n..] == "." + text[n + 1..];
    }
  }

  // ----- splitting and reading

  datatype Parts = Parts(shard: string, realm: string, numOrHex: string, checksum: Option<string>)

  /** `fromStringSplitter`; None is its exception. */
  function Split(text: string): (r: Option<Parts>)
  {
    match MatchText(text)
    case None => None
    case Some(Short(num, checksum)) => Some(Parts("0", "0", num, checksum))
    case Some(Full(shard, realm, numOrHex, checksum)) => Some(Parts(shard, realm, numOrHex, checksum))
  }

  /** `num` is None where the number holds hex letters: what `Long.fromString` does with those is not modelled. */
  datatype EntityId = EntityId(shard: Long, realm: Long, num: Option<Long>, checksum: Option<string>)

  lemma SplitDigits(text: string)
    ensures Split(text).Some? ==>
              Decimals.AllDigits(Split(text).value.shard) && Decimals.AllDigits(Split(text).value.realm)
  {
    if MatchText(text).Some? {
      MatchTextIff(text, MatchText(text).value);
    }
  }

  function FromString(text: string): (r: Option<EntityId>)
  {
    SplitDigits(text);
    match Split(text)
    case None => None
    case Some(p) =>
      var num := if Decimals.AllDigits(p.numOrHex) then Some(Decimals.Parse(p.numOrHex)) else None;
      Some(EntityId(Decimals.Parse(p.shard), Decimals.Parse(p.realm), num, p.checksum))
  }

  /** A number alone stands for it in shard 0 and realm 0; with or without a checksum after a hyphen. */
  lemma {:induction false} ShortRead(num: string, checksum: string)
    requires num != "" && Decimals.AllDigits(num) && |checksum| == 5 && AllLower(checksum)
    ensures Split(num) == Some(Parts("0", "0", num, None))
    ensures Split(num + "-" + checksum) == Some(Parts("0", "0", num, Some(checksum)))
  {
    MatchesText(Short(num, None));
    MatchesText(Short(num, Some(checksum)));
    assert num + "" == num && num + ("-" + checksum) == num + "-" + checksum;
  }

  /** Three parts between dots; the last may hold hex letters. */
  lemma {:induction false} FullRead(shard: string, realm: string, num: string, checksum: string)
    requires shard != "" && Decimals.AllDigits(shard) && realm != "" && Decimals.AllDigits(realm)
    requires num != "" && AllHex(num) && |checksum| == 5 && AllLower(checksum)
    ensures Split(shard + "." + realm + "." + num) == Some(Parts(shard, realm, num, None))
    ensures Split(shard + "." + realm + "." + num + "-" + checksum) == Some(Parts(shard, realm, num, Some(checksum)))
  {
    MatchesText(Full(shard, realm, num, None));
    MatchesText(Full(shard, realm, num, Some(checksum)));
    FullTexts(shard, realm, num, checksum);
  }

  lemma FullTexts(shard: string, realm: string, num: string, checksum: string)
    ensures Text(Full(shard, realm, num, None)) == shard + "." + realm + "." + num
    ensures Text(Full(shard, realm, num, Some(checksum))) == shard + "." + realm + "." + num + "-" + checksum
  {
    DottedGroups(shard, realm, num);
    DottedGroups(shard, realm, num + ("-" + checksum));
    assert num + "" == num;
    assert shard + "." + realm + "." + (num + ("-" + checksum)) == shard + "." + realm + "." + num + "-" + checksum;
  }

  lemma DottedGroups(a: string, b: string, c: string)
    ensures a + ("." + (b + ("." + c))) == a + "." + b + "." + c
  {
  }

  /** What is read of a number alone. */
  lemma {:induction false} NumberRead(num: IdPart)
    ensures FromString(Decimals.Print(num)) == Some(EntityId(0, 0, Some(num), None))
  {
    ShortRead(Decimals.Print(num), "aaaaa");
    Decimals.ParsePrint(num);
    Decimals.ParsePrint(0);
    assert Decimals.Print(0) == "0";
  }

  /** "shard.realm.num". */
  function Dotted(shard: IdPart, realm: IdPart, num: IdPart): (text: string)
  {
    Decimals.Print(shard) + ("." + (Decimals.Print(realm) + ("." + Decimals.Print(num))))
  }

  function WithChecksum(text: string, ledger: seq<Byte>): string
  {
    text + ("-" + Checksum(ledger, text))
  }

  datatype Validation = Accepted | BadEntityId(given: string, expected: string)

  function Validate(shard: IdPart, realm: IdPart, num: IdPart, checksum: Option<string>,
          ledger: Option<seq<Byte>>): (r: Validation)
  {
    if ledger == None || checksum == None then Accepted
    else
      var expected := Checksum(ledger.value, Dotted(shard, realm, num));
      if checksum.value != expected then BadEntityId(checksum.value, expected) else Accepted
  }

  /** A checksum is refused exactly when a ledger is known and the checksum is not the one of the ID on it. */
  lemma ValidateIff(shard: IdPart, realm: IdPart, num: IdPart, checksum: string, ledger: seq<Byte>)
    ensures Validate(shard, realm, num, Some(checksum), Some(ledger)) == Accepted <==>
            checksum == Checksum(ledger, Dotted(shard, realm, num))
    ensures Validate(shard, realm, num, Some(checksum), Some(ledger)) != Accepted ==>
            Validate(shard, realm, num, Some(checksum), Some(ledger)) ==
            BadEntityId(checksum, Checksum(ledger, Dotted(shard, realm, num)))
    ensures Validate(shard, realm, num, None, Some(ledger)) == Accepted
    ensures Validate(shard, realm, num, Some(checksum), None) == Accepted
  {
  }

  lemma {:induction false} RenderLower(n: nat, k: nat)
    ensures AllLower(Render(n, k))
  {
    if k > 0 {
      RenderLower(n / 26, k - 1);
    }
  }

  lemma DottedIsAddress(shard: IdPart, realm: IdPart, num: IdPart)
    ensures IsAddress(Dotted(shard, realm, num))
  {
  }

  lemma DigitsAreHex(text: string)
    requires Decimals.AllDigits(text)
    ensures AllHex(text)
  {
  }

  /**
   An ID printed with its checksum is read back to the same shard, realm, num and checksum, and the
   checksum is accepted, for every ID and every ledger.
   */
  lemma {:induction false} PrintedIdRoundTrip(shard: IdPart, realm: IdPart, num: IdPart, ledger: seq<Byte>)
    ensures var text := Dotted(shard, realm, num);
            var checksum := Some(Checksum(ledger, text));
            && FromString(WithChecksum(text, ledger)) == Some(EntityId(shard, realm, Some(num), checksum))
            && FromString(text) == Some(EntityId(shard, realm, Some(num), None))
            && Validate(shard, realm, num, checksum, Some(ledger)) == Accepted
  {
    var text := Dotted(shard, realm, num);
    DottedIsAddress(shard, realm, num);
    RenderLower(Code(ledger, DigitsOf(text)), 5);
    var s, r, n := Decimals.Print(shard), Decimals.Print(realm), Decimals.Print(num);
    DigitsAreHex(n);
    Decimals.ParsePrint(shard);
    Decimals.ParsePrint(realm);
    Decimals.ParsePrint(num);
    var bare, full := Full(s, r, n, None), Full(s, r, n, Some(Checksum(ledger, text)));
    assert Text(bare) == text by { assert n + "" == n; }
    assert Text(full) == WithChecksum(text, ledger);
    MatchesText(bare);
    MatchesText(full);
  }

  /** A one-character slip that turns one printed ID into another is rejected by its checksum. */
  lemma {:induction false} SlipRejected(shard: IdPart, realm: IdPart, num: IdPart, shard': IdPart, realm': IdPart,
          num': IdPart, i: nat, ledger: seq<Byte>)
    requires var text, slip := Dotted(shard, realm, num), Dotted(shard', realm', num');
             i < |text| == |slip| && slip != text && slip == text[i := slip[i]]
    ensures Validate(shard', realm', num', Some(Checksum(ledger, Dotted(shard, realm, num))), Some(ledger)).BadEntityId?
  {
    var text, slip := Dotted(shard, realm, num), Dotted(shard', realm', num');
    DottedIsAddress(shard, realm, num);
    DottedIsAddress(shard', realm', num');
    assert text[i := text[i]] == text;
    SubstitutionDetected(ledger, text, i, slip[i]);
  }
}
