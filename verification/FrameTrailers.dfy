/** What a well-formed status trailer is read to. */
module FrameTrailers {
  import opened Results
  import opened Hex
  import opened FrameCodec
  import Decimals

  predicate IsDecimal(b: Byte)
  {
    48 <= b <= 57
  }

  ghost predicate AllDecimal(digits: seq<Byte>)
  {
    forall i | 0 <= i < |digits| :: IsDecimal(digits[i])
  }

  /** The number that decimal digits write after `before`. */
  function Value(before: int, digits: seq<Byte>): int
  {
    if digits == [] then before
    else Value(before, digits[..|digits| - 1]) * 10 + digits[|digits| - 1] as int - 48
  }

  lemma {:induction false} ValueFirst(before: int, digits: seq<Byte>)
    requires digits != []
    ensures Value(before, digits) == Value(before * 10 + digits[0] as int - 48, digits[1..])
  {
    var n := |digits| - 1;
    if n > 0 {
      ValueFirst(before, digits[..n]);
      assert digits[..n][1..] == digits[1..][..n - 1];
    }
  }

  ghost predicate EndsNumber(tail: seq<Byte>)
  {
    tail == [] || DigitOf(tail[0], 10) == None
  }

  lemma {:induction false} DigitsRead(digits: seq<Byte>, tail: seq<Byte>, before: Option<int>)
    requires AllDecimal(digits) && EndsNumber(tail) && (digits != [] || before.Some?)
    ensures ReadDigits(digits + tail, 10, before) == Some(Value(if before.Some? then before.value else 0, digits))
    decreases |digits|
  {
    if digits == [] {
      assert digits + tail == tail;
    } else {
      var a := (if before.Some? then before.value else 0) * 10 + digits[0] as int - 48;
      assert (digits + tail)[1..] == digits[1..] + tail;
      DigitsRead(digits[1..], tail, Some(a));
      ValueFirst(if before.Some? then before.value else 0, digits);
    }
  }

  lemma {:induction false} SpacesSkipped(spaces: seq<Byte>, text: seq<Byte>)
    requires (forall i | 0 <= i < |spaces| :: IsSpace(spaces[i])) && (text == [] || !IsSpace(text[0]))
    ensures SkipSpaces(spaces + text) == text
  {
    if spaces == [] {
      assert spaces + text == text;
    } else {
      SpacesSkipped(spaces[1..], text);
      assert (spaces + text)[1..] == spaces[1..] + text;
    }
  }

  /** The number is not read as hexadecimal. */
  ghost predicate NotHex(digits: seq<Byte>, tail: seq<Byte>)
  {
    |digits| > 1 || tail == [] || (tail[0] != 120 && tail[0] != 88)
  }

  /** Nothing, a plus or a minus. */
  ghost predicate IsSign(sign: seq<Byte>)
  {
    sign == [] || sign == [43] || sign == [45]
  }

  function Signed(sign: seq<Byte>, n: int): int
  {
    if sign == [45] then -n else n
  }

  /** Digits in front: neither a sign nor white space is first, and it is no hexadecimal number. */
  lemma DigitsFirst(digits: seq<Byte>, tail: seq<Byte>)
    requires digits != [] && AllDecimal(digits) && EndsNumber(tail) && NotHex(digits, tail)
    ensures var u := digits + tail;
            && !IsSpace(u[0]) && u[0] != 45 && u[0] != 43
            && !(|u| >= 2 && u[0] == 48 && (u[1] == 120 || u[1] == 88))
            && ReadDigits(u, 10, None) == Some(Value(0, digits))
  {
    DigitsRead(digits, tail, None);
    var u := digits + tail;
    assert u[0] == digits[0];
    assert |u| >= 2 ==> u[1] == if |digits| > 1 then digits[1] else tail[0];
  }

  lemma NumberRead(spaces: seq<Byte>, sign: seq<Byte>, digits: seq<Byte>, tail: seq<Byte>)
    requires (forall i | 0 <= i < |spaces| :: IsSpace(spaces[i])) && digits != [] && AllDecimal(digits)
    requires EndsNumber(tail) && NotHex(digits, tail) && IsSign(sign)
    ensures ParseInt(spaces + (sign + (digits + tail))) == Some(Signed(sign, Value(0, digits)))
  {
    var u := digits + tail;
    var t := sign + u;
    DigitsFirst(digits, tail);
    assert if sign == [] then t == u else t[0] == sign[0] && t[1..] == u;
    SpacesSkipped(spaces, t);
  }

  /** Without a digit after the sign there is no number. */
  lemma NoNumberRead(spaces: seq<Byte>, sign: seq<Byte>, tail: seq<Byte>)
    requires (forall i | 0 <= i < |spaces| :: IsSpace(spaces[i])) && IsSign(sign) && EndsNumber(tail)
    requires sign == [] && tail != [] ==> !IsSpace(tail[0]) && tail[0] != 43 && tail[0] != 45
    ensures ParseInt(spaces + (sign + tail)) == None
  {
    var t := sign + tail;
    SpacesSkipped(spaces, t);
    assert if sign == [] then t == tail else t[1..] == tail;
  }

  lemma NoColon(text: seq<Byte>)
    requires COLON !in text
    ensures FirstColon(text) == |text|
  {
  }

  lemma NameRead(rest: seq<Byte>)
    ensures FirstColon(GRPC_STATUS + [COLON] + rest) == |GRPC_STATUS|
  {
    var text := GRPC_STATUS + [COLON] + rest;
    assert text[|GRPC_STATUS|] == COLON;
    forall i | 0 <= i < |GRPC_STATUS| ensures text[i] != COLON {
      assert text[i] == GRPC_STATUS[i];
    }
  }

  ghost predicate Ascii(text: string)
  {
    forall i | 0 <= i < |text| :: text[i] as int < 128
  }

  /** The text as bytes. */
  function BytesOf(text: string): (b: seq<Byte>)
    requires Ascii(text)
    ensures |b| == |text| && forall i | 0 <= i < |b| :: b[i] == text[i] as int
  {
    seq(|text|, i requires 0 <= i < |text| => text[i] as int)
  }

  lemma BytesOfConcat(s: string, t: string)
    requires Ascii(s) && Ascii(t)
    ensures Ascii(s + t) && BytesOf(s + t) == BytesOf(s) + BytesOf(t)
  {
  }

  /** The name the decoder looks for, as text. */
  lemma StatusName()
    ensures Ascii("grpc-status") && GRPC_STATUS == BytesOf("grpc-status") && COLON == ':' as int
  {
    var name := "grpc-status";
    assert name[0] == 'g' && name[1] == 'r' && name[2] == 'p' && name[3] == 'c' && name[4] == '-' && name[5] == 's';
    assert name[6] == 't' && name[7] == 'a' && name[8] == 't' && name[9] == 'u' && name[10] == 's';
  }

  /** Tab, line feed, vertical tab, form feed, carriage return and space. */
  ghost predicate AllBlank(text: string)
  {
    forall i | 0 <= i < |text| :: text[i] as int in {9, 10, 11, 12, 13, 32}
  }

  ghost predicate NoColonIn(text: string)
  {
    forall i | 0 <= i < |text| :: text[i] != ':'
  }

  /** Nothing, or a character that does not go on with the number and does not make it hexadecimal. */
  ghost predicate EndsNumberText(text: string)
  {
    text == "" || (!('0' <= text[0] <= '9') && text[0] != 'x' && text[0] != 'X')
  }

  lemma {:induction false} ValueOfPrinted(n: nat)
    ensures Ascii(Decimals.Print(n)) && AllDecimal(BytesOf(Decimals.Print(n)))
    ensures Value(0, BytesOf(Decimals.Print(n))) == n
  {
    var text := Decimals.Print(n);
    assert forall i | 0 <= i < |text| :: Decimals.IsDigit(text[i]);
    var b := BytesOf(text);
    assert b[..|b| - 1] == BytesOf(text[..|text| - 1]);
    if n >= 10 {
      ValueOfPrinted(n / 10);
      assert text[..|text| - 1] == Decimals.Print(n / 10) && text[|text| - 1] == Decimals.DigitChar(n % 10);
    } else {
      assert text == [Decimals.DigitChar(n)] && b[..0] == [];
    }
  }

  lemma TrailerBytes(blank: string, sign: string, digits: string, tail: string)
    requires Ascii(blank) && Ascii(sign) && Ascii(digits) && Ascii(tail)
    ensures var text := "grpc-status:" + (blank + (sign + (digits + tail)));
            && Ascii(text)
            && BytesOf(text) ==
               GRPC_STATUS + [COLON] + (BytesOf(blank) + (BytesOf(sign) + (BytesOf(digits) + BytesOf(tail))))
  {
    var name, colon := "grpc-status", ":";
    StatusName();
    BytesOfConcat(digits, tail);
    BytesOfConcat(sign, digits + tail);
    BytesOfConcat(blank, sign + (digits + tail));
    BytesOfConcat(name, colon);
    assert name + colon == "grpc-status:";
    BytesOfConcat(name + colon, blank + (sign + (digits + tail)));
    assert BytesOf(colon) == [COLON];
  }

  lemma TailBytes(tail: string)
    requires Ascii(tail) && NoColonIn(tail) && EndsNumberText(tail)
    ensures var b := BytesOf(tail);
            EndsNumber(b) && COLON !in b && (b == [] || (b[0] != 120 && b[0] != 88))
  {
  }

  /**
   A trailer "grpc-status:", white space, a number in decimal with or without a sign and anything
   after it that holds no colon and does not go on with the number is read to that number.
   */
  lemma {:induction false} StatusRead(blank: string, sign: string, n: nat, tail: string)
    requires AllBlank(blank) && sign in {"", "+", "-"} && Ascii(tail) && NoColonIn(tail) && EndsNumberText(tail)
    ensures var text := "grpc-status:" + (blank + (sign + (Decimals.Print(n) + tail)));
            Ascii(text) && TrailerStatus(BytesOf(text)) == Some(Some((if sign == "-" then -1 else 1) * n))
  {
    ValueOfPrinted(n);
    SignBytes(sign);
    TailBytes(tail);
    TrailerBytes(blank, sign, Decimals.Print(n), tail);
    NumberTrailer(BytesOf(blank), BytesOf(sign), BytesOf(Decimals.Print(n)), BytesOf(tail));
  }

  lemma SignBytes(sign: string)
    requires sign in {"", "+", "-"}
    ensures Ascii(sign) && IsSign(BytesOf(sign)) && (BytesOf(sign) == [45] <==> sign == "-")
  {
    assert sign != "" ==> BytesOf(sign) == [sign[0] as int];
  }

  lemma NumberTrailer(spaces: seq<Byte>, sign: seq<Byte>, digits: seq<Byte>, tail: seq<Byte>)
    requires (forall i | 0 <= i < |spaces| :: IsSpace(spaces[i])) && digits != [] && AllDecimal(digits)
    requires EndsNumber(tail) && NotHex(digits, tail) && IsSign(sign) && COLON !in tail
    ensures TrailerStatus(GRPC_STATUS + [COLON] + (spaces + (sign + (digits + tail)))) ==
            Some(Some(Signed(sign, Value(0, digits))))
  {
    var rest := spaces + (sign + (digits + tail));
    var text := GRPC_STATUS + [COLON] + rest;
    NameRead(rest);
    assert text[..|GRPC_STATUS|] == GRPC_STATUS && text[|GRPC_STATUS| + 1..] == rest;
    assert COLON !in rest;
    NoColon(rest);
    assert rest[..|rest|] == rest;
    NumberRead(spaces, sign, digits, tail);
  }

  /** A trailer is one of the status exactly when its text up to the first colon is "grpc-status". */
  lemma {:induction false} NameDecides(name: string, rest: seq<Byte>)
    requires Ascii(name) && NoColonIn(name) && (rest == [] || rest[0] == ':' as int)
    ensures TrailerStatus(BytesOf(name) + rest).Some? <==> name == "grpc-status"
  {
    var payload := BytesOf(name) + rest;
    StatusName();
    forall i | 0 <= i < |name| ensures payload[i] != COLON {
      assert payload[i] == BytesOf(name)[i] == name[i] as int;
    }
    assert rest != [] ==> payload[|name|] == rest[0];
    assert FirstColon(payload) == |name|;
    assert payload[..|name|] == BytesOf(name);
    if BytesOf(name) == BytesOf("grpc-status") {
      SameText(name, "grpc-status");
    }
  }

  lemma SameText(s: string, t: string)
    requires Ascii(s) && Ascii(t) && BytesOf(s) == BytesOf(t)
    ensures s == t
  {
    forall i | 0 <= i < |s| ensures s[i] == t[i] {
      assert BytesOf(s)[i] == BytesOf(t)[i];
    }
  }

  // ----- whole responses

  /** The frames of a response of data and one trailer. */
  function Response(data: seq<Byte>, trailer: seq<Byte>): seq<Frame>
  {
    [Frame(0, data), Frame(128, trailer)]
  }

  /**
   A response of one data frame and the trailer "grpc-status: n" is decoded to the data when n is 0
   and to the failing status otherwise.
   */
  lemma {:induction false} StatusDecides(data: seq<Byte>, blank: string, sign: string, n: nat, tail: string)
    requires AllBlank(blank) && sign in {"", "+", "-"} && Ascii(tail) && NoColonIn(tail) && EndsNumberText(tail)
    requires |data| < 0x1_0000_0000 && 12 + |blank| + |sign| + |Decimals.Print(n)| + |tail| < 0x1_0000_0000
    ensures var text := "grpc-status:" + (blank + (sign + (Decimals.Print(n) + tail)));
            && Ascii(text) && Sized(Response(data, BytesOf(text)))
            && FrameCodec.Decode(TrailerStatus, EncodeAll(Response(data, BytesOf(text)))) ==
               if n == 0 then Ok(data) else Err(GrpcStatus(Some((if sign == "-" then -1 else 1) * n)))
  {
    StatusRead(blank, sign, n, tail);
    var trailer := BytesOf("grpc-status:" + (blank + (sign + (Decimals.Print(n) + tail))));
    assert |"grpc-status:"| == 12;
    Responds(TrailerStatus, data, trailer);
  }

  /** With a trailer of any other name the response is an error. */
  lemma {:induction false} OtherNameRejected(data: seq<Byte>, name: string, rest: seq<Byte>)
    requires Ascii(name) && NoColonIn(name) && (rest == [] || rest[0] == ':' as int) && name != "grpc-status"
    requires Sized(Response(data, BytesOf(name) + rest))
    ensures FrameCodec.Decode(TrailerStatus, EncodeAll(Response(data, BytesOf(name) + rest))) == Err(UnhandledTrailer)
  {
    NameDecides(name, rest);
    Responds(TrailerStatus, data, BytesOf(name) + rest);
  }

  lemma {:induction false} Responds(read: TrailerReader, data: seq<Byte>, trailer: seq<Byte>)
    requires Sized(Response(data, trailer))
    ensures FrameCodec.Decode(read, EncodeAll(Response(data, trailer))) ==
              match read(trailer)
              case None => Err(UnhandledTrailer)
              case Some(s) => if s == Some(0) then Ok(data) else Err(GrpcStatus(s))
  {
    var frames := Response(data, trailer);
    var w := EncodeAll(frames);
    assert w[0..] == w;
    FramesFolded(read, w, 0, frames, START);
    var p := Progress(Some(data), Some(0));
    assert Absorb(read, frames[0], START) == Ok(p);
    assert Folded(read, frames, START) == Folded(read, frames[1..], p);
    assert frames[1..][0] == Frame(128, trailer) && frames[1..][1..] == [];
  }
}
