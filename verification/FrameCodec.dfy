/**
 The gRPC-Web frame codec: a frame is a flag byte, a 4-byte big-endian length and the payload
 (Length-Prefixed-Message of the gRPC over HTTP2 protocol; a set high bit marks a trailer).
 */
module FrameCodec {
  import opened Results
  import opened Hex
  import opened BigEndians

  datatype DecodeError =
    | OutOfBounds
    | PastBoundary
    | MoreThanOneData
    | UnhandledTrailer
    | GrpcStatus(status: Option<int>)
    | NoResponse

  datatype Frame = Frame(flag: Byte, payload: seq<Byte>)

  // ----- trailers

  const GRPC_STATUS: seq<Byte> := [103, 114, 112, 99, 45, 115, 116, 97, 116, 117, 115]
  const COLON: Byte := 58

  /** The index of the first colon, or the length. */
  function FirstColon(text: seq<Byte>): (k: nat)
    ensures k <= |text|
    ensures k < |text| ==> text[k] == COLON
    ensures forall i | 0 <= i < k :: text[i] != COLON
  {
    if text == [] || text[0] == COLON then 0 else 1 + FirstColon(text[1..])
  }

  predicate IsSpace(b: Byte)
  {
    b == 32 || 9 <= b <= 13
  }

  function SkipSpaces(text: seq<Byte>): seq<Byte>
  {
    if text != [] && IsSpace(text[0]) then SkipSpaces(text[1..]) else text
  }

  function DigitOf(b: Byte, radix: int): Option<int>
  {
    var d := if 48 <= b <= 57 then b - 48 else if 97 <= b <= 102 then b - 87 else if 65 <= b <= 70 then b - 55 else 16;
    if d < radix then Some(d) else None
  }

  /** The value of the longest prefix of digits, added to what `acc` has read; None without digits. */
  function ReadDigits(text: seq<Byte>, radix: int, acc: Option<int>): Option<int>
  {
    if text == [] || DigitOf(text[0], radix) == None then acc
    else ReadDigits(text[1..], radix,
        Some((if acc.Some? then acc.value else 0) * radix + DigitOf(text[0], radix).value))
  }

  /** JavaScript's `parseInt` without a radix (ECMA-262, section 19.2.5); None is NaN. */
  function ParseInt(text: seq<Byte>): Option<int>
  {
    var t := SkipSpaces(text);
    var negative := t != [] && t[0] == 45;
    var u := if t != [] && (t[0] == 45 || t[0] == 43) then t[1..] else t;
    var hex := |u| >= 2 && u[0] == 48 && (u[1] == 120 || u[1] == 88);
    var n := if hex then ReadDigits(u[2..], 16, None) else ReadDigits(u, 10, None);
    if n.Some? && negative then Some(-n.value) else n
  }

  /** The status a trailer carries (Some(None) is NaN), or None for a trailer that is not grpc-status. */
  function TrailerStatus(payload: seq<Byte>): Option<Option<int>>
  {
    var k := FirstColon(payload);
    if payload[..k] != GRPC_STATUS then None
    else if k == |payload| then Some(None)
    else
      var rest := payload[k + 1..];
      Some(ParseInt(rest[..FirstColon(rest)]))
  }

  // ----- what the decoder computes, for any way of reading trailers

  /** The status a trailer payload carries; the decoder uses `TrailerStatus`. */
  type TrailerReader = seq<Byte> -> Option<Option<int>>

  /** The frame that starts at an offset of the window. */
  function FrameAt(w: seq<Byte>, offset: nat): (r: Result<Frame, DecodeError>)
    requires offset < |w|
    ensures r.Ok? ==> offset + 5 + |r.value.payload| <= |w|
  {
    if offset + 5 > |w| then Err(OutOfBounds)
    else
      var next := offset + 5 + ReadBigEndian(w[offset + 1..offset + 5]);
      if next > |w| then Err(PastBoundary) else Ok(Frame(w[offset], w[offset + 5..next]))
  }

  /** What the decoder keeps between frames: the data payload seen and the last status. */
  datatype Progress = Progress(unary: Option<seq<Byte>>, status: Option<int>)

  function Absorb(read: TrailerReader, f: Frame, p: Progress): (r: Result<Progress, DecodeError>)
  {
    if f.flag / 128 == 0 then
      if p.unary != None then Err(MoreThanOneData) else Ok(p.(unary := Some(f.payload)))
    else if read(f.payload) == None then Err(UnhandledTrailer)
    else Ok(p.(status := read(f.payload).value))
  }

  function Conclude(p: Progress): (r: Result<seq<Byte>, DecodeError>)
  {
    if p.status != Some(0) then Err(GrpcStatus(p.status))
    else if p.unary == None then Err(NoResponse)
    else Ok(p.unary.value)
  }

  /** The rest of the decoding, from an offset of the window. */
  function DecodeFrom(read: TrailerReader, w: seq<Byte>, offset: nat, p: Progress): (r: Result<seq<Byte>, DecodeError>)
    requires offset <= |w|
    decreases |w| - offset
  {
    if offset == |w| then Conclude(p)
    else
      match FrameAt(w, offset)
      case Err(e) => Err(e)
      case Ok(f) =>
        match Absorb(read, f, p)
        case Err(e) => Err(e)
        case Ok(q) => DecodeFrom(read, w, offset + 5 + |f.payload|, q)
  }

  const START := Progress(None, Some(0))

  function Decode(read: TrailerReader, w: seq<Byte>): (r: Result<seq<Byte>, DecodeError>)
  {
    DecodeFrom(read, w, 0, START)
  }

  lemma SliceOfSlice<T>(s: seq<T>, at: nat, length: nat, lo: nat, hi: nat)
    requires at + length <= |s| && lo <= hi <= length
    ensures s[at..at + length][lo..hi] == s[at + lo..at + hi]
  {
    var t, u := s[at..at + length][lo..hi], s[at + lo..at + hi];
    assert |t| == |u| && forall k | 0 <= k < |t| :: t[k] == u[k];
  }

  lemma DecodeStep(read: TrailerReader, w: seq<Byte>, offset: nat, p: Progress, f: Frame, q: Progress)
    requires offset < |w| && FrameAt(w, offset) == Ok(f) && Absorb(read, f, p) == Ok(q)
    ensures DecodeFrom(read, w, offset, p) == DecodeFrom(read, w, offset + 5 + |f.payload|, q)
  {
  }

  method DecodeUnaryResponse(data: array<Byte>, byteOffset: nat, byteLength: nat)
    returns (r: Result<seq<Byte>, DecodeError>)
    ensures byteOffset + byteLength > data.Length ==> r == Err(OutOfBounds)
    ensures byteOffset + byteLength <= data.Length ==>
              r == Decode(TrailerStatus, data[byteOffset..byteOffset + byteLength])
  {
    r := DecodeWindow(TrailerStatus, data, byteOffset, byteLength);
  }

  method DecodeWindow(read: TrailerReader, data: array<Byte>, byteOffset: nat, byteLength: nat)
    returns (r: Result<seq<Byte>, DecodeError>)
    ensures byteOffset + byteLength > data.Length ==> r == Err(OutOfBounds)
    ensures byteOffset + byteLength <= data.Length ==> r == Decode(read, data[byteOffset..byteOffset + byteLength])
  {
    if byteOffset + byteLength > data.Length {
      return Err(OutOfBounds);
    }
    ghost var w := data[byteOffset..byteOffset + byteLength];
    var dataOffset := 0;
    var unaryResponse: Option<seq<Byte>> := None;
    var status := Some(0);
    while dataOffset < byteLength
      invariant 0 <= dataOffset <= byteLength
      invariant DecodeFrom(read, w, dataOffset, Progress(unaryResponse, status)) == Decode(read, w)
    {
      ghost var before := Progress(unaryResponse, status);
      var frame := ReadFrame(data, byteOffset, byteLength, dataOffset);
      if frame.Err? {
        return Err(frame.error);
      }
      var frameData := frame.value.payload;
      if frame.value.flag / 128 == 0 {
        if unaryResponse != None {
          return Err(MoreThanOneData);
        }
        unaryResponse := Some(frameData);
      } else {
        var trailer := read(frameData);
        if trailer == None {
          return Err(UnhandledTrailer);
        }
        status := trailer.value;
      }
      DecodeStep(read, w, dataOffset, before, frame.value, Progress(unaryResponse, status));
      dataOffset := dataOffset + 5 + |frameData|;
    }
    if status != Some(0) {
      return Err(GrpcStatus(status));
    }
    if unaryResponse == None {
      return Err(NoResponse);
    }
    return Ok(unaryResponse.value);
  }

  method ReadFrame(data: array<Byte>, byteOffset: nat, byteLength: nat, dataOffset: nat)
    returns (r: Result<Frame, DecodeError>)
    requires byteOffset + byteLength <= data.Length && dataOffset < byteLength
    ensures r == FrameAt(data[byteOffset..byteOffset + byteLength], dataOffset)
  {
    var frameByte := data[byteOffset + dataOffset];
    if dataOffset + 5 > byteLength {
      return Err(OutOfBounds);
    }
    var at := byteOffset + dataOffset;
    SliceOfSlice(data[..], byteOffset, byteLength, dataOffset + 1, dataOffset + 5);
    var frameByteLength := ReadBigEndian(data[at + 1..at + 5]);
    var frameOffset := dataOffset + 5;
    if frameOffset + frameByteLength > byteLength {
      return Err(PastBoundary);
    }
    SliceOfSlice(data[..], byteOffset, byteLength, frameOffset, frameOffset + frameByteLength);
    return Ok(Frame(frameByte, data[byteOffset + frameOffset..byteOffset + frameOffset + frameByteLength]));
  }

  // ----- what a window means

  ghost predicate Sized(frames: seq<Frame>)
  {
    forall k | 0 <= k < |frames| :: |frames[k].payload| < TWO_32
  }

  function Encode(f: Frame): (r: seq<Byte>)
    requires |f.payload| < TWO_32
    ensures |r| == 5 + |f.payload|
  {
    [f.flag] + BigEndian(|f.payload|) + f.payload
  }

  function EncodeAll(frames: seq<Frame>): (r: seq<Byte>)
    requires Sized(frames)
  {
    if frames == [] then [] else Encode(frames[0]) + EncodeAll(frames[1..])
  }

  /** The status of the last trailer, or `initial` when there is none. */
  function LastStatus(read: TrailerReader, frames: seq<Frame>, initial: Option<int>): Option<int>
  {
    if frames == [] then initial
    else
      var trailer := read(frames[0].payload);
      LastStatus(read, frames[1..], if frames[0].flag >= 128 && trailer.Some? then trailer.value else initial)
  }

  /** Every trailer is a grpc-status trailer. */
  ghost predicate TrailersKnown(read: TrailerReader, frames: seq<Frame>)
  {
    forall k | 0 <= k < |frames| && frames[k].flag >= 128 :: read(frames[k].payload).Some?
  }

  /** Frame `i` is the one data frame. */
  ghost predicate OnlyData(frames: seq<Frame>, i: nat)
  {
    i < |frames| && frames[i].flag < 128 && forall k | 0 <= k < |frames| && k != i :: frames[k].flag >= 128
  }

  ghost predicate NoData(frames: seq<Frame>)
  {
    forall k | 0 <= k < |frames| :: frames[k].flag >= 128
  }

  ghost predicate DataIs(frames: seq<Frame>, r: seq<Byte>)
  {
    exists i: nat :: OnlyData(frames, i) && frames[i].payload == r
  }

  /** The frames are those of a successful response with payload `r`. */
  ghost predicate Succeeds(read: TrailerReader, frames: seq<Frame>, r: seq<Byte>)
  {
    TrailersKnown(read, frames) && LastStatus(read, frames, Some(0)) == Some(0) && DataIs(frames, r)
  }

  lemma EncodeFirst(f: Frame, rest: seq<Byte>)
    requires |f.payload| < TWO_32
    ensures var w := Encode(f) + rest;
            && w[0] == f.flag && w[1..5] == BigEndian(|f.payload|)
            && w[5..5 + |f.payload|] == f.payload && w[5 + |f.payload|..] == rest
  {
    var w := Encode(f) + rest;
    assert w == [f.flag] + (BigEndian(|f.payload|) + (f.payload + rest));
    assert w[1..] == BigEndian(|f.payload|) + (f.payload + rest);
    assert w[5..] == f.payload + rest;
  }

  /** A window splits into frames in at most one way. */
  lemma {:induction false} SplitUnique(fs: seq<Frame>, gs: seq<Frame>)
    requires Sized(fs) && Sized(gs) && EncodeAll(fs) == EncodeAll(gs)
    ensures fs == gs
  {
    if fs != [] && gs != [] {
      EncodeFirst(fs[0], EncodeAll(fs[1..]));
      EncodeFirst(gs[0], EncodeAll(gs[1..]));
      BigEndianInverse(|fs[0].payload|);
      BigEndianInverse(|gs[0].payload|);
      SplitUnique(fs[1..], gs[1..]);
      assert fs == [fs[0]] + fs[1..] && gs == [gs[0]] + gs[1..];
    }
  }

  /** A frame is read at an offset exactly when its encoding stands there. */
  lemma FrameReads(w: seq<Byte>, offset: nat)
    requires offset < |w|
    ensures FrameAt(w, offset).Ok? ==>
              var f := FrameAt(w, offset).value;
              |f.payload| < TWO_32 && w[offset..] == Encode(f) + w[offset + 5 + |f.payload|..]
  {
    if FrameAt(w, offset).Ok? {
      var f := FrameAt(w, offset).value;
      ReadInverse(w[offset + 1..offset + 5]);
      assert Encode(f) == w[offset..offset + 5 + |f.payload|] by {
        assert w[offset..offset + 5 + |f.payload|] == [w[offset]] + w[offset + 1..offset + 5] + f.payload;
      }
    }
  }

  lemma FrameRead(w: seq<Byte>, offset: nat, f: Frame, rest: seq<Byte>)
    requires offset <= |w| && |f.payload| < TWO_32 && w[offset..] == Encode(f) + rest
    ensures offset < |w| && FrameAt(w, offset) == Ok(f) && w[offset + 5 + |f.payload|..] == rest
  {
    var v := w[offset..];
    EncodeFirst(f, rest);
    BigEndianInverse(|f.payload|);
    assert w[offset] == v[0];
    assert w[offset + 1..offset + 5] == v[1..5];
    assert w[offset + 5..offset + 5 + |f.payload|] == v[5..5 + |f.payload|];
    assert w[offset + 5 + |f.payload|..] == v[5 + |f.payload|..];
  }

  /** The remaining frames complete a successful response, given what was read before them. */
  ghost predicate Completes(read: TrailerReader, frames: seq<Frame>, p: Progress, r: seq<Byte>)
  {
    && TrailersKnown(read, frames)
    && LastStatus(read, frames, p.status) == Some(0)
    && if p.unary.Some? then NoData(frames) && p.unary.value == r else DataIs(frames, r)
  }

  lemma DataFirst(frames: seq<Frame>, r: seq<Byte>)
    requires frames != []
    ensures DataIs(frames, r) <==>
            if frames[0].flag < 128 then NoData(frames[1..]) && frames[0].payload == r else DataIs(frames[1..], r)
  {
    var rest := frames[1..];
    assert forall k | 0 <= k < |rest| :: rest[k] == frames[k + 1];
    if DataIs(frames, r) {
      var i: nat :| OnlyData(frames, i) && frames[i].payload == r;
      if i > 0 {
        assert OnlyData(rest, i - 1) && rest[i - 1].payload == r;
      }
    }
    if frames[0].flag < 128 {
      if NoData(rest) && frames[0].payload == r {
        assert forall k | 0 < k < |frames| :: frames[k] == rest[k - 1];
        assert OnlyData(frames, 0);
      }
    } else if DataIs(rest, r) {
      var i: nat :| OnlyData(rest, i) && rest[i].payload == r;
      assert forall k | 0 < k < |frames| :: frames[k] == rest[k - 1];
      assert OnlyData(frames, i + 1) && frames[i + 1].payload == r;
    }
  }

  lemma NoDataFirst(frames: seq<Frame>)
    requires frames != []
    ensures NoData(frames) <==> frames[0].flag >= 128 && NoData(frames[1..])
  {
    assert forall k | 0 < k < |frames| :: frames[k] == frames[1..][k - 1];
  }

  lemma TrailersFirst(read: TrailerReader, frames: seq<Frame>)
    requires frames != []
    ensures TrailersKnown(read, frames) <==>
            (frames[0].flag >= 128 ==> read(frames[0].payload).Some?) && TrailersKnown(read, frames[1..])
  {
    assert forall k | 0 < k < |frames| :: frames[k] == frames[1..][k - 1];
  }

  lemma CompletesFirst(read: TrailerReader, f: Frame, rest: seq<Frame>, p: Progress, r: seq<Byte>)
    ensures Completes(read, [f] + rest, p, r) <==>
            Absorb(read, f, p).Ok? && Completes(read, rest, Absorb(read, f, p).value, r)
  {
    var frames := [f] + rest;
    assert frames[1..] == rest;
    DataFirst(frames, r);
    NoDataFirst(frames);
    TrailersFirst(read, frames);
  }

  /** What the decoder returns comes from frames that complete a successful response. */
  lemma {:induction false} DecodedFrames(read: TrailerReader, w: seq<Byte>, offset: nat, p: Progress, r: seq<Byte>)
    returns (frames: seq<Frame>)
    requires offset <= |w| && DecodeFrom(read, w, offset, p) == Ok(r)
    ensures Sized(frames) && EncodeAll(frames) == w[offset..] && Completes(read, frames, p, r)
    decreases |w| - offset
  {
    if offset == |w| {
      frames := [];
    } else {
      var f := FrameAt(w, offset).value;
      FrameReads(w, offset);
      var rest := DecodedFrames(read, w, offset + 5 + |f.payload|, Absorb(read, f, p).value, r);
      CompletesFirst(read, f, rest, p, r);
      frames := [f] + rest;
      assert frames[1..] == rest;
    }
  }

  lemma FirstFrame(w: seq<Byte>, offset: nat, frames: seq<Frame>) returns (next: nat)
    requires offset <= |w| && Sized(frames) && frames != [] && EncodeAll(frames) == w[offset..]
    ensures offset < |w| && FrameAt(w, offset) == Ok(frames[0]) && next == offset + 5 + |frames[0].payload| <= |w|
    ensures Sized(frames[1..]) && EncodeAll(frames[1..]) == w[next..]
  {
    FrameRead(w, offset, frames[0], EncodeAll(frames[1..]));
    next := offset + 5 + |frames[0].payload|;
  }

  lemma FirstAbsorbed(read: TrailerReader, frames: seq<Frame>, p: Progress, r: seq<Byte>) returns (q: Progress)
    requires frames != [] && Completes(read, frames, p, r)
    ensures Absorb(read, frames[0], p) == Ok(q) && Completes(read, frames[1..], q, r)
  {
    assert frames == [frames[0]] + frames[1..];
    CompletesFirst(read, frames[0], frames[1..], p, r);
    q := Absorb(read, frames[0], p).value;
  }

  /** What the frames come to, one after the other. */
  ghost function Folded(read: TrailerReader, frames: seq<Frame>, p: Progress): Result<seq<Byte>, DecodeError>
  {
    if frames == [] then Conclude(p)
    else
      match Absorb(read, frames[0], p)
      case Err(e) => Err(e)
      case Ok(q) => Folded(read, frames[1..], q)
  }

  lemma FoldNone(read: TrailerReader, w: seq<Byte>, offset: nat, frames: seq<Frame>, p: Progress)
    requires offset <= |w| && frames == [] && w[offset..] == []
    ensures DecodeFrom(read, w, offset, p) == Folded(read, frames, p)
  {
    assert |w[offset..]| == |w| - offset;
  }

  lemma FoldNext(read: TrailerReader, w: seq<Byte>, offset: nat, next: nat, frames: seq<Frame>, p: Progress)
    requires offset < |w| && frames != [] && FrameAt(w, offset) == Ok(frames[0])
    requires next == offset + 5 + |frames[0].payload| <= |w|
    requires var a := Absorb(read, frames[0], p);
             a.Ok? ==> DecodeFrom(read, w, next, a.value) == Folded(read, frames[1..], a.value)
    ensures DecodeFrom(read, w, offset, p) == Folded(read, frames, p)
  {
  }

  lemma {:induction false} FramesFolded(read: TrailerReader, w: seq<Byte>, offset: nat, frames: seq<Frame>, p: Progress)
    requires offset <= |w| && Sized(frames) && EncodeAll(frames) == w[offset..]
    ensures DecodeFrom(read, w, offset, p) == Folded(read, frames, p)
    decreases |frames|
  {
    if frames == [] {
      FoldNone(read, w, offset, frames, p);
    } else {
      var next := FirstFrame(w, offset, frames);
      var a := Absorb(read, frames[0], p);
      if a.Ok? {
        FramesFolded(read, w, next, frames[1..], a.value);
      }
      FoldNext(read, w, offset, next, frames, p);
    }
  }

  lemma {:induction false} FoldedCompletes(read: TrailerReader, frames: seq<Frame>, p: Progress, r: seq<Byte>)
    requires Completes(read, frames, p, r)
    ensures Folded(read, frames, p) == Ok(r)
    decreases |frames|
  {
    if frames != [] {
      var q := FirstAbsorbed(read, frames, p, r);
      FoldedCompletes(read, frames[1..], q, r);
    }
  }

  /** Frames that complete a successful response are decoded to it. */
  lemma FramesDecoded(read: TrailerReader, w: seq<Byte>, offset: nat, frames: seq<Frame>, p: Progress, r: seq<Byte>)
    requires offset <= |w| && Sized(frames) && EncodeAll(frames) == w[offset..]
    requires Completes(read, frames, p, r)
    ensures DecodeFrom(read, w, offset, p) == Ok(r)
  {
    FramesFolded(read, w, offset, frames, p);
    FoldedCompletes(read, frames, p, r);
  }

  /**
   The decoder returns `r` exactly when the window splits into frames with one data frame, of
   payload `r`, and grpc-status trailers of which the last, if any, is 0; `SplitUnique` says the
   split is the only one. This holds for every way of reading trailers.
   */
  lemma DecodeCharacterised(read: TrailerReader, w: seq<Byte>, r: seq<Byte>)
    ensures Decode(read, w) == Ok(r) <==>
            exists frames :: Sized(frames) && EncodeAll(frames) == w && Succeeds(read, frames, r)
  {
    assert w[0..] == w;
    if Decode(read, w) == Ok(r) {
      var frames := DecodedFrames(read, w, 0, START, r);
      assert Succeeds(read, frames, r);
    }
    if exists frames :: Sized(frames) && EncodeAll(frames) == w && Succeeds(read, frames, r) {
      var frames :| Sized(frames) && EncodeAll(frames) == w && Succeeds(read, frames, r);
      FramesDecoded(read, w, 0, frames, START, r);
    }
  }

  // ----- the encoder

  /** One data frame; `setUint32` stores the length modulo 2^32. */
  function EncodedRequest(data: seq<Byte>): (r: seq<Byte>)
  {
    [0] + BigEndian(|data| % TWO_32) + data
  }

  method EncodeRequest(data: array<Byte>) returns (frame: array<Byte>)
    ensures fresh(frame) && frame[..] == EncodedRequest(data[..])
    ensures frame.Length == data.Length + 5 && frame[0] == 0 && frame[5..] == data[..]
    ensures Number(frame[1..5]) == data.Length % 0x1_0000_0000
  {
    frame := new Byte[data.Length + 5](_ => 0);
    var length := BigEndian(data.Length % TWO_32);
    for i := 0 to 4
      invariant frame[0] == 0 && forall k | 0 <= k < i :: frame[1 + k] == length[k]
    {
      frame[1 + i] := length[i];
    }
    for i := 0 to data.Length
      invariant frame[0] == 0 && forall k | 0 <= k < 4 :: frame[1 + k] == length[k]
      invariant forall k | 0 <= k < i :: frame[5 + k] == data[k]
    {
      frame[5 + i] := data[i];
    }
    ghost var expected := EncodedRequest(data[..]);
    forall k | 0 <= k < |expected| ensures frame[k] == expected[k] {
      assert k >= 5 ==> frame[5 + (k - 5)] == data[k - 5];
      assert 1 <= k < 5 ==> frame[1 + (k - 1)] == length[k - 1];
    }
    assert frame[..] == expected;
    BigEndianNumber(data.Length % TWO_32);
    assert frame[1..5] == length;
  }

  lemma PayloadBounded(read: TrailerReader, w: seq<Byte>, r: seq<Byte>)
    requires Decode(read, w) == Ok(r)
    ensures |r| < TWO_32
  {
    DecodeCharacterised(read, w, r);
  }

  lemma OneEncoded(data: seq<Byte>, frames: seq<Frame>)
    requires |data| < TWO_32 && frames == [Frame(0, data)]
    ensures Sized(frames) && EncodeAll(frames) == EncodedRequest(data)
  {
    assert |data| % TWO_32 == |data|;
    var f := Frame(0, data);
    assert Encode(f) == EncodedRequest(data);
    var none := frames[1..];
    assert none == [] && EncodeAll(none) == [];
    assert EncodeAll(frames) == Encode(f) + [];
  }

  lemma OneSucceeds(read: TrailerReader, data: seq<Byte>, frames: seq<Frame>)
    requires frames == [Frame(0, data)]
    ensures Succeeds(read, frames, data)
  {
    assert OnlyData(frames, 0);
    assert frames[1..] == [] && LastStatus(read, frames[1..], Some(0)) == Some(0);
  }

  /** Decoding an encoded request gives the data back exactly when its length fits 32 bits. */
  lemma RequestRoundTrip(read: TrailerReader, data: seq<Byte>)
    ensures Decode(read, EncodedRequest(data)) == Ok(data) <==> |data| < TWO_32
  {
    if Decode(read, EncodedRequest(data)) == Ok(data) {
      PayloadBounded(read, EncodedRequest(data), data);
    }
    if |data| < TWO_32 {
      OneEncoded(data, [Frame(0, data)]);
      OneSucceeds(read, data, [Frame(0, data)]);
      DecodeCharacterised(read, EncodedRequest(data), data);
    }
  }
}
