/** Which error a window that is not a successful response is decoded to. */
module FrameErrors {
  import opened Results
  import Hex
  import opened BigEndians
  import opened FrameCodec

  predicate IsData(f: Frame)
  {
    f.flag < 128
  }

  /** No data frame when one was seen before, and otherwise at most one. */
  ghost predicate AtMostOneData(frames: seq<Frame>, seen: bool)
  {
    && (seen ==> NoData(frames))
    && forall i, j | 0 <= i < j < |frames| :: !(IsData(frames[i]) && IsData(frames[j]))
  }

  /** The frames before `j` cause no error. */
  ghost predicate FineBefore(read: TrailerReader, frames: seq<Frame>, seen: bool, j: nat)
    requires j <= |frames|
  {
    TrailersKnown(read, frames[..j]) && AtMostOneData(frames[..j], seen)
  }

  /** Frame `j` is the first to cause an error, as a second data frame. */
  ghost predicate SecondData(read: TrailerReader, frames: seq<Frame>, seen: bool, j: nat)
  {
    j < |frames| && FineBefore(read, frames, seen, j) && IsData(frames[j]) && (seen || !NoData(frames[..j]))
  }

  /** Frame `j` is the first to cause an error, as a trailer of another name. */
  ghost predicate UnknownTrailer(read: TrailerReader, frames: seq<Frame>, seen: bool, j: nat)
  {
    j < |frames| && FineBefore(read, frames, seen, j) && !IsData(frames[j]) && read(frames[j].payload).None?
  }

  ghost predicate Outcome(read: TrailerReader, frames: seq<Frame>, p: Progress, r: Result<seq<Hex.Byte>, DecodeError>)
  {
    var seen := p.unary.Some?;
    || (r == Err(MoreThanOneData) && exists j: nat :: SecondData(read, frames, seen, j))
    || (r == Err(UnhandledTrailer) && exists j: nat :: UnknownTrailer(read, frames, seen, j))
    || (FineBefore(read, frames, seen, |frames|)
        && var s := LastStatus(read, frames, p.status);
           if s != Some(0) then r == Err(GrpcStatus(s))
           else if !seen && NoData(frames) then r == Err(NoResponse)
           else r.Ok?)
  }

  lemma FineNone(read: TrailerReader, frames: seq<Frame>, seen: bool)
    ensures FineBefore(read, frames, seen, 0)
  {
  }

  lemma FineNext(read: TrailerReader, frames: seq<Frame>, seen: bool, j: nat)
    requires j < |frames|
    requires !(IsData(frames[0]) && seen) && (!IsData(frames[0]) ==> read(frames[0].payload).Some?)
    requires FineBefore(read, frames[1..], seen || IsData(frames[0]), j)
    ensures FineBefore(read, frames, seen, j + 1)
    ensures (seen || IsData(frames[0]) || !NoData(frames[1..][..j])) ==> seen || !NoData(frames[..j + 1])
  {
    var head, tail := frames[..j + 1], frames[1..][..j];
    assert head == [frames[0]] + tail;
    forall i | 0 <= i < |tail| ensures head[i + 1] == tail[i] {
    }
    if IsData(frames[0]) {
      assert IsData(head[0]);
    }
  }

  lemma {:induction false} FoldedOutcome(read: TrailerReader, frames: seq<Frame>, p: Progress)
    ensures Outcome(read, frames, p, Folded(read, frames, p))
    decreases |frames|
  {
    var seen := p.unary.Some?;
    if frames == [] {
      FineNone(read, frames, seen);
    } else {
      FineNone(read, frames, seen);
      var f := frames[0];
      if IsData(f) && seen {
        assert SecondData(read, frames, seen, 0);
      } else if !IsData(f) && read(f.payload).None? {
        assert UnknownTrailer(read, frames, seen, 0);
      } else {
        var q := Absorb(read, f, p).value;
        FoldedOutcome(read, frames[1..], q);
        OutcomeLater(read, frames, p, q, Folded(read, frames[1..], q));
      }
    }
  }

  lemma {:induction false} OutcomeLater(read: TrailerReader, frames: seq<Frame>, p: Progress, q: Progress,
          r: Result<seq<Hex.Byte>, DecodeError>)
    requires frames != [] && Absorb(read, frames[0], p) == Ok(q) && Outcome(read, frames[1..], q, r)
    ensures Outcome(read, frames, p, r)
  {
    var seen, later := p.unary.Some?, q.unary.Some?;
    if r == Err(MoreThanOneData) && exists j: nat :: SecondData(read, frames[1..], later, j) {
      var j: nat :| SecondData(read, frames[1..], later, j);
      SecondLater(read, frames, seen, j);
    } else if r == Err(UnhandledTrailer) && exists j: nat :: UnknownTrailer(read, frames[1..], later, j) {
      var j: nat :| UnknownTrailer(read, frames[1..], later, j);
      UnknownLater(read, frames, seen, j);
    } else {
      FineLater(read, frames, seen);
    }
  }

  lemma SecondLater(read: TrailerReader, frames: seq<Frame>, seen: bool, j: nat)
    requires frames != [] && !(IsData(frames[0]) && seen) && (!IsData(frames[0]) ==> read(frames[0].payload).Some?)
    requires SecondData(read, frames[1..], seen || IsData(frames[0]), j)
    ensures SecondData(read, frames, seen, j + 1)
  {
    FineNext(read, frames, seen, j);
  }

  lemma UnknownLater(read: TrailerReader, frames: seq<Frame>, seen: bool, j: nat)
    requires frames != [] && !(IsData(frames[0]) && seen) && (!IsData(frames[0]) ==> read(frames[0].payload).Some?)
    requires UnknownTrailer(read, frames[1..], seen || IsData(frames[0]), j)
    ensures UnknownTrailer(read, frames, seen, j + 1)
  {
    FineNext(read, frames, seen, j);
  }

  lemma FineLater(read: TrailerReader, frames: seq<Frame>, seen: bool)
    requires frames != [] && !(IsData(frames[0]) && seen) && (!IsData(frames[0]) ==> read(frames[0].payload).Some?)
    requires FineBefore(read, frames[1..], seen || IsData(frames[0]), |frames| - 1)
    ensures FineBefore(read, frames, seen, |frames|)
    ensures !seen && NoData(frames) <==> !(seen || IsData(frames[0])) && NoData(frames[1..])
  {
    FineNext(read, frames, seen, |frames| - 1);
    assert frames == [frames[0]] + frames[1..];
  }

  /** The last status is that of the last trailer, or the initial one when there is none. */
  lemma {:induction false} LastStatusIs(read: TrailerReader, frames: seq<Frame>, initial: Option<int>, k: nat)
    requires TrailersKnown(read, frames)
    ensures (forall i | 0 <= i < |frames| :: IsData(frames[i])) ==> LastStatus(read, frames, initial) == initial
    ensures k < |frames| && !IsData(frames[k]) && (forall i | k < i < |frames| :: IsData(frames[i])) ==>
              read(frames[k].payload) == Some(LastStatus(read, frames, initial))
    decreases |frames|
  {
    if frames != [] {
      var trailer := read(frames[0].payload);
      var next := if !IsData(frames[0]) && trailer.Some? then trailer.value else initial;
      LastStatusIs(read, frames[1..], next, if k > 0 then k - 1 else 0);
      assert forall i | 0 < i < |frames| :: frames[i] == frames[1..][i - 1];
    }
  }

  /**
   A window of frames, whatever their number and kind: the first frame that is a second data frame or
   a trailer of another name decides the error; without one, a last status other than 0 is reported,
   then the lack of data.
   */
  lemma DecodeErrors(read: TrailerReader, frames: seq<Frame>)
    requires Sized(frames)
    ensures Outcome(read, frames, START, Decode(read, EncodeAll(frames)))
  {
    var w := EncodeAll(frames);
    assert w[0..] == w;
    FramesFolded(read, w, 0, frames, START);
    FoldedOutcome(read, frames, START);
  }

  /** What follows the frames of a window but is not a whole frame: no header, or a payload past the boundary. */
  lemma {:induction false} Truncated(read: TrailerReader, frames: seq<Frame>, rest: seq<Hex.Byte>)
    requires Sized(frames) && FineBefore(read, frames, false, |frames|) && rest != []
    requires |rest| >= 5 ==> 5 + ReadBigEndian(rest[1..5]) > |rest|
    ensures Decode(read, EncodeAll(frames) + rest) == Err(if |rest| < 5 then OutOfBounds else PastBoundary)
  {
    var w := EncodeAll(frames) + rest;
    assert w[0..] == w && frames[..|frames|] == frames;
    TruncatedFrom(read, w, 0, frames, rest, START);
  }

  lemma {:induction false} TruncatedFrom(read: TrailerReader, w: seq<Hex.Byte>, offset: nat, frames: seq<Frame>,
          rest: seq<Hex.Byte>, p: Progress)
    requires offset <= |w| && Sized(frames) && w[offset..] == EncodeAll(frames) + rest && rest != []
    requires TrailersKnown(read, frames) && AtMostOneData(frames, p.unary.Some?)
    requires |rest| >= 5 ==> 5 + ReadBigEndian(rest[1..5]) > |rest|
    ensures DecodeFrom(read, w, offset, p) == Err(if |rest| < 5 then OutOfBounds else PastBoundary)
    decreases |frames|
  {
    if frames == [] {
      assert w[offset..] == rest;
      Incomplete(w, offset, rest);
    } else {
      var next := FirstRead(w, offset, frames, rest);
      var q := FirstFine(read, frames, p);
      TruncatedFrom(read, w, next, frames[1..], rest, q);
      ErrorLater(read, w, offset, next, frames[0], p, q, if |rest| < 5 then OutOfBounds else PastBoundary);
    }
  }

  lemma ErrorLater(read: TrailerReader, w: seq<Hex.Byte>, offset: nat, next: nat, f: Frame, p: Progress, q: Progress,
          e: DecodeError)
    requires offset < |w| && FrameAt(w, offset) == Ok(f) && Absorb(read, f, p) == Ok(q)
    requires next == offset + 5 + |f.payload| <= |w| && DecodeFrom(read, w, next, q) == Err(e)
    ensures DecodeFrom(read, w, offset, p) == Err(e)
  {
  }

  lemma Regrouped<T>(a: seq<T>, b: seq<T>, c: seq<T>)
    ensures a + b + c == a + (b + c)
  {
  }

  lemma FirstRead(w: seq<Hex.Byte>, offset: nat, frames: seq<Frame>, rest: seq<Hex.Byte>) returns (next: nat)
    requires offset <= |w| && Sized(frames) && frames != [] && w[offset..] == EncodeAll(frames) + rest
    ensures offset < |w| && FrameAt(w, offset) == Ok(frames[0]) && next == offset + 5 + |frames[0].payload| <= |w|
    ensures Sized(frames[1..]) && w[next..] == EncodeAll(frames[1..]) + rest
  {
    var f, tail := frames[0], EncodeAll(frames[1..]) + rest;
    Regrouped(FrameCodec.Encode(f), EncodeAll(frames[1..]), rest);
    FrameRead(w, offset, f, tail);
    next := offset + 5 + |f.payload|;
  }

  lemma FirstFine(read: TrailerReader, frames: seq<Frame>, p: Progress) returns (q: Progress)
    requires frames != [] && TrailersKnown(read, frames) && AtMostOneData(frames, p.unary.Some?)
    ensures Absorb(read, frames[0], p) == Ok(q)
    ensures TrailersKnown(read, frames[1..]) && AtMostOneData(frames[1..], q.unary.Some?)
  {
    q := Absorb(read, frames[0], p).value;
  }

  lemma Incomplete(w: seq<Hex.Byte>, offset: nat, rest: seq<Hex.Byte>)
    requires offset <= |w| && w[offset..] == rest && rest != []
    requires |rest| >= 5 ==> 5 + ReadBigEndian(rest[1..5]) > |rest|
    ensures offset < |w| && FrameAt(w, offset) == Err(if |rest| < 5 then OutOfBounds else PastBoundary)
  {
    assert |rest| == |w| - offset;
    if |rest| >= 5 {
      assert w[offset + 1..offset + 5] == rest[1..5];
    }
  }
}
