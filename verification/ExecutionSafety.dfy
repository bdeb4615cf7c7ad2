/** What every run of the retry loop keeps. */
module ExecutionSafety {
  import opened Results
  import opened Backoffs
  import opened NetworkState
  import opened ExecutionRuns

  // ----- the events of one pass

  /** What one pass can log, and how the loop goes on after it. */
  ghost predicate Shape<N>(events: seq<Event<N>>, verdict: Verdict, last: Option<Problem>, delay: real)
  {
    || (events == [] && verdict == Continue(last))
    || (events == [] && verdict.Stop?
        && (verdict.ending.TimedOut? || verdict.ending.NoNode? || verdict.ending.NotBuilt?))
    || (|events| == 1 && events[0].Sent?
        && verdict.Stop? && verdict.ending.Threw? && !Retryable(verdict.ending.failure))
    || (|events| == 2 && events[0].Sent? && events[1].BackedOff? && events[1].node == events[0].node
        && Retryable(events[1].failure) && verdict == Continue(Some(Rpc(events[1].failure))))
    || (|events| == 2 && events[0].Sent? && events[1].Replied? && events[1].node == events[0].node
        && ((events[1].state == Finished && verdict == Stop(Returned))
            || (events[1].state == Error && verdict == Stop(StatusError))))
    || (|events| == 3 && events[0].Sent? && events[1].Replied?
        && events[1].node == events[0].node && events[1].state == Retry
        && events[2] == Slept(delay)
        && verdict == Continue(if events[1].status.Some? then Some(Status(events[1].status.value)) else last))
  }

  lemma AttemptShape<N>(s: Net<N>, lim: Limits, attempt: nat, p: Pass, last: Option<Problem>)
    requires Valid(s, p.selectTime) && ValidDraw(s, p.draw)
    ensures var r := Attempt(s, lim, attempt, p, last);
            Shape(r.events, r.verdict, last, Delay(attempt, lim.minBackoff, lim.maxBackoff))
  {
    if !Expired(lim.deadline, p.checkTime) {
      ReadmitExact(s, p.selectTime);
      ProceedShape(Readmit(s, p.selectTime), lim, attempt, p, last);
    }
  }

  lemma ProceedShape<N>(s: Net<N>, lim: Limits, attempt: nat, p: Pass, last: Option<Problem>)
    requires Valid(s, p.selectTime) && ValidDraw(s, p.draw)
    ensures var r := Proceed(s, lim, attempt, p, last);
            Shape(r.events, r.verdict, last, Delay(attempt, lim.minBackoff, lim.maxBackoff))
  {
    var chosen := Chosen(s, p.key, p.draw);
    if chosen.Ok? && p.built {
      ChosenKnown(s, p.selectTime, p.key, p.draw);
      ExchangeShape(s, lim, attempt, p, chosen.value, last);
    }
  }

  lemma ExchangeShape<N>(s: Net<N>, lim: Limits, attempt: nat, p: Pass, n: N, last: Option<Problem>)
    requires n in s.info
    ensures var r := Exchange(s, lim, attempt, p, n, last);
            Shape(r.events, r.verdict, last, Delay(attempt, lim.minBackoff, lim.maxBackoff))
  {
  }

  // ----- counting

  datatype Kind = Sending | BackingOff | Replying | Sleeping

  function KindOf<N>(e: Event<N>): Kind
  {
    match e
    case Sent(_, _) => Sending
    case BackedOff(_, _, _, _) => BackingOff
    case Replied(_, _, _) => Replying
    case Slept(_) => Sleeping
  }

  function Count<N>(events: seq<Event<N>>, k: Kind): nat
  {
    if events == [] then 0 else (if KindOf(events[0]) == k then 1 else 0) + Count(events[1..], k)
  }

  lemma {:induction false} CountAppend<N>(a: seq<Event<N>>, b: seq<Event<N>>, k: Kind)
    ensures Count(a + b, k) == Count(a, k) + Count(b, k)
  {
    if a == [] {
      assert a + b == b;
    } else {
      CountAppend(a[1..], b, k);
      assert (a + b)[1..] == a[1..] + b;
    }
  }

  /** Sends are backoffs plus replies, except for one that raised an error the loop does not retry. */
  ghost predicate Accounted<N>(events: seq<Event<N>>, threw: bool)
  {
    Count(events, Sending) == Count(events, BackingOff) + Count(events, Replying) + if threw then 1 else 0
  }

  lemma ShapeAccounted<N>(events: seq<Event<N>>, verdict: Verdict, last: Option<Problem>, delay: real)
    requires Shape(events, verdict, last, delay)
    ensures Accounted(events, verdict.Stop? && verdict.ending.Threw?) && Count(events, Sending) <= 1
  {
    if |events| > 0 {
      CountTwo(events, Sending);
      CountTwo(events, BackingOff);
      CountTwo(events, Replying);
    }
  }

  lemma CountTwo<N>(events: seq<Event<N>>, k: Kind)
    requires 1 <= |events| <= 3
    ensures Count(events, k) == (if KindOf(events[0]) == k then 1 else 0)
                                + (if |events| > 1 && KindOf(events[1]) == k then 1 else 0)
                                + (if |events| > 2 && KindOf(events[2]) == k then 1 else 0)
  {
    assert Count(events[1..], k) ==
           if |events| == 1 then 0 else (if KindOf(events[1]) == k then 1 else 0) + Count(events[1..][1..], k);
    if |events| > 1 {
      assert Count(events[1..][1..], k) ==
             if |events| == 2 then 0 else (if KindOf(events[2]) == k then 1 else 0) + Count(events[1..][1..][1..], k);
    }
  }

  /** Passes left from the given attempt on. */
  function Left(lim: Limits, attempt: nat): nat
  {
    if attempt > lim.maxAttempts then 0 else lim.maxAttempts - attempt + 1
  }

  /** The first pass of a run. */
  lemma RunStep<N>(s: Net<N>, now: real, lim: Limits, attempt: nat, passes: seq<Pass>, last: Option<Problem>)
    returns (r: PassResult<N>)
    requires Valid(s, now) && PassesFit(s.index, passes, now) && attempt <= lim.maxAttempts && passes != []
    ensures Valid(s, passes[0].selectTime) && r == Attempt(s, lim, attempt, passes[0], last)
    ensures Shape(r.events, r.verdict, last, Delay(attempt, lim.minBackoff, lim.maxBackoff))
    ensures Valid(r.net, passes[0].doneTime) && Alike(s, r.net)
    ensures Run(s, now, lim, attempt, passes, last) ==
            match r.verdict
            case Stop(ending) => RunResult(r.net, r.events, ending, 1)
            case Continue(problem) =>
              var rest := Run(r.net, passes[0].doneTime, lim, attempt + 1, passes[1..], problem);
              RunResult(rest.net, r.events + rest.events, rest.ending, rest.used + 1)
  {
    ValidLater(s, now, passes[0].selectTime);
    AttemptKeeps(s, lim, attempt, passes[0], last);
    AttemptShape(s, lim, attempt, passes[0], last);
    r := Attempt(s, lim, attempt, passes[0], last);
  }

  ghost predicate WithinLimits<N>(r: RunResult<N>, left: nat, supplied: nat)
  {
    && r.used <= left && r.used <= supplied
    && Count(r.events, Sending) <= r.used
    && (supplied >= left ==> !r.ending.Unfinished?)
    && (r.ending.OutOfAttempts? ==> r.used == left)
  }

  lemma ExtendLimits<N>(events: seq<Event<N>>, rest: RunResult<N>, left: nat, supplied: nat)
    requires Count(events, Sending) <= 1 && WithinLimits(rest, left, supplied)
    ensures WithinLimits(RunResult(rest.net, events + rest.events, rest.ending, rest.used + 1), left + 1, supplied + 1)
  {
    CountAppend(events, rest.events, Sending);
  }

  // ----- how a log ends

  ghost predicate EndsWith<N>(events: seq<Event<N>>, state: ResponseState)
  {
    events != [] && events[|events| - 1].Replied? && events[|events| - 1].state == state
  }

  ghost predicate AnsweredBy<N>(sent: Event<N>, next: Event<N>)
  {
    sent.Sent? ==> (next.BackedOff? && next.node == sent.node) || (next.Replied? && next.node == sent.node)
  }

  /** The log tells how the run ended: with the last event only, and every earlier send was answered at once. */
  ghost predicate EndingTold<N>(events: seq<Event<N>>, ending: Ending)
  {
    && (ending.Returned? <==> EndsWith(events, Finished))
    && (ending.StatusError? <==> EndsWith(events, Error))
    && (ending.Threw? <==> events != [] && events[|events| - 1].Sent?)
    && (forall i | 0 <= i < |events| - 1 && events[i].Replied? :: events[i].state == Retry)
    && (forall i | 0 <= i < |events| - 1 :: AnsweredBy(events[i], events[i + 1]))
  }

  lemma ShapeTold<N>(events: seq<Event<N>>, verdict: Verdict, last: Option<Problem>, delay: real)
    requires Shape(events, verdict, last, delay) && verdict.Stop?
    ensures EndingTold(events, verdict.ending)
  {
  }

  lemma ExtendTold<N>(events: seq<Event<N>>, verdict: Verdict, last: Option<Problem>, delay: real, rest: seq<Event<N>>,
          ending: Ending)
    requires Shape(events, verdict, last, delay) && verdict.Continue? && EndingTold(rest, ending)
    ensures EndingTold(events + rest, ending)
  {
    var all := events + rest;
    if rest == [] {
      assert all == events;
    } else if events != [] {
      assert all[|all| - 1] == rest[|rest| - 1];
      forall i | 0 <= i < |all| - 1
        ensures AnsweredBy(all[i], all[i + 1]) && (all[i].Replied? ==> all[i].state == Retry) {
        if i >= |events| {
          assert all[i] == rest[i - |events|] && all[i + 1] == rest[i - |events| + 1];
        }
      }
    } else {
      assert all == rest;
    }
  }

  // ----- the error that is reported

  function LastProblem<N>(events: seq<Event<N>>, before: Option<Problem>): Option<Problem>
  {
    if events == [] then before
    else
      match events[|events| - 1]
      case BackedOff(_, _, _, f) => Some(Rpc(f))
      case Replied(_, _, Some(text)) => Some(Status(text))
      case _ => LastProblem(events[..|events| - 1], before)
  }

  lemma {:induction false} LastProblemAppend<N>(a: seq<Event<N>>, b: seq<Event<N>>, before: Option<Problem>)
    ensures LastProblem(a + b, before) == LastProblem(b, LastProblem(a, before))
  {
    if b == [] {
      assert a + b == a;
    } else {
      LastProblemAppend(a, b[..|b| - 1], before);
      assert (a + b)[..|a + b| - 1] == a + b[..|b| - 1];
    }
  }

  lemma ShapeProblem<N>(events: seq<Event<N>>, verdict: Verdict, last: Option<Problem>, delay: real)
    requires Shape(events, verdict, last, delay) && verdict.Continue?
    ensures LastProblem(events, last) == verdict.last
  {
    if |events| == 3 {
      SendOnly(events[..1], last);
      assert events[..2][..1] == events[..1];
      assert LastProblem(events[..2], last) ==
             if events[1].status.Some? then Some(Status(events[1].status.value)) else LastProblem(events[..1], last);
    }
  }

  lemma SendOnly<N>(events: seq<Event<N>>, before: Option<Problem>)
    requires |events| == 1 && events[0].Sent?
    ensures LastProblem(events, before) == before
  {
  }

  // ----- the sleeps between retries

  /** The sleeps never get shorter and stay within the bounds. */
  ghost predicate SleepsOrdered<N>(events: seq<Event<N>>, low: real, high: real)
  {
    && (forall i | 0 <= i < |events| && events[i].Slept? :: low <= events[i].ms <= high)
    && (forall i, j | 0 <= i < j < |events| && events[i].Slept? && events[j].Slept? :: events[i].ms <= events[j].ms)
  }

  lemma {:induction false} DoubledGrows(x: real, k: nat)
    requires 0.0 <= x
    ensures 0.0 <= Doubled(x, k) <= Doubled(x, k + 1)
  {
    if k > 0 {
      DoubledGrows(x, k - 1);
    }
  }

  lemma FloorOrdered(x: real, y: real)
    requires x <= y
    ensures x.Floor <= y.Floor
  {
  }

  lemma DelayGrows(attempt: nat, minBackoff: real, maxBackoff: real)
    requires 0.0 <= minBackoff
    ensures Delay(attempt, minBackoff, maxBackoff) <= Delay(attempt + 1, minBackoff, maxBackoff) <= maxBackoff
  {
    DoubledGrows(minBackoff, attempt);
    FloorOrdered(Doubled(minBackoff, attempt), Doubled(minBackoff, attempt + 1));
  }

  lemma ExtendSleeps<N>(events: seq<Event<N>>, verdict: Verdict, last: Option<Problem>, delay: real,
          rest: seq<Event<N>>, low: real, high: real)
    requires Shape(events, verdict, last, delay) && delay <= low && delay <= high && SleepsOrdered(rest, low, high)
    ensures SleepsOrdered(events + rest, delay, high)
  {
    var all := events + rest;
    forall i | 0 <= i < |all| && all[i].Slept? ensures delay <= all[i].ms <= high {
      if i >= |events| { assert all[i] == rest[i - |events|]; }
    }
    forall i, j | 0 <= i < j < |all| && all[i].Slept? && all[j].Slept? ensures all[i].ms <= all[j].ms {
      assert j >= |events| && all[j] == rest[j - |events|];
      if i >= |events| { assert all[i] == rest[i - |events|]; }
    }
  }

  // ----- the main result

  ghost predicate Safe<N>(r: RunResult<N>, lim: Limits, attempt: nat, supplied: nat, last: Option<Problem>)
  {
    && WithinLimits(r, Left(lim, attempt), supplied)
    && Accounted(r.events, r.ending.Threw?)
    && EndingTold(r.events, r.ending)
    && (r.ending.OutOfAttempts? ==> r.ending.last == LastProblem(r.events, last))
    && (r.ending.Threw? ==> !Retryable(r.ending.failure))
    && (0.0 <= lim.minBackoff ==>
        SleepsOrdered(r.events, Delay(attempt, lim.minBackoff, lim.maxBackoff), lim.maxBackoff))
  }

  lemma StopSafe<N>(net: Net<N>, events: seq<Event<N>>, verdict: Verdict, lim: Limits, attempt: nat, supplied: nat,
          last: Option<Problem>)
    requires Shape(events, verdict, last, Delay(attempt, lim.minBackoff, lim.maxBackoff)) && verdict.Stop?
    requires attempt <= lim.maxAttempts && supplied > 0
    ensures Safe(RunResult(net, events, verdict.ending, 1), lim, attempt, supplied, last)
  {
    ShapeAccounted(events, verdict, last, Delay(attempt, lim.minBackoff, lim.maxBackoff));
    ShapeTold(events, verdict, last, Delay(attempt, lim.minBackoff, lim.maxBackoff));
  }

  lemma ContinueSafe<N>(events: seq<Event<N>>, verdict: Verdict, rest: RunResult<N>, lim: Limits, attempt: nat,
          supplied: nat, last: Option<Problem>)
    requires Shape(events, verdict, last, Delay(attempt, lim.minBackoff, lim.maxBackoff)) && verdict.Continue?
    requires attempt <= lim.maxAttempts && supplied > 0 && Safe(rest, lim, attempt + 1, supplied - 1, verdict.last)
    ensures Safe(RunResult(rest.net, events + rest.events, rest.ending, rest.used + 1), lim, attempt, supplied, last)
  {
    var delay := Delay(attempt, lim.minBackoff, lim.maxBackoff);
    ShapeAccounted(events, verdict, last, delay);
    ExtendLimits(events, rest, Left(lim, attempt + 1), supplied - 1);
    CountAppend(events, rest.events, Sending);
    CountAppend(events, rest.events, BackingOff);
    CountAppend(events, rest.events, Replying);
    ExtendTold(events, verdict, last, delay, rest.events, rest.ending);
    LastProblemAppend(events, rest.events, last);
    ShapeProblem(events, verdict, last, delay);
    if 0.0 <= lim.minBackoff {
      DelayGrows(attempt, lim.minBackoff, lim.maxBackoff);
      ExtendSleeps(events, verdict, last, delay, rest.events, Delay(attempt + 1, lim.minBackoff, lim.maxBackoff),
          lim.maxBackoff);
    }
  }

  /**
   Every run of the loop, from any state and whatever the environment answers: at most the allowed
   number of passes and at most one send in each, and always an end once enough passes are given;
   every send is answered by a backoff or a reply except a last one whose error is thrown; the run
   returns exactly when the last reply is final; running out of attempts reports the last problem;
   and the sleeps between retries never get shorter nor exceed the cap.
   */
  lemma {:induction false} RunSafe<N>(s: Net<N>, now: real, lim: Limits, attempt: nat, passes: seq<Pass>,
          last: Option<Problem>)
    requires Valid(s, now) && PassesFit(s.index, passes, now)
    ensures Safe(Run(s, now, lim, attempt, passes, last), lim, attempt, |passes|, last)
    decreases |passes|
  {
    if attempt <= lim.maxAttempts && passes != [] {
      var r := RunStep(s, now, lim, attempt, passes, last);
      if r.verdict.Continue? {
        RunSafe(r.net, passes[0].doneTime, lim, attempt + 1, passes[1..], r.verdict.last);
        var rest := Run(r.net, passes[0].doneTime, lim, attempt + 1, passes[1..], r.verdict.last);
        ContinueSafe(r.events, r.verdict, rest, lim, attempt, |passes|, last);
      } else {
        StopSafe(r.net, r.events, r.verdict, lim, attempt, |passes|, last);
      }
    }
  }
}
