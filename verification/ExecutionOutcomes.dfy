/** How a run of the retry loop ends, how long it waits and what it does to the backoffs. */
module ExecutionOutcomes {
  import opened Results
  import opened Backoffs
  import opened NetworkState
  import opened ExecutionRuns
  import opened ExecutionSafety

  // ----- the ending

  /**
   A run times out at the first pass whose check finds the deadline reached; otherwise it ends at the
   allowed number of attempts, at a pass that stops it, or where the passes supplied end.
   */
  ghost predicate EndsRightly<N>(r: RunResult<N>, lim: Limits, attempt: nat, passes: seq<Pass>)
  {
    && r.used <= |passes| && r.used <= Left(lim, attempt)
    && (r.ending.TimedOut? <==> r.used > 0 && Expired(lim.deadline, passes[r.used - 1].checkTime))
    && (forall i | 0 <= i < r.used - 1 :: !Expired(lim.deadline, passes[i].checkTime))
    && (r.ending.OutOfAttempts? ==> r.used == Left(lim, attempt))
    && (r.ending.Unfinished? ==> r.used == |passes| < Left(lim, attempt))
    && (r.used == 0 ==> r.ending.OutOfAttempts? || r.ending.Unfinished?)
  }

  lemma {:induction false} RunEnds<N>(s: Net<N>, now: real, lim: Limits, attempt: nat, passes: seq<Pass>,
          last: Option<Problem>)
    requires Valid(s, now) && PassesFit(s.index, passes, now)
    ensures EndsRightly(Run(s, now, lim, attempt, passes, last), lim, attempt, passes)
    decreases |passes|
  {
    if attempt <= lim.maxAttempts && passes != [] {
      var r := RunStep(s, now, lim, attempt, passes, last);
      TimesOut(s, lim, attempt, passes[0], last);
      if r.verdict.Continue? {
        var rest := Run(r.net, passes[0].doneTime, lim, attempt + 1, passes[1..], r.verdict.last);
        RunEnds(r.net, passes[0].doneTime, lim, attempt + 1, passes[1..], r.verdict.last);
        var whole := RunResult(rest.net, r.events + rest.events, rest.ending, rest.used + 1);
        assert Run(s, now, lim, attempt, passes, last) == whole;
        EndsLater(rest, r.events, lim, attempt, passes);
      } else {
        EndsNow(r, lim, attempt, passes);
      }
    }
  }

  lemma EndsNow<N>(r: PassResult<N>, lim: Limits, attempt: nat, passes: seq<Pass>)
    requires passes != [] && attempt <= lim.maxAttempts && r.verdict.Stop? && Plain(r.verdict)
    requires r.verdict == Stop(TimedOut) <==> Expired(lim.deadline, passes[0].checkTime)
    ensures EndsRightly(RunResult(r.net, r.events, r.verdict.ending, 1), lim, attempt, passes)
  {
  }

  /** No pass ends a run as the loop itself does. */
  ghost predicate Plain(v: Verdict)
  {
    v.Stop? ==> !v.ending.OutOfAttempts? && !v.ending.Unfinished?
  }

  lemma ProceedEnding<N>(s: Net<N>, lim: Limits, attempt: nat, p: Pass, last: Option<Problem>)
    requires Valid(s, p.selectTime) && ValidDraw(s, p.draw)
    ensures var v := Proceed(s, lim, attempt, p, last).verdict; Plain(v) && v != Stop(TimedOut)
  {
    if Chosen(s, p.key, p.draw).Ok? {
      ChosenKnown(s, p.selectTime, p.key, p.draw);
    }
  }

  lemma {:induction false} TimesOut<N>(s: Net<N>, lim: Limits, attempt: nat, p: Pass, last: Option<Problem>)
    requires Valid(s, p.selectTime) && ValidDraw(s, p.draw)
    ensures var v := Attempt(s, lim, attempt, p, last).verdict;
            Plain(v) && (v == Stop(TimedOut) <==> Expired(lim.deadline, p.checkTime))
  {
    if !Expired(lim.deadline, p.checkTime) {
      ReadmitExact(s, p.selectTime);
      ProceedEnding(Readmit(s, p.selectTime), lim, attempt, p, last);
    }
  }

  lemma ProceedNoNode<N>(s: Net<N>, lim: Limits, attempt: nat, p: Pass, last: Option<Problem>, error: SelectError)
    requires Valid(s, p.selectTime) && ValidDraw(s, p.draw)
    ensures Proceed(s, lim, attempt, p, last).verdict == Stop(NoNode(error)) <==> Chosen(s, p.key, p.draw) == Err(error)
  {
    if Chosen(s, p.key, p.draw).Ok? {
      ChosenKnown(s, p.selectTime, p.key, p.draw);
    }
  }

  /** A pass stops for want of a node exactly when it is in time and the selection fails, built request or not. */
  lemma {:induction false} NoNodeIff<N>(s: Net<N>, lim: Limits, attempt: nat, p: Pass, last: Option<Problem>,
          error: SelectError)
    requires Valid(s, p.selectTime) && ValidDraw(s, p.draw)
    ensures Valid(Readmit(s, p.selectTime), p.selectTime)
    ensures Attempt(s, lim, attempt, p, last).verdict == Stop(NoNode(error)) <==>
              (lim.deadline.Some? ==> p.checkTime < lim.deadline.value)
              && Chosen(Readmit(s, p.selectTime), p.key, p.draw) == Err(error)
  {
    ReadmitExact(s, p.selectTime);
    if !Expired(lim.deadline, p.checkTime) {
      ProceedNoNode(Readmit(s, p.selectTime), lim, attempt, p, last, error);
    }
  }

  lemma EndsLater<N>(rest: RunResult<N>, events: seq<Event<N>>, lim: Limits, attempt: nat, passes: seq<Pass>)
    requires passes != [] && attempt <= lim.maxAttempts && !Expired(lim.deadline, passes[0].checkTime)
    requires EndsRightly(rest, lim, attempt + 1, passes[1..])
    ensures EndsRightly(RunResult(rest.net, events + rest.events, rest.ending, rest.used + 1), lim, attempt, passes)
  {
    forall i | 0 <= i < rest.used ensures !Expired(lim.deadline, passes[i].checkTime) || i == rest.used {
      assert i > 0 ==> passes[i] == passes[1..][i - 1];
    }
  }

  // ----- the waits

  /** The minimum times 2^k in whole milliseconds, and at most the maximum. */
  ghost predicate WaitIs(ms: real, k: nat, low: real, high: real)
  {
    var wait := (low * Power2(k) as real).Floor as real;
    ms == if wait <= high then wait else high
  }

  lemma DelayClosedForm(k: nat, minBackoff: real, maxBackoff: real)
    ensures WaitIs(Delay(k, minBackoff, maxBackoff), k, minBackoff, maxBackoff)
  {
    DoubledPower(minBackoff, k);
  }

  /** Every wait is the one of an attempt that was made. */
  ghost predicate WaitsOf<N>(events: seq<Event<N>>, lim: Limits, attempt: nat, used: nat)
  {
    forall i | 0 <= i < |events| && events[i].Slept? :: WaitOfSome(events[i].ms, lim, attempt, used)
  }

  ghost predicate WaitOfSome(ms: real, lim: Limits, attempt: nat, used: nat)
  {
    exists k: nat :: attempt <= k < attempt + used && ms == Delay(k, lim.minBackoff, lim.maxBackoff)
  }

  lemma {:induction false} RunWaits<N>(s: Net<N>, now: real, lim: Limits, attempt: nat, passes: seq<Pass>,
          last: Option<Problem>)
    requires Valid(s, now) && PassesFit(s.index, passes, now)
    ensures var r := Run(s, now, lim, attempt, passes, last); WaitsOf(r.events, lim, attempt, r.used)
    decreases |passes|
  {
    if attempt <= lim.maxAttempts && passes != [] {
      var r := RunStep(s, now, lim, attempt, passes, last);
      if r.verdict.Continue? {
        RunWaits(r.net, passes[0].doneTime, lim, attempt + 1, passes[1..], r.verdict.last);
        var rest := Run(r.net, passes[0].doneTime, lim, attempt + 1, passes[1..], r.verdict.last);
        WaitsExtended(r.events, r.verdict, last, rest.events, lim, attempt, rest.used);
      } else {
        NoWaits(r.events, r.verdict, last, lim, attempt);
      }
    }
  }

  lemma NoWaits<N>(events: seq<Event<N>>, verdict: Verdict, last: Option<Problem>, lim: Limits, attempt: nat)
    requires Shape(events, verdict, last, Delay(attempt, lim.minBackoff, lim.maxBackoff)) && verdict.Stop?
    ensures WaitsOf(events, lim, attempt, 1)
  {
  }

  lemma WaitsExtended<N>(events: seq<Event<N>>, verdict: Verdict, last: Option<Problem>, rest: seq<Event<N>>,
          lim: Limits, attempt: nat, used: nat)
    requires Shape(events, verdict, last, Delay(attempt, lim.minBackoff, lim.maxBackoff))
    requires WaitsOf(rest, lim, attempt + 1, used)
    ensures WaitsOf(events + rest, lim, attempt, used + 1)
  {
    var all := events + rest;
    forall i | 0 <= i < |all| && all[i].Slept? ensures WaitOfSome(all[i].ms, lim, attempt, used + 1) {
      if i < |events| {
        assert all[i].ms == Delay(attempt, lim.minBackoff, lim.maxBackoff);
      } else {
        assert all[i] == rest[i - |events|] && WaitOfSome(rest[i - |events|].ms, lim, attempt + 1, used);
      }
    }
  }

  // ----- the log and the passes

  /** What the event tells is what its pass supplied. */
  ghost predicate FromPass<N>(e: Event<N>, p: Pass, delay: real)
  {
    match e
    case Sent(_, time) => p.built && time == p.sendTime
    case BackedOff(_, time, _, failure) => p.outcome == Failed(failure) && Retryable(failure) && time == p.doneTime
    case Replied(_, state, status) => p.outcome == Answered(state, status)
    case Slept(ms) => p.outcome.Answered? && p.outcome.state == Retry && ms == delay
  }

  /** The events are what the pass supplied, the first of them the only send. */
  ghost predicate OfPass<N>(events: seq<Event<N>>, p: Pass, delay: real)
  {
    forall i | 0 <= i < |events| :: FromPass(events[i], p, delay) && (events[i].Sent? <==> i == 0)
  }

  /** The log falls into one piece, which may be empty, for each pass used, in their order. */
  ghost predicate Traced<N>(log: seq<Event<N>>, lim: Limits, attempt: nat, passes: seq<Pass>, used: nat)
    decreases used
  {
    if used == 0 then log == []
    else
      && passes != []
      && exists k: nat :: k <= |log|
           && OfPass(log[..k], passes[0], Delay(attempt, lim.minBackoff, lim.maxBackoff))
           && Traced(log[k..], lim, attempt + 1, passes[1..], used - 1)
  }

  /** The pass that ends the run is one that asks for that ending. */
  ghost predicate EndedBy(ending: Ending, p: Pass)
  {
    match ending
    case Returned => p.outcome.Answered? && p.outcome.state == Finished
    case StatusError => p.outcome.Answered? && p.outcome.state == Error
    case Threw(failure) => p.outcome == Failed(failure) && !Retryable(failure)
    case NotBuilt => !p.built
    case _ => true
  }

  lemma ExchangeTraced<N>(s: Net<N>, lim: Limits, attempt: nat, p: Pass, n: N, last: Option<Problem>)
    requires n in s.info && p.built
    ensures var r := Exchange(s, lim, attempt, p, n, last);
            && OfPass(r.events, p, Delay(attempt, lim.minBackoff, lim.maxBackoff))
            && (r.verdict.Stop? ==> EndedBy(r.verdict.ending, p))
  {
  }

  lemma {:induction false} AttemptTraced<N>(s: Net<N>, lim: Limits, attempt: nat, p: Pass, last: Option<Problem>)
    requires Valid(s, p.selectTime) && ValidDraw(s, p.draw)
    ensures var r := Attempt(s, lim, attempt, p, last);
            && OfPass(r.events, p, Delay(attempt, lim.minBackoff, lim.maxBackoff))
            && (r.verdict.Stop? ==> EndedBy(r.verdict.ending, p))
  {
    if !Expired(lim.deadline, p.checkTime) {
      ReadmitExact(s, p.selectTime);
      var t := Readmit(s, p.selectTime);
      var chosen := Chosen(t, p.key, p.draw);
      if chosen.Ok? && p.built {
        ChosenKnown(t, p.selectTime, p.key, p.draw);
        ExchangeTraced(t, lim, attempt, p, chosen.value, last);
      }
    }
  }

  /** The log tells of the passes used, and the last of them asked for the ending. */
  ghost predicate Told<N>(r: RunResult<N>, lim: Limits, attempt: nat, passes: seq<Pass>)
  {
    && Traced(r.events, lim, attempt, passes, r.used)
    && (r.used == 0 ==> r.ending.OutOfAttempts? || r.ending.Unfinished?)
    && (r.used > 0 ==> r.used <= |passes| && EndedBy(r.ending, passes[r.used - 1]))
  }

  lemma {:induction false} ToldLater<N>(net: Net<N>, events: seq<Event<N>>, rest: RunResult<N>, lim: Limits,
          attempt: nat, passes: seq<Pass>)
    requires passes != [] && OfPass(events, passes[0], Delay(attempt, lim.minBackoff, lim.maxBackoff))
    requires Told(rest, lim, attempt + 1, passes[1..])
    ensures Told(RunResult(net, events + rest.events, rest.ending, rest.used + 1), lim, attempt, passes)
  {
    var k := |events|;
    assert (events + rest.events)[..k] == events && (events + rest.events)[k..] == rest.events;
  }

  lemma {:induction false} ToldNow<N>(r: PassResult<N>, lim: Limits, attempt: nat, passes: seq<Pass>)
    requires passes != [] && OfPass(r.events, passes[0], Delay(attempt, lim.minBackoff, lim.maxBackoff))
    requires r.verdict.Stop? && EndedBy(r.verdict.ending, passes[0])
    ensures Told(RunResult(r.net, r.events, r.verdict.ending, 1), lim, attempt, passes)
  {
    assert r.events[..|r.events|] == r.events && r.events[|r.events|..] == [];
    assert Traced<N>([], lim, attempt + 1, passes[1..], 0);
  }

  /**
   Over every run the log falls into the events of the passes used, one send to a pass at most; they tell
   what the pass supplied, a wait is the one of its own attempt, and the last pass asked for the ending.
   */
  lemma {:induction false} RunTold<N>(s: Net<N>, now: real, lim: Limits, attempt: nat, passes: seq<Pass>,
          last: Option<Problem>)
    requires Valid(s, now) && PassesFit(s.index, passes, now)
    ensures Told(Run(s, now, lim, attempt, passes, last), lim, attempt, passes)
    decreases |passes|
  {
    if attempt <= lim.maxAttempts && passes != [] {
      var r := RunStep(s, now, lim, attempt, passes, last);
      AttemptTraced(s, lim, attempt, passes[0], last);
      if r.verdict.Continue? {
        var rest := Run(r.net, passes[0].doneTime, lim, attempt + 1, passes[1..], r.verdict.last);
        RunTold(r.net, passes[0].doneTime, lim, attempt + 1, passes[1..], r.verdict.last);
        var whole := RunResult(rest.net, r.events + rest.events, rest.ending, rest.used + 1);
        assert Run(s, now, lim, attempt, passes, last) == whole;
        ToldLater(rest.net, r.events, rest, lim, attempt, passes);
      } else {
        ToldNow(r, lim, attempt, passes);
      }
    }
  }

  // ----- the backoffs

  /** What the log makes of a node's backoff: a failed request doubles it, a reply halves it, within the bounds. */
  ghost function Replayed<N>(log: seq<Event<N>>, n: N, backoff: real, low: real, high: real): real
  {
    if log == [] then backoff
    else
      var x := Replayed(log[..|log| - 1], n, backoff, low, high);
      match log[|log| - 1]
      case BackedOff(m, _, _, _) => if m != n then x else if 2.0 * x <= high then 2.0 * x else high
      case Replied(m, _, _) => if m != n then x else if x / 2.0 >= low then x / 2.0 else low
      case _ => x
  }

  /** The end of the last backoff of the node in the log. */
  ghost function LastEnd<N>(log: seq<Event<N>>, n: N, readmitTime: real): real
  {
    if log == [] then readmitTime
    else
      match log[|log| - 1]
      case BackedOff(m, time, wait, _) =>
        if m == n then time + wait else LastEnd(log[..|log| - 1], n, readmitTime)
      case _ => LastEnd(log[..|log| - 1], n, readmitTime)
  }

  lemma {:induction false} ReplayedAppend<N>(log: seq<Event<N>>, more: seq<Event<N>>, n: N, backoff: real, low: real,
          high: real, time: real)
    ensures Replayed(log + more, n, backoff, low, high) ==
              Replayed(more, n, Replayed(log, n, backoff, low, high), low, high)
    ensures LastEnd(log + more, n, time) == LastEnd(more, n, LastEnd(log, n, time))
  {
    if more == [] {
      assert log + more == log;
    } else {
      var all := log + more;
      assert all[..|all| - 1] == log + more[..|more| - 1] && all[|all| - 1] == more[|more| - 1];
      ReplayedAppend(log, more[..|more| - 1], n, backoff, low, high, time);
    }
  }

  /** The node's record after the log: backoff and readmit time as replayed, the rest as before. */
  ghost predicate FollowsLog<N>(info: map<N, NodeState>, log: seq<Event<N>>, later: map<N, NodeState>)
  {
    && info.Keys == later.Keys
    && forall n | n in info ::
         later[n] == info[n].(
           currentBackoff := Replayed(log, n, info[n].currentBackoff, info[n].minBackoff, info[n].maxBackoff),
           readmitTime := LastEnd(log, n, info[n].readmitTime))
  }

  lemma OneReplayed<N>(e: Event<N>, n: N, backoff: real, low: real, high: real, time: real)
    ensures Replayed([e], n, backoff, low, high) ==
              match e
              case BackedOff(m, _, _, _) =>
                if m != n then backoff else if 2.0 * backoff <= high then 2.0 * backoff else high
              case Replied(m, _, _) =>
                if m != n then backoff else if backoff / 2.0 >= low then backoff / 2.0 else low
              case _ => backoff
    ensures LastEnd([e], n, time) ==
              match e
              case BackedOff(m, t, wait, _) => if m == n then t + wait else time
              case _ => time
  {
    assert [e][..0] == [];
  }

  lemma FewReplayed<N>(log: seq<Event<N>>, n: N, backoff: real, low: real, high: real, time: real)
    requires 2 <= |log| <= 3 && log[0].Sent? && (|log| == 3 ==> log[2].Slept?)
    ensures Replayed(log, n, backoff, low, high) == Replayed([log[1]], n, backoff, low, high)
    ensures LastEnd(log, n, time) == LastEnd([log[1]], n, time)
  {
    var two := log[..2];
    assert two == [log[0]] + [log[1]] && (|log| == 3 ==> log == two + [log[2]]) && (|log| == 2 ==> log == two);
    OneReplayed(log[0], n, backoff, low, high, time);
    ReplayedAppend([log[0]], [log[1]], n, backoff, low, high, time);
    if |log| == 3 {
      ReplayedAppend(two, [log[2]], n, backoff, low, high, time);
      OneReplayed(log[2], n, Replayed(two, n, backoff, low, high), low, high, LastEnd(two, n, time));
    }
  }

  /** A reply halves its node's backoff, not below the minimum; a retried failure doubles it, not above the maximum. */
  lemma {:induction false} ExchangeFollows<N>(s: Net<N>, lim: Limits, attempt: nat, p: Pass, n: N,
          last: Option<Problem>)
    requires n in s.info
    ensures var r := Exchange(s, lim, attempt, p, n, last); FollowsLog(s.info, r.events, r.net.info)
  {
    var r := Exchange(s, lim, attempt, p, n, last);
    forall m | m in s.info
      ensures m in r.net.info && r.net.info[m] == s.info[m].(
                currentBackoff :=
                  Replayed(r.events, m, s.info[m].currentBackoff, s.info[m].minBackoff, s.info[m].maxBackoff),
                readmitTime := LastEnd(r.events, m, s.info[m].readmitTime))
    {
      var x := s.info[m];
      if |r.events| == 1 {
        assert r.events == [r.events[0]];
        OneReplayed(r.events[0], m, x.currentBackoff, x.minBackoff, x.maxBackoff, x.readmitTime);
      } else {
        FewReplayed(r.events, m, x.currentBackoff, x.minBackoff, x.maxBackoff, x.readmitTime);
        OneReplayed(r.events[1], m, x.currentBackoff, x.minBackoff, x.maxBackoff, x.readmitTime);
      }
    }
  }

  lemma {:induction false} AttemptFollows<N>(s: Net<N>, lim: Limits, attempt: nat, p: Pass, last: Option<Problem>)
    requires Valid(s, p.selectTime) && ValidDraw(s, p.draw)
    ensures var r := Attempt(s, lim, attempt, p, last); FollowsLog(s.info, r.events, r.net.info)
  {
    if !Expired(lim.deadline, p.checkTime) {
      ReadmitExact(s, p.selectTime);
      var t := Readmit(s, p.selectTime);
      var chosen := Chosen(t, p.key, p.draw);
      if chosen.Ok? && p.built {
        ChosenKnown(t, p.selectTime, p.key, p.draw);
        if Ready(t, chosen.value, p.sendTime) {
          ExchangeFollows(t, lim, attempt, p, chosen.value, last);
        }
      }
    }
  }

  lemma FollowsOn<N>(a: map<N, NodeState>, log: seq<Event<N>>, b: map<N, NodeState>, more: seq<Event<N>>,
          c: map<N, NodeState>)
    requires FollowsLog(a, log, b) && FollowsLog(b, more, c)
    ensures FollowsLog(a, log + more, c)
  {
    forall n | n in a
      ensures c[n] == a[n].(
                currentBackoff := Replayed(log + more, n, a[n].currentBackoff, a[n].minBackoff, a[n].maxBackoff),
                readmitTime := LastEnd(log + more, n, a[n].readmitTime))
    {
      ReplayedAppend(log, more, n, a[n].currentBackoff, a[n].minBackoff, a[n].maxBackoff, a[n].readmitTime);
    }
  }

  /** Over every run the log accounts for every node's backoff and readmit time. */
  lemma {:induction false} RunFollows<N>(s: Net<N>, now: real, lim: Limits, attempt: nat, passes: seq<Pass>,
          last: Option<Problem>)
    requires Valid(s, now) && PassesFit(s.index, passes, now)
    ensures var r := Run(s, now, lim, attempt, passes, last); FollowsLog(s.info, r.events, r.net.info)
    decreases |passes|
  {
    if attempt <= lim.maxAttempts && passes != [] {
      var r := RunStep(s, now, lim, attempt, passes, last);
      AttemptFollows(s, lim, attempt, passes[0], last);
      if r.verdict.Continue? {
        RunFollows(r.net, passes[0].doneTime, lim, attempt + 1, passes[1..], r.verdict.last);
        var rest := Run(r.net, passes[0].doneTime, lim, attempt + 1, passes[1..], r.verdict.last);
        FollowsOn(s.info, r.events, r.net.info, rest.events, rest.net.info);
      }
    }
  }
}
