/** The retry loop against the nodes' backoffs and readmit times. */
module ExecutionBackoffs {
  import opened Results
  import opened Backoffs
  import opened NetworkState
  import opened ExecutionRuns
  import opened ExecutionSafety

  /** No node has a negative backoff. */
  ghost predicate Patient<N>(info: map<N, NodeState>)
  {
    forall n | n in info :: info[n].currentBackoff >= 0.0 && info[n].minBackoff >= 0.0 && info[n].maxBackoff >= 0.0
  }

  /** The same nodes, none of them ready any sooner. */
  ghost predicate NoSooner<N>(info: map<N, NodeState>, later: map<N, NodeState>)
  {
    info.Keys == later.Keys && forall n | n in info :: info[n].readmitTime <= later[n].readmitTime
  }

  /** Every send is to a known node, at a time its readmit time has passed. */
  ghost predicate SendsReady<N>(events: seq<Event<N>>, info: map<N, NodeState>)
  {
    forall i | 0 <= i < |events| && events[i].Sent? ::
        events[i].node in info && info[events[i].node].readmitTime <= events[i].time
  }

  /** Each backoff ends exactly at the node's readmit time. */
  ghost predicate BackoffsEnd<N>(events: seq<Event<N>>, info: map<N, NodeState>)
  {
    forall i | 0 <= i < |events| && events[i].BackedOff? ::
      && events[i].node in info && events[i].wait >= 0.0
      && info[events[i].node].readmitTime == events[i].time + events[i].wait
  }

  /** A node is not contacted again before its backoff has ended. */
  ghost predicate Respected<N>(events: seq<Event<N>>)
  {
    forall i, j | 0 <= i < j < |events|
                  && events[i].BackedOff? && events[j].Sent? && events[i].node == events[j].node ::
      events[i].time + events[i].wait <= events[j].time
  }

  ghost predicate PassPatient<N>(info: map<N, NodeState>, events: seq<Event<N>>, later: map<N, NodeState>)
  {
    Patient(later) && NoSooner(info, later) && SendsReady(events, info) && BackoffsEnd(events, later)
  }

  lemma ExchangePatient<N>(s: Net<N>, lim: Limits, attempt: nat, p: Pass, n: N, last: Option<Problem>)
    requires n in s.info && Patient(s.info) && Ready(s, n, p.sendTime) && p.sendTime <= p.doneTime
    ensures var r := Exchange(s, lim, attempt, p, n, last); PassPatient(s.info, r.events, r.net.info)
  {
  }

  lemma {:induction false} ProceedPatient<N>(s: Net<N>, lim: Limits, attempt: nat, p: Pass, last: Option<Problem>)
    requires Valid(s, p.selectTime) && ValidDraw(s, p.draw) && Patient(s.info) && p.sendTime <= p.doneTime
    ensures var r := Proceed(s, lim, attempt, p, last); PassPatient(s.info, r.events, r.net.info)
  {
    var chosen := Chosen(s, p.key, p.draw);
    if chosen.Ok? {
      ChosenKnown(s, p.selectTime, p.key, p.draw);
      if Ready(s, chosen.value, p.sendTime) {
        ExchangePatient(s, lim, attempt, p, chosen.value, last);
      }
    }
  }

  lemma {:induction false} AttemptPatient<N>(s: Net<N>, lim: Limits, attempt: nat, p: Pass, last: Option<Problem>)
    requires Valid(s, p.selectTime) && ValidDraw(s, p.draw) && Patient(s.info) && p.sendTime <= p.doneTime
    ensures var r := Attempt(s, lim, attempt, p, last); PassPatient(s.info, r.events, r.net.info)
  {
    if !Expired(lim.deadline, p.checkTime) {
      ReadmitExact(s, p.selectTime);
      ProceedPatient(Readmit(s, p.selectTime), lim, attempt, p, last);
    }
  }

  lemma OneSend<N>(events: seq<Event<N>>, verdict: Verdict, last: Option<Problem>, delay: real)
    requires Shape(events, verdict, last, delay)
    ensures Respected(events)
  {
  }

  lemma ExtendRespected<N>(info: map<N, NodeState>, events: seq<Event<N>>, later: map<N, NodeState>,
          rest: seq<Event<N>>)
    requires PassPatient(info, events, later) && Respected(events) && Respected(rest) && SendsReady(rest, later)
    ensures Respected(events + rest) && SendsReady(events + rest, info)
  {
    var all := events + rest;
    forall j | 0 <= j < |all| && all[j].Sent?
      ensures all[j].node in info && info[all[j].node].readmitTime <= all[j].time {
      if j >= |events| { assert all[j] == rest[j - |events|]; }
    }
    forall i, j | 0 <= i < j < |all| && all[i].BackedOff? && all[j].Sent? && all[i].node == all[j].node
      ensures all[i].time + all[i].wait <= all[j].time
    {
      if j >= |events| { assert all[j] == rest[j - |events|]; }
      if i >= |events| { assert all[i] == rest[i - |events|]; }
    }
  }

  /**
   Over every run: requests go only to nodes whose readmit time has passed, and a node that was
   backed off is not contacted again before its backoff has ended.
   */
  lemma {:induction false} BackoffsRespected<N>(s: Net<N>, now: real, lim: Limits, attempt: nat, passes: seq<Pass>,
          last: Option<Problem>)
    requires Valid(s, now) && PassesFit(s.index, passes, now) && Patient(s.info)
    ensures var events := Run(s, now, lim, attempt, passes, last).events;
            Respected(events) && SendsReady(events, s.info)
    decreases |passes|
  {
    if attempt <= lim.maxAttempts && passes != [] {
      var r := RunStep(s, now, lim, attempt, passes, last);
      AttemptPatient(s, lim, attempt, passes[0], last);
      OneSend(r.events, r.verdict, last, Delay(attempt, lim.minBackoff, lim.maxBackoff));
      if r.verdict.Continue? {
        BackoffsRespected(r.net, passes[0].doneTime, lim, attempt + 1, passes[1..], r.verdict.last);
        ExtendRespected(s.info, r.events, r.net.info,
            Run(r.net, passes[0].doneTime, lim, attempt + 1, passes[1..], r.verdict.last).events);
      }
    }
  }

  // ----- the health cache

  ghost function EndTime(now: real, passes: seq<Pass>, used: nat): real
    requires used <= |passes|
  {
    if used == 0 then now else passes[used - 1].doneTime
  }

  lemma EndTimeLater(now: real, passes: seq<Pass>, used: nat)
    requires used < |passes|
    ensures EndTime(now, passes, used + 1) == EndTime(passes[0].doneTime, passes[1..], used)
  {
  }

  /** A run keeps the health cache valid, the node list, the key index and the conserved count. */
  lemma {:induction false} RunKeeps<N>(s: Net<N>, now: real, lim: Limits, attempt: nat, passes: seq<Pass>,
          last: Option<Problem>)
    requires Valid(s, now) && PassesFit(s.index, passes, now)
    ensures var r := Run(s, now, lim, attempt, passes, last);
            r.used <= |passes| && Valid(r.net, EndTime(now, passes, r.used)) && Alike(s, r.net)
    decreases |passes|
  {
    if attempt <= lim.maxAttempts && passes != [] {
      var r := RunStep(s, now, lim, attempt, passes, last);
      if r.verdict.Continue? {
        RunKeeps(r.net, passes[0].doneTime, lim, attempt + 1, passes[1..], r.verdict.last);
        EndTimeLater(now, passes, Run(r.net, passes[0].doneTime, lim, attempt + 1, passes[1..], r.verdict.last).used);
      }
    }
  }

  // ----- passes with and without a key

  /** A pass without a key never skips the node it selects. */
  lemma KeylessPassSends<N>(s: Net<N>, lim: Limits, attempt: nat, p: Pass, last: Option<Problem>)
    requires Valid(s, p.selectTime) && ValidDraw(s, p.draw) && p.selectTime <= p.sendTime
    requires p.key.None? && p.built && !Expired(lim.deadline, p.checkTime)
    ensures var r := Attempt(s, lim, attempt, p, last);
            r.events == [] <==> r.verdict == Stop(NoNode(NoHealthyNode))
  {
    ReadmitExact(s, p.selectTime);
    var t := Readmit(s, p.selectTime);
    KeylessProceeds(t, lim, attempt, p, last);
  }

  lemma KeylessProceeds<N>(s: Net<N>, lim: Limits, attempt: nat, p: Pass, last: Option<Problem>)
    requires Valid(s, p.selectTime) && ValidDraw(s, p.draw) && p.selectTime <= p.sendTime && p.key.None? && p.built
    ensures var r := Proceed(s, lim, attempt, p, last);
            r.events == [] <==> r.verdict == Stop(NoNode(NoHealthyNode))
  {
    var chosen := Chosen(s, p.key, p.draw);
    if chosen.Ok? {
      ChosenKnown(s, p.selectTime, p.key, p.draw);
      assert Ready(s, chosen.value, p.sendTime);
    }
  }

  ghost predicate LockedTo(passes: seq<Pass>, key: string, deadline: Option<real>, before: real)
  {
    forall p | p in passes :: p.key == Some(key) && p.built && !Expired(deadline, p.checkTime) && p.sendTime < before
  }

  lemma LockedPassSkips<N>(s: Net<N>, lim: Limits, attempt: nat, p: Pass, last: Option<Problem>, key: string)
    requires Valid(s, p.selectTime) && ValidDraw(s, p.draw) && key in s.index
    requires LockedTo([p], key, lim.deadline, s.info[s.index[key][0]].readmitTime)
    ensures var r := Attempt(s, lim, attempt, p, last);
            r.events == [] && r.verdict == Continue(last) && r.net.index == s.index && r.net.info == s.info
  {
    assert p in [p];
    ReadmitExact(s, p.selectTime);
  }

  /**
   A request locked to one node that is not ready burns all its attempts at once: nothing is sent
   and nothing is waited for.
   */
  lemma {:induction false} LockedBurnsAttempts<N>(s: Net<N>, now: real, lim: Limits, attempt: nat, passes: seq<Pass>,
          last: Option<Problem>, key: string)
    requires Valid(s, now) && PassesFit(s.index, passes, now) && key in s.index
    requires LockedTo(passes, key, lim.deadline, s.info[s.index[key][0]].readmitTime) && |passes| >= Left(lim, attempt)
    ensures var r := Run(s, now, lim, attempt, passes, last);
            r.events == [] && r.ending == OutOfAttempts(last) && r.used == Left(lim, attempt)
    decreases |passes|
  {
    if attempt <= lim.maxAttempts {
      var r := RunStep(s, now, lim, attempt, passes, last);
      assert passes[0] in passes;
      LockedPassSkips(s, lim, attempt, passes[0], last, key);
      assert Listed(s, s.index[key], key) && s.index[key][0] in s.index[key];
      LockedBurnsAttempts(r.net, passes[0].doneTime, lim, attempt + 1, passes[1..], last, key);
    }
  }

  /** A pass in which a request locked to a node with this readmit time sends nothing. */
  predicate Idle(p: Pass, deadline: Option<real>, readmitTime: real)
  {
    Expired(deadline, p.checkTime) || !p.built || p.sendTime < readmitTime
  }

  lemma LockedPass<N>(s: Net<N>, lim: Limits, attempt: nat, p: Pass, last: Option<Problem>, key: string)
    requires Valid(s, p.selectTime) && ValidDraw(s, p.draw) && key in s.index && p.key == Some(key)
    ensures var r := Attempt(s, lim, attempt, p, last);
            && (r.events == [] <==> Idle(p, lim.deadline, s.info[s.index[key][0]].readmitTime))
            && (r.events == [] ==> r.net.index == s.index && r.net.info == s.info)
  {
    ReadmitExact(s, p.selectTime);
    LockedProceeds(Readmit(s, p.selectTime), lim, attempt, p, last, key);
  }

  lemma LockedProceeds<N>(s: Net<N>, lim: Limits, attempt: nat, p: Pass, last: Option<Problem>, key: string)
    requires Valid(s, p.selectTime) && ValidDraw(s, p.draw) && key in s.index && p.key == Some(key)
    ensures var r := Proceed(s, lim, attempt, p, last);
            && (r.events == [] <==> !p.built || p.sendTime < s.info[s.index[key][0]].readmitTime)
            && (r.events == [] ==> r.net == s)
  {
    ChosenKnown(s, p.selectTime, p.key, p.draw);
  }

  /** Every used pass was idle. */
  ghost predicate AllIdle(passes: seq<Pass>, used: nat, deadline: Option<real>, readmitTime: real)
    requires used <= |passes|
  {
    forall k: nat | k < used :: Idle(passes[k], deadline, readmitTime)
  }

  ghost predicate Silent<N>(r: RunResult<N>, passes: seq<Pass>, deadline: Option<real>, readmitTime: real)
  {
    r.used <= |passes| && (r.events == [] <==> AllIdle(passes, r.used, deadline, readmitTime))
  }

  lemma ExtendSilent<N>(events: seq<Event<N>>, rest: RunResult<N>, passes: seq<Pass>, deadline: Option<real>,
          readmitTime: real)
    requires passes != [] && (events == [] <==> Idle(passes[0], deadline, readmitTime)) && rest.used < |passes|
    requires events == [] ==> Silent(rest, passes[1..], deadline, readmitTime)
    ensures Silent(RunResult(rest.net, events + rest.events, rest.ending, rest.used + 1), passes, deadline, readmitTime)
  {
    IdleFirst(passes, rest.used, deadline, readmitTime);
  }

  /**
   A request locked to one node sends nothing exactly when every pass it uses comes after the
   deadline, fails to build the request, or comes before the node's readmit time.
   */
  lemma {:induction false} LockedSilentIff<N>(s: Net<N>, now: real, lim: Limits, attempt: nat, passes: seq<Pass>,
          last: Option<Problem>, key: string)
    requires Valid(s, now) && PassesFit(s.index, passes, now) && key in s.index
    requires forall p | p in passes :: p.key == Some(key)
    ensures Silent(Run(s, now, lim, attempt, passes, last), passes, lim.deadline, s.info[s.index[key][0]].readmitTime)
    decreases |passes|
  {
    var readmitTime := s.info[s.index[key][0]].readmitTime;
    if attempt <= lim.maxAttempts && passes != [] {
      var r := RunStep(s, now, lim, attempt, passes, last);
      assert passes[0] in passes;
      LockedPass(s, lim, attempt, passes[0], last, key);
      if r.verdict.Continue? {
        var rest := Run(r.net, passes[0].doneTime, lim, attempt + 1, passes[1..], r.verdict.last);
        RunKeeps(r.net, passes[0].doneTime, lim, attempt + 1, passes[1..], r.verdict.last);
        if r.events == [] {
          LockedSilentIff(r.net, passes[0].doneTime, lim, attempt + 1, passes[1..], r.verdict.last, key);
        }
        ExtendSilent(r.events, rest, passes, lim.deadline, readmitTime);
      } else {
        IdleFirst(passes, 0, lim.deadline, readmitTime);
      }
    }
  }

  lemma IdleFirst(passes: seq<Pass>, used: nat, deadline: Option<real>, readmitTime: real)
    requires used < |passes|
    ensures AllIdle(passes, used + 1, deadline, readmitTime) <==>
            Idle(passes[0], deadline, readmitTime) && AllIdle(passes[1..], used, deadline, readmitTime)
  {
    forall k: nat | k < used ensures passes[1..][k] == passes[k + 1] {
    }
    if Idle(passes[0], deadline, readmitTime) && AllIdle(passes[1..], used, deadline, readmitTime) {
      forall k: nat | k < used + 1 ensures Idle(passes[k], deadline, readmitTime) {
        if k > 0 {
          assert Idle(passes[1..][k - 1], deadline, readmitTime);
        }
      }
    }
  }

  // ----- the delays

  /** The delays are in order for every pair of attempts exactly when the minimum is not negative. */
  lemma DelaysOrderedIff(minBackoff: real, maxBackoff: real)
    ensures 0.0 <= minBackoff <==>
            forall a: nat, b: nat | a <= b :: Delay(a, minBackoff, maxBackoff) <= Delay(b, minBackoff, maxBackoff)
  {
    if 0.0 <= minBackoff {
      forall a: nat, b: nat | a <= b ensures Delay(a, minBackoff, maxBackoff) <= Delay(b, minBackoff, maxBackoff) {
        DelaysOrdered(a, b, minBackoff, maxBackoff);
      }
    } else {
      var b := DelayFalls(minBackoff, maxBackoff);
      assert Delay(b, minBackoff, maxBackoff) < Delay(0, minBackoff, maxBackoff);
    }
  }

  lemma {:induction false} DelaysOrdered(a: nat, b: nat, minBackoff: real, maxBackoff: real)
    requires 0.0 <= minBackoff && a <= b
    ensures Delay(a, minBackoff, maxBackoff) <= Delay(b, minBackoff, maxBackoff)
    decreases b
  {
    if a < b {
      DelaysOrdered(a, b - 1, minBackoff, maxBackoff);
      DelayGrows(b - 1, minBackoff, maxBackoff);
    }
  }

  /** Doubling a negative number falls without bound. */
  lemma {:induction false} DoubledFalls(x: real, k: nat)
    requires x < 0.0
    ensures Doubled(x, k) <= x * k as real && Doubled(x, k) <= x
  {
    if k > 0 {
      DoubledFalls(x, k - 1);
      assert x * k as real == x * (k - 1) as real + x;
    }
  }

  lemma BelowMultiple(x: real, bound: real) returns (k: nat)
    requires x < 0.0
    ensures x * k as real < bound
  {
    if bound > 0.0 {
      k := 0;
    } else {
      var q := bound / x;
      assert q * x == bound;
      k := q.Floor + 1;
      Steeper(x, q, k as real);
    }
  }

  lemma Steeper(x: real, q: real, k: real)
    requires x < 0.0 && q < k
    ensures k * x < q * x
  {
  }

  lemma DelayFalls(minBackoff: real, maxBackoff: real) returns (b: nat)
    requires minBackoff < 0.0
    ensures Delay(b, minBackoff, maxBackoff) < Delay(0, minBackoff, maxBackoff)
  {
    b := BelowMultiple(minBackoff, Delay(0, minBackoff, maxBackoff));
    DoubledFalls(minBackoff, b);
  }
}
