/** The request object and its retry loop over a network object. */
module Executables {
  import opened Results
  import opened NetworkState
  import opened ManagedNetworks
  import opened ExecutionRuns
  import opened ExecutionSafety
  import opened ExecutionOutcomes

  /** The client's settings that the loop reads. */
  datatype Client = Client(maxAttempts: Option<int>, minBackoff: real, requestTimeout: Option<real>)

  /** Given a timeout, a run times out at the first pass that begins that long after the start. */
  ghost predicate TimesOutAfter(wait: Option<real>, startTime: real, passes: seq<Pass>, ending: Ending, used: nat)
  {
    && used <= |passes|
    && (ending == TimedOut <==> used > 0 && wait.Some? && passes[used - 1].checkTime - startTime >= wait.value)
    && forall i | 0 <= i < used - 1 :: wait.Some? ==> passes[i].checkTime - startTime < wait.value
  }

  /** At most so many passes are used, and the run gives up at that number exactly. */
  ghost predicate GivesUpAfter(most: int, passes: seq<Pass>, ending: Ending, used: nat)
  {
    && (used > 0 ==> used <= most)
    && (ending.OutOfAttempts? ==> used == if most > 0 then most else 0)
    && (ending == Unfinished ==> used == |passes| < most)
  }

  ghost predicate WaitInWords(ms: real, low: real, high: real, used: nat)
  {
    exists k: nat :: 1 <= k <= used && WaitIs(ms, k, low, high)
  }

  /** Every wait in the log is that of some attempt made. */
  ghost predicate WaitsWithin<N>(log: seq<ExecutionRuns.Event<N>>, low: real, high: real, used: nat)
  {
    forall i | 0 <= i < |log| && log[i].Slept? :: WaitInWords(log[i].ms, low, high, used)
  }

  lemma WaitsInWords<N>(log: seq<ExecutionRuns.Event<N>>, lim: Limits, used: nat)
    requires WaitsOf(log, lim, 1, used)
    ensures WaitsWithin(log, lim.minBackoff, lim.maxBackoff, used)
  {
    forall i | 0 <= i < |log| && log[i].Slept?
      ensures WaitInWords(log[i].ms, lim.minBackoff, lim.maxBackoff, used)
    {
      assert WaitOfSome(log[i].ms, lim, 1, used);
      OneWaitInWords(log[i].ms, lim, used);
    }
  }

  lemma OneWaitInWords(ms: real, lim: Limits, used: nat)
    requires WaitOfSome(ms, lim, 1, used)
    ensures WaitInWords(ms, lim.minBackoff, lim.maxBackoff, used)
  {
    var k: nat :| 1 <= k < 1 + used && ms == Delay(k, lim.minBackoff, lim.maxBackoff);
    DelayClosedForm(k, lim.minBackoff, lim.maxBackoff);
  }

  class Executable {
    var maxAttempts: int
    var minBackoff: Option<real>
    var maxBackoff: real
    var requestTimeout: Option<real>

    constructor ()
      ensures maxAttempts == 10 && minBackoff == None && maxBackoff == 8000.0 && requestTimeout == None && Ordered()
    {
      maxAttempts, minBackoff, maxBackoff, requestTimeout := 10, None, 8000.0, None;
    }

    /** The minimum, once set, does not exceed the maximum. */
    predicate Ordered()
      reads this
    {
      minBackoff.Some? ==> minBackoff.value <= maxBackoff
    }

    /** False is the thrown error, on null or on a minimum above the maximum. */
    method SetMinBackoff(backoff: Option<real>) returns (ok: bool)
      modifies this`minBackoff
      ensures ok ==> Ordered()
      ensures ok <==> backoff.Some? && backoff.value <= maxBackoff
      ensures minBackoff == if ok then backoff else old(minBackoff)
    {
      if backoff.None? {
        return false;
      } else if backoff.value > maxBackoff {
        return false;
      }
      minBackoff := backoff;
      return true;
    }

    method SetMaxBackoff(backoff: Option<real>) returns (ok: bool)
      modifies this`maxBackoff
      ensures ok ==> Ordered()
      ensures ok <==> backoff.Some? && (minBackoff.Some? ==> minBackoff.value <= backoff.value)
      ensures maxBackoff == if ok then backoff.value else old(maxBackoff)
    {
      if backoff.None? {
        return false;
      } else if minBackoff.Some? && backoff.value < minBackoff.value {
        return false;
      }
      maxBackoff := backoff.value;
      return true;
    }

    /**
     The limits of a run that starts now. The client's number of attempts comes before the request's;
     for the minimum and the timeout the request's own value comes first, then the call's and the client's.
     */
    function LimitsFor(client: Client, timeout: Option<real>, startTime: real): Limits
      reads this
    {
      var wait :=
        if requestTimeout.Some? then requestTimeout else if timeout.Some? then timeout else client.requestTimeout;
      Limits(if client.maxAttempts.Some? then client.maxAttempts.value else maxAttempts,
             if minBackoff.Some? then minBackoff.value else client.minBackoff, maxBackoff,
             if wait.Some? then Some(startTime + wait.value) else None)
    }

    /**
     The retry loop; the settings that were missing stay filled in afterwards, the minimum from the
     client without a look at the maximum. `used` is the number of passes made.
     */
    method Execute(network: ManagedNetwork, client: Client, timeout: Option<real>, startTime: real, passes: seq<Pass>)
      returns (ending: Ending, log: seq<ExecutionRuns.Event<ManagedNode>>, ghost used: nat)
      requires Valid(network.Abs(), startTime) && PassesFit(network.Abs().index, passes, startTime)
      modifies this`minBackoff, this`requestTimeout
      modifies network`healthyNodes, network`unhealthyNodesCount, network`earliestReadmitTime, network.known
      ensures var r := Run(old(network.Abs()), startTime, old(LimitsFor(client, timeout, startTime)), 1, passes, None);
              network.Abs() == r.net && log == r.events && ending == r.ending && used == r.used
      ensures requestTimeout == if old(requestTimeout).Some? then old(requestTimeout)
                                else if timeout.Some? then timeout else client.requestTimeout
      ensures minBackoff == if old(minBackoff).Some? then old(minBackoff) else Some(client.minBackoff)
      ensures TimesOutAfter(requestTimeout, startTime, passes, ending, used)
      ensures GivesUpAfter(if client.maxAttempts.Some? then client.maxAttempts.value else maxAttempts,
                passes, ending, used)
      ensures WaitsWithin(log, minBackoff.value, maxBackoff, used)
      ensures forall n | n in network.known ::
                && n.currentBackoff == Replayed(log, n, old(n.currentBackoff), n.minBackoff, n.maxBackoff)
                && n.readmitTime == LastEnd(log, n, old(n.readmitTime))
      ensures LimitsFor(client, timeout, startTime) == old(LimitsFor(client, timeout, startTime))
      ensures Ordered() <==> if old(minBackoff).Some? then old(Ordered()) else client.minBackoff <= maxBackoff
    {
      ghost var s := network.Abs();
      var lim := Prepare(client, timeout, startTime);
      assert network.Abs() == s;
      RunEnds(s, startTime, lim, 1, passes, None);
      RunWaits(s, startTime, lim, 1, passes, None);
      RunFollows(s, startTime, lim, 1, passes, None);
      used := Run(s, startTime, lim, 1, passes, None).used;
      ending, log := Attempts(network, lim, startTime, passes);
      WaitsInWords(log, lim, used);
      forall n | n in network.known
        ensures n.currentBackoff == Replayed(log, n, old(n.currentBackoff), n.minBackoff, n.maxBackoff)
        ensures n.readmitTime == LastEnd(log, n, old(n.readmitTime))
      {
        assert n in s.info && s.info[n] == old(n.View()) && network.Abs().info[n] == n.View();
      }
    }

    /** Fills in the settings that are missing. */
    method Prepare(client: Client, timeout: Option<real>, startTime: real) returns (lim: Limits)
      modifies this`minBackoff, this`requestTimeout
      ensures lim == old(LimitsFor(client, timeout, startTime)) == LimitsFor(client, timeout, startTime)
      ensures requestTimeout == if old(requestTimeout).Some? then old(requestTimeout)
                                else if timeout.Some? then timeout else client.requestTimeout
      ensures minBackoff == if old(minBackoff).Some? then old(minBackoff) else Some(client.minBackoff)
      ensures Ordered() <==> if old(minBackoff).Some? then old(Ordered()) else client.minBackoff <= maxBackoff
    {
      if requestTimeout.None? {
        requestTimeout := if timeout.Some? then timeout else client.requestTimeout;
      }
      if minBackoff.None? {
        minBackoff := Some(client.minBackoff);
      }
      lim := LimitsFor(client, timeout, startTime);
    }

    /** The loop over the attempts; the last error seen is kept for the final one. */
    method Attempts(network: ManagedNetwork, lim: Limits, ghost startTime: real, passes: seq<Pass>)
      returns (ending: Ending, log: seq<ExecutionRuns.Event<ManagedNode>>)
      requires Valid(network.Abs(), startTime) && PassesFit(network.Abs().index, passes, startTime)
      modifies network`healthyNodes, network`unhealthyNodesCount, network`earliestReadmitTime, network.known
      ensures var r := Run(old(network.Abs()), startTime, lim, 1, passes, None);
              network.Abs() == r.net && log == r.events && ending == r.ending
    {
      ghost var now, whole := startTime, Run(network.Abs(), startTime, lim, 1, passes, None);
      var persistentError: Option<Problem>, attempt := None, 1;
      log := [];
      while attempt <= lim.maxAttempts
        invariant 1 <= attempt <= |passes| + 1 && Valid(network.Abs(), now)
        invariant PassesFit(network.Abs().index, passes[attempt - 1..], now)
        invariant whole == After(log, attempt - 1,
                    Run(network.Abs(), now, lim, attempt, passes[attempt - 1..], persistentError))
      {
        if attempt == |passes| + 1 {
          return Unfinished, log;
        }
        assert passes[attempt - 1..][0] == passes[attempt - 1] && passes[attempt - 1..][1..] == passes[attempt..];
        AfterStep(log, attempt - 1, network.Abs(), now, lim, passes[attempt - 1..], persistentError);
        var events, verdict := TryOnce(network, lim, attempt, passes[attempt - 1], persistentError);
        if verdict.Stop? {
          return verdict.ending, log + events;
        }
        log, persistentError := log + events, verdict.last;
        now, attempt := passes[attempt - 1].doneTime, attempt + 1;
      }
      return OutOfAttempts(persistentError), log;
    }

    /** One pass of the loop. */
    method TryOnce(network: ManagedNetwork, lim: Limits, attempt: nat, p: Pass, last: Option<Problem>)
      returns (events: seq<ExecutionRuns.Event<ManagedNode>>, verdict: Verdict)
      requires Valid(network.Abs(), p.selectTime) && ValidDraw(network.Abs(), p.draw)
      requires p.selectTime <= p.sendTime <= p.doneTime
      modifies network`healthyNodes, network`unhealthyNodesCount, network`earliestReadmitTime, network.known
      ensures Attempt(old(network.Abs()), lim, attempt, p, last) == PassResult(network.Abs(), events, verdict)
    {
      if lim.deadline.Some? && lim.deadline.value <= p.checkTime {
        return [], Stop(TimedOut);
      }
      var chosen := network.GetNode(p.key, p.selectTime, p.draw);
      if chosen.Err? {
        return [], Stop(NoNode(chosen.error));
      }
      if !p.built {
        return [], Stop(NotBuilt);
      }
      ChosenKnown(network.Abs(), p.selectTime, p.key, p.draw);
      if !chosen.value.IsHealthy(p.sendTime) {
        return [], Continue(last);
      }
      ValidLater(network.Abs(), p.selectTime, p.doneTime);
      events, verdict := Send(network, lim, attempt, p, chosen.value, last);
    }

    /** Sends to a ready node and acts on the outcome. */
    method Send(network: ManagedNetwork, lim: Limits, attempt: nat, p: Pass, node: ManagedNode, last: Option<Problem>)
      returns (events: seq<ExecutionRuns.Event<ManagedNode>>, verdict: Verdict)
      requires Valid(network.Abs(), p.doneTime) && node in network.known
      modifies network`healthyNodes, network`unhealthyNodesCount, node
      ensures Exchange(old(network.Abs()), lim, attempt, p, node, last) == PassResult(network.Abs(), events, verdict)
    {
      events := [Sent(node, p.sendTime)];
      if p.outcome.Failed? {
        if !Retryable(p.outcome.failure) {
          return events, Stop(Threw(p.outcome.failure));
        }
        network.IncreaseNodeBackoff(node, p.doneTime);
        return events + [BackedOff(node, p.doneTime, node.currentBackoff, p.outcome.failure)],
            Continue(Some(Rpc(p.outcome.failure)));
      }
      network.DecreaseNodeBackoff(node, p.doneTime);
      events := events + [Replied(node, p.outcome.state, p.outcome.status)];
      var problem := if p.outcome.status.Some? then Some(Status(p.outcome.status.value)) else last;
      match p.outcome.state {
        case Retry =>
          return events + [Slept(Delay(attempt, lim.minBackoff, lim.maxBackoff))], Continue(problem);
        case Finished =>
          return events, Stop(Returned);
        case Error =>
          return events, Stop(StatusError);
      }
    }
  }

  /** A run that goes on after the events logged so far. */
  ghost function After<N>(log: seq<ExecutionRuns.Event<N>>, passesUsed: nat, rest: RunResult<N>): RunResult<N>
  {
    RunResult(rest.net, log + rest.events, rest.ending, passesUsed + rest.used)
  }

  /** One pass moves its events from the run that remains to the log. */
  lemma {:induction false} AfterStep<N>(log: seq<ExecutionRuns.Event<N>>, used: nat, s: Net<N>, now: real, lim: Limits,
          passes: seq<Pass>, last: Option<Problem>)
    requires Valid(s, now) && PassesFit(s.index, passes, now) && used < lim.maxAttempts && passes != []
    ensures Valid(s, passes[0].selectTime) && ValidDraw(s, passes[0].draw)
    ensures var r := Attempt(s, lim, used + 1, passes[0], last);
            && Valid(r.net, passes[0].doneTime) && r.net.index == s.index
            && After(log, used, Run(s, now, lim, used + 1, passes, last)) ==
               match r.verdict
               case Stop(ending) => RunResult(r.net, log + r.events, ending, used + 1)
               case Continue(problem) =>
                 After(log + r.events, used + 1, Run(r.net, passes[0].doneTime, lim, used + 2, passes[1..], problem))
  {
    var r := RunStep(s, now, lim, used + 1, passes, last);
    if r.verdict.Continue? {
      var rest := Run(r.net, passes[0].doneTime, lim, used + 2, passes[1..], r.verdict.last);
      assert log + (r.events + rest.events) == (log + r.events) + rest.events;
    }
  }
}
