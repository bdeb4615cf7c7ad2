/** Whole runs: what every order of selections, backoffs and replacements keeps, thrown ones included. */
module NetworkRuns {
  import opened Results
  import opened NetworkState
  import opened NetworkSetup
  import opened NetworkReplacement

  datatype Op<N> =
    | Select(key: Option<string>, draw: Draw)
    | Increase(node: N)
    | Decrease(node: N)
    | Replace(entries: seq<Entry>, made: seq<N>, draws: seq<nat>)

  datatype Event<N> = Event(op: Op<N>, time: real)

  lemma ValidMapped<N>(s: Net<N>, now: real)
    requires Valid(s, now)
    ensures Mapped(s)
  {
  }

  /** What the environment supplies with the operation fits the state. */
  ghost predicate Possible<N>(s: Net<N>, e: Event<N>)
    requires Valid(s, e.time)
  {
    ValidMapped(s, e.time);
    match e.op
    case Select(_, draw) => ValidDraw(s, draw)
    case Replace(entries, made, draws) => Supplied(s, entries, made, draws)
    case _ => true
  }

  /** The state after the event; a replacement that throws leaves what it has done so far. */
  ghost function Step<N>(s: Net<N>, e: Event<N>): (r: Net<N>)
    requires Valid(s, e.time) && Possible(s, e)
  {
    ValidMapped(s, e.time);
    match e.op
    case Select(_, _) => Readmit(s, e.time)
    case Increase(n) => IncreaseBackoff(s, n, e.time)
    case Decrease(n) => DecreaseBackoff(s, n)
    case Replace(entries, made, draws) => SetNetwork(s, entries, made, draws, e.time).net
  }

  lemma StepValid<N>(s: Net<N>, e: Event<N>)
    requires Valid(s, e.time) && Possible(s, e)
    ensures Valid(Step(s, e), e.time)
  {
    match e.op
    case Select(_, _) => ReadmitExact(s, e.time);
    case Increase(n) => IncreaseValid(s, n, e.time);
    case Decrease(_) =>
    case Replace(entries, made, draws) =>
      ReplaceValid(s, entries, made, draws, e.time);
  }

  lemma ReplaceValid<N>(s: Net<N>, entries: seq<Entry>, made: seq<N>, draws: seq<nat>, now: real)
    requires Valid(s, now) && Mapped(s) && Supplied(s, entries, made, draws)
    ensures Valid(SetNetwork(s, entries, made, draws, now).net, now)
  {
    if SetNetwork(s, entries, made, draws, now).Done? {
      SetNetworkValid(s, entries, made, draws, now);
    } else {
      ThrowLeaves(s, entries, made, draws, now);
    }
  }

  /** A run from `s` at time `start`: events in time order, each possible where it happens. */
  ghost predicate IsRun<N>(s: Net<N>, start: real, events: seq<Event<N>>)
    decreases |events|
  {
    && Valid(s, start)
    && (events != [] ==>
          && start <= events[0].time
          && (ValidLater(s, start, events[0].time); Possible(s, events[0]))
          && IsRun(Step(s, events[0]), events[0].time, events[1..]))
  }

  ghost function After<N>(s: Net<N>, start: real, events: seq<Event<N>>): Net<N>
    requires IsRun(s, start, events)
    decreases |events|
  {
    if events == [] then s
    else
      ValidLater(s, start, events[0].time);
      After(Step(s, events[0]), events[0].time, events[1..])
  }

  lemma RunPrepended<N>(s: Net<N>, start: real, e: Event<N>, t: Net<N>, rest: seq<Event<N>>)
    requires Valid(s, start) && start <= e.time && Valid(s, e.time) && Possible(s, e) && Step(s, e) == t
    requires IsRun(t, e.time, rest)
    ensures IsRun(s, start, [e] + rest) && After(s, start, [e] + rest) == After(t, e.time, rest)
  {
    var all := [e] + rest;
    assert all[0] == e && all[1..] == rest;
  }

  ghost function EndTime<N>(start: real, events: seq<Event<N>>): real
  {
    if events == [] then start else events[|events| - 1].time
  }

  /**
   The health cache over every run: whatever the order of selections, backoffs and replacements, and
   whether or not the replacements throw, the healthy list has no duplicates and only ready nodes.
   */
  lemma {:induction false} CacheSound<N>(s: Net<N>, start: real, events: seq<Event<N>>)
    requires IsRun(s, start, events)
    ensures Valid(After(s, start, events), EndTime(start, events))
    decreases |events|
  {
    if events != [] {
      ValidLater(s, start, events[0].time);
      CacheSound(Step(s, events[0]), events[0].time, events[1..]);
    }
  }

  // ----- healthy nodes inside the network

  /** The event is a replacement that throws after closing a healthy node. */
  ghost predicate StrandsOne<N>(s: Net<N>, e: Event<N>)
    requires Valid(s, e.time)
  {
    ValidMapped(s, e.time);
    e.op.Replace? && Strands(s, e.op.entries)
  }

  lemma StepInside<N>(s: Net<N>, e: Event<N>)
    requires Valid(s, e.time) && Possible(s, e)
    ensures Inside(s) ==> (Inside(Step(s, e)) <==> !StrandsOne(s, e))
    ensures e.op.Replace? && SetNetwork(s, e.op.entries, e.op.made, e.op.draws, e.time).Done? ==> Inside(Step(s, e))
  {
    ValidMapped(s, e.time);
    match e.op
    case Select(_, _) => ReadmitExact(s, e.time);
    case Increase(n) => IncreaseValid(s, n, e.time);
    case Decrease(_) =>
    case Replace(entries, made, draws) =>
      SetNetworkValid(s, entries, made, draws, e.time);
      if Inside(s) {
        InsideIffNotStranded(s, entries, made, draws, e.time);
      }
  }

  /** In every state of the run the healthy nodes are nodes of the network. */
  ghost predicate AlwaysInside<N>(s: Net<N>, start: real, events: seq<Event<N>>)
    requires IsRun(s, start, events)
    decreases |events|
  {
    Inside(s) && (events != [] ==> (
      ValidLater(s, start, events[0].time);
      AlwaysInside(Step(s, events[0]), events[0].time, events[1..])))
  }

  /** No replacement of the run strands a healthy node in the state it is made in. */
  ghost predicate NeverStrands<N>(s: Net<N>, start: real, events: seq<Event<N>>)
    requires IsRun(s, start, events)
    decreases |events|
  {
    events != [] ==> (
      ValidLater(s, start, events[0].time);
      !StrandsOne(s, events[0]) && NeverStrands(Step(s, events[0]), events[0].time, events[1..]))
  }

  /**
   Over every run that starts with its healthy nodes in the network, they stay there throughout
   exactly when no replacement throws after closing a healthy node.
   */
  lemma {:induction false} AlwaysInsideIff<N>(s: Net<N>, start: real, events: seq<Event<N>>)
    requires IsRun(s, start, events) && Inside(s)
    ensures AlwaysInside(s, start, events) <==> NeverStrands(s, start, events)
    decreases |events|
  {
    if events != [] {
      ValidLater(s, start, events[0].time);
      StepInside(s, events[0]);
      if Inside(Step(s, events[0])) {
        AlwaysInsideIff(Step(s, events[0]), events[0].time, events[1..]);
      }
    }
  }

  // ----- the unhealthy counter

  ghost predicate NoReplace<N>(events: seq<Event<N>>)
  {
    forall e | e in events :: !e.op.Replace?
  }

  lemma StepConserves<N>(s: Net<N>, e: Event<N>)
    requires Valid(s, e.time) && Possible(s, e) && !e.op.Replace?
    ensures Step(s, e).nodes == s.nodes
    ensures |Step(s, e).healthy| + Step(s, e).unhealthyCount == |s.healthy| + s.unhealthyCount
  {
    match e.op
    case Select(_, _) => ReadmitExact(s, e.time);
    case Increase(n) => IncreaseValid(s, n, e.time);
    case Decrease(_) =>
  }

  /** Between two replacements the counter stays exact if it was, and wrong if it was. */
  lemma {:induction false} CountKept<N>(s: Net<N>, start: real, events: seq<Event<N>>)
    requires IsRun(s, start, events) && NoReplace(events)
    ensures CountExact(s) <==> CountExact(After(s, start, events))
    decreases |events|
  {
    if events != [] {
      ValidLater(s, start, events[0].time);
      StepValid(s, events[0]);
      StepConserves(s, events[0]);
      CountKept(Step(s, events[0]), events[0].time, events[1..]);
    }
  }

  // ----- one node for each entry

  ghost predicate ApartReplacements<N>(events: seq<Event<N>>)
  {
    forall e | e in events && e.op.Replace? :: DistinctEndpoints(e.op.entries)
  }

  lemma StepEndpoints<N>(s: Net<N>, e: Event<N>)
    requires Valid(s, e.time) && Possible(s, e) && DistinctNodeEndpoints(s)
    requires e.op.Replace? ==> DistinctEndpoints(e.op.entries)
    ensures Valid(Step(s, e), e.time) && DistinctNodeEndpoints(Step(s, e))
    ensures e.op.Replace? && SetNetwork(s, e.op.entries, e.op.made, e.op.draws, e.time).Done? ==>
              Matches(Step(s, e), e.op.entries)
  {
    StepValid(s, e);
    if e.op.Replace? {
      SetNetworkMatches(s, e.op.entries, e.op.made, e.op.draws, e.time);
      if SetNetwork(s, e.op.entries, e.op.made, e.op.draws, e.time).Threw? {
        ThrowLeaves(s, e.op.entries, e.op.made, e.op.draws, e.time);
      }
    }
  }

  /** Over every run whose replacements give each address once, the nodes have distinct addresses. */
  lemma {:induction false} RunEndpoints<N>(s: Net<N>, start: real, events: seq<Event<N>>)
    requires IsRun(s, start, events) && ApartReplacements(events) && DistinctNodeEndpoints(s)
    ensures Valid(After(s, start, events), EndTime(start, events)) && DistinctNodeEndpoints(After(s, start, events))
    decreases |events|
  {
    if events != [] {
      ValidLater(s, start, events[0].time);
      assert events[0] in events;
      StepEndpoints(s, events[0]);
      RunEndpoints(Step(s, events[0]), events[0].time, events[1..]);
    }
  }

  lemma StepMatches<N>(s: Net<N>, e: Event<N>, entries: seq<Entry>)
    requires Valid(s, e.time) && Possible(s, e) && !e.op.Replace? && Matches(s, entries)
    ensures Valid(Step(s, e), e.time) && Matches(Step(s, e), entries)
  {
    StepValid(s, e);
    var t := Step(s, e);
    assert t.nodes == s.nodes;
    assert forall n | n in s.nodes :: t.info[n].key == s.info[n].key && t.info[n].endpoint == s.info[n].endpoint;
    forall f | f in entries ensures HasNode(t, f) {
      var n :| n in s.nodes && s.info[n].endpoint == f.endpoint && s.info[n].key == f.key;
      assert n in t.nodes;
    }
  }

  lemma {:induction false} MatchesKept<N>(s: Net<N>, start: real, events: seq<Event<N>>, entries: seq<Entry>)
    requires IsRun(s, start, events) && NoReplace(events) && Matches(s, entries)
    ensures Valid(After(s, start, events), EndTime(start, events)) && Matches(After(s, start, events), entries)
    decreases |events|
  {
    if events != [] {
      ValidLater(s, start, events[0].time);
      assert events[0] in events;
      StepMatches(s, events[0], entries);
      MatchesKept(Step(s, events[0]), events[0].time, events[1..], entries);
    }
  }

  /**
   In every run whose replacements give each address once: from a replacement that succeeds to the
   next replacement there is one node for each entry, at its address, with its key, and no other node.
   */
  lemma RunMatches<N>(s: Net<N>, start: real, before: seq<Event<N>>, e: Event<N>, after: seq<Event<N>>)
    requires IsRun(s, start, before) && ApartReplacements(before) && DistinctNodeEndpoints(s)
    requires IsRun(After(s, start, before), EndTime(start, before), [e] + after) && NoReplace(after)
    requires e.op.Replace? && DistinctEndpoints(e.op.entries)
    ensures var t := After(s, start, before);
            && Valid(t, e.time) && Possible(t, e) && IsRun(Step(t, e), e.time, after)
            && (SetNetwork(t, e.op.entries, e.op.made, e.op.draws, e.time).Done? ==>
                  && Valid(After(Step(t, e), e.time, after), EndTime(e.time, after))
                  && Matches(After(Step(t, e), e.time, after), e.op.entries))
  {
    var t := After(s, start, before);
    RunEndpoints(s, start, before);
    ValidLater(t, EndTime(start, before), e.time);
    assert ([e] + after)[0] == e && ([e] + after)[1..] == after;
    StepEndpoints(t, e);
    if SetNetwork(t, e.op.entries, e.op.made, e.op.draws, e.time).Done? {
      MatchesKept(Step(t, e), e.time, after, e.op.entries);
    }
  }

  // ----- selection

  lemma StepPrimed<N>(s: Net<N>, e: Event<N>)
    requires Valid(s, e.time) && Possible(s, e)
    ensures Primed(s) ==> Primed(Step(s, e))
    ensures e.op.Select? && Fires(s, e.time) ==> Primed(Step(s, e))
    ensures Step(s, e).maxReadmitPeriod == s.maxReadmitPeriod
  {
    if e.op.Replace? {
      ValidMapped(s, e.time);
      LaterNetworkCount(s, e.op.entries, e.op.made, e.op.draws, e.time);
    }
  }

  /** The run makes some selection at a time at which a readmission pass fires. */
  ghost predicate SomePassFired<N>(s: Net<N>, start: real, events: seq<Event<N>>)
    requires IsRun(s, start, events)
    decreases |events|
  {
    events != [] && (
      ValidLater(s, start, events[0].time);
      || (events[0].op.Select? && Fires(s, events[0].time))
      || SomePassFired(Step(s, events[0]), events[0].time, events[1..]))
  }

  lemma {:induction false} RunPrimed<N>(s: Net<N>, start: real, events: seq<Event<N>>)
    requires IsRun(s, start, events) && (Primed(s) || SomePassFired(s, start, events))
    ensures Primed(After(s, start, events)) && After(s, start, events).maxReadmitPeriod == s.maxReadmitPeriod
    decreases |events|
  {
    if events != [] {
      ValidLater(s, start, events[0].time);
      StepPrimed(s, events[0]);
      RunPrimed(Step(s, events[0]), events[0].time, events[1..]);
    } else {
      assert Primed(s);
    }
  }

  /**
   Selection over every run: once a readmission pass has fired, a keyless selection at any time from
   the longest readmit period on fails exactly when the readmit time of every node, in the network or
   still in the healthy list, is to come.
   */
  lemma NeverGivesUpEarly<N>(s: Net<N>, start: real, events: seq<Event<N>>, now: real, d: Draw)
    requires IsRun(s, start, events) && SomePassFired(s, start, events)
    requires now >= EndTime(start, events) && now >= s.maxReadmitPeriod && ValidDraw(After(s, start, events), d)
    ensures var t := After(s, start, events);
            && Valid(t, now)
            && (Chosen(Readmit(t, now), None, d) == Err(NoHealthyNode) <==>
                  forall n | n in t.nodes || n in t.healthy :: !Ready(t, n, now))
  {
    CacheSound(s, start, events);
    RunPrimed(s, start, events);
    ValidLater(After(s, start, events), EndTime(start, events), now);
    SelectionExact(After(s, start, events), now, d);
  }
}
