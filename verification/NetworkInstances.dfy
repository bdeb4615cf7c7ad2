/** Runs of two nodes that reach the states a replacement can go wrong in. */
module NetworkInstances {
  import opened Backoffs
  import opened NetworkState
  import opened NetworkSetup
  import opened NetworkClosing
  import opened NetworkReplacement
  import opened NetworkRuns
  import Shuffles

  /** Two entries with nothing in common, and the nodes 0 and 1 made for them. */
  ghost predicate Apart(a: Entry, b: Entry)
  {
    a.key != b.key && a.endpoint != b.endpoint
  }

  /** A network object before its first replacement. */
  function Fresh(start: real): Net<int>
  {
    Net([], [], 0, start + DEFAULT_MIN_BACKOFF, DEFAULT_MIN_BACKOFF, DEFAULT_MAX_BACKOFF, DEFAULT_MIN_BACKOFF, map[],
        map[])
  }

  function TwoNodes(a: Entry, b: Entry, start: real): map<int, NodeState>
  {
    map[0 := NodeFor(a, DEFAULT_MIN_BACKOFF, start), 1 := NodeFor(b, DEFAULT_MIN_BACKOFF, start)]
  }

  /** Both nodes made and ready. */
  function BothReady(a: Entry, b: Entry, start: real): Net<int>
  {
    Fresh(start).(nodes := [0, 1], healthy := [0, 1], index := map[a.key := [0], b.key := [1]],
        info := TwoNodes(a, b, start))
  }

  /** Node 0 backed off. */
  function OneBack(a: Entry, b: Entry, start: real): Net<int>
  {
    IncreaseBackoff(BothReady(a, b, start), 0, start)
  }

  // ----- replacements that keep both nodes

  lemma KeepsOrder(nodes: seq<int>, draws: seq<nat>)
    requires |nodes| == 2 && draws == [1, 0]
    ensures Shuffles.ValidDraws(draws, 2) && Shuffles.Shuffled(nodes, 2, draws) == nodes
  {
    assert draws[1..] == [0] && draws[1..][1..] == [];
    assert Shuffles.Swap(nodes, 1, 1) == nodes && Shuffles.Swap(nodes, 0, 0) == nodes;
    assert Shuffles.Shuffled(nodes, 1, draws[1..]) == Shuffles.Shuffled(nodes, 0, draws[1..][1..]);
  }

  lemma ReadyOfTwo(s: Net<int>, nodes: seq<int>, now: real)
    requires nodes == [0, 1] && 0 in s.info && 1 in s.info
    ensures ReadyNodes(s, nodes, now) == (if Ready(s, 0, now) then [0] else []) + (if Ready(s, 1, now) then [1] else [])
  {
    assert nodes[..1] == [0] && nodes[..1][..0] == [];
    assert ReadyNodes(s, nodes[..1][..0], now) == [];
    assert ReadyNodes(s, nodes[..1], now) == if Ready(s, 0, now) then [0] else [];
  }

  lemma IndexOfOne(info: map<int, NodeState>, nodes: seq<int>)
    requires |nodes| == 1 && nodes[0] in info
    ensures IndexOf(info, nodes) == map[info[nodes[0]].key := nodes]
  {
    var empty: map<string, seq<int>>, key, none: seq<int> := map[], info[nodes[0]].key, [];
    assert nodes[..0] == [] && IndexOf(info, nodes[..0]) == empty;
    assert none + [nodes[0]] == nodes;
    assert IndexOf(info, nodes) == empty[key := none + [nodes[0]]];
  }

  lemma IndexOfTwo(info: map<int, NodeState>, nodes: seq<int>)
    requires |nodes| == 2 && nodes[0] in info && nodes[1] in info && info[nodes[0]].key != info[nodes[1]].key
    ensures IndexOf(info, nodes) == map[info[nodes[0]].key := [nodes[0]], info[nodes[1]].key := [nodes[1]]]
  {
    var none: seq<int>, first, second := [], info[nodes[0]].key, info[nodes[1]].key;
    IndexOfOne(info, nodes[..1]);
    assert nodes[..1] == [nodes[0]] && none + [nodes[1]] == [nodes[1]];
    assert IndexOf(info, nodes) == map[first := [nodes[0]]][second := none + [nodes[1]]];
  }

  /** A network of the two nodes, both wanted. */
  ghost predicate Twin(s: Net<int>, a: Entry, b: Entry)
  {
    && s.nodes == [0, 1] && Mapped(s) && s.info[0].key == a.key && s.info[0].endpoint == a.endpoint
    && s.info[1].key == b.key && s.info[1].endpoint == b.endpoint
  }

  lemma TwinWanted(s: Net<int>, a: Entry, b: Entry, entries: seq<Entry>, draws: seq<nat>, now: real)
    requires Apart(a, b) && Twin(s, a, b) && entries == [a, b] && draws == [1, 0]
    ensures Supplied(s, entries, [], draws)
    ensures var r := SetNetwork(s, entries, [], draws, now);
            && r.Done? && r.net.nodes == [0, 1] && r.net == Rebuilt(s, [0, 1], now)
  {
    assert entries[0] == a && entries[1] == b;
    assert Wanted(s.info[s.nodes[0]], entries) && Wanted(s.info[s.nodes[1]], entries);
    assert CloseUnwanted(s, entries, 1) == CloseUnwanted(s, entries, 0);
    assert CloseUnwanted(s, entries, 2) == Done(s);
    NothingMissing(s, a, b, entries);
    KeepsOrder(s.nodes, draws);
  }

  lemma NothingMissing(s: Net<int>, a: Entry, b: Entry, entries: seq<Entry>)
    requires Twin(s, a, b) && entries == [a, b]
    ensures Missing(s, entries) == []
  {
    assert s.nodes[0] in s.nodes && s.nodes[1] in s.nodes;
    assert entries[..1] == [a] && entries[..1][..0] == [];
    assert KnownKey(s, a.key) && KnownEndpoint(s, a.endpoint) && KnownKey(s, b.key) && KnownEndpoint(s, b.endpoint);
    assert Missing(s, entries[..1]) == [];
  }

  // ----- the first replacement

  lemma FirstReplacement(a: Entry, b: Entry, start: real, entries: seq<Entry>, made: seq<int>, draws: seq<nat>)
    requires Apart(a, b) && entries == [a, b] && made == [0, 1] && draws == [1, 0]
    ensures Supplied(Fresh(start), entries, made, draws)
    ensures SetNetwork(Fresh(start), entries, made, draws, start) == Done(BothReady(a, b, start))
  {
    var s := Fresh(start);
    assert CloseUnwanted(s, entries, 0) == Done(s);
    BothMissing(s, entries);
    KeepsOrder(made, draws);
    FirstCreated(a, b, start, entries, made);
    var full := s.(nodes := [0, 1], info := TwoNodes(a, b, start));
    ReadyOfTwo(full, made, start);
    NodeForEntry(a, DEFAULT_MIN_BACKOFF, start);
    NodeForEntry(b, DEFAULT_MIN_BACKOFF, start);
    assert [0] + [1] == made;
    IndexOfTwo(full.info, made);
  }

  lemma BothMissing(s: Net<int>, entries: seq<Entry>)
    requires s.nodes == [] && |entries| == 2
    ensures Missing(s, entries) == entries
  {
    assert entries[..1][..0] == [] && Missing(s, entries[..1][..0]) == [];
    assert Missing(s, entries[..1]) == [entries[0]];
    assert entries == [entries[0]] + [entries[1]];
  }

  lemma FirstCreated(a: Entry, b: Entry, start: real, entries: seq<Entry>, made: seq<int>)
    requires entries == [a, b] && made == [0, 1]
    ensures WithCreated(Fresh(start), entries, made, start) ==
              Fresh(start).(nodes := [0, 1], info := TwoNodes(a, b, start))
  {
    var s := Fresh(start);
    assert entries[..1] == [a] && made[..1] == [0] && entries[..1][..0] == [] && made[..1][..0] == [];
    assert WithCreated(s, entries[..1][..0], made[..1][..0], start) == s;
    var one := WithCreated(s, entries[..1], made[..1], start);
    assert one == s.(nodes := [0], info := map[0 := NodeFor(a, DEFAULT_MIN_BACKOFF, start)]);
    assert [0] + [1] == [0, 1];
  }

  // ----- one node backed off

  lemma BothReadyValid(a: Entry, b: Entry, start: real)
    requires Apart(a, b)
    ensures Valid(BothReady(a, b, start), start) && Twin(BothReady(a, b, start), a, b)
  {
    var s := BothReady(a, b, start);
    NodeForEntry(a, DEFAULT_MIN_BACKOFF, start);
    NodeForEntry(b, DEFAULT_MIN_BACKOFF, start);
    assert Listed(s, s.index[a.key], a.key) && Listed(s, s.index[b.key], b.key);
  }

  lemma BackedOff(a: Entry, b: Entry, start: real)
    requires Apart(a, b)
    ensures var s := OneBack(a, b, start);
            && Valid(BothReady(a, b, start), start) && Valid(s, start) && Twin(s, a, b)
            && s.healthy == [1] && s.unhealthyCount == 1
            && s.info[0].readmitTime == start + 16000.0 && s.info[1].readmitTime == start
  {
    var s := BothReady(a, b, start);
    BothReadyValid(a, b, start);
    IncreaseValid(s, 0, start);
    assert [0, 1][..1] == [0] && [0][..0] == [];
    assert Without([0], 0) == [];
    assert Without([0, 1], 0) == [1];
  }

  lemma KeptRebuilt(a: Entry, b: Entry, start: real, now: real, nodes: seq<int>)
    requires Apart(a, b) && nodes == [0, 1]
    ensures var s, t := OneBack(a, b, start), Rebuilt(OneBack(a, b, start), nodes, now);
            && (start <= now < start + 16000.0 ==> t == s.(nodes := nodes, healthy := [1], index := map[b.key := [1]]))
            && (now >= start + 16000.0 ==> t.healthy == [0, 1] && t.nodes == nodes && t.unhealthyCount == 1)
  {
    var s := OneBack(a, b, start);
    BackedOff(a, b, start);
    ReadyOfTwo(s, nodes, now);
    var none: seq<int> := [];
    assert none + [1] == [1] && [0] + [1] == [0, 1];
    IndexOfOne(s.info, [1]);
  }

  // ----- a replacement of nothing by nothing known

  /** With node 0 not indexed, replacing by no entries closes node 1 and throws on node 0. */
  lemma EmptyThrows(s: Net<int>, a: Entry, b: Entry, entries: seq<Entry>)
    requires Apart(a, b) && Twin(s, a, b) && entries == [] && s.index == map[b.key := [1]] && s.healthy == [1]
    ensures var r := CloseUnwanted(s, entries, 2);
            r.Threw? && r.at == 0 && r.net.nodes == [0] && r.net.healthy == [1] && r.net.index == map[]
    ensures Strands(s, entries)
  {
    assert !Wanted(s.info[s.nodes[0]], entries) && !Wanted(s.info[s.nodes[1]], entries);
    CloseMapped(s, 1);
    var t := Close(s, 1).value;
    assert t.nodes == [0] && t.index == map[];
    assert Close(t, 0).None?;
    assert CloseUnwanted(t, entries, 1) == Threw(t, 0);
    ClosingThrowsIff(s, entries, 2);
    assert ThrowsAt(s, entries, 2, 0) && Unwanted(s, entries, 1) && s.nodes[1] in s.healthy;
  }

  // ----- the two runs

  lemma FreshValid(start: real)
    ensures Valid(Fresh(start), start)
  {
  }

  ghost predicate Resets(e: NetworkRuns.Event<int>, entries: seq<Entry>, made: seq<int>, draws: seq<nat>)
  {
    e.op == Replace(entries, made, draws)
  }

  lemma {:induction false} FirstStep(a: Entry, b: Entry, start: real, e: NetworkRuns.Event<int>)
    requires Apart(a, b) && Resets(e, [a, b], [0, 1], [1, 0]) && e.time == start
    ensures Valid(Fresh(start), start) && Possible(Fresh(start), e) && Step(Fresh(start), e) == BothReady(a, b, start)
  {
    FreshValid(start);
    FirstReplacement(a, b, start, e.op.entries, e.op.made, e.op.draws);
  }

  /** The first two events of both runs: two nodes are made, and one of them is backed off. */
  lemma Begins(a: Entry, b: Entry, start: real, first: NetworkRuns.Event<int>, second: NetworkRuns.Event<int>,
          rest: seq<NetworkRuns.Event<int>>)
    requires Apart(a, b) && Resets(first, [a, b], [0, 1], [1, 0]) && first.time == start
    requires second.op == Increase(0) && second.time == start && IsRun(OneBack(a, b, start), start, rest)
    ensures IsRun(Fresh(start), start, [first] + ([second] + rest))
    ensures After(Fresh(start), start, [first] + ([second] + rest)) == After(OneBack(a, b, start), start, rest)
  {
    FirstStep(a, b, start, first);
    BackedOff(a, b, start);
    RunPrepended(BothReady(a, b, start), start, second, OneBack(a, b, start), rest);
    RunPrepended(Fresh(start), start, first, BothReady(a, b, start), [second] + rest);
  }

  lemma ThirdStep(a: Entry, b: Entry, start: real, e: NetworkRuns.Event<int>)
    requires Apart(a, b) && Resets(e, [a, b], [], [1, 0]) && e.time >= start
    ensures var s := OneBack(a, b, start);
            && Valid(s, start) && Valid(s, e.time) && Possible(s, e)
            && Step(s, e) == Rebuilt(s, [0, 1], e.time) && Valid(Step(s, e), e.time)
  {
    var s := OneBack(a, b, start);
    BackedOff(a, b, start);
    ValidLater(s, start, e.time);
    TwinWanted(s, a, b, e.op.entries, e.op.draws, e.time);
    StepValid(s, e);
  }

  lemma RunOfNone(s: Net<int>, now: real)
    requires Valid(s, now)
    ensures IsRun(s, now, []) && After(s, now, []) == s
  {
  }

  /**
   A run after which the unhealthy counter is wrong: a node is backed off, and the network is set
   again, to the same entries, when it is ready again.
   */
  lemma DriftingRun(a: Entry, b: Entry, start: real, later: real) returns (events: seq<NetworkRuns.Event<int>>)
    requires Apart(a, b) && later >= start + 16000.0
    ensures IsRun(Fresh(start), start, events)
    ensures var t := After(Fresh(start), start, events);
            t.nodes == [0, 1] && t.healthy == [0, 1] && t.unhealthyCount == 1 && !CountExact(t)
  {
    var s, first, second := OneBack(a, b, start), Event(Replace([a, b], [0, 1], [1, 0]), start),
        Event(Increase(0), start);
    var third := Event(Replace([a, b], [], [1, 0]), later);
    ThirdStep(a, b, start, third);
    KeptRebuilt(a, b, start, later, [0, 1]);
    RunOfNone(Step(s, third), later);
    RunPrepended(s, start, third, Step(s, third), []);
    Begins(a, b, start, first, second, [third] + []);
    events := [first] + ([second] + ([third] + []));
  }

  lemma FourthStep(s: Net<int>, a: Entry, b: Entry, e: NetworkRuns.Event<int>)
    requires Apart(a, b) && Twin(s, a, b) && s.index == map[b.key := [1]] && s.healthy == [1]
    requires Valid(s, e.time) && Resets(e, [], [], [])
    ensures Possible(s, e) && Valid(Step(s, e), e.time)
    ensures Step(s, e).nodes == [0] && Step(s, e).healthy == [1] && Step(s, e).index == map[]
  {
    EmptyThrows(s, a, b, e.op.entries);
    StepValid(s, e);
  }

  /**
   A run after which a healthy node is not in the network: a node is backed off, the network is set
   again, so that the node's key is not indexed, and then set to no entries, which closes the other
   node and throws.
   */
  lemma StrandingRun(a: Entry, b: Entry, start: real) returns (events: seq<NetworkRuns.Event<int>>)
    requires Apart(a, b)
    ensures IsRun(Fresh(start), start, events)
    ensures var t := After(Fresh(start), start, events);
            t.nodes == [0] && t.healthy == [1] && t.index == map[] && !Inside(t)
  {
    var s, first, second := OneBack(a, b, start), Event(Replace([a, b], [0, 1], [1, 0]), start),
        Event(Increase(0), start);
    var third, fourth := Event(Replace([a, b], [], [1, 0]), start), Event(Replace([], [], []), start);
    ThirdStep(a, b, start, third);
    KeptRebuilt(a, b, start, start, [0, 1]);
    BackedOff(a, b, start);
    var t := Step(s, third);
    FourthStep(t, a, b, fourth);
    RunOfNone(Step(t, fourth), start);
    RunPrepended(t, start, fourth, Step(t, fourth), []);
    RunPrepended(s, start, third, t, [fourth] + []);
    Begins(a, b, start, first, second, [third] + ([fourth] + []));
    events := [first] + ([second] + ([third] + ([fourth] + [])));
    var u := After(Fresh(start), start, events);
    assert u.healthy[0] == 1 && u.healthy[0] in u.healthy;
  }
}
