/** Networks whose nodes the choosing loop hangs on, or does not, by the count. */
module SelectionInstances {
  import opened Sequences
  import opened Backoffs
  import opened NetworkState
  import opened NetworkSetup
  import opened NetworkReplacement
  import opened NetworkRuns
  import opened NetworkInstances
  import opened NodeSelection
  import opened SelectionProgress
  import opened SelectionEnds
  import Shuffles

  // ----- the first replacement of a network

  function Numbers(n: nat): (r: seq<int>)
    ensures |r| == n && Distinct(r) && (forall k | 0 <= k < n :: r[k] == k) && forall k | k in r :: 0 <= k < n
  {
    seq(n, k => k)
  }

  /** The nodes 0, 1, ... stand for the entries, and all are healthy. */
  ghost predicate Holds(s: Net<int>, entries: seq<Entry>)
  {
    && s.nodes == Numbers(|entries|) && s.healthy == s.nodes && s.unhealthyCount == 0
    && forall k | 0 <= k < |entries| ::
         k in s.info && s.info[k].key == entries[k].key && s.info[k].endpoint == entries[k].endpoint
  }

  lemma {:induction false} AllMissing(s: Net<int>, entries: seq<Entry>)
    requires s.nodes == []
    ensures Missing(s, entries) == entries
  {
    if entries != [] {
      AllMissing(s, entries[..|entries| - 1]);
      assert entries == entries[..|entries| - 1] + [entries[|entries| - 1]];
    }
  }

  lemma {:induction false} AllReady(s: Net<int>, nodes: seq<int>, now: real)
    requires forall n | n in nodes :: n in s.info && Ready(s, n, now)
    ensures ReadyNodes(s, nodes, now) == nodes
  {
    if nodes != [] {
      var init, last := nodes[..|nodes| - 1], nodes[|nodes| - 1];
      AllReady(s, init, now);
      assert last in nodes && nodes == init + [last];
      assert ReadyNodes(s, nodes, now) == init + [last];
    }
  }

  lemma Shuffling(made: seq<int>) returns (draws: seq<nat>)
    requires Distinct(made)
    ensures Shuffles.ValidDraws(draws, |made|) && Shuffles.Shuffled(made, |made|, draws) == made
  {
    Shuffles.ShuffleBijective(made, made);
    draws :| Shuffles.ValidDraws(draws, |made|) && Shuffles.Shuffled(made, |made|, draws) == made;
  }

  lemma FirstMade(entries: seq<Entry>, made: seq<int>, start: real)
    requires made == Numbers(|entries|)
    ensures var full := WithCreated(Fresh(start), entries, made, start);
            && full.nodes == made && full == Fresh(start).(nodes := made, info := full.info)
            && (forall k | 0 <= k < |entries| ::
                  k in full.info && full.info[k] == NodeFor(entries[k], DEFAULT_MIN_BACKOFF, start))
            && (forall n | n in made :: n in full.info && Ready(full, n, start))
  {
    var s := Fresh(start);
    CreatedNodes(s, entries, made, start);
    var full := WithCreated(s, entries, made, start);
    assert s.nodes + made == made;
    forall k | 0 <= k < |entries|
      ensures k in full.info && full.info[k] == NodeFor(entries[k], DEFAULT_MIN_BACKOFF, start)
    {
      assert made[k] == k;
    }
    forall n | n in made ensures n in full.info && Ready(full, n, start) {
      NodeForEntry(entries[n], DEFAULT_MIN_BACKOFF, start);
    }
  }

  lemma {:induction false} FirstCompleted(entries: seq<Entry>, made: seq<int>, draws: seq<nat>, start: real)
    requires made == Numbers(|entries|)
    requires Shuffles.ValidDraws(draws, |made|) && Shuffles.Shuffled(made, |made|, draws) == made
    ensures Holds(Completed(Fresh(start), entries, made, draws, start), entries)
  {
    var full := WithCreated(Fresh(start), entries, made, start);
    FirstMade(entries, made, start);
    AllReady(full, made, start);
    var t := Completed(Fresh(start), entries, made, draws, start);
    assert t == Rebuilt(full, made, start);
    forall k | 0 <= k < |entries|
      ensures k in t.info && t.info[k].key == entries[k].key && t.info[k].endpoint == entries[k].endpoint
    {
      NodeForEntry(entries[k], DEFAULT_MIN_BACKOFF, start);
    }
  }

  /** A run from a new network object that makes a healthy node for each entry. */
  lemma FirstRun(entries: seq<Entry>, start: real) returns (events: seq<NetworkRuns.Event<int>>)
    ensures IsRun(Fresh(start), start, events)
    ensures var t := After(Fresh(start), start, events); Valid(t, start) && Holds(t, entries)
  {
    var s, made := Fresh(start), Numbers(|entries|);
    var draws := Shuffling(made);
    var e := Event(Replace(entries, made, draws), start);
    FreshValid(start);
    assert CloseUnwanted(s, entries, 0) == Done(s);
    AllMissing(s, entries);
    assert Possible(s, e);
    FirstCompleted(entries, made, draws, start);
    StepValid(s, e);
    RunOfNone(Step(s, e), start);
    RunPrepended(s, start, e, Step(s, e), []);
    events := [e] + [];
  }

  // ----- three nodes

  /** The third entry has the key of the first and the host of the second. */
  ghost predicate InterlockedEntries(a: Entry, b: Entry, c: Entry)
  {
    a.key != b.key && a.endpoint.host != b.endpoint.host && c.key == a.key && c.endpoint.host == b.endpoint.host
  }

  /** A run after which a request for three nodes never ends once the first two are drawn. */
  lemma HangingRun(a: Entry, b: Entry, c: Entry, start: real) returns (events: seq<NetworkRuns.Event<int>>)
    requires InterlockedEntries(a, b, c)
    ensures IsRun(Fresh(start), start, events)
    ensures var t := After(Fresh(start), start, events);
            && Valid(t, start)
            && forall calls | CallsFit(t.index, calls, start) && DrawsFirstTwo(calls) ::
                 !SelectMore(t, start, 3, [], calls).finished
  {
    var entries := [a, b, c];
    events := FirstRun(entries, start);
    var t := After(Fresh(start), start, events);
    assert t.healthy == [0, 1, 2];
    assert entries[0] == a && entries[1] == b && entries[2] == c;
    forall calls | CallsFit(t.index, calls, start) && DrawsFirstTwo(calls)
      ensures !SelectMore(t, start, 3, [], calls).finished
    {
      ThreeNodesNeverEnd(t, start, 3, 0, 1, 2, calls);
    }
  }

  /** The first two calls draw the first and the second of three healthy nodes. */
  ghost predicate DrawsFirstTwo(calls: seq<Call>)
  {
    && |calls| >= 2 && 0.0 <= calls[0].draw.random < 1.0 && 0.0 <= calls[1].draw.random < 1.0
    && Pick(calls[0].draw.random, 3) == 0 && Pick(calls[1].draw.random, 3) == 1
  }

  // ----- four nodes

  /** Two keys and two hosts, every combination once; each node is tangled. */
  ghost predicate Crossed<N>(s: Net<N>, a: N, b: N, c: N, d: N)
  {
    && s.healthy == [a, b, c, d] && Subseq(s.nodes, s.healthy) && AllKnown(s.info, s.healthy)
    && a in s.info && b in s.info && c in s.info && d in s.info
    && s.info[a].key == s.info[c].key && s.info[b].key == s.info[d].key && s.info[a].key != s.info[b].key
    && s.info[a].endpoint.host == s.info[d].endpoint.host && s.info[b].endpoint.host == s.info[c].endpoint.host
    && s.info[a].endpoint.host != s.info[b].endpoint.host
  }

  lemma CrossedParts<N>(s: Net<N>, a: N, b: N, c: N, d: N)
    requires Crossed(s, a, b, c, d)
    ensures a in s.healthy && b in s.healthy && c in s.healthy && d in s.healthy
    ensures forall n | n in s.healthy :: n == a || n == b || n == c || n == d
  {
    assert s.healthy[0] == a && s.healthy[1] == b && s.healthy[2] == c && s.healthy[3] == d;
  }

  /** Whichever of them is taken first, the one with the other key and the other host can follow. */
  lemma CrossedGrows<N>(s: Net<N>, a: N, b: N, c: N, d: N, selected: seq<N>)
    requires Crossed(s, a, b, c, d) && Subseq(selected, s.healthy) && AllKnown(s.info, selected) && |selected| < 2
    ensures CanGrow(s.info, s.healthy, selected)
  {
    CrossedParts(s, a, b, c, d);
    if selected == [] {
      assert Acceptable(s.info, selected, a);
    } else {
      var n := selected[0];
      assert selected == [n] && n in selected;
      var m := if n == a then b else if n == b then a else if n == c then d else c;
      assert Acceptable(s.info, selected, m);
    }
  }

  /** The first two leave the others without a new key or a new host. */
  lemma CrossedStuck<N>(s: Net<N>, a: N, b: N, c: N, d: N) returns (selected: seq<N>)
    requires Crossed(s, a, b, c, d)
    ensures Grown(s.info, s.healthy, selected) && |selected| == 2 && AllKnown(s.info, selected)
    ensures !CanGrow(s.info, s.healthy, selected)
  {
    CrossedParts(s, a, b, c, d);
    var none: seq<N> := [];
    assert none + [a] == [a] && [a] + [b] == [a, b];
    GrownMore(s.info, s.healthy, none, a);
    GrownMore(s.info, s.healthy, [a], b);
    selected := [a, b];
    assert selected[0] == a && selected[1] == b;
    forall n | n in s.healthy ensures !Acceptable(s.info, selected, n) {
    }
  }

  /** A request for two of them can always end; for three it cannot. */
  lemma CrossedEnds<N>(s: Net<N>, now: real, a: N, b: N, c: N, d: N)
    requires Valid(s, now) && Crossed(s, a, b, c, d) && s.unhealthyCount == 0
    ensures forall calls | CallsFit(s.index, calls, now) :: CanEnd(s, now, 2, calls)
    ensures exists calls :: CallsFit(s.index, calls, now) && !CanEnd(s, now, 3, calls)
  {
    AllHealthy(s);
    CanAlwaysEndIff(s, now, 2);
    forall selected ensures !Blocks(s, now, 2, selected) {
      BlocksIff(s, now, 2, selected);
      if Blocks(s, now, 2, selected) {
        GrownWithin(s.info, s.healthy, selected);
        CrossedGrows(s, a, b, c, d, selected);
      }
    }
    var selected := CrossedStuck(s, a, b, c, d);
    BlocksIff(s, now, 3, selected);
    var calls := BlockedCannotEnd(s, now, 3, selected);
  }

  /** A run to such a network: of its four nodes two can always be chosen, but not always three. */
  lemma CrossedRun(a: Entry, b: Entry, c: Entry, d: Entry, start: real) returns (events: seq<NetworkRuns.Event<int>>)
    requires a.key == c.key && b.key == d.key && a.key != b.key
    requires a.endpoint.host == d.endpoint.host && b.endpoint.host == c.endpoint.host
    requires a.endpoint.host != b.endpoint.host
    ensures IsRun(Fresh(start), start, events)
    ensures var t := After(Fresh(start), start, events);
            && Valid(t, start) && |t.healthy| == 4
            && (forall calls | CallsFit(t.index, calls, start) :: CanEnd(t, start, 2, calls))
            && (exists calls :: CallsFit(t.index, calls, start) && !CanEnd(t, start, 3, calls))
  {
    var entries := [a, b, c, d];
    events := FirstRun(entries, start);
    var t := After(Fresh(start), start, events);
    assert t.healthy == [0, 1, 2, 3];
    assert entries[0] == a && entries[1] == b && entries[2] == c && entries[3] == d;
    CrossedEnds(t, start, 0, 1, 2, 3);
  }
}
