/** What replacing the network establishes. */
module NetworkReplacement {
  import opened Sequences
  import opened NetworkState
  import opened NetworkSetup
  import opened NetworkClosing
  import Shuffles

  // ----- replacing the network

  ghost predicate DistinctNodeEndpoints<N>(s: Net<N>)
    requires forall n | n in s.nodes :: n in s.info
  {
    forall m, n | m in s.nodes && n in s.nodes && s.info[m].endpoint == s.info[n].endpoint :: m == n
  }

  /** Some node has the entry's address and key. */
  ghost predicate HasNode<N>(s: Net<N>, e: Entry)
    requires forall n | n in s.nodes :: n in s.info
  {
    exists n :: n in s.nodes && s.info[n].endpoint == e.endpoint && s.info[n].key == e.key
  }

  /** One node for each entry, with its key, and no other node. */
  ghost predicate Matches<N>(s: Net<N>, entries: seq<Entry>)
    requires forall n | n in s.nodes :: n in s.info
  {
    && (forall n | n in s.nodes :: Wanted(s.info[n], entries))
    && (forall e | e in entries :: HasNode(s, e))
    && DistinctNodeEndpoints(s)
  }

  lemma {:induction false} MissingMembers<N>(s: Net<N>, entries: seq<Entry>)
    requires forall n | n in s.nodes :: n in s.info
    ensures forall e | e in Missing(s, entries) :: e in entries && !(KnownKey(s, e.key) && KnownEndpoint(s, e.endpoint))
    ensures forall e | e in entries && !(KnownKey(s, e.key) && KnownEndpoint(s, e.endpoint)) :: e in Missing(s, entries)
    ensures DistinctEndpoints(entries) ==> DistinctEndpoints(Missing(s, entries))
  {
    if entries != [] {
      var init := entries[..|entries| - 1];
      MissingMembers(s, init);
      assert entries == init + [entries[|entries| - 1]];
    }
  }

  lemma SameEndpoint(entries: seq<Entry>, e: Entry, f: Entry)
    requires DistinctEndpoints(entries) && e in entries && f in entries && e.endpoint == f.endpoint
    ensures e == f
  {
  }

  /** With wanted nodes only, an entry is missing exactly when no kept node has its address. */
  lemma MissingEndpoints<N>(s: Net<N>, entries: seq<Entry>, e: Entry)
    requires (forall n | n in s.nodes :: n in s.info && Wanted(s.info[n], entries)) && DistinctEndpoints(entries)
    requires e in entries
    ensures e in Missing(s, entries) <==> !KnownEndpoint(s, e.endpoint)
    ensures KnownEndpoint(s, e.endpoint) ==> HasNode(s, e)
  {
    MissingMembers(s, entries);
    if KnownEndpoint(s, e.endpoint) {
      var n :| n in s.nodes && s.info[n].endpoint == e.endpoint;
      SameEndpoint(entries, e, Entry(s.info[n].endpoint, s.info[n].key));
      assert KnownKey(s, e.key);
    }
  }

  lemma NodeForEntry(e: Entry, minBackoff: real, now: real)
    ensures NodeFor(e, minBackoff, now).key == e.key && NodeFor(e, minBackoff, now).endpoint == e.endpoint
    ensures NodeFor(e, minBackoff, now).readmitTime == now && NodeFor(e, minBackoff, now).minBackoff == minBackoff
    ensures NodeFor(e, minBackoff, now).maxBackoff == 3600000.0
    ensures NodeFor(e, minBackoff, now).currentBackoff == if minBackoff >= 8000.0 then minBackoff else 8000.0
  {
  }

  /** Every node of the completed network is kept, or is the node made for a missing entry. */
  lemma CompletedNode<N>(s: Net<N>, entries: seq<Entry>, made: seq<N>, now: real, n: N) returns (k: nat)
    requires Distinct(s.nodes) && (forall m | m in s.nodes :: m in s.info)
    requires |made| == |Missing(s, entries)| && Distinct(made) && forall m | m in made :: m !in s.info
    requires n in WithCreated(s, Missing(s, entries), made, now).nodes
    ensures var t := WithCreated(s, Missing(s, entries), made, now);
            && n in t.info
            && if n in s.nodes then t.info[n] == s.info[n]
               else k < |made| && made[k] == n && t.info[n] == NodeFor(Missing(s, entries)[k], s.minBackoff, now)
  {
    CreatedNodes(s, Missing(s, entries), made, now);
    k := 0;
    if n !in s.nodes {
      assert n in made;
      k :| 0 <= k < |made| && made[k] == n;
    }
  }

  lemma CompletedMatches<N>(s: Net<N>, entries: seq<Entry>, made: seq<N>, now: real)
    requires Distinct(s.nodes) && (forall n | n in s.nodes :: n in s.info && Wanted(s.info[n], entries))
    requires DistinctNodeEndpoints(s) && DistinctEndpoints(entries)
    requires |made| == |Missing(s, entries)| && Distinct(made) && forall n | n in made :: n !in s.info
    ensures var t := WithCreated(s, Missing(s, entries), made, now);
            (forall n | n in t.nodes :: n in t.info) && Matches(t, entries)
  {
    var t := WithCreated(s, Missing(s, entries), made, now);
    forall n | n in t.nodes ensures n in t.info && Wanted(t.info[n], entries) {
      CompletedWanted(s, entries, made, now, n);
    }
    forall e | e in entries ensures HasNode(t, e) {
      CompletedHas(s, entries, made, now, e);
    }
    forall m, n | m in t.nodes && n in t.nodes && t.info[m].endpoint == t.info[n].endpoint ensures m == n {
      CompletedDistinct(s, entries, made, now, m, n);
    }
  }

  lemma CompletedWanted<N>(s: Net<N>, entries: seq<Entry>, made: seq<N>, now: real, n: N)
    requires Distinct(s.nodes) && (forall n | n in s.nodes :: n in s.info && Wanted(s.info[n], entries))
    requires |made| == |Missing(s, entries)| && Distinct(made) && forall n | n in made :: n !in s.info
    requires n in WithCreated(s, Missing(s, entries), made, now).nodes
    ensures var t := WithCreated(s, Missing(s, entries), made, now); n in t.info && Wanted(t.info[n], entries)
  {
    var k := CompletedNode(s, entries, made, now, n);
    if n !in s.nodes {
      MissingMembers(s, entries);
      NodeForEntry(Missing(s, entries)[k], s.minBackoff, now);
    }
  }

  lemma {:induction false} CompletedHas<N>(s: Net<N>, entries: seq<Entry>, made: seq<N>, now: real, e: Entry)
    requires Distinct(s.nodes) && (forall n | n in s.nodes :: n in s.info && Wanted(s.info[n], entries))
    requires DistinctEndpoints(entries) && e in entries
    requires |made| == |Missing(s, entries)| && Distinct(made) && forall n | n in made :: n !in s.info
    ensures var t := WithCreated(s, Missing(s, entries), made, now);
            (forall n | n in t.nodes :: n in t.info) && HasNode(t, e)
  {
    var missing := Missing(s, entries);
    var t := WithCreated(s, missing, made, now);
    CreatedNodes(s, missing, made, now);
    MissingEndpoints(s, entries, e);
    if KnownEndpoint(s, e.endpoint) {
      var n :| n in s.nodes && s.info[n].endpoint == e.endpoint && s.info[n].key == e.key;
      assert n in t.nodes && t.info[n] == s.info[n];
    } else {
      var k :| 0 <= k < |missing| && missing[k] == e;
      NodeForEntry(e, s.minBackoff, now);
      assert made[k] in t.nodes;
    }
  }

  lemma CompletedDistinct<N>(s: Net<N>, entries: seq<Entry>, made: seq<N>, now: real, m: N, n: N)
    requires Distinct(s.nodes) && (forall n | n in s.nodes :: n in s.info && Wanted(s.info[n], entries))
    requires DistinctNodeEndpoints(s) && DistinctEndpoints(entries)
    requires |made| == |Missing(s, entries)| && Distinct(made) && forall n | n in made :: n !in s.info
    requires var t := WithCreated(s, Missing(s, entries), made, now);
             m in t.nodes && n in t.nodes && m in t.info && n in t.info && t.info[m].endpoint == t.info[n].endpoint
    ensures m == n
  {
    var j := CompletedEndpoint(s, entries, made, now, m);
    var k := CompletedEndpoint(s, entries, made, now, n);
    if m !in s.nodes {
      assert DistinctEndpoints(Missing(s, entries)) by {
        MissingMembers(s, entries);
      }
      SameEntry(Missing(s, entries), j, k);
    }
  }

  lemma SameEntry(entries: seq<Entry>, j: nat, k: nat)
    requires DistinctEndpoints(entries) && j < |entries| && k < |entries| && entries[j].endpoint == entries[k].endpoint
    ensures j == k
  {
  }

  /** A new node's address is that of its missing entry, which no kept node has. */
  lemma CompletedEndpoint<N>(s: Net<N>, entries: seq<Entry>, made: seq<N>, now: real, n: N) returns (k: nat)
    requires Distinct(s.nodes) && (forall n | n in s.nodes :: n in s.info && Wanted(s.info[n], entries))
    requires DistinctEndpoints(entries)
    requires |made| == |Missing(s, entries)| && Distinct(made) && forall n | n in made :: n !in s.info
    requires n in WithCreated(s, Missing(s, entries), made, now).nodes
    ensures var t := WithCreated(s, Missing(s, entries), made, now);
            && n in t.info
            && if n in s.nodes then KnownEndpoint(s, t.info[n].endpoint) && t.info[n] == s.info[n]
               else k < |made| && made[k] == n && t.info[n].endpoint == Missing(s, entries)[k].endpoint
                    && !KnownEndpoint(s, t.info[n].endpoint)
  {
    k := CompletedNode(s, entries, made, now, n);
    if n !in s.nodes {
      var e := Missing(s, entries)[k];
      MissingMembers(s, entries);
      MissingEndpoints(s, entries, e);
      NodeForEntry(e, s.minBackoff, now);
    }
  }

  /** The parts of a completed replacement. */
  lemma {:induction false} ReplacedParts<N>(s: Net<N>, entries: seq<Entry>, made: seq<N>, draws: seq<nat>, now: real)
    returns (kept: Net<N>, full: Net<N>, nodes: seq<N>)
    requires Mapped(s) && Supplied(s, entries, made, draws) && SetNetwork(s, entries, made, draws, now).Done?
    ensures Mapped(kept) && kept == s.(nodes := kept.nodes, index := kept.index)
    ensures forall n | n in s.nodes :: n in kept.nodes <==> Wanted(s.info[n], entries)
    ensures forall n | n in kept.nodes :: n in s.nodes && Wanted(kept.info[n], entries)
    ensures |made| == |Missing(kept, entries)| && Distinct(made) && forall n | n in made :: n !in kept.info
    ensures full == WithCreated(kept, Missing(kept, entries), made, now)
    ensures full == kept.(nodes := full.nodes, info := full.info) && full.nodes == kept.nodes + made
    ensures (forall n | n in full.nodes :: n in full.info)
    ensures forall n | n in s.info :: n in full.info && full.info[n] == s.info[n]
    ensures Distinct(nodes) && (forall n | n in nodes :: n in full.nodes) && (forall n | n in full.nodes :: n in nodes)
    ensures |nodes| == |full.nodes|
    ensures SetNetwork(s, entries, made, draws, now) == Done(Rebuilt(full, nodes, now))
  {
    CloseUnwantedKeeps(s, entries, |s.nodes|);
    assert s.nodes[|s.nodes|..] == [] && s.nodes[..0] == [];
    kept := CloseUnwanted(s, entries, |s.nodes|).net;
    full := WithCreated(kept, Missing(kept, entries), made, now);
    CreatedNodes(kept, Missing(kept, entries), made, now);
    nodes := Shuffles.Shuffled(full.nodes, |full.nodes|, draws);
    ShuffledNodes(full.nodes, draws);
  }

  /** A replacement that succeeds leaves everything valid and the cache exact. */
  lemma SetNetworkValid<N>(s: Net<N>, entries: seq<Entry>, made: seq<N>, draws: seq<nat>, now: real)
    requires Mapped(s) && Supplied(s, entries, made, draws)
    ensures var r := SetNetwork(s, entries, made, draws, now);
            r.Done? ==>
              && Valid(r.net, now) && Inside(r.net)
              && forall n | n in r.net.nodes :: n in r.net.healthy <==> Ready(r.net, n, now)
  {
    if SetNetwork(s, entries, made, draws, now).Done? {
      var kept, full, nodes := ReplacedParts(s, entries, made, draws, now);
      RebuiltValid(full, nodes, now);
    }
  }

  /** After setting the network its nodes are those of the entries: one each, at its address, with its key. */
  lemma SetNetworkMatches<N>(s: Net<N>, entries: seq<Entry>, made: seq<N>, draws: seq<nat>, now: real)
    requires Mapped(s) && Supplied(s, entries, made, draws) && DistinctEndpoints(entries) && DistinctNodeEndpoints(s)
    ensures var r := SetNetwork(s, entries, made, draws, now);
            r.Done? ==> (forall n | n in r.net.nodes :: n in r.net.info) && Matches(r.net, entries)
  {
    if SetNetwork(s, entries, made, draws, now).Done? {
      var kept, full, nodes := ReplacedParts(s, entries, made, draws, now);
      CompletedMatches(kept, entries, made, now);
      var t := Rebuilt(full, nodes, now);
      assert t.info == full.info;
      forall e | e in entries ensures HasNode(t, e) {
        var n :| n in full.nodes && full.info[n].endpoint == e.endpoint && full.info[n].key == e.key;
        assert n in t.nodes;
      }
    }
  }

  /** After setting the network each key has exactly its healthy nodes, in shuffled order. */
  lemma SetNetworkIndex<N>(s: Net<N>, entries: seq<Entry>, made: seq<N>, draws: seq<nat>, now: real, key: string)
    requires Mapped(s) && Supplied(s, entries, made, draws)
    ensures var r := SetNetwork(s, entries, made, draws, now);
            r.Done? ==>
              && (forall n | n in r.net.healthy :: n in r.net.info)
              && (key in r.net.index <==> exists n :: n in r.net.healthy && r.net.info[n].key == key)
              && (key in r.net.index ==> r.net.index[key] == WithKey(r.net.info, r.net.healthy, key))
  {
    if SetNetwork(s, entries, made, draws, now).Done? {
      var kept, full, nodes := ReplacedParts(s, entries, made, draws, now);
      ReadyMembers(full, nodes, now);
      var healthy := ReadyNodes(full, nodes, now);
      IndexExact(full.info, healthy, key);
      WithKeyMembers(full.info, healthy, key);
      var list := WithKey(full.info, healthy, key);
      assert list != [] ==> list[0] in list;
    }
  }

  // ----- the unhealthy counter

  /** The counter is the number of nodes outside the healthy list. */
  ghost predicate CountExact<N>(s: Net<N>)
  {
    s.unhealthyCount == |s.nodes| - |s.healthy|
  }

  lemma {:induction false} AllReady<N>(s: Net<N>, nodes: seq<N>, now: real)
    requires forall n | n in nodes :: n in s.info && Ready(s, n, now)
    ensures ReadyNodes(s, nodes, now) == nodes
  {
    if nodes != [] {
      AllReady(s, nodes[..|nodes| - 1], now);
    }
  }

  /** Setting a first network of new nodes makes all of them healthy; the counter is exact from then on if it was 0. */
  lemma FirstNetworkCount<N>(s: Net<N>, entries: seq<Entry>, made: seq<N>, draws: seq<nat>, now: real)
    requires s.nodes == [] && s.unhealthyCount == 0 && Mapped(s) && Supplied(s, entries, made, draws)
    ensures var r := SetNetwork(s, entries, made, draws, now);
            r.Done? && r.net.healthy == r.net.nodes && CountExact(r.net)
  {
    var kept, full, nodes := ReplacedParts(s, entries, made, draws, now);
    forall n | n in nodes ensures n in full.info && Ready(full, n, now) {
      var k := CompletedNode(kept, entries, made, now, n);
      NodeForEntry(Missing(kept, entries)[k], kept.minBackoff, now);
    }
    AllReady(full, nodes, now);
  }

  /** No replacement changes the counter, the earliest readmit time or the periods. */
  lemma LaterNetworkCount<N>(s: Net<N>, entries: seq<Entry>, made: seq<N>, draws: seq<nat>, now: real)
    requires Mapped(s) && Supplied(s, entries, made, draws)
    ensures var r := SetNetwork(s, entries, made, draws, now).net;
            && r.unhealthyCount == s.unhealthyCount && r.earliestReadmitTime == s.earliestReadmitTime
            && r.maxReadmitPeriod == s.maxReadmitPeriod
  {
    CloseUnwantedKeeps(s, entries, |s.nodes|);
    if SetNetwork(s, entries, made, draws, now).Done? {
      var kept, full, nodes := ReplacedParts(s, entries, made, draws, now);
    }
  }

  /** The nodes the replacement keeps whose readmit time is still to come. */
  ghost function KeptBack<N>(s: Net<N>, entries: seq<Entry>, now: real): set<N>
    requires forall n | n in s.nodes :: n in s.info
  {
    set n | n in s.nodes && Wanted(s.info[n], entries) && !Ready(s, n, now)
  }

  lemma UnreadyNext<N>(s: Net<N>, nodes: seq<N>, now: real, init: seq<N>, last: N)
    requires nodes == init + [last] && last !in init && forall n | n in nodes :: n in s.info
    ensures forall n | n in init :: n in s.info
    ensures |set n | n in nodes && !Ready(s, n, now)| ==
            |set n | n in init && !Ready(s, n, now)| + if Ready(s, last, now) then 0 else 1
  {
    assert forall n :: n in nodes <==> n in init || n == last;
    var before, after := set n | n in init && !Ready(s, n, now), set n | n in nodes && !Ready(s, n, now);
    if Ready(s, last, now) {
      assert after == before;
    } else {
      assert after == before + {last} && last !in before;
    }
  }

  lemma {:induction false} ReadyCount<N>(s: Net<N>, nodes: seq<N>, now: real)
    requires Distinct(nodes) && forall n | n in nodes :: n in s.info
    ensures |nodes| == |ReadyNodes(s, nodes, now)| + |set n | n in nodes && !Ready(s, n, now)|
  {
    if nodes != [] {
      var init, last := nodes[..|nodes| - 1], nodes[|nodes| - 1];
      ReadyCount(s, init, now);
      assert nodes == init + [last] && last !in init;
      UnreadyNext(s, nodes, now, init, last);
    }
  }

  /** A replacement that succeeds leaves the counter exact exactly when it was the number of nodes kept back. */
  lemma CountExactIff<N>(s: Net<N>, entries: seq<Entry>, made: seq<N>, draws: seq<nat>, now: real)
    requires Mapped(s) && Supplied(s, entries, made, draws) && SetNetwork(s, entries, made, draws, now).Done?
    ensures CountExact(SetNetwork(s, entries, made, draws, now).net) <==>
              s.unhealthyCount == |KeptBack(s, entries, now)|
  {
    var kept, full, nodes := ReplacedParts(s, entries, made, draws, now);
    ReadyCount(full, nodes, now);
    SameBack(s, entries, made, now, kept, full, nodes);
  }

  lemma SameBack<N>(s: Net<N>, entries: seq<Entry>, made: seq<N>, now: real, kept: Net<N>, full: Net<N>, nodes: seq<N>)
    requires Mapped(s) && Mapped(kept) && kept == s.(nodes := kept.nodes, index := kept.index)
    requires forall n | n in s.nodes :: n in kept.nodes <==> Wanted(s.info[n], entries)
    requires forall n | n in kept.nodes :: n in s.nodes
    requires |made| == |Missing(kept, entries)| && Distinct(made) && forall n | n in made :: n !in kept.info
    requires full == WithCreated(kept, Missing(kept, entries), made, now)
    requires (forall n | n in nodes :: n in full.nodes) && (forall n | n in full.nodes :: n in nodes)
    ensures (forall n | n in nodes :: n in full.info)
    ensures (set n | n in nodes && !Ready(full, n, now)) == KeptBack(s, entries, now)
  {
    CreatedNodes(kept, Missing(kept, entries), made, now);
    forall n | n in nodes ensures !Ready(full, n, now) <==> n in KeptBack(s, entries, now) {
      var k := CompletedNode(kept, entries, made, now, n);
      if n !in kept.nodes {
        NodeForEntry(Missing(kept, entries)[k], kept.minBackoff, now);
      }
    }
    forall n | n in KeptBack(s, entries, now) ensures n in nodes && !Ready(full, n, now) {
      assert n in kept.nodes && n in full.nodes;
    }
  }

  /** After a node is backed off, a replacement made when all nodes are ready again leaves the counter wrong. */
  lemma CounterDrifts<N>(s: Net<N>, n: N, entries: seq<Entry>, made: seq<N>, draws: seq<nat>, now: real, later: real)
    requires Valid(s, now) && s.unhealthyCount >= 0 && n in s.healthy
    requires Mapped(IncreaseBackoff(s, n, now)) && Supplied(IncreaseBackoff(s, n, now), entries, made, draws)
    requires SetNetwork(IncreaseBackoff(s, n, now), entries, made, draws, later).Done?
    requires forall m | m in s.nodes :: Ready(IncreaseBackoff(s, n, now), m, later)
    ensures !CountExact(SetNetwork(IncreaseBackoff(s, n, now), entries, made, draws, later).net)
  {
    var t := IncreaseBackoff(s, n, now);
    WithoutDistinct(s.healthy, n);
    CountExactIff(t, entries, made, draws, later);
    assert KeptBack(t, entries, later) == {};
  }

  // ----- a replacement that throws

  /**
   A replacement throws exactly when some unwanted node cannot be closed: its key is not indexed, or
   all the indexed nodes of its key are unwanted ones that come after it in the node list.
   */
  lemma ReplacementThrowsIff<N>(s: Net<N>, entries: seq<Entry>, made: seq<N>, draws: seq<nat>, now: real)
    requires Mapped(s) && Supplied(s, entries, made, draws)
    ensures SetNetwork(s, entries, made, draws, now).Threw? <==> SomeUnclosable(s, entries, |s.nodes|)
  {
    ClosingThrowsIff(s, entries, |s.nodes|);
  }

  /**
   What a replacement that throws leaves: the unwanted nodes after the one that throws are gone from
   the node list, it and every other node are still there, and neither the healthy list, nor the
   counter, nor any node has changed.
   */
  lemma ThrowLeaves<N>(s: Net<N>, entries: seq<Entry>, made: seq<N>, draws: seq<nat>, now: real)
    requires Mapped(s) && Supplied(s, entries, made, draws) && SetNetwork(s, entries, made, draws, now).Threw?
    ensures var r := SetNetwork(s, entries, made, draws, now);
            && ThrowsAt(s, entries, |s.nodes|, r.at) && Mapped(r.net)
            && r.net == s.(nodes := r.net.nodes, index := r.net.index)
            && (forall n | n in r.net.nodes :: n in s.nodes)
            && (forall q: nat | q < |s.nodes| :: s.nodes[q] in r.net.nodes <==> q <= r.at || !Unwanted(s, entries, q))
  {
    CloseUnwantedKeeps(s, entries, |s.nodes|);
    ClosingThrowsIff(s, entries, |s.nodes|);
    var at := CloseUnwanted(s, entries, |s.nodes|).at;
    assert s.nodes[|s.nodes|..] == [];
    forall q: nat | q < |s.nodes| ensures s.nodes[q] in s.nodes[..at + 1] <==> q <= at {
      PrefixMember(s.nodes, at + 1, q);
    }
  }

  lemma PrefixMember<T>(list: seq<T>, c: nat, q: nat)
    requires Distinct(list) && c <= |list| && q < |list|
    ensures list[q] in list[..c] <==> q < c
  {
    if list[q] in list[..c] {
      var p: nat :| p < c && list[..c][p] == list[q];
      assert list[p] == list[q];
    }
    if q < c {
      assert list[..c][q] == list[q];
    }
  }

  /** The replacement throws, and a healthy node is among those it closes before it does. */
  ghost predicate Strands<N>(s: Net<N>, entries: seq<Entry>)
    requires Mapped(s)
  {
    exists at: nat, q: nat ::
      ThrowsAt(s, entries, |s.nodes|, at) && at < q && Unwanted(s, entries, q) && s.nodes[q] in s.healthy
  }

  lemma ThrowsOnce<N>(s: Net<N>, entries: seq<Entry>, i: nat, at: nat, other: nat)
    requires Mapped(s) && ThrowsAt(s, entries, i, at) && ThrowsAt(s, entries, i, other)
    ensures at == other
  {
  }

  /** After any replacement the healthy nodes are nodes of the network, except when it strands one. */
  lemma InsideIffNotStranded<N>(s: Net<N>, entries: seq<Entry>, made: seq<N>, draws: seq<nat>, now: real)
    requires Valid(s, now) && Inside(s) && Mapped(s) && Supplied(s, entries, made, draws)
    ensures Inside(SetNetwork(s, entries, made, draws, now).net) <==> !Strands(s, entries)
  {
    var r := SetNetwork(s, entries, made, draws, now);
    ClosingThrowsIff(s, entries, |s.nodes|);
    if r.Done? {
      SetNetworkValid(s, entries, made, draws, now);
      NeverThrows(s, entries);
    } else {
      ThrowLeaves(s, entries, made, draws, now);
      StrandedIff(s, entries, r.net, r.at);
    }
  }

  lemma NeverThrows<N>(s: Net<N>, entries: seq<Entry>)
    requires Mapped(s) && !SomeUnclosable(s, entries, |s.nodes|)
    ensures !Strands(s, entries)
  {
  }

  lemma StrandedIff<N>(s: Net<N>, entries: seq<Entry>, t: Net<N>, at: nat)
    requires Mapped(s) && Inside(s) && ThrowsAt(s, entries, |s.nodes|, at) && t.healthy == s.healthy
    requires forall n | n in t.nodes :: n in s.nodes
    requires forall q: nat | q < |s.nodes| :: s.nodes[q] in t.nodes <==> q <= at || !Unwanted(s, entries, q)
    ensures Inside(t) <==> !Strands(s, entries)
  {
    if Strands(s, entries) {
      var other: nat, q: nat :|
        ThrowsAt(s, entries, |s.nodes|, other) && other < q && Unwanted(s, entries, q) && s.nodes[q] in s.healthy;
      ThrowsOnce(s, entries, |s.nodes|, at, other);
      assert s.nodes[q] !in t.nodes;
    }
    if !Inside(t) {
      var n :| n in t.healthy && n !in t.nodes;
      var q: nat :| q < |s.nodes| && s.nodes[q] == n;
      assert at < q && Unwanted(s, entries, q) && s.nodes[q] in s.healthy;
    }
  }
}
