/** The node and network objects; `now` is what `Date.now()` answers during the call. */
module ManagedNetworks {
  import opened Results
  import opened Sequences
  import opened Backoffs
  import opened NetworkState
  import opened NetworkSetup
  import opened NodeSelection
  import Shuffles

  class ManagedNode {
    const key: string
    const endpoint: Endpoint
    var readmitTime: real
    var currentBackoff: real
    var minBackoff: real
    var maxBackoff: real

    function View(): NodeState
      reads this
    {
      NodeState(key, endpoint, readmitTime, currentBackoff, minBackoff, maxBackoff)
    }

    constructor (key: string, endpoint: Endpoint, now: real)
      ensures View() == NewNode(key, endpoint, now)
      ensures this.key == key && this.endpoint == endpoint && readmitTime == now
      ensures currentBackoff == minBackoff == 8000.0 && maxBackoff == 3600000.0
    {
      this.key, this.endpoint := key, endpoint;
      readmitTime := now;
      minBackoff, maxBackoff := DEFAULT_MIN_BACKOFF, DEFAULT_MAX_BACKOFF;
      currentBackoff := DEFAULT_MIN_BACKOFF;
    }

    method SetMinBackoff(backoff: real)
      modifies this
      ensures View() == WithMinBackoff(old(View()), backoff)
      ensures minBackoff == backoff && maxBackoff == old(maxBackoff) && readmitTime == old(readmitTime)
      ensures currentBackoff == old(currentBackoff) >= backoff || currentBackoff == backoff > old(currentBackoff)
    {
      if currentBackoff <= backoff {
        currentBackoff := backoff;
      }
      minBackoff := backoff;
    }

    method SetMaxBackoff(backoff: real)
      modifies this
      ensures View() == WithMaxBackoff(old(View()), backoff)
      ensures maxBackoff == backoff && minBackoff == old(minBackoff) && readmitTime == old(readmitTime)
      ensures currentBackoff == old(currentBackoff) >= backoff || currentBackoff == backoff > old(currentBackoff)
    {
      if currentBackoff <= backoff {
        currentBackoff := backoff;
      }
      maxBackoff := backoff;
    }

    predicate IsHealthy(now: real)
      reads this
    {
      readmitTime <= now
    }

    method IncreaseBackoff(now: real)
      modifies this
      ensures View() == Increased(old(View()), now)
      ensures currentBackoff <= maxBackoff && currentBackoff <= 2.0 * old(currentBackoff)
      ensures currentBackoff == maxBackoff || currentBackoff == 2.0 * old(currentBackoff)
      ensures readmitTime == now + currentBackoff
      ensures minBackoff == old(minBackoff) && maxBackoff == old(maxBackoff)
    {
      currentBackoff := MinReal(currentBackoff * 2.0, maxBackoff);
      readmitTime := now + currentBackoff;
    }

    method DecreaseBackoff()
      modifies this
      ensures View() == Decreased(old(View()))
      ensures currentBackoff >= minBackoff && 2.0 * currentBackoff >= old(currentBackoff)
      ensures currentBackoff == minBackoff || 2.0 * currentBackoff == old(currentBackoff)
      ensures readmitTime == old(readmitTime)
      ensures minBackoff == old(minBackoff) && maxBackoff == old(maxBackoff)
    {
      currentBackoff := MaxReal(currentBackoff / 2.0, minBackoff);
    }
  }

  class ManagedNetwork {
    var nodes: seq<ManagedNode>
    var healthyNodes: seq<ManagedNode>
    var unhealthyNodesCount: int
    var earliestReadmitTime: real
    var nodeMinReadmitPeriod: real
    var nodeMaxReadmitPeriod: real
    var minBackoff: real
    var network: map<string, seq<ManagedNode>>
    /** All the nodes ever made, the closed ones included. */
    ghost var known: set<ManagedNode>

    /** The network as a value. */
    ghost function Abs(): Net<ManagedNode>
      reads this, known
    {
      Net(nodes, healthyNodes, unhealthyNodesCount, earliestReadmitTime, nodeMinReadmitPeriod, nodeMaxReadmitPeriod,
          minBackoff, network, map n | n in known :: n.View())
    }

    constructor (now: real)
      ensures Abs() == Net([], [], 0, now + 8000.0, 8000.0, 3600000.0, 8000.0, map[], map[])
      ensures Valid(Abs(), now) && Inside(Abs()) && known == {}
    {
      nodes, healthyNodes, network, known := [], [], map[], {};
      unhealthyNodesCount := 0;
      minBackoff := DEFAULT_MIN_BACKOFF;
      nodeMinReadmitPeriod, nodeMaxReadmitPeriod := DEFAULT_MIN_BACKOFF, DEFAULT_MAX_BACKOFF;
      earliestReadmitTime := now + DEFAULT_MIN_BACKOFF;
    }

    method ReadmitNodes(now: real)
      requires Valid(Abs(), now)
      modifies this`healthyNodes, this`unhealthyNodesCount, this`earliestReadmitTime
      ensures Abs() == Readmit(old(Abs()), now)
    {
      if earliestReadmitTime > now {
        return;
      }
      ghost var s := Abs();
      var nextEarliestReadmitTime := ReadmitPass(now);
      AfterPass(s, now, healthyNodes, unhealthyNodesCount, nextEarliestReadmitTime);
      earliestReadmitTime := MinReal(MaxReal(nextEarliestReadmitTime, nodeMinReadmitPeriod), nodeMaxReadmitPeriod);
    }

    /** The outer loop: pushes every ready node that is not in the healthy list. */
    method ReadmitPass(now: real) returns (nextEarliestReadmitTime: real)
      requires Valid(Abs(), now)
      modifies this`healthyNodes, this`unhealthyNodesCount
      ensures var s := old(Abs());
              Passed(s, |s.nodes|, now, healthyNodes, unhealthyNodesCount,
                  |s.nodes| <= FirstOutside(s.nodes, s.healthy), nextEarliestReadmitTime)
    {
      ghost var s := Abs();
      nextEarliestReadmitTime := MAX_SAFE_INTEGER;
      var searching := true;
      for i := 0 to |nodes|
        invariant forall n | n in s.nodes :: n in s.info && s.info[n].readmitTime == n.readmitTime
        invariant Passed(s, i, now, healthyNodes, unhealthyNodesCount, searching, nextEarliestReadmitTime)
      {
        searching, nextEarliestReadmitTime := PassOne(s, i, nodes[i], searching, nextEarliestReadmitTime, now);
      }
    }

    /** The iteration for node `i` of the pass that began in state `s`. */
    method PassOne(ghost s: Net<ManagedNode>, ghost i: nat, node: ManagedNode, searching: bool, earliest: real,
            now: real)
      returns (more: bool, next: real)
      requires Valid(s, now) && i < |s.nodes| && node == s.nodes[i] && s.info[node].readmitTime == node.readmitTime
      requires Passed(s, i, now, healthyNodes, unhealthyNodesCount, searching, earliest)
      modifies this`healthyNodes, this`unhealthyNodesCount
      ensures Passed(s, i + 1, now, healthyNodes, unhealthyNodesCount, more, next)
    {
      PassedNext(s, i, now, healthyNodes, unhealthyNodesCount, searching, earliest);
      more, next := ReadmitOne(node, searching, earliest, now);
    }

    /** One iteration of the outer loop: a node already in the healthy list is passed over. */
    method ReadmitOne(node: ManagedNode, searching: bool, earliest: real, now: real) returns (more: bool, next: real)
      modifies this`healthyNodes, this`unhealthyNodesCount
      ensures more <==> searching && node in old(healthyNodes)
      ensures next == Scanned(old(healthyNodes), searching, node.readmitTime, earliest, now)
      ensures var back := node !in old(healthyNodes) && node.readmitTime <= now;
              && healthyNodes == (if back then old(healthyNodes) + [node] else old(healthyNodes))
              && unhealthyNodesCount == old(unhealthyNodesCount) - if back then 1 else 0
    {
      var found;
      found, next := ScanHealthy(node, searching, earliest, now);
      if found {
        return searching, next;
      }
      if node.readmitTime <= now {
        unhealthyNodesCount := unhealthyNodesCount - 1;
        healthyNodes := healthyNodes + [node];
      }
      return false, next;
    }

    /** The inner loop: looks for the node in the healthy list and, while searching, for an earlier readmit time. */
    method ScanHealthy(node: ManagedNode, searching: bool, earliest: real, now: real) returns (found: bool, next: real)
      ensures found <==> node in healthyNodes
      ensures next == Scanned(healthyNodes, searching, node.readmitTime, earliest, now)
    {
      next := earliest;
      for j := 0 to |healthyNodes|
        invariant forall k | 0 <= k < j :: node != healthyNodes[k]
        invariant next ==
                  if searching && j > 0 && node.readmitTime > now then MinReal(node.readmitTime, earliest) else earliest
      {
        if searching && node.readmitTime > now {
          next := MinReal(node.readmitTime, next);
        }
        if node == healthyNodes[j] {
          return true, next;
        }
      }
      return false, next;
    }

    method GetNode(key: Option<string>, now: real, draw: Draw) returns (r: Result<ManagedNode, SelectError>)
      requires Valid(Abs(), now) && ValidDraw(Abs(), draw)
      modifies this`healthyNodes, this`unhealthyNodesCount, this`earliestReadmitTime
      ensures Abs() == Readmit(old(Abs()), now) && Valid(Abs(), now)
      ensures r == Chosen(Abs(), key, draw)
    {
      ReadmitExact(Abs(), now);
      ReadmitNodes(now);
      if key.Some? {
        if key.value in network {
          return Ok(network[key.value][0]);
        } else if network == map[] {
          return Err(NoMappedNode);
        } else {
          return Ok(network[draw.otherKey][0]);
        }
      }
      if healthyNodes == [] {
        return Err(NoHealthyNode);
      }
      return Ok(healthyNodes[Pick(draw.random, |healthyNodes|)]);
    }

    /**
     Draws nodes until the selection is complete; a node whose key and host were both seen does not
     count as an iteration. `finished` is false when the calls supplied run out first.
     */
    method MostHealthyNodes(count: int, calls: seq<Call>, ghost start: real)
      returns (selected: seq<ManagedNode>, finished: bool)
      requires Valid(Abs(), start) && CallsFit(Abs().index, calls, start)
      modifies this`healthyNodes, this`unhealthyNodesCount, this`earliestReadmitTime
      ensures SelectMore(old(Abs()), start, count, [], calls) == Selection(Abs(), selected, finished)
    {
      ghost var whole := SelectMore(Abs(), start, count, [], calls);
      ghost var now := start;
      selected := [];
      var keys: set<string>, hosts: set<string>, i := {}, {}, 0;
      while |selected| < |healthyNodes|
        invariant i <= |calls| && Valid(Abs(), now) && Subseq(selected, healthyNodes)
        invariant CallsFit(Abs().index, calls[i..], now)
        invariant keys == KeysOf(Abs().info, selected) && hosts == HostsOf(Abs().info, selected)
        invariant SelectMore(Abs(), now, count, selected, calls[i..]) == whole
        decreases |calls| - i
      {
        if |selected| == count - unhealthyNodesCount && selected != [] {
          break;
        }
        if i == |calls| {
          return selected, false;
        }
        assert calls[i..][0] == calls[i] && calls[i..][1..] == calls[i + 1..];
        keys, hosts, selected := SelectOne(selected, keys, hosts, calls[i], now);
        now, i := calls[i].time, i + 1;
      }
      return selected, true;
    }

    /** One iteration: draws a node and takes it when its key or its host is new. */
    method SelectOne(selected: seq<ManagedNode>, keys: set<string>, hosts: set<string>, c: Call, ghost now: real)
      returns (newKeys: set<string>, newHosts: set<string>, r: seq<ManagedNode>)
      requires Valid(Abs(), now) && Subseq(selected, healthyNodes) && |selected| < |healthyNodes|
      requires now <= c.time && ValidDraw(Abs(), c.draw)
      requires keys == KeysOf(Abs().info, selected) && hosts == HostsOf(Abs().info, selected)
      modifies this`healthyNodes, this`unhealthyNodesCount, this`earliestReadmitTime
      ensures Abs() == Readmit(old(Abs()), c.time) && Valid(Abs(), c.time)
      ensures healthyNodes != [] && Subseq(selected, healthyNodes) && r == Taken(Abs(), selected, c.draw)
      ensures Subseq(r, healthyNodes)
      ensures newKeys == KeysOf(Abs().info, r) && newHosts == HostsOf(Abs().info, r)
    {
      TakenSound(Abs(), now, selected, c);
      ValidLater(Abs(), now, c.time);
      var chosen := GetNode(None, c.time, c.draw);
      var node := chosen.value;
      AcceptableBySets(Abs().info, selected, node);
      newKeys, newHosts, r := keys, hosts, selected;
      if node.key !in keys || node.endpoint.host !in hosts {
        KeysMore(Abs().info, selected, node);
        HostsMore(Abs().info, selected, node);
        newKeys, newHosts, r := keys + {node.key}, hosts + {node.endpoint.host}, selected + [node];
      }
    }

    method IncreaseNodeBackoff(node: ManagedNode, now: real)
      requires Valid(Abs(), now)
      modifies this`healthyNodes, this`unhealthyNodesCount, node
      ensures Abs() == IncreaseBackoff(old(Abs()), node, now) && Valid(Abs(), now)
    {
      ghost var s := Abs();
      IncreaseValid(s, node, now);
      node.IncreaseBackoff(now);
      RemoveUnhealthy(node);
      assert Abs().info == IncreaseBackoff(s, node, now).info;
    }

    /** The loop that splices a node out of the healthy list. */
    method RemoveUnhealthy(node: ManagedNode)
      requires Distinct(healthyNodes)
      modifies this`healthyNodes, this`unhealthyNodesCount
      ensures healthyNodes == Without(old(healthyNodes), node)
      ensures unhealthyNodesCount == old(unhealthyNodesCount) + |old(healthyNodes)| - |healthyNodes|
    {
      ghost var list := healthyNodes;
      ghost var removed := false;
      var i := 0;
      while i < |healthyNodes|
        invariant 0 <= i
        invariant if removed then node in list && healthyNodes == Without(list, node)
                  else healthyNodes == list && i <= |list| && forall k | 0 <= k < i :: list[k] != node
        invariant unhealthyNodesCount == old(unhealthyNodesCount) + |list| - |healthyNodes|
        decreases |healthyNodes| - i
      {
        if removed {
          WithoutMember(list, node, healthyNodes[i]);
        } else if list[i] == node {
          WithoutAt(list, i);
        }
        if healthyNodes[i] == node {
          healthyNodes := healthyNodes[..i] + healthyNodes[i + 1..];
          unhealthyNodesCount := unhealthyNodesCount + 1;
          removed := true;
        }
        i := i + 1;
      }
      if !removed {
        WithoutAbsent(list, node);
      }
    }

    method DecreaseNodeBackoff(node: ManagedNode, ghost now: real)
      requires Valid(Abs(), now)
      modifies node
      ensures Abs() == DecreaseBackoff(old(Abs()), node) && Valid(Abs(), now)
    {
      DecreaseValid(Abs(), node, now);
      node.DecreaseBackoff();
    }

    /** Closing a node; false is the TypeError on a key the index does not hold. */
    method CloseNode(i: nat) returns (ok: bool)
      requires Mapped(Abs()) && i < |nodes|
      modifies this`nodes, this`network
      ensures ok <==> Close(old(Abs()), i).Some?
      ensures Abs() == if ok then Close(old(Abs()), i).value else old(Abs())
    {
      ghost var s := Abs();
      ghost var closed := Close(s, i);
      ghost var n := nodes[i];
      assert n == s.nodes[i] && s.info[n].key == n.key;
      ok := RemoveNodeFromNetwork(nodes[i]);
      assert ok <==> closed.Some?;
      assert Abs() == s.(index := network);
      if ok {
        DropNode(i);
        assert closed.value == s.(nodes := s.nodes[..i] + s.nodes[i + 1..], index := network);
      }
    }

    /** Splices a node out of the node list. */
    method DropNode(i: nat)
      requires i < |nodes|
      modifies this`nodes
      ensures Abs() == old(Abs().(nodes := nodes[..i] + nodes[i + 1..]))
    {
      nodes := nodes[..i] + nodes[i + 1..];
    }

    method RemoveNodeFromNetwork(node: ManagedNode) returns (ok: bool)
      modifies this`network
      ensures ok <==> node.key in old(network)
      ensures network == if !ok then old(network)
                         else if RemoveFirst(old(network)[node.key], node) == [] then old(network) - {node.key}
                         else old(network)[node.key := RemoveFirst(old(network)[node.key], node)]
    {
      if node.key !in network {
        return false;
      }
      var list := network[node.key];
      for j := 0 to |list|
        invariant forall k | 0 <= k < j :: list[k] != node
      {
        if list[j] == node {
          RemoveFirstAt(list, j);
          list := list[..j] + list[j + 1..];
          network := network[node.key := list];
          if |list| == 0 {
            network := network - {node.key};
          }
          return true;
        }
      }
      RemoveFirstAbsent(list, node);
      if |list| == 0 {
        network := network - {node.key};
      }
      return true;
    }

    /** Closes the nodes the new network does not want, last index first; false is the TypeError. */
    method CloseUnwantedNodes(entries: seq<Entry>) returns (ok: bool)
      requires Mapped(Abs())
      modifies this`nodes, this`network
      ensures var r := CloseUnwanted(old(Abs()), entries, |old(nodes)|);
              (ok <==> r.Done?) && Abs() == r.net
    {
      ghost var s := Abs();
      var i := |nodes|;
      while i > 0
        invariant 0 <= i <= |nodes| && Mapped(Abs())
        invariant CloseUnwanted(Abs(), entries, i) == CloseUnwanted(s, entries, |s.nodes|)
      {
        if !Wanted(nodes[i - 1].View(), entries) {
          ghost var s1 := Abs();
          CloseMapped(s1, i - 1);
          ok := CloseNode(i - 1);
          if !ok {
            return;
          }
          assert CloseUnwanted(Abs(), entries, i - 1) == CloseUnwanted(s1, entries, i);
        }
        i := i - 1;
      }
      ok := true;
    }

    method HasKey(key: string) returns (found: bool)
      requires forall n | n in nodes :: n in known
      ensures found <==> KnownKey(Abs(), key)
    {
      found := exists n | n in nodes :: n.key == key;
    }

    method HasEndpoint(endpoint: Endpoint) returns (found: bool)
      requires forall n | n in nodes :: n in known
      ensures found <==> KnownEndpoint(Abs(), endpoint)
    {
      found := exists n | n in nodes :: n.endpoint == endpoint;
    }

    /** The entries whose key or address no kept node has. */
    method MissingEntries(entries: seq<Entry>) returns (missing: seq<Entry>)
      requires forall n | n in nodes :: n in known
      ensures missing == Missing(Abs(), entries)
    {
      missing := [];
      for i := 0 to |entries|
        invariant missing == Missing(Abs(), entries[..i])
      {
        MissingNext(Abs(), entries, i);
        var knownKey := HasKey(entries[i].key);
        var knownEndpoint := HasEndpoint(entries[i].endpoint);
        if !(knownKey && knownEndpoint) {
          missing := missing + [entries[i]];
        }
      }
      assert entries[..|entries|] == entries;
    }

    method CreateNodes(missing: seq<Entry>, now: real) returns (made: seq<ManagedNode>)
      ensures Distinct(made) && (forall n | n in made :: fresh(n)) && |made| == |missing|
      ensures forall k | 0 <= k < |made| :: made[k].View() == NodeFor(missing[k], minBackoff, now)
    {
      made := [];
      for i := 0 to |missing|
        invariant Distinct(made) && (forall n | n in made :: fresh(n)) && |made| == i
        invariant forall k | 0 <= k < |made| :: made[k].View() == NodeFor(missing[k], minBackoff, now)
      {
        var node := CreateNode(missing[i], now);
        made := made + [node];
      }
    }

    method CreateNode(e: Entry, now: real) returns (node: ManagedNode)
      ensures fresh(node) && node.View() == NodeFor(e, minBackoff, now)
    {
      node := new ManagedNode(e.key, e.endpoint, now);
      node.SetMinBackoff(minBackoff);
    }

    /** Builds the healthy list and the key index from the shuffled nodes. */
    method Rebuild(newNodes: seq<ManagedNode>, now: real)
      requires forall n | n in newNodes :: n in known
      modifies this`nodes, this`healthyNodes, this`network
      ensures Abs() == Rebuilt(old(Abs()), newNodes, now)
    {
      ghost var s := Abs();
      var newHealthyNodes: seq<ManagedNode> := [];
      var newNetwork: map<string, seq<ManagedNode>> := map[];
      for i := 0 to |newNodes|
        invariant newHealthyNodes == ReadyNodes(s, newNodes[..i], now)
        invariant forall n | n in newHealthyNodes :: n in s.info
        invariant newNetwork == IndexOf(s.info, newHealthyNodes)
      {
        var node := newNodes[i];
        RebuiltNext(s, newNodes, i, now);
        if !node.IsHealthy(now) {
          continue;
        }
        newHealthyNodes := newHealthyNodes + [node];
        newNetwork := newNetwork[node.key := (if node.key in newNetwork then newNetwork[node.key] else []) + [node]];
      }
      assert newNodes[..|newNodes|] == newNodes;
      nodes, healthyNodes, network := newNodes, newHealthyNodes, newNetwork;
      assert Abs().info == s.info;
    }

    /** Replaces the network; false is the TypeError of closing a node whose key is not indexed. */
    method SetNetwork(entries: seq<Entry>, draws: seq<nat>, now: real) returns (ok: bool, ghost made: seq<ManagedNode>)
      requires Mapped(Abs()) && EnoughDraws(Abs(), entries, draws)
      modifies this`nodes, this`healthyNodes, this`network, this`known
      ensures forall n | n in made :: fresh(n)
      ensures Supplied(old(Abs()), entries, made, draws)
      ensures var r := NetworkSetup.SetNetwork(old(Abs()), entries, made, draws, now);
              (ok <==> r.Done?) && Abs() == r.net
    {
      CloseUnwantedKeeps(Abs(), entries, |nodes|);
      made := [];
      ok := CloseUnwantedNodes(entries);
      if ok {
        made := AddNodes(entries, draws, now);
      }
    }

    method AddNodes(entries: seq<Entry>, draws: seq<nat>, now: real) returns (made: seq<ManagedNode>)
      requires Distinct(nodes) && forall n | n in nodes :: n in known
      requires Shuffles.ValidDraws(draws, |nodes| + |Missing(Abs(), entries)|)
      modifies this`nodes, this`healthyNodes, this`network, this`known
      ensures Distinct(made) && (forall n | n in made :: fresh(n)) && |made| == |Missing(old(Abs()), entries)|
      ensures forall n | n in made :: n !in old(known)
      ensures Abs() == Completed(old(Abs()), Missing(old(Abs()), entries), made, draws, now)
    {
      ghost var kept := Abs();
      var missing := MissingEntries(entries);
      made := CreateNodes(missing, now);
      var newNodes := ShuffleNodes(nodes + made, draws);
      assert Abs() == kept;
      Complete(missing, made, draws, newNodes, now);
    }

    /** Takes over the shuffled nodes and rebuilds. */
    method Complete(ghost missing: seq<Entry>, ghost made: seq<ManagedNode>, ghost draws: seq<nat>,
            newNodes: seq<ManagedNode>, now: real)
      requires Distinct(nodes) && forall n | n in nodes :: n in known
      requires |made| == |missing| && Distinct(made) && forall n | n in made :: n !in known
      requires forall k | 0 <= k < |made| :: made[k].View() == NodeFor(missing[k], minBackoff, now)
      requires Shuffles.ValidDraws(draws, |nodes| + |made|)
      requires newNodes == Shuffles.Shuffled(nodes + made, |nodes| + |made|, draws)
      modifies this`nodes, this`healthyNodes, this`network, this`known
      ensures Abs() == Completed(old(Abs()), missing, made, draws, now)
    {
      ghost var kept := Abs();
      MakeKnown(missing, made, now);
      CompletedParts(kept, Abs(), missing, made, draws, now);
      Rebuild(newNodes, now);
    }

    /** Keeps account of the made nodes. */
    ghost method MakeKnown(missing: seq<Entry>, made: seq<ManagedNode>, now: real)
      requires Distinct(nodes) && forall n | n in nodes :: n in known
      requires |made| == |missing| && Distinct(made) && forall n | n in made :: n !in known
      requires forall k | 0 <= k < |made| :: made[k].View() == NodeFor(missing[k], minBackoff, now)
      modifies this`known
      ensures Abs() == old(Abs()).(info := WithCreated(old(Abs()), missing, made, now).info)
    {
      var kept := Abs();
      known := known + set n | n in made;
      CreatedInfo(kept, missing, made, now);
      MadeViews(kept.info, WithCreated(kept, missing, made, now).info, Abs().info, made);
    }

    method ShuffleNodes(list: seq<ManagedNode>, draws: seq<nat>) returns (r: seq<ManagedNode>)
      requires Shuffles.ValidDraws(draws, |list|)
      ensures r == Shuffles.Shuffled(list, |list|, draws)
    {
      var a := new ManagedNode[|list|](i requires 0 <= i < |list| => list[i]);
      assert a[..] == list;
      Shuffles.Shuffle(a, draws);
      r := a[..];
    }
  }

  lemma MissingNext<N>(s: Net<N>, entries: seq<Entry>, i: nat)
    requires i < |entries| && forall n | n in s.nodes :: n in s.info
    ensures Missing(s, entries[..i + 1]) ==
            Missing(s, entries[..i])
            + if KnownKey(s, entries[i].key) && KnownEndpoint(s, entries[i].endpoint) then [] else [entries[i]]
  {
    assert entries[..i + 1][..i] == entries[..i];
  }

  /** Two maps that extend `was` by the same records of the made nodes are the same. */
  lemma MadeViews<N>(was: map<N, NodeState>, info: map<N, NodeState>, views: map<N, NodeState>, made: seq<N>)
    requires (forall n | n in info :: n in was || n in made) && (forall n | n in views :: n in was || n in made)
    requires forall n | n in was :: n in info && n in views && info[n] == was[n] == views[n]
    requires forall k | 0 <= k < |made| :: made[k] in info && made[k] in views && info[made[k]] == views[made[k]]
    ensures info == views
  {
    forall n | n in made ensures n in info && n in views && info[n] == views[n] {
      var k :| 0 <= k < |made| && made[k] == n;
    }
  }

  /** One more node: the ready nodes and their index grow by it exactly when it is ready. */
  lemma RebuiltNext<N>(full: Net<N>, nodes: seq<N>, i: nat, now: real)
    requires i < |nodes| && forall n | n in nodes :: n in full.info
    ensures var n, before := nodes[i], ReadyNodes(full, nodes[..i], now);
            && (forall m | m in before :: m in full.info)
            && ReadyNodes(full, nodes[..i + 1], now) == (if Ready(full, n, now) then before + [n] else before)
            && var rest, key := IndexOf(full.info, before), full.info[n].key;
               IndexOf(full.info, before + [n]) == rest[key := (if key in rest then rest[key] else []) + [n]]
  {
    ReadyMembers(full, nodes[..i], now);
    var n, next := nodes[i], nodes[..i + 1];
    assert |next| == i + 1 && next[i] == n && next[..i] == nodes[..i];
    var before := ReadyNodes(full, nodes[..i], now);
    var more := before + [n];
    assert |more| == |before| + 1 && more[|before|] == n && more[..|before|] == before;
  }

  /** Rebuilding looks at the records of the given nodes only. */
  lemma {:induction false} SameReady<N>(s: Net<N>, t: Net<N>, nodes: seq<N>, now: real)
    requires s.info == t.info && forall n | n in nodes :: n in s.info
    ensures ReadyNodes(s, nodes, now) == ReadyNodes(t, nodes, now)
  {
    if nodes != [] {
      SameReady(s, t, nodes[..|nodes| - 1], now);
    }
  }

  lemma ShuffledKnown<N>(kept: Net<N>, missing: seq<Entry>, made: seq<N>, draws: seq<nat>, now: real)
    requires Distinct(kept.nodes) && (forall n | n in kept.nodes :: n in kept.info)
    requires |made| == |missing| && Distinct(made) && forall n | n in made :: n !in kept.info
    requires Shuffles.ValidDraws(draws, |kept.nodes| + |made|)
    ensures var full := WithCreated(kept, missing, made, now);
            && full == kept.(info := full.info).(nodes := kept.nodes + made)
            && forall n | n in Shuffles.Shuffled(kept.nodes + made, |kept.nodes| + |made|, draws) :: n in full.info
  {
    CreatedNodes(kept, missing, made, now);
    ShuffledNodes(kept.nodes + made, draws);
  }

  /** Completing a network is rebuilding it, once the made nodes are known. */
  lemma CompletedParts<N>(kept: Net<N>, aware: Net<N>, missing: seq<Entry>, made: seq<N>, draws: seq<nat>, now: real)
    requires Distinct(kept.nodes) && (forall n | n in kept.nodes :: n in kept.info)
    requires |made| == |missing| && Distinct(made) && forall n | n in made :: n !in kept.info
    requires Shuffles.ValidDraws(draws, |kept.nodes| + |made|)
    requires aware == kept.(info := WithCreated(kept, missing, made, now).info)
    ensures var r := Shuffles.Shuffled(kept.nodes + made, |kept.nodes| + |made|, draws);
            && (forall n | n in r :: n in aware.info)
            && Completed(kept, missing, made, draws, now) == Rebuilt(aware, r, now)
  {
    ShuffledKnown(kept, missing, made, draws, now);
    SameRebuilt(aware, kept.nodes + made, Shuffles.Shuffled(kept.nodes + made, |kept.nodes| + |made|, draws), now);
  }

  lemma SameRebuilt<N>(s: Net<N>, list: seq<N>, nodes: seq<N>, now: real)
    requires forall n | n in nodes :: n in s.info
    ensures Rebuilt(s.(nodes := list), nodes, now) == Rebuilt(s, nodes, now)
  {
    SameReady(s, s.(nodes := list), nodes, now);
  }

  /** As many shuffle draws as the new network will have nodes. */
  ghost predicate EnoughDraws<N>(s: Net<N>, entries: seq<Entry>, draws: seq<nat>)
    requires Mapped(s)
  {
    CloseUnwantedKeeps(s, entries, |s.nodes|);
    var r := CloseUnwanted(s, entries, |s.nodes|);
    r.Done? ==> Shuffles.ValidDraws(draws, |r.net.nodes| + |Missing(r.net, entries)|)
  }

  /** The earliest readmit time after scanning the healthy list for one node. */
  function Scanned<N>(healthy: seq<N>, searching: bool, readmitTime: real, earliest: real, now: real): real
  {
    if searching && healthy != [] && readmitTime > now then MinReal(readmitTime, earliest) else earliest
  }

  /** The loop of a firing pass has handled the first `i` nodes. */
  ghost predicate Passed<N>(s: Net<N>, i: nat, now: real, healthy: seq<N>, count: int, searching: bool, next: real)
    requires i <= |s.nodes| && forall n | n in s.nodes :: n in s.info
  {
    && healthy == s.healthy + Readmitted(s, s.nodes[..i], now)
    && count == s.unhealthyCount - |Readmitted(s, s.nodes[..i], now)|
    && (searching <==> i <= FirstOutside(s.nodes, s.healthy))
    && next == if searching then MAX_SAFE_INTEGER else NextReadmitTime(s, now)
  }

  lemma PassedNext<N>(s: Net<N>, i: nat, now: real, healthy: seq<N>, count: int, searching: bool, next: real)
    requires Valid(s, now) && i < |s.nodes| && Passed(s, i, now, healthy, count, searching, next)
    ensures var n := s.nodes[i];
            var scanned := Scanned(healthy, searching, s.info[n].readmitTime, next, now);
            if n in healthy then Passed(s, i + 1, now, healthy, count, searching, scanned)
            else if Ready(s, n, now) then Passed(s, i + 1, now, healthy + [n], count - 1, false, scanned)
            else Passed(s, i + 1, now, healthy, count, false, scanned)
  {
    var n, back := s.nodes[i], Readmitted(s, s.nodes[..i], now);
    ReadmittedMember(s, s.nodes[..i], now, n);
    assert s.nodes[..i + 1][..i] == s.nodes[..i];
    assert healthy + [n] == s.healthy + (back + [n]);
    assert n in healthy <==> n in s.healthy;
    if searching && n !in s.healthy {
      assert i == FirstOutside(s.nodes, s.healthy);
      NoneReadmitted(s, i, now);
    }
  }

  lemma AfterPass<N>(s: Net<N>, now: real, healthy: seq<N>, count: int, next: real)
    requires Valid(s, now) && Fires(s, now)
    requires Passed(s, |s.nodes|, now, healthy, count, |s.nodes| <= FirstOutside(s.nodes, s.healthy), next)
    ensures Readmit(s, now) == s.(healthy := healthy, unhealthyCount := count,
                                  earliestReadmitTime := MinReal(MaxReal(next, s.minReadmitPeriod), s.maxReadmitPeriod))
  {
    assert s.nodes[..|s.nodes|] == s.nodes;
  }

  /** Before the first node outside the healthy list there is nothing to readmit. */
  lemma {:induction false} NoneReadmitted<N>(s: Net<N>, i: nat, now: real)
    requires i <= |s.nodes| && (forall n | n in s.nodes :: n in s.info)
    requires forall k | 0 <= k < i :: s.nodes[k] in s.healthy
    ensures Readmitted(s, s.nodes[..i], now) == []
  {
    if i > 0 {
      NoneReadmitted(s, i - 1, now);
      assert s.nodes[..i][..i - 1] == s.nodes[..i - 1];
    }
  }

  lemma {:induction false} WithoutAbsent<N>(list: seq<N>, n: N)
    requires n !in list
    ensures Without(list, n) == list
  {
    if list != [] {
      WithoutAbsent(list[..|list| - 1], n);
    }
  }

  lemma {:induction false} WithoutAt<N>(list: seq<N>, i: nat)
    requires i < |list| && Distinct(list)
    ensures Without(list, list[i]) == list[..i] + list[i + 1..]
  {
    var m := |list| - 1;
    if i == m {
      assert list[i] !in list[..m];
      WithoutAbsent(list[..m], list[i]);
    } else {
      WithoutAt(list[..m], i);
      assert list[..i] + list[i + 1..] == (list[..m][..i] + list[..m][i + 1..]) + [list[m]];
    }
  }

  lemma {:induction false} RemoveFirstAt<N>(list: seq<N>, j: nat)
    requires j < |list| && forall k | 0 <= k < j :: list[k] != list[j]
    ensures RemoveFirst(list, list[j]) == list[..j] + list[j + 1..]
  {
    if j > 0 {
      RemoveFirstAt(list[1..], j - 1);
      assert list[..j] + list[j + 1..] == [list[0]] + (list[1..][..j - 1] + list[1..][j..]);
    }
  }

  lemma {:induction false} RemoveFirstAbsent<N>(list: seq<N>, n: N)
    requires n !in list
    ensures RemoveFirst(list, n) == list
  {
    if list != [] {
      RemoveFirstAbsent(list[1..], n);
    }
  }
}
