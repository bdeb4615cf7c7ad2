/** The order of the lists that readmission, backoffs and replacements leave. */
module NetworkOrder {
  import opened Sequences
  import opened Backoffs
  import opened NetworkState
  import opened NetworkSetup
  import opened NetworkReplacement
  import Shuffles

  lemma {:induction false} ReadmittedInOrder<N>(s: Net<N>, nodes: seq<N>, now: real)
    requires forall n | n in nodes :: n in s.info
    ensures InOrder(Readmitted(s, nodes, now), nodes)
  {
    if nodes != [] {
      var init := nodes[..|nodes| - 1];
      ReadmittedInOrder(s, init, now);
      InOrderNext(Readmitted(s, init, now), nodes);
    }
  }

  /** Readmission leaves the healthy nodes where they are and appends the ready ones in the order of the node list. */
  lemma ReadmitInOrder<N>(s: Net<N>, now: real)
    requires Valid(s, now)
    ensures var healthy := Readmit(s, now).healthy;
            s.healthy <= healthy && InOrder(healthy[|s.healthy|..], s.nodes)
  {
    ReadmittedInOrder(s, s.nodes, now);
    if Fires(s, now) {
      assert (s.healthy + Readmitted(s, s.nodes, now))[|s.healthy|..] == Readmitted(s, s.nodes, now);
    }
  }

  lemma {:induction false} ReadyInOrder<N>(s: Net<N>, nodes: seq<N>, now: real)
    requires forall n | n in nodes :: n in s.info
    ensures InOrder(ReadyNodes(s, nodes, now), nodes)
  {
    if nodes != [] {
      var init := nodes[..|nodes| - 1];
      ReadyInOrder(s, init, now);
      InOrderNext(ReadyNodes(s, init, now), nodes);
    }
  }

  lemma {:induction false} WithKeyInOrder<N>(info: map<N, NodeState>, nodes: seq<N>, key: string)
    requires forall n | n in nodes :: n in info
    ensures InOrder(WithKey(info, nodes, key), nodes)
  {
    if nodes != [] {
      var init := nodes[..|nodes| - 1];
      WithKeyInOrder(info, init, key);
      InOrderNext(WithKey(info, init, key), nodes);
    }
  }

  /** A replacement lists the healthy nodes in the order of the node list, and each key's nodes in theirs. */
  lemma SetNetworkInOrder<N>(s: Net<N>, entries: seq<Entry>, made: seq<N>, draws: seq<nat>, now: real, key: string)
    requires Mapped(s) && Supplied(s, entries, made, draws)
    ensures var r := SetNetwork(s, entries, made, draws, now);
            r.Done? ==>
              InOrder(r.net.healthy, r.net.nodes)
              && (key in r.net.index ==> InOrder(r.net.index[key], r.net.healthy))
  {
    if SetNetwork(s, entries, made, draws, now).Done? {
      var kept, full, nodes := ReplacedParts(s, entries, made, draws, now);
      ReadyInOrder(full, nodes, now);
      ReadyMembers(full, nodes, now);
      var healthy := ReadyNodes(full, nodes, now);
      IndexExact(full.info, healthy, key);
      WithKeyInOrder(full.info, healthy, key);
    }
  }

  /** Every order of the nodes a replacement ends with is the one that some draws of its shuffle leave. */
  lemma EveryArrangement<N>(s: Net<N>, entries: seq<Entry>, made: seq<N>, draws: seq<nat>, now: real, list: seq<N>)
    returns (other: seq<nat>)
    requires Mapped(s) && Supplied(s, entries, made, draws) && SetNetwork(s, entries, made, draws, now).Done?
    requires multiset(list) == multiset(SetNetwork(s, entries, made, draws, now).net.nodes)
    ensures Supplied(s, entries, made, other)
    ensures var r := SetNetwork(s, entries, made, other, now); r.Done? && r.net.nodes == list
  {
    CloseUnwantedKeeps(s, entries, |s.nodes|);
    var kept := CloseUnwanted(s, entries, |s.nodes|).net;
    var missing := Missing(kept, entries);
    CreatedNodes(kept, missing, made, now);
    var all := WithCreated(kept, missing, made, now).nodes;
    Shuffles.ShuffledPermutes(all, |all|, draws);
    SameElements(list, all);
    other := Shuffles.DrawsFor(all, |all|, list);
  }

  /**
   A node of the completed network is one of before with its record as it was, or a made one: ready at
   once, with an entry's key and address, the network's minimum backoff and at least 8 seconds to wait.
   */
  lemma CompletedRecord<N>(s: Net<N>, entries: seq<Entry>, made: seq<N>, draws: seq<nat>, now: real, n: N)
    requires Mapped(s) && Supplied(s, entries, made, draws) && SetNetwork(s, entries, made, draws, now).Done?
    requires n in SetNetwork(s, entries, made, draws, now).net.nodes
    ensures var t := SetNetwork(s, entries, made, draws, now).net;
            && n in t.info && t.minBackoff == s.minBackoff && Entry(t.info[n].endpoint, t.info[n].key) in entries
            && if n in s.nodes then t.info[n] == s.info[n]
               else
                 && n in made && t.info[n].readmitTime == now && t.info[n].minBackoff == s.minBackoff
                 && t.info[n].currentBackoff >= 8000.0 && t.info[n].currentBackoff >= s.minBackoff
                 && (t.info[n].currentBackoff == 8000.0 || t.info[n].currentBackoff == s.minBackoff)
                 && t.info[n].maxBackoff == 3600000.0
  {
    var kept, full, nodes := ReplacedParts(s, entries, made, draws, now);
    var k := CompletedNode(kept, entries, made, now, n);
    if n !in kept.nodes {
      MissingMembers(kept, entries);
      NodeForEntry(Missing(kept, entries)[k], kept.minBackoff, now);
    }
  }
}
