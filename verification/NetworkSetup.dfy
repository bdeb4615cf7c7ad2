/** Replacing the network: closing nodes, adding nodes, shuffling, rebuilding the cache and the key index. */
module NetworkSetup {
  import opened Sequences
  import opened Results
  import opened Backoffs
  import opened NetworkState
  import Shuffles

  /** An address of the new network and the account key behind it. */
  datatype Entry = Entry(endpoint: Endpoint, key: string)

  ghost predicate DistinctEndpoints(entries: seq<Entry>)
  {
    forall i, j | 0 <= i < j < |entries| :: entries[i].endpoint != entries[j].endpoint
  }

  /** The node's address is still mapped to its key. */
  predicate Wanted(n: NodeState, entries: seq<Entry>)
  {
    Entry(n.endpoint, n.key) in entries
  }

  // ----- closing nodes

  /** `_removeNodeFromNetwork` and the splice of `_closeNode`; None is the TypeError on an unmapped key. */
  function Close<N(==)>(s: Net<N>, i: nat): (r: Option<Net<N>>)
    requires i < |s.nodes| && s.nodes[i] in s.info
  {
    var n := s.nodes[i];
    var key := s.info[n].key;
    if key !in s.index then None
    else
      var list := RemoveFirst(s.index[key], n);
      Some(s.(nodes := s.nodes[..i] + s.nodes[i + 1..],
              index := if list == [] then s.index - {key} else s.index[key := list]))
  }

  function RemoveFirst<N(==)>(list: seq<N>, n: N): (r: seq<N>)
  {
    if list == [] then [] else if list[0] == n then list[1..] else [list[0]] + RemoveFirst(list[1..], n)
  }

  /** All the unwanted nodes are closed, or closing the one at index `at` threw and left the rest as it was. */
  datatype Closing<N> =
    | Done(net: Net<N>)
    | Threw(net: Net<N>, at: nat)

  /** Closes, from index `i - 1` down, the nodes the new network does not want. */
  function CloseUnwanted<N(==)>(s: Net<N>, entries: seq<Entry>, i: nat): (r: Closing<N>)
    requires i <= |s.nodes| && Mapped(s)
    decreases i
  {
    if i == 0 then Done(s)
    else if Wanted(s.info[s.nodes[i - 1]], entries) then CloseUnwanted(s, entries, i - 1)
    else
      CloseMapped(s, i - 1);
      match Close(s, i - 1)
      case None => Threw(s, i - 1)
      case Some(t) => CloseUnwanted(t, entries, i - 1)
  }

  /** What closing nodes needs and keeps; the healthy list is out of date until it is rebuilt. */
  ghost predicate Mapped<N>(s: Net<N>)
  {
    && Distinct(s.nodes) && (forall n | n in s.nodes :: n in s.info)
    && (forall key | key in s.index :: Listed(s, s.index[key], key))
  }

  lemma {:induction false} RemoveFirstMembers<N>(list: seq<N>, n: N)
    requires Distinct(list)
    ensures Distinct(RemoveFirst(list, n))
    ensures forall m | m in RemoveFirst(list, n) :: m in list && m != n
    ensures forall m | m in list && m != n :: m in RemoveFirst(list, n)
  {
    if list != [] {
      assert list == [list[0]] + list[1..];
      assert list[0] !in list[1..];
      RemoveFirstMembers(list[1..], n);
    }
  }

  lemma WithoutIndex<N>(nodes: seq<N>, i: nat)
    requires i < |nodes| && Distinct(nodes)
    ensures var r := nodes[..i] + nodes[i + 1..];
            && Distinct(r) && nodes[i] !in r
            && (forall n | n in nodes && n != nodes[i] :: n in r) && (forall n | n in r :: n in nodes)
  {
    assert nodes == nodes[..i] + [nodes[i]] + nodes[i + 1..];
  }

  lemma CloseMapped<N>(s: Net<N>, i: nat)
    requires Mapped(s) && i < |s.nodes|
    ensures Close(s, i).Some? ==> Mapped(Close(s, i).value)
    ensures Close(s, i).Some? <==> s.info[s.nodes[i]].key in s.index
  {
    var n := s.nodes[i];
    var own := s.info[n].key;
    if own in s.index {
      var t := Close(s, i).value;
      WithoutIndex(s.nodes, i);
      RemoveFirstMembers(s.index[own], n);
      forall key | key in t.index ensures Listed(t, t.index[key], key) {
        assert Listed(s, s.index[key], key);
        assert n !in t.index[key];
      }
    }
  }

  /** The index down to which the unwanted nodes are closed. */
  function ClosedFrom<N>(r: Closing<N>): nat
  {
    if r.Done? then 0 else r.at + 1
  }

  /**
   What closing the unwanted nodes of the first `i` leaves, whether or not it throws: only the node
   list and the index change, and a node goes exactly when it is unwanted and its index is reached.
   */
  lemma {:induction false} CloseUnwantedKeeps<N>(s: Net<N>, entries: seq<Entry>, i: nat)
    requires i <= |s.nodes| && Mapped(s)
    ensures var r := CloseUnwanted(s, entries, i);
            && Mapped(r.net) && ClosedFrom(r) <= i
            && r.net == s.(nodes := r.net.nodes, index := r.net.index)
            && (forall n | n in r.net.nodes :: n in s.nodes)
            && (forall n | n in s.nodes ::
                  n in r.net.nodes <==>
                  n in s.nodes[..ClosedFrom(r)] || n in s.nodes[i..] || Wanted(s.info[n], entries))
    decreases i
  {
    if i > 0 {
      var n := s.nodes[i - 1];
      assert s.nodes[i - 1..] == [n] + s.nodes[i..];
      if Wanted(s.info[n], entries) {
        CloseUnwantedKeeps(s, entries, i - 1);
      } else {
        CloseMapped(s, i - 1);
        if Close(s, i - 1).Some? {
          CloseOneKeeps(s, entries, i);
          CloseUnwantedKeeps(Close(s, i - 1).value, entries, i - 1);
        } else {
          assert s.nodes == s.nodes[..i] + s.nodes[i..];
        }
      }
    } else {
      assert s.nodes[0..] == s.nodes;
    }
  }

  /** Closing node `i - 1` keeps the nodes before and after it in place. */
  lemma CloseOneKeeps<N>(s: Net<N>, entries: seq<Entry>, i: nat)
    requires 0 < i <= |s.nodes| && Mapped(s) && Close(s, i - 1).Some?
    ensures var t := Close(s, i - 1).value;
            && |t.nodes| == |s.nodes| - 1 && t.info == s.info && t == s.(nodes := t.nodes, index := t.index)
            && t.nodes[..i - 1] == s.nodes[..i - 1] && t.nodes[i - 1..] == s.nodes[i..]
            && (forall c: nat | c < i :: t.nodes[..c] == s.nodes[..c])
            && s.nodes[i - 1] !in t.nodes && s.nodes[i - 1] !in s.nodes[..i - 1] && s.nodes[i - 1] !in s.nodes[i..]
            && (forall n | n in t.nodes :: n in s.nodes)
            && (forall n | n in s.nodes && n != s.nodes[i - 1] :: n in t.nodes)
  {
    WithoutIndex(s.nodes, i - 1);
  }

  // ----- adding nodes

  predicate KnownKey<N(==)>(s: Net<N>, key: string)
    requires forall n | n in s.nodes :: n in s.info
  {
    exists n | n in s.nodes :: s.info[n].key == key
  }

  predicate KnownEndpoint<N(==)>(s: Net<N>, endpoint: Endpoint)
    requires forall n | n in s.nodes :: n in s.info
  {
    exists n | n in s.nodes :: s.info[n].endpoint == endpoint
  }

  /** The entries a node is created for: those whose key or whose address no kept node has. */
  function Missing<N(==)>(s: Net<N>, entries: seq<Entry>): (r: seq<Entry>)
    requires forall n | n in s.nodes :: n in s.info
  {
    if entries == [] then []
    else
      var e := entries[|entries| - 1];
      Missing(s, entries[..|entries| - 1])
      + if KnownKey(s, e.key) && KnownEndpoint(s, e.endpoint) then [] else [e]
  }

  function NodeFor(e: Entry, minBackoff: real, now: real): NodeState
  {
    WithMinBackoff(NewNode(e.key, e.endpoint, now), minBackoff)
  }

  /** The network with a node created for each entry of `added`, in order. */
  function WithCreated<N(==)>(s: Net<N>, added: seq<Entry>, made: seq<N>, now: real): (r: Net<N>)
    requires |made| == |added|
  {
    if added == [] then s
    else
      var k := |added| - 1;
      var t := WithCreated(s, added[..k], made[..k], now);
      t.(nodes := t.nodes + [made[k]], info := t.info[made[k] := NodeFor(added[k], s.minBackoff, now)])
  }

  // ----- rebuilding

  function ReadyNodes<N(==)>(s: Net<N>, nodes: seq<N>, now: real): (r: seq<N>)
    requires forall n | n in nodes :: n in s.info
  {
    if nodes == [] then []
    else
      var n := nodes[|nodes| - 1];
      ReadyNodes(s, nodes[..|nodes| - 1], now) + if Ready(s, n, now) then [n] else []
  }

  function WithKey<N>(info: map<N, NodeState>, nodes: seq<N>, key: string): (r: seq<N>)
    requires forall n | n in nodes :: n in info
  {
    if nodes == [] then []
    else
      var n := nodes[|nodes| - 1];
      WithKey(info, nodes[..|nodes| - 1], key) + if info[n].key == key then [n] else []
  }

  /** Each key's nodes, in list order. */
  function IndexOf<N>(info: map<N, NodeState>, nodes: seq<N>): (r: map<string, seq<N>>)
    requires forall n | n in nodes :: n in info
  {
    if nodes == [] then map[]
    else
      var n := nodes[|nodes| - 1];
      var rest := IndexOf(info, nodes[..|nodes| - 1]);
      var key := info[n].key;
      rest[key := (if key in rest then rest[key] else []) + [n]]
  }

  /** The arranged nodes become the node list; the healthy list and the index are built from them. */
  function Rebuilt<N(==)>(s: Net<N>, nodes: seq<N>, now: real): (r: Net<N>)
    requires forall n | n in nodes :: n in s.info
  {
    var healthy := ReadyNodes(s, nodes, now);
    ReadyMembers(s, nodes, now);
    s.(nodes := nodes, healthy := healthy, index := IndexOf(s.info, healthy))
  }

  lemma {:induction false} ReadyMembers<N>(s: Net<N>, nodes: seq<N>, now: real)
    requires forall n | n in nodes :: n in s.info
    ensures forall n | n in ReadyNodes(s, nodes, now) :: n in nodes && Ready(s, n, now)
    ensures forall n | n in nodes && Ready(s, n, now) :: n in ReadyNodes(s, nodes, now)
    ensures Distinct(nodes) ==> Distinct(ReadyNodes(s, nodes, now))
  {
    if nodes != [] {
      var init, last := nodes[..|nodes| - 1], nodes[|nodes| - 1];
      ReadyMembers(s, init, now);
      assert nodes == init + [last];
      assert Distinct(nodes) ==> Distinct(init) && last !in init;
    }
  }

  lemma {:induction false} WithKeyMembers<N>(info: map<N, NodeState>, nodes: seq<N>, key: string)
    requires forall n | n in nodes :: n in info
    ensures forall n | n in WithKey(info, nodes, key) :: n in nodes && info[n].key == key
    ensures forall n | n in nodes && info[n].key == key :: n in WithKey(info, nodes, key)
    ensures Distinct(nodes) ==> Distinct(WithKey(info, nodes, key))
  {
    if nodes != [] {
      var init, last := nodes[..|nodes| - 1], nodes[|nodes| - 1];
      WithKeyMembers(info, init, key);
      assert nodes == init + [last];
      assert Distinct(nodes) ==> Distinct(init) && last !in init;
    }
  }

  /** The index maps each key to exactly the nodes with that key, in list order, and no other key. */
  lemma {:induction false} IndexExact<N>(info: map<N, NodeState>, nodes: seq<N>, key: string)
    requires forall n | n in nodes :: n in info
    ensures key in IndexOf(info, nodes) <==> WithKey(info, nodes, key) != []
    ensures key in IndexOf(info, nodes) ==> IndexOf(info, nodes)[key] == WithKey(info, nodes, key)
  {
    if nodes != [] {
      var init := nodes[..|nodes| - 1];
      assert nodes == init + [nodes[|nodes| - 1]];
      IndexExact(info, init, key);
    }
  }

  lemma RebuiltValid<N>(s: Net<N>, nodes: seq<N>, now: real)
    requires Distinct(nodes) && forall n | n in nodes :: n in s.info
    ensures Valid(Rebuilt(s, nodes, now), now) && Inside(Rebuilt(s, nodes, now))
    ensures forall n | n in nodes :: n in Rebuilt(s, nodes, now).healthy <==> Ready(s, n, now)
  {
    var t := Rebuilt(s, nodes, now);
    ReadyMembers(s, nodes, now);
    forall key | key in t.index ensures Listed(t, t.index[key], key) {
      IndexExact(s.info, t.healthy, key);
      WithKeyMembers(s.info, t.healthy, key);
    }
  }

  // ----- the whole of _setNetwork

  /** Threw is the TypeError. `made` are the created nodes, `draws` the shuffle's. */
  ghost function SetNetwork<N>(s: Net<N>, entries: seq<Entry>, made: seq<N>, draws: seq<nat>,
          now: real): (r: Closing<N>)
    requires Mapped(s) && Supplied(s, entries, made, draws)
  {
    CloseUnwantedKeeps(s, entries, |s.nodes|);
    var r := CloseUnwanted(s, entries, |s.nodes|);
    if r.Threw? then r else Done(Completed(r.net, Missing(r.net, entries), made, draws, now))
  }

  /** Adds a node for each missing entry, shuffles and rebuilds. */
  ghost function Completed<N>(kept: Net<N>, missing: seq<Entry>, made: seq<N>, draws: seq<nat>, now: real): (r: Net<N>)
    requires Distinct(kept.nodes) && (forall n | n in kept.nodes :: n in kept.info)
    requires |made| == |missing| && Distinct(made) && forall n | n in made :: n !in kept.info
    requires Shuffles.ValidDraws(draws, |kept.nodes| + |made|)
  {
    CreatedNodes(kept, missing, made, now);
    var full := WithCreated(kept, missing, made, now);
    ShuffledNodes(full.nodes, draws);
    Rebuilt(full, Shuffles.Shuffled(full.nodes, |full.nodes|, draws), now)
  }

  /** One new node per missing entry, none of them known yet, and one draw per node; nothing when closing throws. */
  ghost predicate Supplied<N>(s: Net<N>, entries: seq<Entry>, made: seq<N>, draws: seq<nat>)
    requires Mapped(s)
  {
    CloseUnwantedKeeps(s, entries, |s.nodes|);
    var r := CloseUnwanted(s, entries, |s.nodes|);
    r.Done? ==>
      && |made| == |Missing(r.net, entries)|
      && Distinct(made) && (forall n | n in made :: n !in s.info)
      && Shuffles.ValidDraws(draws, |r.net.nodes| + |made|)
  }

  lemma CreatedNodes<N>(s: Net<N>, added: seq<Entry>, made: seq<N>, now: real)
    requires Distinct(s.nodes) && (forall n | n in s.nodes :: n in s.info)
    requires |made| == |added| && Distinct(made) && forall n | n in made :: n !in s.info
    ensures var t := WithCreated(s, added, made, now);
            && t == s.(nodes := t.nodes, info := t.info)
            && t.nodes == s.nodes + made && Distinct(t.nodes)
            && (forall n | n in t.nodes :: n in t.info) && (forall n | n in t.info :: n in s.info || n in made)
            && (forall n | n in s.info :: n in t.info && t.info[n] == s.info[n])
            && (forall k | 0 <= k < |made| ::
                  made[k] in t.info && t.info[made[k]] == NodeFor(added[k], s.minBackoff, now))
  {
    ConcatDistinct(s.nodes, made);
    CreatedLists(s, added, made, now);
    CreatedInfo(s, added, made, now);
  }

  lemma {:induction false} CreatedLists<N>(s: Net<N>, added: seq<Entry>, made: seq<N>, now: real)
    requires |made| == |added|
    ensures var t := WithCreated(s, added, made, now);
            t == s.(nodes := t.nodes, info := t.info) && t.nodes == s.nodes + made
  {
    if added != [] {
      var k := |added| - 1;
      CreatedLists(s, added[..k], made[..k], now);
      assert made == made[..k] + [made[k]];
    }
  }

  lemma {:induction false} CreatedInfo<N>(s: Net<N>, added: seq<Entry>, made: seq<N>, now: real)
    requires |made| == |added| && Distinct(made) && forall n | n in made :: n !in s.info
    ensures var info := WithCreated(s, added, made, now).info;
            && (forall n | n in info :: n in s.info || n in made)
            && (forall n | n in s.info :: n in info && info[n] == s.info[n])
            && (forall k | 0 <= k < |made| :: made[k] in info && info[made[k]] == NodeFor(added[k], s.minBackoff, now))
  {
    if added != [] {
      var k := |added| - 1;
      CreatedInfo(s, added[..k], made[..k], now);
      CreatedLists(s, added[..k], made[..k], now);
      assert made == made[..k] + [made[k]];
      assert made[k] !in made[..k];
    }
  }

  lemma ShuffledNodes<N>(nodes: seq<N>, draws: seq<nat>)
    requires Distinct(nodes) && Shuffles.ValidDraws(draws, |nodes|)
    ensures var r := Shuffles.Shuffled(nodes, |nodes|, draws);
            Distinct(r) && (forall n | n in r :: n in nodes) && (forall n | n in nodes :: n in r)
  {
    Shuffles.ShuffledPermutes(nodes, |nodes|, draws);
    PermutationDistinct(nodes, Shuffles.Shuffled(nodes, |nodes|, draws));
    SameElements(nodes, Shuffles.Shuffled(nodes, |nodes|, draws));
  }
}
