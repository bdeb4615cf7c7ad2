/** Choosing several healthy nodes at random for one transaction. */
module NodeSelection {
  import opened Sequences
  import opened Backoffs
  import opened NetworkState

  /** One `getNode` call of the loop: when it happens and what it draws. */
  datatype Call = Call(time: real, draw: Draw)

  /** The calls come in time order, and each draws from the range and from the index. */
  ghost predicate CallsFit<N>(index: map<string, seq<N>>, calls: seq<Call>, start: real)
    decreases |calls|
  {
    calls != [] ==>
      && start <= calls[0].time && 0.0 <= calls[0].draw.random < 1.0
      && (index != map[] ==> calls[0].draw.otherKey in index)
      && CallsFit(index, calls[1..], calls[0].time)
  }

  /** A drawn node is taken when its key or its host is new among the nodes taken. */
  predicate Acceptable<N(==)>(info: map<N, NodeState>, selected: seq<N>, n: N)
    requires n in info && forall m | m in selected :: m in info
  {
    || (forall m | m in selected :: info[m].key != info[n].key)
    || (forall m | m in selected :: info[m].endpoint.host != info[n].endpoint.host)
  }

  function KeysOf<N(==)>(info: map<N, NodeState>, selected: seq<N>): set<string>
    requires forall m | m in selected :: m in info
  {
    set m | m in selected :: info[m].key
  }

  function HostsOf<N(==)>(info: map<N, NodeState>, selected: seq<N>): set<string>
    requires forall m | m in selected :: m in info
  {
    set m | m in selected :: info[m].endpoint.host
  }

  lemma KeysMore<N>(info: map<N, NodeState>, selected: seq<N>, n: N)
    requires (forall m | m in selected :: m in info) && n in info
    ensures KeysOf(info, selected + [n]) == KeysOf(info, selected) + {info[n].key}
  {
    var more := selected + [n];
    assert more[|selected|] == n;
    assert forall m | m in selected :: m in more;
  }

  lemma HostsMore<N>(info: map<N, NodeState>, selected: seq<N>, n: N)
    requires (forall m | m in selected :: m in info) && n in info
    ensures HostsOf(info, selected + [n]) == HostsOf(info, selected) + {info[n].endpoint.host}
  {
    var more := selected + [n];
    assert more[|selected|] == n;
    assert forall m | m in selected :: m in more;
  }

  lemma AcceptableBySets<N>(info: map<N, NodeState>, selected: seq<N>, n: N)
    requires (forall m | m in selected :: m in info) && n in info
    ensures Acceptable(info, selected, n) <==>
            info[n].key !in KeysOf(info, selected) || info[n].endpoint.host !in HostsOf(info, selected)
  {
  }

  predicate Complete<N>(s: Net<N>, count: int, selected: seq<N>)
  {
    |selected| >= |s.healthy| || (|selected| == count - s.unhealthyCount && selected != [])
  }

  datatype Selection<N> = Selection(net: Net<N>, selected: seq<N>, finished: bool)

  ghost function Taken<N>(t: Net<N>, selected: seq<N>, d: Draw): (r: seq<N>)
    requires 0.0 <= d.random < 1.0 && t.healthy != []
    requires (forall n | n in t.healthy :: n in t.info) && (forall n | n in selected :: n in t.info)
  {
    var n := t.healthy[Pick(d.random, |t.healthy|)];
    if Acceptable(t.info, selected, n) then selected + [n] else selected
  }

  /** The loop from a partial selection, until it is complete or the calls given are used up. */
  ghost function SelectMore<N>(s: Net<N>, now: real, count: int, selected: seq<N>, calls: seq<Call>): (r: Selection<N>)
    requires Valid(s, now) && Subseq(selected, s.healthy) && CallsFit(s.index, calls, now)
    decreases |calls|
  {
    if Complete(s, count, selected) then Selection(s, selected, true)
    else if calls == [] then Selection(s, selected, false)
    else
      TakenSound(s, now, selected, calls[0]);
      var t := Readmit(s, calls[0].time);
      SelectMore(t, calls[0].time, count, Taken(t, selected, calls[0].draw), calls[1..])
  }

  lemma TakenSound<N>(s: Net<N>, now: real, selected: seq<N>, c: Call)
    requires Valid(s, now) && Subseq(selected, s.healthy) && now <= c.time && 0.0 <= c.draw.random < 1.0
    requires |selected| < |s.healthy|
    ensures var t := Readmit(s, c.time);
            && Valid(t, c.time) && t.healthy != [] && |t.healthy| >= |s.healthy|
            && t.info == s.info && t.index == s.index
            && (forall n | n in t.healthy :: n in t.info) && (forall n | n in selected :: n in t.info)
            && Subseq(Taken(t, selected, c.draw), t.healthy)
            && (Distinct(selected) ==> Distinct(Taken(t, selected, c.draw)))
  {
    ValidLater(s, now, c.time);
    ReadmitExact(s, c.time);
    var t := Readmit(s, c.time);
    assert forall n | n in s.healthy :: n in t.healthy;
    var n := t.healthy[Pick(c.draw.random, |t.healthy|)];
    assert n in t.healthy;
    if Acceptable(t.info, selected, n) {
      assert n !in selected;
    }
  }

  lemma DistinctWithin<N>(selected: seq<N>, healthy: seq<N>)
    requires Distinct(selected) && Distinct(healthy) && Subseq(selected, healthy)
    ensures |selected| <= |healthy|
    ensures |selected| == |healthy| ==> Subseq(healthy, selected)
  {
    var s, h := set n | n in selected, set n | n in healthy;
    DistinctSize(selected);
    DistinctSize(healthy);
    assert s <= h;
    SubsetSize(s, h);
    if |selected| == |healthy| {
      forall n | n in healthy ensures n in selected {
        assert n in h;
      }
    }
  }

  lemma SubsetSize<N>(s: set<N>, h: set<N>)
    requires s <= h
    ensures |s| <= |h| && (|s| == |h| ==> s == h)
  {
    assert |h - s| == |h| - |s|;
    if |s| == |h| {
      assert h - s == {};
    }
  }

  lemma {:induction false} DistinctSize<N>(list: seq<N>)
    requires Distinct(list)
    ensures |set n | n in list| == |list|
  {
    if list != [] {
      var init, last := list[..|list| - 1], list[|list| - 1];
      DistinctSize(init);
      assert list == init + [last];
      assert (set n | n in list) == (set n | n in init) + {last};
      assert last !in init;
    }
  }

  /**
   The selection never repeats a node and takes healthy ones only; when the loop ends it has count
   minus the unhealthy counter nodes, or every healthy node exactly once.
   */
  lemma {:induction false} SelectionSound<N>(s: Net<N>, now: real, count: int, selected: seq<N>, calls: seq<Call>)
    requires Valid(s, now) && Subseq(selected, s.healthy) && CallsFit(s.index, calls, now) && Distinct(selected)
    ensures var r := SelectMore(s, now, count, selected, calls);
            && Distinct(r.selected) && Subseq(r.selected, r.net.healthy) && selected <= r.selected
            && (r.finished ==>
                  || (|r.selected| == count - r.net.unhealthyCount && r.selected != [])
                  || (|r.selected| == |r.net.healthy| && Subseq(r.net.healthy, r.selected)))
    decreases |calls|
  {
    if Complete(s, count, selected) {
      DistinctWithin(selected, s.healthy);
    } else if calls != [] {
      TakenSound(s, now, selected, calls[0]);
      var t := Readmit(s, calls[0].time);
      SelectionSound(t, calls[0].time, count, Taken(t, selected, calls[0].draw), calls[1..]);
    }
  }

  /**
   The selection does not go beyond count minus the unhealthy counter, except for its first node; when
   that is no positive number the loop can only end with every healthy node.
   */
  lemma {:induction false} SelectionBounded<N>(s: Net<N>, now: real, count: int, selected: seq<N>, calls: seq<Call>)
    requires Valid(s, now) && Subseq(selected, s.healthy) && CallsFit(s.index, calls, now) && Distinct(selected)
    ensures var r := SelectMore(s, now, count, selected, calls);
            && (|selected| <= count - s.unhealthyCount && 1 <= count - s.unhealthyCount ==>
                  |r.selected| <= count - r.net.unhealthyCount)
            && (r.finished && count <= r.net.unhealthyCount ==> |r.selected| == |r.net.healthy|)
    decreases |calls|
  {
    if Complete(s, count, selected) {
      DistinctWithin(selected, s.healthy);
    } else if calls != [] {
      TakenSound(s, now, selected, calls[0]);
      var t := Readmit(s, calls[0].time);
      SelectionBounded(t, calls[0].time, count, Taken(t, selected, calls[0].draw), calls[1..]);
    }
  }

  /** Every node of the list brings a key or a host that no earlier one has. */
  ghost predicate EachNew<N>(info: map<N, NodeState>, list: seq<N>)
    requires forall n | n in list :: n in info
  {
    forall j | 0 <= j < |list| ::
      || (forall i | 0 <= i < j :: info[list[i]].key != info[list[j]].key)
      || (forall i | 0 <= i < j :: info[list[i]].endpoint.host != info[list[j]].endpoint.host)
  }

  lemma EachNewNext<N>(info: map<N, NodeState>, selected: seq<N>, n: N)
    requires (forall m | m in selected :: m in info) && n in info
    requires EachNew(info, selected) && Acceptable(info, selected, n)
    ensures (forall m | m in selected + [n] :: m in info) && EachNew(info, selected + [n])
  {
    var more := selected + [n];
    assert forall m | m in more :: m in selected || m == n;
    assert forall i | 0 <= i < |selected| :: more[i] == selected[i] && selected[i] in selected;
  }

  /** Every node taken brings a key or a host that none of those taken before it has. */
  lemma {:induction false} SelectionNew<N>(s: Net<N>, now: real, count: int, selected: seq<N>, calls: seq<Call>)
    requires Valid(s, now) && Subseq(selected, s.healthy) && CallsFit(s.index, calls, now)
    requires (forall n | n in selected :: n in s.info) && EachNew(s.info, selected)
    ensures var r := SelectMore(s, now, count, selected, calls);
            && r.net.info == s.info && (forall n | n in r.selected :: n in s.info) && EachNew(s.info, r.selected)
    decreases |calls|
  {
    if !Complete(s, count, selected) && calls != [] {
      TakenSound(s, now, selected, calls[0]);
      var t := Readmit(s, calls[0].time);
      TakenGrows(t, selected, calls[0].draw);
      var n := t.healthy[Pick(calls[0].draw.random, |t.healthy|)];
      if Acceptable(t.info, selected, n) {
        EachNewNext(t.info, selected, n);
      }
      SelectionNew(t, calls[0].time, count, Taken(t, selected, calls[0].draw), calls[1..]);
    }
  }

  // ----- progress

  ghost predicate CanGrow<N>(info: map<N, NodeState>, healthy: seq<N>, selected: seq<N>)
    requires (forall n | n in healthy :: n in info) && (forall n | n in selected :: n in info)
  {
    exists n :: n in healthy && Acceptable(info, selected, n)
  }

  lemma Quotient(i: nat, n: nat, q: real)
    requires i < n && q == i as real / n as real
    ensures q * n as real == i as real
  {
  }

  lemma BelowOne(q: real, i: real, n: real)
    requires q * n == i && 0.0 <= i < n
    ensures 0.0 <= q < 1.0
  {
    assert q < 0.0 ==> q * n < 0.0;
    assert q >= 1.0 ==> q * n >= n;
  }

  /** Every position of the list is the pick of some draw. */
  lemma PickReaches(i: nat, n: nat) returns (random: real)
    requires i < n
    ensures 0.0 <= random < 1.0 && Pick(random, n) == i
  {
    random := i as real / n as real;
    Quotient(i, n, random);
    BelowOne(random, i as real, n as real);
  }

  lemma TakenGrows<N>(t: Net<N>, selected: seq<N>, d: Draw)
    requires 0.0 <= d.random < 1.0 && t.healthy != []
    requires (forall n | n in t.healthy :: n in t.info) && (forall n | n in selected :: n in t.info)
    ensures Taken(t, selected, d) != selected <==> Acceptable(t.info, selected, t.healthy[Pick(d.random, |t.healthy|)])
    ensures t.healthy[Pick(d.random, |t.healthy|)] in t.healthy
  {
    var n := t.healthy[Pick(d.random, |t.healthy|)];
    assert |selected + [n]| != |selected|;
  }

  /** Some draw enlarges the selection exactly when some healthy node has a new key or a new host. */
  lemma GrowsIff<N>(t: Net<N>, selected: seq<N>)
    requires t.healthy != []
    requires (forall n | n in t.healthy :: n in t.info) && (forall n | n in selected :: n in t.info)
    ensures CanGrow(t.info, t.healthy, selected) <==>
              exists d: Draw :: 0.0 <= d.random < 1.0 && Taken(t, selected, d) != selected
    ensures CanGrow(t.info, t.healthy, selected) <==>
              exists n :: n in t.healthy
                          && ((forall m | m in selected :: t.info[m].key != t.info[n].key)
                              || forall m | m in selected :: t.info[m].endpoint.host != t.info[n].endpoint.host)
  {
    if CanGrow(t.info, t.healthy, selected) {
      var n :| n in t.healthy && Acceptable(t.info, selected, n);
      var i :| 0 <= i < |t.healthy| && t.healthy[i] == n;
      var random := PickReaches(i, |t.healthy|);
      TakenGrows(t, selected, Draw(random, ""));
    }
    if d: Draw :| 0.0 <= d.random < 1.0 && Taken(t, selected, d) != selected {
      TakenGrows(t, selected, d);
    }
  }

  /** With pairwise distinct keys an unfinished selection can always grow. */
  lemma DistinctKeysGrow<N>(s: Net<N>, now: real, selected: seq<N>)
    requires Valid(s, now) && Subseq(selected, s.healthy) && Distinct(selected) && |selected| < |s.healthy|
    requires forall m, n | m in s.healthy && n in s.healthy && s.info[m].key == s.info[n].key :: m == n
    ensures CanGrow(s.info, s.healthy, selected)
  {
    var n := Outside(selected, s.healthy);
    assert Acceptable(s.info, selected, n);
  }

  lemma Outside<N>(selected: seq<N>, healthy: seq<N>) returns (n: N)
    requires Distinct(selected) && Distinct(healthy) && |selected| < |healthy|
    ensures n in healthy && n !in selected
  {
    var s, h := set n | n in selected, set n | n in healthy;
    DistinctSize(selected);
    DistinctSize(healthy);
    if h <= s {
      SubsetSize(h, s);
    }
    assert !(h <= s);
    n :| n in h && n !in s;
  }

  /** Nothing is left to readmit, so readmission changes no list. */
  lemma NothingLeft<N>(s: Net<N>, now: real)
    requires Subseq(s.nodes, s.healthy) && forall n | n in s.nodes :: n in s.info
    ensures Readmit(s, now) == s.(earliestReadmitTime := Readmit(s, now).earliestReadmitTime)
  {
    NothingToReadmit(s, s.nodes, now);
  }

  lemma {:induction false} NothingToReadmit<N>(s: Net<N>, nodes: seq<N>, now: real)
    requires Subseq(nodes, s.healthy) && forall n | n in nodes :: n in s.info
    ensures Readmitted(s, nodes, now) == []
  {
    if nodes != [] {
      NothingToReadmit(s, nodes[..|nodes| - 1], now);
      assert nodes[|nodes| - 1] in nodes;
    }
  }

  /** No healthy node has a new key or a new host, and no other node can be readmitted. */
  ghost predicate Stuck<N>(s: Net<N>, count: int, selected: seq<N>)
    requires (forall n | n in s.healthy :: n in s.info) && (forall n | n in selected :: n in s.info)
  {
    !Complete(s, count, selected) && !CanGrow(s.info, s.healthy, selected) && Subseq(s.nodes, s.healthy)
  }

  lemma StuckLater<N>(s: Net<N>, count: int, selected: seq<N>, earliest: real, d: Draw)
    requires (forall n | n in s.healthy :: n in s.info) && (forall n | n in selected :: n in s.info)
    requires 0.0 <= d.random < 1.0 && s.healthy != [] && Stuck(s, count, selected)
    ensures var t := s.(earliestReadmitTime := earliest);
            Stuck(t, count, selected) && Taken(t, selected, d) == selected
  {
    TakenGrows(s, selected, d);
    assert !Acceptable(s.info, selected, s.healthy[Pick(d.random, |s.healthy|)]);
  }

  /** A stuck selection: the loop never ends, whatever is drawn. */
  lemma {:induction false} StuckForever<N>(s: Net<N>, now: real, count: int, selected: seq<N>, calls: seq<Call>)
    requires Valid(s, now) && Subseq(selected, s.healthy) && CallsFit(s.index, calls, now)
    requires Stuck(s, count, selected)
    ensures !SelectMore(s, now, count, selected, calls).finished
    decreases |calls|
  {
    if calls != [] {
      var c := calls[0];
      TakenSound(s, now, selected, c);
      NothingLeft(s, c.time);
      StuckLater(s, count, selected, Readmit(s, c.time).earliestReadmitTime, c.draw);
      StuckForever(Readmit(s, c.time), c.time, count, selected, calls[1..]);
    }
  }

  /** Three healthy nodes and no others; the third shares its key with the first and its host with the second. */
  ghost predicate Interlocked<N>(s: Net<N>, a: N, b: N, c: N)
  {
    && s.healthy == [a, b, c] && Subseq(s.nodes, s.healthy) && a in s.info && b in s.info && c in s.info
    && s.info[a].key != s.info[b].key && s.info[a].endpoint.host != s.info[b].endpoint.host
    && s.info[c].key == s.info[a].key && s.info[c].endpoint.host == s.info[b].endpoint.host
  }

  lemma InterlockedWithin<N>(s: Net<N>, a: N, b: N, c: N)
    requires Interlocked(s, a, b, c)
    ensures Subseq([], s.healthy) && Subseq([a], s.healthy) && Subseq([a, b], s.healthy)
    ensures (forall n | n in s.healthy :: n in s.info) && (forall n | n in [a, b] :: n in s.info)
  {
    assert s.healthy[0] == a && s.healthy[1] == b && s.healthy[2] == c;
  }

  lemma InterlockedStuck<N>(s: Net<N>, count: int, a: N, b: N, c: N)
    requires Interlocked(s, a, b, c) && count >= 3 + s.unhealthyCount
    requires (forall n | n in s.healthy :: n in s.info) && (forall n | n in [a, b] :: n in s.info)
    ensures Stuck(s, count, [a, b])
  {
    var taken := [a, b];
    assert taken[0] == a && taken[1] == b;
    assert !Acceptable(s.info, taken, a) && !Acceptable(s.info, taken, b) && !Acceptable(s.info, taken, c);
  }

  /** A call that draws the first of such three nodes, and one that draws the second. */
  lemma InterlockedTaken<N>(s: Net<N>, a: N, b: N, c: N, call: Call)
    requires Interlocked(s, a, b, c) && 0.0 <= call.draw.random < 1.0
    ensures var t := Readmit(s, call.time);
            && Interlocked(t, a, b, c) && t.unhealthyCount == s.unhealthyCount && t.index == s.index
            && (Pick(call.draw.random, 3) == 0 ==> Taken(t, [], call.draw) == [a])
            && (Pick(call.draw.random, 3) == 1 ==> Taken(t, [a], call.draw) == [a, b])
  {
    NothingLeft(s, call.time);
    var t := Readmit(s, call.time);
    var none: seq<N> := [];
    assert t.healthy[0] == a && t.healthy[1] == b;
    assert none + [a] == [a] && [a] + [b] == [a, b];
  }

  /** One call of the loop on such three nodes. */
  lemma InterlockedNext<N>(s: Net<N>, now: real, count: int, a: N, b: N, c: N, selected: seq<N>, calls: seq<Call>)
    returns (next: seq<N>)
    requires Valid(s, now) && Interlocked(s, a, b, c) && count >= 3 + s.unhealthyCount
    requires CallsFit(s.index, calls, now) && calls != []
    requires || (selected == [] && Pick(calls[0].draw.random, 3) == 0)
             || (selected == [a] && Pick(calls[0].draw.random, 3) == 1)
    ensures next == if selected == [] then [a] else [a, b]
    ensures var t := Readmit(s, calls[0].time);
            && Valid(t, calls[0].time) && Interlocked(t, a, b, c) && t.unhealthyCount == s.unhealthyCount
            && CallsFit(t.index, calls[1..], calls[0].time) && Subseq(selected, s.healthy) && Subseq(next, t.healthy)
            && SelectMore(s, now, count, selected, calls) == SelectMore(t, calls[0].time, count, next, calls[1..])
  {
    InterlockedWithin(s, a, b, c);
    InterlockedTaken(s, a, b, c, calls[0]);
    TakenSound(s, now, selected, calls[0]);
    next := if selected == [] then [a] else [a, b];
    InterlockedWithin(Readmit(s, calls[0].time), a, b, c);
  }

  /** Once the first two of such three nodes are drawn, asking for all three never ends. */
  lemma {:induction false} ThreeNodesNeverEnd<N>(s: Net<N>, now: real, count: int, a: N, b: N, c: N, calls: seq<Call>)
    requires Valid(s, now) && Interlocked(s, a, b, c) && count >= 3 + s.unhealthyCount
    requires CallsFit(s.index, calls, now) && |calls| >= 2 && 0.0 <= calls[1].draw.random < 1.0
    requires Pick(calls[0].draw.random, 3) == 0 && Pick(calls[1].draw.random, 3) == 1
    ensures !SelectMore(s, now, count, [], calls).finished
  {
    var t, rest := Readmit(s, calls[0].time), calls[1..];
    var first := InterlockedNext(s, now, count, a, b, c, [], calls);
    assert rest[0] == calls[1];
    var u := Readmit(t, rest[0].time);
    var second := InterlockedNext(t, calls[0].time, count, a, b, c, first, rest);
    InterlockedWithin(u, a, b, c);
    InterlockedStuck(u, count, a, b, c);
    StuckForever(u, rest[0].time, count, second, rest[1..]);
  }
}
