/** The network's bookkeeping of healthy nodes, on values; `N` identifies nodes. */
module NetworkState {
  import opened Sequences
  import opened Results
  import opened Backoffs

  datatype Net<N> = Net(
    nodes: seq<N>, healthy: seq<N>, unhealthyCount: int,
    earliestReadmitTime: real, minReadmitPeriod: real, maxReadmitPeriod: real, minBackoff: real,
    index: map<string, seq<N>>, info: map<N, NodeState>)

  const MAX_SAFE_INTEGER: real := 9007199254740991.0

  ghost predicate Subseq<T>(s: seq<T>, t: seq<T>)
  {
    forall x | x in s :: x in t
  }

  /** The node's readmit time has passed. */
  predicate Ready<N(==)>(s: Net<N>, n: N, now: real)
    requires n in s.info
  {
    s.info[n].readmitTime <= now
  }

  ghost predicate Listed<N>(s: Net<N>, list: seq<N>, key: string)
  {
    && list != [] && Distinct(list) && Subseq(list, s.nodes)
    && forall n | n in list :: n in s.info && s.info[n].key == key
  }

  /** What holds in every reachable state at every time from `now` on. */
  ghost predicate Valid<N>(s: Net<N>, now: real)
  {
    && Distinct(s.nodes) && Distinct(s.healthy)
    && (forall n | n in s.nodes :: n in s.info)
    && (forall n | n in s.healthy :: n in s.info && Ready(s, n, now))
    && (forall key | key in s.index :: Listed(s, s.index[key], key))
  }

  /** The healthy nodes are nodes of the network; a replacement that throws can end this. */
  ghost predicate Inside<N>(s: Net<N>)
  {
    Subseq(s.healthy, s.nodes)
  }

  lemma ValidLater<N>(s: Net<N>, now: real, later: real)
    requires Valid(s, now) && now <= later
    ensures Valid(s, later)
  {
  }

  // ----- readmission

  /** The nodes outside the healthy list whose readmit time has passed, in list order. */
  function Readmitted<N(==)>(s: Net<N>, nodes: seq<N>, now: real): (r: seq<N>)
    requires forall n | n in nodes :: n in s.info
  {
    if nodes == [] then []
    else
      var n := nodes[|nodes| - 1];
      Readmitted(s, nodes[..|nodes| - 1], now) + if n !in s.healthy && Ready(s, n, now) then [n] else []
  }

  function FirstOutside<N(==)>(nodes: seq<N>, healthy: seq<N>): (k: nat)
    ensures k <= |nodes|
    ensures k < |nodes| ==> nodes[k] !in healthy
    ensures forall i | 0 <= i < k :: nodes[i] in healthy
  {
    if nodes == [] || nodes[0] !in healthy then 0 else 1 + FirstOutside(nodes[1..], healthy)
  }

  /** The search stops at the first node outside the healthy list, and needs a healthy node to look. */
  function NextReadmitTime<N(==)>(s: Net<N>, now: real): real
    requires forall n | n in s.nodes :: n in s.info
  {
    var k := FirstOutside(s.nodes, s.healthy);
    if k < |s.nodes| && s.healthy != [] && !Ready(s, s.nodes[k], now)
    then MinReal(s.info[s.nodes[k]].readmitTime, MAX_SAFE_INTEGER)
    else MAX_SAFE_INTEGER
  }

  predicate Fires<N>(s: Net<N>, now: real)
  {
    s.earliestReadmitTime <= now
  }

  function Readmit<N(==)>(s: Net<N>, now: real): (r: Net<N>)
    requires forall n | n in s.nodes :: n in s.info
  {
    if !Fires(s, now) then s
    else
      var back := Readmitted(s, s.nodes, now);
      s.(healthy := s.healthy + back, unhealthyCount := s.unhealthyCount - |back|,
         earliestReadmitTime := MinReal(MaxReal(NextReadmitTime(s, now), s.minReadmitPeriod), s.maxReadmitPeriod))
  }

  lemma {:induction false} ReadmittedMember<N>(s: Net<N>, nodes: seq<N>, now: real, n: N)
    requires forall m | m in nodes :: m in s.info
    ensures n in Readmitted(s, nodes, now) <==> n in nodes && n !in s.healthy && Ready(s, n, now)
  {
    if nodes != [] {
      ReadmittedMember(s, nodes[..|nodes| - 1], now, n);
      assert nodes == nodes[..|nodes| - 1] + [nodes[|nodes| - 1]];
    }
  }

  lemma {:induction false} ReadmittedDistinct<N>(s: Net<N>, nodes: seq<N>, now: real)
    requires Distinct(nodes) && forall m | m in nodes :: m in s.info
    ensures Distinct(Readmitted(s, nodes, now))
  {
    if nodes != [] {
      var init, last := nodes[..|nodes| - 1], nodes[|nodes| - 1];
      ReadmittedDistinct(s, init, now);
      ReadmittedMember(s, init, now, last);
    }
  }

  /** Readmission keeps the cache valid and adds nodes of the network only; a pass that fires makes it exact. */
  lemma ReadmitExact<N>(s: Net<N>, now: real)
    requires Valid(s, now)
    ensures Valid(Readmit(s, now), now)
    ensures Fires(s, now) ==> forall n | n in s.nodes :: n in Readmit(s, now).healthy <==> Ready(s, n, now)
    ensures |Readmit(s, now).healthy| + Readmit(s, now).unhealthyCount == |s.healthy| + s.unhealthyCount
    ensures forall n | n in s.healthy :: n in Readmit(s, now).healthy
    ensures forall n | n in Readmit(s, now).healthy :: n in s.healthy || n in s.nodes
  {
    if Fires(s, now) {
      var back := Readmitted(s, s.nodes, now);
      ReadmittedDistinct(s, s.nodes, now);
      forall n | n in back ensures n in s.nodes && n !in s.healthy && Ready(s, n, now) {
        ReadmittedMember(s, s.nodes, now, n);
      }
      forall n | n in s.nodes ensures n in back <==> n !in s.healthy && Ready(s, n, now) {
        ReadmittedMember(s, s.nodes, now, n);
      }
      ConcatDistinct(s.healthy, back);
    }
  }

  /** A pass that does not fire changes nothing; one that fires sets the time of the next one within the periods. */
  lemma NextPass<N>(s: Net<N>, now: real)
    requires forall n | n in s.nodes :: n in s.info
    ensures s.earliestReadmitTime > now ==> Readmit(s, now) == s
    ensures s.earliestReadmitTime <= now && s.minReadmitPeriod <= s.maxReadmitPeriod ==>
              s.minReadmitPeriod <= Readmit(s, now).earliestReadmitTime <= s.maxReadmitPeriod
  {
  }

  /**
   Once the clock reads more than the longest period, as it does in milliseconds since 1970, a pass that
   fires always leaves that period as the time of the next one.
   */
  lemma NextPassLate<N>(s: Net<N>, now: real)
    requires (forall n | n in s.nodes :: n in s.info) && s.earliestReadmitTime <= now
    requires s.maxReadmitPeriod <= now && s.maxReadmitPeriod <= 9007199254740991.0
    ensures Readmit(s, now).earliestReadmitTime == s.maxReadmitPeriod
  {
  }

  /**
   Before that, it is the readmit time of the first node that is not in the healthy list, when that is
   to come and some node is healthy, and otherwise 2^53 - 1, in both cases brought within the periods.
   */
  lemma NextPassEarly<N>(s: Net<N>, now: real, k: nat)
    requires (forall n | n in s.nodes :: n in s.info) && s.earliestReadmitTime <= now
    requires s.minReadmitPeriod <= s.maxReadmitPeriod < 9007199254740991.0
    ensures var next := Readmit(s, now).earliestReadmitTime;
            && (k < |s.nodes| && s.nodes[k] !in s.healthy && (forall i | 0 <= i < k :: s.nodes[i] in s.healthy)
                && s.healthy != [] && s.info[s.nodes[k]].readmitTime > now ==>
                  var time := s.info[s.nodes[k]].readmitTime;
                  next == if time < s.minReadmitPeriod then s.minReadmitPeriod
                          else if time > s.maxReadmitPeriod then s.maxReadmitPeriod else time)
            && (Subseq(s.nodes, s.healthy) || s.healthy == [] ==> next == s.maxReadmitPeriod)
  {
    var first := FirstOutside(s.nodes, s.healthy);
    if k < |s.nodes| && s.nodes[k] !in s.healthy && forall i | 0 <= i < k :: s.nodes[i] in s.healthy {
      assert first == k;
    }
    assert forall i | 0 <= i < |s.nodes| :: s.nodes[i] in s.nodes;
  }

  // ----- selection

  datatype SelectError = NoHealthyNode | NoMappedNode

  /** `Math.random()`, and the key that a random pick from the index gives. */
  datatype Draw = Draw(random: real, otherKey: string)

  ghost predicate ValidDraw<N>(s: Net<N>, d: Draw)
  {
    0.0 <= d.random < 1.0 && (s.index != map[] ==> d.otherKey in s.index)
  }

  function Pick(random: real, n: nat): (i: nat)
    requires 0.0 <= random < 1.0 && n > 0
    ensures i < n && i as real <= random * n as real < i as real + 1.0
  {
    PickRange(random, n);
    (random * n as real).Floor
  }

  lemma PickRange(random: real, n: nat)
    requires 0.0 <= random < 1.0 && n > 0
    ensures 0.0 <= random * n as real < n as real
  {
    var m := n as real;
    assert (1.0 - random) * m > 0.0;
  }

  /** The node `getNode` answers once readmission is done. */
  function Chosen<N(==)>(s: Net<N>, key: Option<string>, d: Draw): (r: Result<N, SelectError>)
    requires ValidDraw(s, d) && forall k | k in s.index :: s.index[k] != []
  {
    match key
    case Some(k) =>
      if k in s.index then Ok(s.index[k][0])
      else if s.index == map[] then Err(NoMappedNode)
      else Ok(s.index[d.otherKey][0])
    case None =>
      if s.healthy == [] then Err(NoHealthyNode) else Ok(s.healthy[Pick(d.random, |s.healthy|)])
  }

  /**
   With a key the selection fails exactly when no key is indexed; a key that is indexed gives the first
   of its nodes, and any other key the first node of the key drawn.
   */
  lemma KeyedSelection<N>(s: Net<N>, key: string, d: Draw)
    requires ValidDraw(s, d) && forall k | k in s.index :: s.index[k] != []
    ensures var r := Chosen(s, Some(key), d);
            && (r.Err? <==> s.index == map[]) && (r.Err? ==> r.error == NoMappedNode)
            && forall k, n | (k == key || (key !in s.index && k == d.otherKey))
                             && k in s.index && s.index[k] != [] && s.index[k][0] == n ::
                 r == Ok(n)
  {
  }

  /** Without a key it fails exactly when no node is healthy, and otherwise the draw picks its share of the list. */
  lemma KeylessSelection<N>(s: Net<N>, d: Draw, i: nat)
    requires ValidDraw(s, d) && forall k | k in s.index :: s.index[k] != []
    ensures Chosen(s, None, d) == Err(NoHealthyNode) <==> s.healthy == []
    ensures i < |s.healthy| && i as real <= d.random * |s.healthy| as real < i as real + 1.0 ==>
              Chosen(s, None, d) == Ok(s.healthy[i])
  {
    if i < |s.healthy| && i as real <= d.random * |s.healthy| as real < i as real + 1.0 {
      PickOnly(d.random, |s.healthy|, i);
    }
  }

  lemma PickOnly(random: real, n: nat, i: nat)
    requires 0.0 <= random < 1.0 && i < n
    requires i as real <= random * n as real < i as real + 1.0
    ensures Pick(random, n) == i
  {
  }

  /** A state in which the next readmission pass fires at any time from the longest period on. */
  ghost predicate Primed<N>(s: Net<N>)
  {
    s.earliestReadmitTime <= s.maxReadmitPeriod
  }

  /**
   Selection does not give up early: in a primed state, at any time from the longest readmit period
   on, the keyless selection fails exactly when the readmit time of every node, in the network or
   still in the healthy list, is to come.
   */
  lemma SelectionExact<N>(s: Net<N>, now: real, d: Draw)
    requires Valid(s, now) && ValidDraw(s, d) && Primed(s) && now >= s.maxReadmitPeriod
    ensures Chosen(Readmit(s, now), None, d) == Err(NoHealthyNode) <==>
            forall n | n in s.nodes || n in s.healthy :: !Ready(s, n, now)
    ensures var r := Chosen(Readmit(s, now), None, d);
            r.Ok? ==> (r.value in s.nodes || r.value in s.healthy) && Ready(s, r.value, now)
  {
    ReadmitExact(s, now);
    var t := Readmit(s, now);
    if t.healthy != [] {
      assert t.healthy[0] in t.healthy;
    }
  }

  // ----- backoff

  function Without<N(==)>(list: seq<N>, n: N): (r: seq<N>)
    ensures |r| <= |list|
  {
    if list == [] then []
    else Without(list[..|list| - 1], n) + if list[|list| - 1] == n then [] else [list[|list| - 1]]
  }

  function IncreaseBackoff<N(==)>(s: Net<N>, n: N, now: real): (r: Net<N>)
  {
    var healthy := Without(s.healthy, n);
    s.(healthy := healthy, unhealthyCount := s.unhealthyCount + |s.healthy| - |healthy|,
       info := if n in s.info then s.info[n := Increased(s.info[n], now)] else s.info)
  }

  function DecreaseBackoff<N(==)>(s: Net<N>, n: N): (r: Net<N>)
  {
    s.(info := if n in s.info then s.info[n := Decreased(s.info[n])] else s.info)
  }

  lemma {:induction false} WithoutMember<N>(list: seq<N>, n: N, m: N)
    ensures m in Without(list, n) <==> m in list && m != n
  {
    if list != [] {
      WithoutMember(list[..|list| - 1], n, m);
      assert list == list[..|list| - 1] + [list[|list| - 1]];
    }
  }

  lemma {:induction false} WithoutDistinct<N>(list: seq<N>, n: N)
    requires Distinct(list)
    ensures Distinct(Without(list, n))
    ensures |Without(list, n)| == if n in list then |list| - 1 else |list|
  {
    if list != [] {
      var init, last := list[..|list| - 1], list[|list| - 1];
      WithoutDistinct(init, n);
      WithoutMember(init, n, last);
      assert list == init + [last];
      assert last !in init;
    }
  }

  lemma {:induction false} WithoutInOrder<N>(list: seq<N>, n: N)
    ensures InOrder(Without(list, n), list)
  {
    if list != [] {
      var init := list[..|list| - 1];
      WithoutInOrder(init, n);
      InOrderNext(Without(init, n), list);
    }
  }

  lemma IncreaseValid<N>(s: Net<N>, n: N, now: real)
    requires Valid(s, now)
    ensures Valid(IncreaseBackoff(s, n, now), now)
    ensures var t := IncreaseBackoff(s, n, now);
            && |t.healthy| + t.unhealthyCount == |s.healthy| + s.unhealthyCount
            && (forall m | m in t.healthy :: m in s.healthy && m != n)
            && (forall m | m in s.healthy && m != n :: m in t.healthy)
  {
    var t := IncreaseBackoff(s, n, now);
    WithoutDistinct(s.healthy, n);
    forall m | m in t.healthy ensures m in s.healthy && m != n {
      WithoutMember(s.healthy, n, m);
    }
    forall m | m in s.healthy && m != n ensures m in t.healthy {
      WithoutMember(s.healthy, n, m);
    }
  }

  /**
   Backing a node off takes it alone off the healthy list, in place, and changes only its record: twice
   the backoff, or the maximum when that is less, and a readmit time that far off.
   */
  lemma IncreaseExact<N>(s: Net<N>, n: N, now: real)
    requires Valid(s, now) && n in s.info
    ensures var t := IncreaseBackoff(s, n, now);
            && n !in t.healthy && InOrder(t.healthy, s.healthy)
            && t.unhealthyCount == s.unhealthyCount + (if n in s.healthy then 1 else 0)
            && t.nodes == s.nodes && t.index == s.index && t.info.Keys == s.info.Keys
            && (forall m | m in s.info && m != n :: t.info[m] == s.info[m])
            && t.info[n].currentBackoff <= s.info[n].maxBackoff
            && t.info[n].currentBackoff <= 2.0 * s.info[n].currentBackoff
            && (t.info[n].currentBackoff == s.info[n].maxBackoff
                || t.info[n].currentBackoff == 2.0 * s.info[n].currentBackoff)
            && t.info[n].readmitTime == now + t.info[n].currentBackoff
  {
    WithoutInOrder(s.healthy, n);
    WithoutDistinct(s.healthy, n);
    WithoutMember(s.healthy, n, n);
  }

  /** A reply changes only the node's backoff: half of it, or the minimum when that is more. */
  lemma DecreaseExact<N>(s: Net<N>, n: N)
    requires n in s.info
    ensures var t := DecreaseBackoff(s, n);
            && t == s.(info := t.info) && t.info.Keys == s.info.Keys
            && (forall m | m in s.info && m != n :: t.info[m] == s.info[m])
            && t.info[n] == s.info[n].(currentBackoff := t.info[n].currentBackoff)
            && t.info[n].currentBackoff >= s.info[n].minBackoff
            && 2.0 * t.info[n].currentBackoff >= s.info[n].currentBackoff
            && (t.info[n].currentBackoff == s.info[n].minBackoff
                || 2.0 * t.info[n].currentBackoff == s.info[n].currentBackoff)
  {
  }

  lemma DecreaseValid<N>(s: Net<N>, n: N, now: real)
    requires Valid(s, now)
    ensures Valid(DecreaseBackoff(s, n), now)
  {
  }
}
