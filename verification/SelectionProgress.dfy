/** Exactly when choosing healthy nodes can always go on. */
module SelectionProgress {
  import opened Sequences
  import opened Backoffs
  import opened NetworkState
  import opened NodeSelection

  // ----- the nodes that can be left over

  ghost predicate AllKnown<N>(info: map<N, NodeState>, list: seq<N>)
  {
    forall n | n in list :: n in info
  }

  /** The node shares its key with another of the list and its host with another. */
  ghost predicate Tangled<N>(info: map<N, NodeState>, list: seq<N>, c: N)
    requires AllKnown(info, list) && c in info
  {
    && (exists a :: a in list && a != c && info[a].key == info[c].key)
    && (exists b :: b in list && b != c && info[b].endpoint.host == info[c].endpoint.host)
  }

  ghost predicate Untangled<N>(info: map<N, NodeState>, list: seq<N>)
    requires AllKnown(info, list)
  {
    forall c | c in list :: !Tangled(info, list, c)
  }

  /** A selection that accepted draws from the list can build. */
  ghost predicate Grown<N>(info: map<N, NodeState>, list: seq<N>, selected: seq<N>)
    requires AllKnown(info, list)
  {
    selected != [] ==>
      var init, last := selected[..|selected| - 1], selected[|selected| - 1];
      Grown(info, list, init) && last in list && AllKnown(info, init) && Acceptable(info, init, last)
  }

  lemma {:induction false} GrownWithin<N>(info: map<N, NodeState>, list: seq<N>, selected: seq<N>)
    requires AllKnown(info, list) && Grown(info, list, selected)
    ensures Subseq(selected, list) && Distinct(selected) && AllKnown(info, selected)
  {
    if selected != [] {
      GrownWithin(info, list, selected[..|selected| - 1]);
    }
  }

  lemma GrownMore<N>(info: map<N, NodeState>, list: seq<N>, selected: seq<N>, n: N)
    requires AllKnown(info, list) && Grown(info, list, selected) && n in list
    ensures AllKnown(info, selected)
    ensures Acceptable(info, selected, n) ==> Grown(info, list, selected + [n])
  {
    GrownWithin(info, list, selected);
    assert (selected + [n])[..|selected|] == selected;
  }

  lemma GrownShort<N>(info: map<N, NodeState>, list: seq<N>, selected: seq<N>)
    requires AllKnown(info, list) && Distinct(list) && Grown(info, list, selected)
    ensures |selected| <= |list|
    ensures |selected| == |list| ==> Subseq(list, selected)
  {
    GrownWithin(info, list, selected);
    DistinctWithin(selected, list);
  }

  /** A node refused once is refused for good. */
  lemma RefusedStays<N>(info: map<N, NodeState>, selected: seq<N>, n: N, c: N)
    requires AllKnown(info, selected) && n in info && c in info && !Acceptable(info, selected, c)
    ensures !Acceptable(info, selected + [n], c)
  {
    var more := selected + [n];
    assert forall m | m in selected :: m in more;
  }

  /** Without tangled nodes an unfinished selection can grow. */
  lemma UntangledGrows<N>(info: map<N, NodeState>, list: seq<N>, selected: seq<N>)
    requires AllKnown(info, list) && Distinct(list) && Untangled(info, list)
    requires Grown(info, list, selected) && |selected| < |list|
    ensures AllKnown(info, selected) && CanGrow(info, list, selected)
  {
    GrownWithin(info, list, selected);
    var c := Outside(selected, list);
    assert !Tangled(info, list, c);
    assert Acceptable(info, selected, c);
  }

  /** A tangled node is refused once the nodes it shares its key and its host with are taken. */
  lemma TangledRefused<N>(info: map<N, NodeState>, list: seq<N>, c: N) returns (selected: seq<N>)
    requires AllKnown(info, list) && c in list && Tangled(info, list, c)
    ensures Grown(info, list, selected) && selected != [] && c !in selected
    ensures AllKnown(info, selected) && !Acceptable(info, selected, c)
  {
    var a :| a in list && a != c && info[a].key == info[c].key;
    var b :| b in list && b != c && info[b].endpoint.host == info[c].endpoint.host;
    selected := [a];
    assert selected[..0] == [];
    assert Grown(info, list, selected);
    if Acceptable(info, selected, b) {
      GrownMore(info, list, selected, b);
      selected := selected + [b];
      assert selected[0] == a && selected[1] == b;
    }
    assert a in selected;
  }

  /** A selection that refuses a node grows as far as it can and never takes it. */
  lemma {:induction false} RefusingGrows<N>(info: map<N, NodeState>, list: seq<N>, selected: seq<N>, c: N)
    returns (full: seq<N>)
    requires AllKnown(info, list) && Distinct(list) && c in list && c !in selected
    requires Grown(info, list, selected) && AllKnown(info, selected) && !Acceptable(info, selected, c)
    ensures selected <= full && |full| < |list| && Grown(info, list, full) && AllKnown(info, full)
    ensures !CanGrow(info, list, full)
    decreases |list| - |selected|
  {
    GrownShort(info, list, selected);
    if CanGrow(info, list, selected) {
      var n :| n in list && Acceptable(info, selected, n);
      GrownMore(info, list, selected, n);
      RefusedStays(info, selected, n, c);
      full := RefusingGrows(info, list, selected + [n], c);
    } else {
      full := selected;
    }
  }

  /**
   Every selection that accepted draws can build grows until all nodes are taken, exactly when no node
   shares its key with another node and its host with another.
   */
  lemma AlwaysGrowsIff<N(!new)>(info: map<N, NodeState>, list: seq<N>)
    requires AllKnown(info, list) && Distinct(list)
    ensures Untangled(info, list) <==>
            forall selected | Grown(info, list, selected) && AllKnown(info, selected) && |selected| < |list| ::
              CanGrow(info, list, selected)
  {
    if Untangled(info, list) {
      forall selected | Grown(info, list, selected) && AllKnown(info, selected) && |selected| < |list|
        ensures CanGrow(info, list, selected)
      {
        UntangledGrows(info, list, selected);
      }
    } else {
      var c :| c in list && Tangled(info, list, c);
      var selected := TangledRefused(info, list, c);
      var full := RefusingGrows(info, list, selected, c);
    }
  }

  /** A selection grows until no node is acceptable. */
  lemma {:induction false} GrowsFully<N>(info: map<N, NodeState>, list: seq<N>, selected: seq<N>) returns (full: seq<N>)
    requires AllKnown(info, list) && Distinct(list) && Grown(info, list, selected) && AllKnown(info, selected)
    ensures selected <= full && Grown(info, list, full) && AllKnown(info, full) && !CanGrow(info, list, full)
    decreases |list| - |selected|
  {
    if CanGrow(info, list, selected) {
      var n :| n in list && Acceptable(info, selected, n);
      var more := GrownBy(info, list, selected, n);
      full := GrowsFully(info, list, more);
    } else {
      full := selected;
    }
  }

  lemma GrownBy<N>(info: map<N, NodeState>, list: seq<N>, selected: seq<N>, n: N) returns (more: seq<N>)
    requires AllKnown(info, list) && Distinct(list) && Grown(info, list, selected) && AllKnown(info, selected)
    requires n in list && Acceptable(info, selected, n)
    ensures more == selected + [n] && Grown(info, list, more) && AllKnown(info, more) && |more| <= |list|
  {
    more := selected + [n];
    GrownMore(info, list, selected, n);
    GrownShort(info, list, more);
  }

  lemma {:induction false} GrownFromMore<N>(info: map<N, NodeState>, list: seq<N>, other: seq<N>, selected: seq<N>)
    requires AllKnown(info, list) && AllKnown(info, other) && Subseq(list, other) && Grown(info, list, selected)
    ensures Grown(info, other, selected)
  {
    if selected != [] {
      GrownFromMore(info, list, other, selected[..|selected| - 1]);
    }
  }

  /** A selection without repetition that no node of the list has a key or a host to add to. */
  ghost predicate Covers<N>(info: map<N, NodeState>, list: seq<N>, selected: seq<N>)
    requires AllKnown(info, list)
  {
    Distinct(selected) && Subseq(selected, list) && AllKnown(info, selected) && !CanGrow(info, list, selected)
  }

  lemma RefusedThrough<N>(info: map<N, NodeState>, selected: seq<N>, full: seq<N>, n: N)
    requires AllKnown(info, selected) && AllKnown(info, full) && n in info
    requires !Acceptable(info, selected, n) && !CanGrow(info, selected, full)
    ensures !Acceptable(info, full, n)
  {
    var k :| k in selected && info[k].key == info[n].key;
    assert !Acceptable(info, full, k);
    var h :| h in selected && info[h].endpoint.host == info[n].endpoint.host;
    assert !Acceptable(info, full, h);
  }

  /** What covers the list holds a selection that accepted draws build and that covers it, too. */
  lemma CoverShrinks<N>(info: map<N, NodeState>, list: seq<N>, selected: seq<N>) returns (full: seq<N>)
    requires AllKnown(info, list) && Covers(info, list, selected)
    ensures Grown(info, list, full) && AllKnown(info, full) && |full| <= |selected| && !CanGrow(info, list, full)
  {
    full := GrowsFully(info, selected, []);
    CoveredShort(info, list, selected, full);
    CoversThrough(info, list, selected, full);
  }

  lemma CoversThrough<N>(info: map<N, NodeState>, list: seq<N>, selected: seq<N>, full: seq<N>)
    requires AllKnown(info, list) && AllKnown(info, selected) && AllKnown(info, full)
    requires !CanGrow(info, list, selected) && !CanGrow(info, selected, full)
    ensures !CanGrow(info, list, full)
  {
    forall n | n in list ensures !Acceptable(info, full, n) {
      RefusedThrough(info, selected, full, n);
    }
  }

  lemma CoveredShort<N>(info: map<N, NodeState>, list: seq<N>, selected: seq<N>, full: seq<N>)
    requires AllKnown(info, list) && AllKnown(info, selected) && Distinct(selected) && Subseq(selected, list)
    requires Grown(info, selected, full)
    ensures Grown(info, list, full) && |full| <= |selected|
  {
    GrownShort(info, selected, full);
    GrownFromMore(info, selected, list, full);
  }

  // ----- the nodes there are to choose from

  /** The healthy nodes and those that can still be readmitted. */
  function Pool<N(==)>(s: Net<N>): seq<N>
  {
    s.healthy + NotHealthy(s, s.nodes)
  }

  function NotHealthy<N(==)>(s: Net<N>, nodes: seq<N>): seq<N>
  {
    if nodes == [] then []
    else
      var n := nodes[|nodes| - 1];
      NotHealthy(s, nodes[..|nodes| - 1]) + if n in s.healthy then [] else [n]
  }

  lemma {:induction false} NotHealthyMembers<N>(s: Net<N>, nodes: seq<N>)
    requires Distinct(nodes)
    ensures forall n | n in NotHealthy(s, nodes) :: n in nodes && n !in s.healthy
    ensures forall n | n in nodes && n !in s.healthy :: n in NotHealthy(s, nodes)
    ensures Distinct(NotHealthy(s, nodes))
  {
    if nodes != [] {
      var init, last := nodes[..|nodes| - 1], nodes[|nodes| - 1];
      NotHealthyMembers(s, init);
      assert nodes == init + [last] && last !in init;
    }
  }

  lemma PoolMembers<N>(s: Net<N>, now: real)
    requires Valid(s, now)
    ensures Distinct(Pool(s)) && AllKnown(s.info, Pool(s)) && Subseq(s.healthy, Pool(s)) && Subseq(s.nodes, Pool(s))
    ensures forall n | n in Pool(s) :: n in s.healthy || n in s.nodes
  {
    NotHealthyMembers(s, s.nodes);
    ConcatDistinct(s.healthy, NotHealthy(s, s.nodes));
  }

  lemma {:induction false} GrownAt<N>(info: map<N, NodeState>, list: seq<N>, target: seq<N>, k: nat)
    requires AllKnown(info, list) && Grown(info, list, target) && k < |target|
    ensures Grown(info, list, target[..k]) && target[k] in list
    ensures AllKnown(info, target[..k]) && Acceptable(info, target[..k], target[k])
  {
    var init := target[..|target| - 1];
    if k < |target| - 1 {
      GrownAt(info, list, init, k);
      assert init[..k] == target[..k];
    }
  }
}
