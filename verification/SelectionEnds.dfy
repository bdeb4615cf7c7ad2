/** Exactly when the loop that chooses several healthy nodes can always end. */
module SelectionEnds {
  import opened Sequences
  import opened Backoffs
  import opened NetworkState
  import opened NodeSelection
  import opened SelectionProgress

  ghost function EndOf(now: real, calls: seq<Call>): real
  {
    if calls == [] then now else calls[|calls| - 1].time
  }

  /** What the loop keeps: every selection on the way is one that accepted draws build. */
  ghost predicate OnTheWay<N>(s: Net<N>, now: real, selected: seq<N>, list: seq<N>)
  {
    && Valid(s, now) && Subseq(selected, s.healthy) && Distinct(list) && AllKnown(s.info, list)
    && Subseq(s.healthy, list) && Subseq(s.nodes, list) && Grown(s.info, list, selected)
  }

  lemma StepOnTheWay<N>(s: Net<N>, now: real, selected: seq<N>, list: seq<N>, c: Call)
    requires OnTheWay(s, now, selected, list) && now <= c.time && 0.0 <= c.draw.random < 1.0
    requires |selected| < |s.healthy|
    ensures var t := Readmit(s, c.time);
            && t.healthy != [] && AllKnown(t.info, t.healthy) && AllKnown(t.info, selected)
            && OnTheWay(t, c.time, Taken(t, selected, c.draw), list)
            && t.nodes == s.nodes && t.info == s.info && t.index == s.index
  {
    TakenSound(s, now, selected, c);
    ValidLater(s, now, c.time);
    ReadmitExact(s, c.time);
    var t := Readmit(s, c.time);
    var n := t.healthy[Pick(c.draw.random, |t.healthy|)];
    assert n in t.healthy;
    GrownMore(s.info, list, selected, n);
  }

  lemma SelectMoreNext<N>(s: Net<N>, now: real, count: int, selected: seq<N>, list: seq<N>, calls: seq<Call>)
    requires OnTheWay(s, now, selected, list) && CallsFit(s.index, calls, now)
    requires calls != [] && !Complete(s, count, selected)
    ensures var t := Readmit(s, calls[0].time);
            && t.healthy != [] && AllKnown(t.info, t.healthy) && AllKnown(t.info, selected)
            && OnTheWay(t, calls[0].time, Taken(t, selected, calls[0].draw), list)
            && t.nodes == s.nodes && t.info == s.info && t.index == s.index
            && CallsFit(t.index, calls[1..], calls[0].time) && EndOf(now, calls) == EndOf(calls[0].time, calls[1..])
            && SelectMore(s, now, count, selected, calls) ==
               SelectMore(t, calls[0].time, count, Taken(t, selected, calls[0].draw), calls[1..])
  {
    StepOnTheWay(s, now, selected, list, calls[0]);
    assert calls[1..] != [] ==> calls[1..][|calls| - 2] == calls[|calls| - 1];
  }

  /** Calls can be made one after the other. */
  lemma {:induction false} SelectMoreAppend<N>(s: Net<N>, now: real, count: int, selected: seq<N>, list: seq<N>,
          calls: seq<Call>, more: seq<Call>)
    requires OnTheWay(s, now, selected, list) && CallsFit(s.index, calls + more, now)
    ensures CallsFit(s.index, calls, now)
    ensures var r := SelectMore(s, now, count, selected, calls);
            && (r.finished ==> SelectMore(s, now, count, selected, calls + more) == r)
            && (!r.finished ==>
                  && !Complete(r.net, count, r.selected) && OnTheWay(r.net, EndOf(now, calls), r.selected, list)
                  && r.net.nodes == s.nodes && r.net.info == s.info && r.net.index == s.index
                  && CallsFit(s.index, more, EndOf(now, calls))
                  && SelectMore(s, now, count, selected, calls + more) ==
                     SelectMore(r.net, EndOf(now, calls), count, r.selected, more))
    decreases |calls|
  {
    if calls == [] {
      assert calls + more == more;
    } else {
      assert (calls + more)[0] == calls[0] && (calls + more)[1..] == calls[1..] + more;
      FitPrefix(s.index, calls, more, now);
      if !Complete(s, count, selected) {
        SelectMoreNext(s, now, count, selected, list, calls);
        SelectMoreNext(s, now, count, selected, list, calls + more);
        var t := Readmit(s, calls[0].time);
        SelectMoreAppend(t, calls[0].time, count, Taken(t, selected, calls[0].draw), list, calls[1..], more);
      }
    }
  }

  lemma {:induction false} FitPrefix<N>(index: map<string, seq<N>>, calls: seq<Call>, more: seq<Call>, now: real)
    requires CallsFit(index, calls + more, now)
    ensures CallsFit(index, calls, now)
    decreases |calls|
  {
    if calls != [] {
      assert (calls + more)[0] == calls[0] && (calls + more)[1..] == calls[1..] + more;
      FitPrefix(index, calls[1..], more, calls[0].time);
    }
  }

  lemma {:induction false} FitConcat<N>(index: map<string, seq<N>>, calls: seq<Call>, more: seq<Call>, now: real)
    requires CallsFit(index, calls, now) && CallsFit(index, more, EndOf(now, calls))
    ensures CallsFit(index, calls + more, now)
    decreases |calls|
  {
    if calls == [] {
      assert calls + more == more;
    } else {
      assert (calls + more)[0] == calls[0] && (calls + more)[1..] == calls[1..] + more;
      FitConcat(index, calls[1..], more, calls[0].time);
    }
  }

  lemma Prepended<N>(s: Net<N>, now: real, count: int, selected: seq<N>, list: seq<N>, c: Call, rest: seq<Call>)
    requires OnTheWay(s, now, selected, list) && !Complete(s, count, selected)
    requires now <= c.time && ValidDraw(s, c.draw) && CallsFit(s.index, rest, c.time)
    ensures CallsFit(s.index, [c] + rest, now) && EndOf(now, [c] + rest) == EndOf(c.time, rest)
    ensures var t := Readmit(s, c.time);
            && t.healthy != [] && AllKnown(t.info, t.healthy) && AllKnown(t.info, selected)
            && OnTheWay(t, c.time, Taken(t, selected, c.draw), list) && t.index == s.index
            && SelectMore(s, now, count, selected, [c] + rest) ==
               SelectMore(t, c.time, count, Taken(t, selected, c.draw), rest)
  {
    StepOnTheWay(s, now, selected, list, c);
    assert ([c] + rest)[0] == c && ([c] + rest)[1..] == rest;
  }

  // ----- calls that build a selection

  /** A call at the given time that draws the given node. */
  lemma CallFor<N>(s: Net<N>, time: real, selected: seq<N>, n: N) returns (c: Call)
    requires s.healthy != [] && n in s.healthy && AllKnown(s.info, s.healthy) && AllKnown(s.info, selected)
    ensures c.time == time && ValidDraw(s, c.draw)
    ensures Taken(s, selected, c.draw) == if Acceptable(s.info, selected, n) then selected + [n] else selected
  {
    var i :| 0 <= i < |s.healthy| && s.healthy[i] == n;
    var random := PickReaches(i, |s.healthy|);
    var key := "";
    if s.index != map[] {
      key :| key in s.index;
    }
    c := Call(time, Draw(random, key));
  }

  /** A call at the given time that draws a node already taken. */
  lemma WaitingCall<N>(s: Net<N>, now: real, time: real, selected: seq<N>, list: seq<N>) returns (c: Call)
    requires OnTheWay(s, now, selected, list) && now <= time && selected != []
    ensures c.time == time && ValidDraw(s, c.draw)
    ensures var t := Readmit(s, time);
            && t.healthy != [] && AllKnown(t.info, t.healthy) && AllKnown(t.info, selected)
            && Taken(t, selected, c.draw) == selected
  {
    ValidLater(s, now, time);
    ReadmitExact(s, time);
    assert selected[0] in selected;
    c := CallFor(Readmit(s, time), time, selected, selected[0]);
  }

  /** At this time all nodes are back in the healthy list. */
  ghost predicate Ripe<N>(s: Net<N>, time: real)
    requires forall n | n in s.nodes :: n in s.info
  {
    Subseq(s.nodes, Readmit(s, time).healthy)
  }

  lemma {:induction false} LatestOf<N>(s: Net<N>, nodes: seq<N>, now: real) returns (time: real)
    requires forall n | n in nodes :: n in s.info
    ensures time >= now && forall n | n in nodes :: Ready(s, n, time)
  {
    time := now;
    if nodes != [] {
      assert nodes == nodes[..|nodes| - 1] + [nodes[|nodes| - 1]];
      time := LatestOf(s, nodes[..|nodes| - 1], now);
      time := MaxReal(time, s.info[nodes[|nodes| - 1]].readmitTime);
    }
  }

  lemma RipeTime<N>(s: Net<N>, now: real) returns (time: real)
    requires Valid(s, now)
    ensures time >= now && Ripe(s, time)
  {
    time := LatestOf(s, s.nodes, MaxReal(now, s.earliestReadmitTime));
    ValidLater(s, now, time);
    ReadmitExact(s, time);
  }

  /** The number of nodes at which the loop stops before it has taken all. */
  function Stop<N>(s: Net<N>, count: int): int
  {
    count - s.unhealthyCount
  }

  /** A call that draws the next node of the target. */
  lemma FirstBuilt<N>(s: Net<N>, now: real, time: real, selected: seq<N>, list: seq<N>, target: seq<N>)
    returns (c: Call)
    requires OnTheWay(s, now, selected, list) && |selected| < |s.healthy| && now <= time
    requires AllKnown(s.info, Readmit(s, time).healthy) && Grown(s.info, Readmit(s, time).healthy, target)
    requires selected <= target && |selected| < |target|
    ensures c.time == time && ValidDraw(s, c.draw)
    ensures var t, next := Readmit(s, time), target[..|selected| + 1];
            && t.healthy != [] && AllKnown(t.info, selected) && Taken(t, selected, c.draw) == next
            && OnTheWay(t, time, next, list) && t.nodes == s.nodes && t.info == s.info && t.index == s.index
  {
    var t, n := Readmit(s, time), target[|selected|];
    assert target[..|selected|] == selected && target[..|selected| + 1] == selected + [n];
    GrownAt(s.info, t.healthy, target, |selected|);
    c := CallFor(t, time, selected, n);
    StepOnTheWay(s, now, selected, list, c);
  }

  /** From a ripe time on, calls that build the target, node by node. */
  lemma {:induction false} Built<N>(s: Net<N>, now: real, time: real, count: int, selected: seq<N>, list: seq<N>,
          target: seq<N>)
    returns (calls: seq<Call>)
    requires OnTheWay(s, now, selected, list) && !Complete(s, count, selected) && now <= time && Ripe(s, time)
    requires AllKnown(s.info, Readmit(s, time).healthy) && Grown(s.info, Readmit(s, time).healthy, target)
    requires selected <= target && |selected| < |target|
    requires !(|selected| < Stop(Readmit(s, time), count) < |target|)
    ensures CallsFit(s.index, calls, now) && EndOf(now, calls) == time
    ensures var r := SelectMore(s, now, count, selected, calls);
            && r.selected == target && r.net.healthy == Readmit(s, time).healthy
            && r.net.unhealthyCount == Readmit(s, time).unhealthyCount
            && r.net.nodes == s.nodes && r.net.info == s.info
            && (r.finished <==> Complete(r.net, count, target))
    decreases |target| - |selected|
  {
    var t := Readmit(s, time);
    var c := FirstBuilt(s, now, time, selected, list, target);
    var next := target[..|selected| + 1];
    var rest := [];
    if |selected| + 1 == |target| {
      assert next == target;
    } else {
      GrownShort(s.info, t.healthy, target);
      NothingLeft(t, time);
      rest := Built(t, time, time, count, next, list, target);
    }
    Prepended(s, now, count, selected, list, c, rest);
    calls := [c] + rest;
  }

  // ----- what the loop can still do to the healthy list

  /** `t` is `s` some readmissions later, the last of them at time `at`. */
  ghost predicate Follows<N>(s: Net<N>, t: Net<N>, at: real)
  {
    && t.nodes == s.nodes && t.info == s.info && t.index == s.index && t.maxReadmitPeriod == s.maxReadmitPeriod
    && |t.healthy| + t.unhealthyCount == |s.healthy| + s.unhealthyCount
    && Subseq(s.healthy, t.healthy) && (forall n | n in t.healthy :: n in s.healthy || n in s.nodes)
    && (t == s || (Primed(t) && s.earliestReadmitTime <= at))
  }

  lemma FollowsReadmit<N>(s: Net<N>, t: Net<N>, at: real, now: real)
    requires Valid(t, now) && Follows(s, t, at) && at <= now
    ensures Follows(s, Readmit(t, now), now)
  {
    ReadmitExact(t, now);
  }

  /**
   The healthy nodes of every later time are known: nothing is left to readmit, or every pass from the
   next one on fires, as the clock reads more than the longest period.
   */
  ghost predicate Foreseen<N>(s: Net<N>, now: real)
  {
    Subseq(s.nodes, s.healthy) || now >= s.maxReadmitPeriod
  }

  lemma SameHealthy<N>(s: Net<N>, now: real, t: Net<N>, at: real, time: real)
    requires Valid(s, now) && Valid(t, time) && Follows(s, t, at) && Foreseen(s, now) && now <= time && at <= time
    ensures var a, b := Readmit(s, time), Readmit(t, time);
            && Subseq(a.healthy, b.healthy) && Subseq(b.healthy, a.healthy)
            && |a.healthy| == |b.healthy| && a.unhealthyCount == b.unhealthyCount
  {
    ValidLater(s, now, time);
    ReadmitExact(s, time);
    ReadmitExact(t, time);
    DistinctWithin(Readmit(s, time).healthy, Readmit(t, time).healthy);
    DistinctWithin(Readmit(t, time).healthy, Readmit(s, time).healthy);
  }

  /** At this time the selection can be drawn, and leaves the loop with the number it stops at behind it. */
  ghost predicate Missed<N>(s: Net<N>, count: int, selected: seq<N>, time: real)
    requires forall n | n in s.nodes :: n in s.info
  {
    var t := Readmit(s, time);
    Subseq(selected, t.healthy) && Stop(t, count) < |selected| < |t.healthy|
  }

  ghost predicate CanBeMissed<N>(s: Net<N>, now: real, count: int, selected: seq<N>)
    requires forall n | n in s.nodes :: n in s.info
  {
    exists time: real :: now <= time && Missed(s, count, selected, time)
  }

  /** Drawn in time, each node of the selection leaves the stopping number behind. */
  ghost predicate Overshoots<N>(s: Net<N>, now: real, count: int, selected: seq<N>)
    requires forall n | n in s.nodes :: n in s.info
  {
    forall i | 1 <= i <= |selected| :: CanBeMissed(s, now, count, selected[..i])
  }

  /** Where the loop stands: nothing taken, still short of the stopping number, or past it. */
  ghost predicate Open<N>(s: Net<N>, now: real, count: int, t: Net<N>, selected: seq<N>)
    requires forall n | n in s.nodes :: n in s.info
  {
    selected == [] || |selected| < Stop(t, count) || Overshoots(s, now, count, selected)
  }

  ghost predicate Decided<N>(s: Net<N>, now: real, count: int)
  {
    Foreseen(s, now) || count > s.unhealthyCount
  }

  /** The count of unhealthy nodes only goes down while the loop runs. */
  lemma StopGrows<N>(s: Net<N>, now: real, count: int, time: real)
    requires Valid(s, now) && now <= time
    ensures Stop(Readmit(s, time), count) >= Stop(s, count)
    ensures Subseq(s.nodes, s.healthy) ==> Stop(Readmit(s, time), count) == Stop(s, count)
  {
    ValidLater(s, now, time);
    ReadmitExact(s, time);
    DistinctWithin(s.healthy, Readmit(s, time).healthy);
    if Subseq(s.nodes, s.healthy) {
      NothingLeft(s, time);
    }
  }

  lemma NoOvershoot<N>(s: Net<N>, now: real, count: int, selected: seq<N>)
    requires Valid(s, now) && selected != [] && Overshoots(s, now, count, selected)
    ensures Stop(s, count) < 1
  {
    assert CanBeMissed(s, now, count, selected[..1]);
    var time: real :| now <= time && Missed(s, count, selected[..1], time);
    StopGrows(s, now, count, time);
  }

  /** One more node past the stopping number. */
  lemma OvershootsMore<N>(s: Net<N>, now: real, count: int, selected: seq<N>, n: N)
    requires forall m | m in s.nodes :: m in s.info
    requires Overshoots(s, now, count, selected) && CanBeMissed(s, now, count, selected + [n])
    ensures Overshoots(s, now, count, selected + [n])
  {
    var more := selected + [n];
    forall i | 1 <= i <= |more| ensures CanBeMissed(s, now, count, more[..i]) {
      if i == |more| {
        assert more[..i] == more;
      } else {
        assert more[..i] == selected[..i];
      }
    }
  }

  lemma OpenStep<N>(s: Net<N>, now: real, count: int, t: Net<N>, at: real, selected: seq<N>, list: seq<N>, c: Call)
    requires Valid(s, now) && Decided(s, now, count) && Follows(s, t, at) && Open(s, now, count, t, selected)
    requires OnTheWay(t, at, selected, list) && !Complete(t, count, selected)
    requires now <= at <= c.time && 0.0 <= c.draw.random < 1.0
    ensures var u := Readmit(t, c.time);
            && u.healthy != [] && AllKnown(u.info, u.healthy) && AllKnown(u.info, selected)
            && Follows(s, u, c.time)
            && (Complete(u, count, Taken(u, selected, c.draw)) || Open(s, now, count, u, Taken(u, selected, c.draw)))
  {
    StepOnTheWay(t, at, selected, list, c);
    ValidLater(t, at, c.time);
    FollowsReadmit(s, t, at, c.time);
    StopGrows(t, at, count, c.time);
    var u := Readmit(t, c.time);
    var taken := Taken(u, selected, c.draw);
    if !Complete(u, count, taken) {
      OpenTaken(s, now, count, t, at, c.time, selected, taken);
    }
  }

  lemma OpenTaken<N>(s: Net<N>, now: real, count: int, t: Net<N>, at: real, time: real, selected: seq<N>, taken: seq<N>)
    requires Valid(s, now) && Decided(s, now, count) && Follows(s, t, at) && Valid(t, time) && now <= at <= time
    requires Open(s, now, count, t, selected) && Stop(Readmit(t, time), count) >= Stop(t, count)
    requires taken == selected || (|taken| == |selected| + 1 && selected == taken[..|selected|])
    requires !Complete(Readmit(t, time), count, taken) && Subseq(taken, Readmit(t, time).healthy)
    ensures Open(s, now, count, Readmit(t, time), taken)
  {
    if taken != selected && |taken| > Stop(Readmit(t, time), count) {
      PastStop(s, now, count, t, at, time, selected, taken);
    }
  }

  lemma PastStop<N>(s: Net<N>, now: real, count: int, t: Net<N>, at: real, time: real, selected: seq<N>, taken: seq<N>)
    requires Valid(s, now) && Decided(s, now, count) && Follows(s, t, at) && Valid(t, time) && now <= time && at <= time
    requires selected == [] || Overshoots(s, now, count, selected)
    requires |taken| == |selected| + 1 && selected == taken[..|selected|]
    requires Missed(t, count, taken, time)
    ensures Overshoots(s, now, count, taken)
  {
    StopOf(s, now, count, t, at, time);
    if selected != [] {
      NoOvershoot(s, now, count, selected);
    }
    assert Foreseen(s, now);
    SameHealthy(s, now, t, at, time);
    assert Missed(s, count, taken, time);
    assert taken == selected + [taken[|selected|]];
    OvershootsMore(s, now, count, selected, taken[|selected|]);
  }

  lemma StopOf<N>(s: Net<N>, now: real, count: int, t: Net<N>, at: real, time: real)
    requires Valid(s, now) && Follows(s, t, at) && Valid(t, time) && now <= time
    ensures Stop(s, count) <= Stop(t, count) <= Stop(Readmit(t, time), count)
  {
    DistinctWithin(s.healthy, t.healthy);
    StopGrows(t, time, count, time);
  }

  /** The loop has ended, or it stands somewhere it can have come to. */
  ghost predicate Standing<N>(s: Net<N>, now: real, count: int, list: seq<N>, r: Selection<N>, at: real)
    requires forall n | n in s.nodes :: n in s.info
  {
    !r.finished ==>
      && Follows(s, r.net, at) && Open(s, now, count, r.net, r.selected)
      && !Complete(r.net, count, r.selected) && OnTheWay(r.net, at, r.selected, list)
  }

  lemma SelectNone<N>(s: Net<N>, now: real, count: int, selected: seq<N>, calls: seq<Call>)
    requires Valid(s, now) && Subseq(selected, s.healthy) && CallsFit(s.index, calls, now)
    requires Complete(s, count, selected) || calls == []
    ensures SelectMore(s, now, count, selected, calls) == Selection(s, selected, Complete(s, count, selected))
  {
  }

  lemma {:induction false} OpenRun<N>(s: Net<N>, now: real, count: int, t: Net<N>, at: real, selected: seq<N>,
          list: seq<N>, calls: seq<Call>)
    requires Valid(s, now) && Decided(s, now, count) && Follows(s, t, at) && Open(s, now, count, t, selected)
    requires OnTheWay(t, at, selected, list) && now <= at && CallsFit(t.index, calls, at)
    ensures Standing(s, now, count, list, SelectMore(t, at, count, selected, calls), EndOf(at, calls))
    ensures now <= EndOf(at, calls)
    decreases |calls|
  {
    TimesRise(t.index, calls, at);
    if calls == [] || Complete(t, count, selected) {
      SelectNone(t, at, count, selected, calls);
    } else {
      OpenStep(s, now, count, t, at, selected, list, calls[0]);
      SelectMoreNext(t, at, count, selected, list, calls);
      var u := Readmit(t, calls[0].time);
      var taken := Taken(u, selected, calls[0].draw);
      if Complete(u, count, taken) {
        SelectNone(u, calls[0].time, count, taken, calls[1..]);
      } else {
        OpenRun(s, now, count, u, calls[0].time, taken, list, calls[1..]);
      }
    }
  }

  lemma {:induction false} TimesRise<N>(index: map<string, seq<N>>, calls: seq<Call>, now: real)
    requires CallsFit(index, calls, now)
    ensures now <= EndOf(now, calls)
    decreases |calls|
  {
    if calls != [] {
      TimesRise(index, calls[1..], calls[0].time);
    }
  }

  // ----- the exact condition

  /** The calls, and then some more, end the loop. */
  ghost predicate EndsWith<N>(s: Net<N>, now: real, count: int, calls: seq<Call>, more: seq<Call>)
    requires Valid(s, now)
  {
    CallsFit(s.index, calls + more, now) && SelectMore(s, now, count, [], calls + more).finished
  }

  /** However the loop has gone so far, it can still end. */
  ghost predicate CanEnd<N>(s: Net<N>, now: real, count: int, calls: seq<Call>)
    requires Valid(s, now)
  {
    exists more :: EndsWith(s, now, count, calls, more)
  }

  /** The number the loop stops at once all nodes are back. */
  function LastStop<N(==)>(s: Net<N>, count: int): int
  {
    Stop(s, count) + |Pool(s)| - |s.healthy|
  }

  /**
   A selection that every node not in it is refused by, that is not all nodes, and that the loop
   reaches without being at the number it stops at: short of it, or past it all along.
   */
  ghost predicate Blocks<N>(s: Net<N>, now: real, count: int, selected: seq<N>)
    requires AllKnown(s.info, Pool(s)) && AllKnown(s.info, s.nodes)
  {
    && Grown(s.info, Pool(s), selected) && AllKnown(s.info, selected) && !CanGrow(s.info, Pool(s), selected)
    && |selected| < |Pool(s)|
    && (|selected| < LastStop(s, count)
        || (|selected| > LastStop(s, count) && Overshoots(s, now, count, selected)))
  }

  lemma Starts<N>(s: Net<N>, now: real)
    requires Valid(s, now)
    ensures OnTheWay(s, now, [], Pool(s)) && Follows(s, s, now) && AllKnown(s.info, s.nodes)
    ensures |s.healthy| <= |Pool(s)|
  {
    PoolMembers(s, now);
  }

  /** At a ripe time the healthy list holds the pool. */
  lemma RipeList<N>(s: Net<N>, now: real, t: Net<N>, at: real, time: real, count: int)
    requires Valid(s, now) && Valid(t, at) && Follows(s, t, at) && at <= time && Ripe(t, time)
    ensures var all := Readmit(t, time);
            && Subseq(all.healthy, Pool(s)) && Subseq(Pool(s), all.healthy) && AllKnown(s.info, all.healthy)
            && Distinct(all.healthy) && |all.healthy| == |Pool(s)| && Stop(all, count) == LastStop(s, count)
            && AllKnown(s.info, Pool(s))
  {
    PoolMembers(s, now);
    ValidLater(t, at, time);
    ReadmitExact(t, time);
    var all := Readmit(t, time).healthy;
    DistinctWithin(all, Pool(s));
    DistinctWithin(Pool(s), all);
  }

  /** A selection that can grow to the last stop, or to all nodes, lets the loop end. */
  lemma EndsGrowing<N>(s: Net<N>, now: real, count: int, t: Net<N>, at: real, selected: seq<N>, full: seq<N>)
    returns (more: seq<Call>)
    requires Valid(s, now) && Follows(s, t, at) && OnTheWay(t, at, selected, Pool(s)) && !Complete(t, count, selected)
    requires selected <= full && Grown(s.info, Pool(s), full)
    requires |full| == |Pool(s)| || (1 <= LastStop(s, count) && |selected| <= LastStop(s, count) <= |full|)
    ensures CallsFit(t.index, more, at) && SelectMore(t, at, count, selected, more).finished
  {
    var stop := LastStop(s, count);
    var time := RipeTime(t, at);
    RipeList(s, now, t, at, time, count);
    var all := Readmit(t, time);
    if 1 <= |selected| == stop {
      var c := WaitingCall(t, at, time, selected, Pool(s));
      Prepended(t, at, count, selected, Pool(s), c, []);
      more := [c] + [];
    } else {
      var target := if |selected| < stop < |full| then full[..stop] else full;
      if |selected| < stop < |full| {
        GrownAt(s.info, Pool(s), full, stop);
      }
      GrownFromMore(s.info, Pool(s), all.healthy, target);
      HealthyFewer(s, now, t, at);
      more := Built(t, at, time, count, selected, Pool(s), target);
    }
  }

  lemma HealthyFewer<N>(s: Net<N>, now: real, t: Net<N>, at: real)
    requires Valid(s, now) && Valid(t, at) && Follows(s, t, at)
    ensures |t.healthy| <= |Pool(s)|
  {
    PoolMembers(s, now);
    DistinctWithin(t.healthy, Pool(s));
  }

  /** A selection past the last stop that grows on is past it all along. */
  lemma OvershootsFull<N>(s: Net<N>, now: real, count: int, selected: seq<N>, full: seq<N>)
    requires Valid(s, now) && AllKnown(s.info, Pool(s))
    requires selected <= full && Grown(s.info, Pool(s), full) && |full| < |Pool(s)|
    requires Overshoots(s, now, count, selected) && |selected| >= LastStop(s, count)
    ensures Overshoots(s, now, count, full)
  {
    var time := RipeTime(s, now);
    Starts(s, now);
    RipeList(s, now, s, now, time, count);
    forall i | 1 <= i <= |full| ensures CanBeMissed(s, now, count, full[..i]) {
      if i <= |selected| {
        assert full[..i] == selected[..i];
      } else {
        GrownWithin(s.info, Pool(s), full);
        assert Subseq(full[..i], full);
        assert Missed(s, count, full[..i], time);
      }
    }
  }

  /** When no selection blocks, what is selected so far grows to the last stop or to all nodes. */
  lemma GrowsToEnd<N>(s: Net<N>, now: real, count: int, t: Net<N>, at: real, selected: seq<N>) returns (full: seq<N>)
    requires Valid(s, now) && Follows(s, t, at) && OnTheWay(t, at, selected, Pool(s)) && s.healthy != []
    requires Open(s, now, count, t, selected) && !exists any :: Blocks(s, now, count, any)
    ensures selected <= full && Grown(s.info, Pool(s), full)
    ensures |full| == |Pool(s)| || (1 <= LastStop(s, count) && |selected| <= LastStop(s, count) <= |full|)
  {
    var stop := LastStop(s, count);
    Starts(s, now);
    GrownWithin(s.info, Pool(s), selected);
    full := GrowsFully(s.info, Pool(s), selected);
    GrownShort(s.info, Pool(s), full);
    HealthyFewer(s, now, t, at);
    assert full != [] by {
      assert s.healthy[0] in Pool(s);
    }
    assert !Blocks(s, now, count, full);
    if |full| < |Pool(s)| && |full| != stop && (stop < 1 || |selected| > stop) {
      OvershootsFull(s, now, count, selected, full);
    }
  }

  lemma {:induction false} Continued<N>(s: Net<N>, now: real, count: int, list: seq<N>, calls: seq<Call>,
          more: seq<Call>)
    requires OnTheWay(s, now, [], list) && CallsFit(s.index, calls, now)
    requires var r := SelectMore(s, now, count, [], calls);
             && !r.finished && Valid(r.net, EndOf(now, calls)) && Subseq(r.selected, r.net.healthy)
             && r.net.index == s.index && CallsFit(s.index, more, EndOf(now, calls))
             && SelectMore(r.net, EndOf(now, calls), count, r.selected, more).finished
    ensures CanEnd(s, now, count, calls)
  {
    FitConcat(s.index, calls, more, now);
    SelectMoreAppend(s, now, count, [], list, calls, more);
    assert EndsWith(s, now, count, calls, more);
  }

  lemma FinishedCanEnd<N>(s: Net<N>, now: real, count: int, calls: seq<Call>)
    requires Valid(s, now) && CallsFit(s.index, calls, now) && SelectMore(s, now, count, [], calls).finished
    ensures CanEnd(s, now, count, calls)
  {
    assert calls + [] == calls;
    assert EndsWith(s, now, count, calls, []);
  }

  lemma UnblockedCanEnd<N>(s: Net<N>, now: real, count: int, calls: seq<Call>)
    requires Valid(s, now) && Decided(s, now, count) && CallsFit(s.index, calls, now) && s.healthy != []
    requires AllKnown(s.info, Pool(s)) && AllKnown(s.info, s.nodes) && !exists any :: Blocks(s, now, count, any)
    ensures CanEnd(s, now, count, calls)
  {
    Starts(s, now);
    var r := SelectMore(s, now, count, [], calls);
    if r.finished {
      FinishedCanEnd(s, now, count, calls);
    } else {
      OpenRun(s, now, count, s, now, [], Pool(s), calls);
      var full := GrowsToEnd(s, now, count, r.net, EndOf(now, calls), r.selected);
      var more := EndsGrowing(s, now, count, r.net, EndOf(now, calls), r.selected, full);
      Continued(s, now, count, Pool(s), calls, more);
    }
  }

  // ----- calls that a blocking selection leaves without an end

  lemma {:induction false} NeverEndsAfter<N>(s: Net<N>, now: real, count: int, calls: seq<Call>, full: seq<N>)
    requires Valid(s, now) && CallsFit(s.index, calls, now) && OnTheWay(s, now, [], Pool(s))
    requires AllKnown(s.info, full) && !CanGrow(s.info, Pool(s), full)
    requires var r := SelectMore(s, now, count, [], calls);
             && r.selected == full && !r.finished && Subseq(Pool(s), r.net.healthy) && Subseq(r.net.healthy, Pool(s))
    ensures !CanEnd(s, now, count, calls)
  {
    var r := SelectMore(s, now, count, [], calls);
    forall more ensures !EndsWith(s, now, count, calls, more) {
      if CallsFit(s.index, calls + more, now) {
        SelectMoreAppend(s, now, count, [], Pool(s), calls, more);
        StuckForever(r.net, EndOf(now, calls), count, full, more);
      }
    }
  }

  /** Times in order at which the nodes from place `k` on are drawn, each past the stopping number. */
  ghost predicate Schedule<N>(s: Net<N>, now: real, count: int, target: seq<N>, k: nat, times: seq<real>)
    requires forall n | n in s.nodes :: n in s.info
  {
    && k + |times| == |target|
    && (forall i | 0 <= i < |times| :: now <= times[i] && Missed(s, count, target[..k + i + 1], times[i]))
    && (forall i | 0 <= i < |times| - 1 :: times[i] <= times[i + 1])
  }

  /** What can be drawn past the stopping number with more nodes can be at an earlier time, too. */
  lemma MissedEarlier<N>(s: Net<N>, now: real, count: int, selected: seq<N>, more: seq<N>, early: real, late: real)
    requires Valid(s, now) && Foreseen(s, now) && now <= early <= late
    requires selected <= more && Missed(s, count, more, early) && Missed(s, count, selected, late)
    ensures Missed(s, count, selected, early)
  {
    ValidLater(s, now, early);
    ReadmitExact(s, early);
    FollowsReadmit(s, s, now, early);
    SameHealthy(s, now, Readmit(s, early), early, late);
    StopGrows(Readmit(s, early), early, count, late);
    forall n | n in selected ensures n in more {
    }
  }

  lemma {:induction false} Scheduled<N>(s: Net<N>, now: real, count: int, target: seq<N>, k: nat)
    returns (times: seq<real>)
    requires Valid(s, now) && Foreseen(s, now) && k <= |target| && Overshoots(s, now, count, target)
    ensures Schedule(s, now, count, target, k, times)
    decreases |target| - k
  {
    if k == |target| {
      times := [];
    } else {
      var rest := Scheduled(s, now, count, target, k + 1);
      assert CanBeMissed(s, now, count, target[..k + 1]);
      var time: real :| now <= time && Missed(s, count, target[..k + 1], time);
      if rest != [] && rest[0] < time {
        MissedEarlier(s, now, count, target[..k + 1], target[..k + 2], rest[0], time);
        time := rest[0];
      }
      times := [time] + rest;
    }
  }

  lemma RestScheduled<N>(s: Net<N>, now: real, count: int, target: seq<N>, k: nat, times: seq<real>)
    requires (forall n | n in s.nodes :: n in s.info) && times != []
    requires Schedule(s, now, count, target, k, times)
    ensures Schedule(s, now, count, target, k + 1, times[1..]) && k < |target|
    ensures now <= times[0] && Missed(s, count, target[..k + 1], times[0])
    ensures times[1..] != [] ==> times[0] <= times[1..][0]
  {
    assert Missed(s, count, target[..k + 0 + 1], times[0]);
    forall i | 0 <= i < |times[1..]| ensures Missed(s, count, target[..k + 1 + i + 1], times[1..][i]) {
      assert Missed(s, count, target[..k + (i + 1) + 1], times[i + 1]);
    }
  }

  /** Calls that draw the target as scheduled, without an end. */
  lemma {:induction false} Drawn<N>(s: Net<N>, now: real, count: int, t: Net<N>, at: real, target: seq<N>, k: nat,
          times: seq<real>)
    returns (calls: seq<Call>)
    requires Valid(s, now) && Foreseen(s, now) && Follows(s, t, at) && now <= at && k <= |target|
    requires OnTheWay(t, at, target[..k], Pool(s)) && !Complete(t, count, target[..k])
    requires Grown(s.info, Pool(s), target) && Schedule(s, now, count, target, k, times)
    requires times != [] ==> at <= times[0]
    ensures CallsFit(t.index, calls, at)
    ensures var r := SelectMore(t, at, count, target[..k], calls);
            !r.finished && r.selected == target && Follows(s, r.net, EndOf(at, calls))
            && Valid(r.net, EndOf(at, calls))
    decreases |times|
  {
    if times == [] {
      calls := [];
      assert target[..k] == target;
    } else {
      var time := times[0];
      RestScheduled(s, now, count, target, k, times);
      var c := NextDrawn(s, now, count, t, at, target, k, time);
      var rest := Drawn(s, now, count, Readmit(t, time), time, target, k + 1, times[1..]);
      Prepended(t, at, count, target[..k], Pool(s), c, rest);
      calls := [c] + rest;
    }
  }

  lemma NextDrawn<N>(s: Net<N>, now: real, count: int, t: Net<N>, at: real, target: seq<N>, k: nat, time: real)
    returns (c: Call)
    requires Valid(s, now) && Foreseen(s, now) && Follows(s, t, at) && now <= at <= time && k < |target|
    requires OnTheWay(t, at, target[..k], Pool(s)) && !Complete(t, count, target[..k])
    requires Grown(s.info, Pool(s), target) && Missed(s, count, target[..k + 1], time)
    ensures c.time == time && ValidDraw(t, c.draw)
    ensures var u := Readmit(t, time);
            && u.healthy != [] && AllKnown(u.info, u.healthy) && AllKnown(u.info, target[..k])
            && Taken(u, target[..k], c.draw) == target[..k + 1]
            && Follows(s, u, time) && OnTheWay(u, time, target[..k + 1], Pool(s))
            && !Complete(u, count, target[..k + 1])
  {
    var u := Readmit(t, time);
    ValidLater(t, at, time);
    ReadmitExact(t, time);
    FollowsReadmit(s, t, at, time);
    SameHealthy(s, now, t, at, time);
    GrownAt(s.info, Pool(s), target, k);
    assert target[..k + 1] == target[..k] + [target[k]];
    assert target[..k + 1][k] in target[..k + 1];
    c := CallFor(u, time, target[..k], target[k]);
    StepOnTheWay(t, at, target[..k], Pool(s), c);
  }

  /** A selection short of the last stop, or any when there is none, is built at a ripe time. */
  lemma BuiltCannotEnd<N>(s: Net<N>, now: real, count: int, selected: seq<N>) returns (calls: seq<Call>)
    requires Valid(s, now) && s.healthy != [] && AllKnown(s.info, Pool(s)) && AllKnown(s.info, s.nodes)
    requires Blocks(s, now, count, selected) && !(0 < LastStop(s, count) <= |selected|)
    ensures CallsFit(s.index, calls, now) && !CanEnd(s, now, count, calls)
  {
    Starts(s, now);
    var time := RipeTime(s, now);
    RipeList(s, now, s, now, time, count);
    NotStuckEmpty(s, now, selected);
    GrownFromMore(s.info, Pool(s), Readmit(s, time).healthy, selected);
    calls := Built(s, now, time, count, [], Pool(s), selected);
    NeverEndsAfter(s, now, count, calls, selected);
  }

  lemma NotStuckEmpty<N>(s: Net<N>, now: real, selected: seq<N>)
    requires Valid(s, now) && s.healthy != [] && AllKnown(s.info, Pool(s)) && AllKnown(s.info, selected)
    requires !CanGrow(s.info, Pool(s), selected)
    ensures selected != []
  {
    var none: seq<N> := [];
    assert s.healthy[0] in Pool(s) && Acceptable(s.info, none, s.healthy[0]);
  }

  /** A selection past the last stop is drawn as scheduled; then nothing changes until all nodes are back. */
  lemma {:induction false} ScheduledCannotEnd<N>(s: Net<N>, now: real, count: int, selected: seq<N>)
    returns (calls: seq<Call>)
    requires Valid(s, now) && Foreseen(s, now) && s.healthy != []
    requires AllKnown(s.info, Pool(s)) && AllKnown(s.info, s.nodes)
    requires Blocks(s, now, count, selected) && |selected| > LastStop(s, count)
    ensures CallsFit(s.index, calls, now) && !CanEnd(s, now, count, calls)
  {
    Starts(s, now);
    NotStuckEmpty(s, now, selected);
    var times := Scheduled(s, now, count, selected, 0);
    assert selected[..0] == [];
    var drawn := Drawn(s, now, count, s, now, selected, 0, times);
    calls := WaitedUntilRipe(s, now, count, drawn, selected);
    NeverEndsAfter(s, now, count, calls, selected);
  }

  /** After the calls, one more that draws a node already taken, at a ripe time. */
  lemma {:induction false} WaitedUntilRipe<N>(s: Net<N>, now: real, count: int, drawn: seq<Call>, selected: seq<N>)
    returns (calls: seq<Call>)
    requires Valid(s, now) && OnTheWay(s, now, [], Pool(s)) && CallsFit(s.index, drawn, now) && selected != []
    requires var r := SelectMore(s, now, count, [], drawn);
             !r.finished && r.selected == selected && Follows(s, r.net, EndOf(now, drawn))
             && Valid(r.net, EndOf(now, drawn))
    requires LastStop(s, count) < |selected| < |Pool(s)|
    ensures CallsFit(s.index, calls, now)
    ensures var r := SelectMore(s, now, count, [], calls);
            && r.selected == selected && !r.finished
            && Subseq(Pool(s), r.net.healthy) && Subseq(r.net.healthy, Pool(s))
  {
    var r, at := SelectMore(s, now, count, [], drawn), EndOf(now, drawn);
    assert drawn + [] == drawn;
    SelectMoreAppend(s, now, count, [], Pool(s), drawn, []);
    var time := RipeTime(r.net, at);
    RipeList(s, now, r.net, at, time, count);
    var c := WaitingCall(r.net, at, time, selected, Pool(s));
    Prepended(r.net, at, count, selected, Pool(s), c, []);
    FitConcat(s.index, drawn, [c] + [], now);
    SelectMoreAppend(s, now, count, [], Pool(s), drawn, [c] + []);
    calls := drawn + ([c] + []);
  }

  lemma BlockedCannotEnd<N>(s: Net<N>, now: real, count: int, selected: seq<N>) returns (calls: seq<Call>)
    requires Valid(s, now) && Decided(s, now, count) && s.healthy != []
    requires AllKnown(s.info, Pool(s)) && AllKnown(s.info, s.nodes) && Blocks(s, now, count, selected)
    ensures CallsFit(s.index, calls, now) && !CanEnd(s, now, count, calls)
  {
    if 0 < LastStop(s, count) <= |selected| {
      NotStuckEmpty(s, now, selected);
      NoOvershoot(s, now, count, selected);
      calls := ScheduledCannotEnd(s, now, count, selected);
    } else {
      calls := BuiltCannotEnd(s, now, count, selected);
    }
  }

  /**
   For every count: the loop can always still end, whatever it has drawn, exactly when no node is
   healthy or no selection of the nodes there are blocks it.
   */
  lemma CanAlwaysEndIff<N>(s: Net<N>, now: real, count: int)
    requires Valid(s, now) && Decided(s, now, count)
    ensures AllKnown(s.info, Pool(s)) && AllKnown(s.info, s.nodes)
    ensures (forall calls | CallsFit(s.index, calls, now) :: CanEnd(s, now, count, calls)) <==>
              s.healthy == [] || !exists selected :: Blocks(s, now, count, selected)
  {
    PoolMembers(s, now);
    if s.healthy == [] {
      forall calls | CallsFit(s.index, calls, now) ensures CanEnd(s, now, count, calls) {
        FinishedCanEnd(s, now, count, calls);
      }
    } else if selected :| Blocks(s, now, count, selected) {
      var calls := BlockedCannotEnd(s, now, count, selected);
    } else {
      forall calls | CallsFit(s.index, calls, now) ensures CanEnd(s, now, count, calls) {
        UnblockedCanEnd(s, now, count, calls);
      }
    }
  }

  // ----- when that is

  /**
   With nothing left to readmit, or more nodes asked for than the counter has unhealthy ones, a selection
   blocks when no node can be added to it and it has neither all nodes nor as many as the last stop.
   */
  lemma BlocksIff<N>(s: Net<N>, now: real, count: int, selected: seq<N>)
    requires Valid(s, now) && s.healthy != [] && AllKnown(s.info, Pool(s)) && AllKnown(s.info, s.nodes)
    requires Subseq(s.nodes, s.healthy) || count > s.unhealthyCount
    ensures Blocks(s, now, count, selected) <==>
            && Grown(s.info, Pool(s), selected) && AllKnown(s.info, selected) && !CanGrow(s.info, Pool(s), selected)
            && |selected| < |Pool(s)| && (LastStop(s, count) < 1 || |selected| < LastStop(s, count))
  {
    Starts(s, now);
    AllHealthy(s);
    if LastStop(s, count) < 1 {
      if Grown(s.info, Pool(s), selected) && AllKnown(s.info, selected) && !CanGrow(s.info, Pool(s), selected)
         && |selected| < |Pool(s)| {
        NotStuckEmpty(s, now, selected);
        OvershootsFull(s, now, count, [], selected);
      }
    } else if Blocks(s, now, count, selected) && |selected| > LastStop(s, count) {
      NoOvershoot(s, now, count, selected);
    }
  }

  /**
   With nothing left to readmit, or more nodes asked for than the counter has unhealthy ones: the loop can
   always still end exactly when no selection that is not all nodes, and has fewer than the last stop
   when there is one, holds the key and the host of every node.
   */
  lemma CanAlwaysEndIffUncovered<N>(s: Net<N>, now: real, count: int)
    requires Valid(s, now) && s.healthy != []
    requires Subseq(s.nodes, s.healthy) || count > s.unhealthyCount
    ensures AllKnown(s.info, Pool(s))
    ensures (forall calls | CallsFit(s.index, calls, now) :: CanEnd(s, now, count, calls)) <==>
              !exists selected ::
                && Covers(s.info, Pool(s), selected) && |selected| < |Pool(s)|
                && (LastStop(s, count) < 1 || |selected| < LastStop(s, count))
  {
    CanAlwaysEndIff(s, now, count);
    if selected :| Blocks(s, now, count, selected) {
      BlocksIff(s, now, count, selected);
      GrownWithin(s.info, Pool(s), selected);
    }
    if selected :| && Covers(s.info, Pool(s), selected) && |selected| < |Pool(s)|
                   && (LastStop(s, count) < 1 || |selected| < LastStop(s, count)) {
      var full := CoverShrinks(s.info, Pool(s), selected);
      BlocksIff(s, now, count, full);
    }
  }

  /** With nothing left to readmit the pool is the healthy list. */
  lemma AllHealthy<N>(s: Net<N>)
    ensures Subseq(s.nodes, s.healthy) ==> Pool(s) == s.healthy
  {
    if Subseq(s.nodes, s.healthy) {
      NoneUnhealthy(s, s.nodes);
    }
  }

  lemma {:induction false} NoneUnhealthy<N>(s: Net<N>, nodes: seq<N>)
    requires Subseq(nodes, s.healthy)
    ensures NotHealthy(s, nodes) == []
  {
    if nodes != [] {
      NoneUnhealthy(s, nodes[..|nodes| - 1]);
      assert nodes[|nodes| - 1] in nodes;
    }
  }

  /** Without tangled nodes the loop can always end, whatever the count and whatever is to be readmitted. */
  lemma UntangledCanEnd<N>(s: Net<N>, now: real, count: int, calls: seq<Call>)
    requires Valid(s, now) && AllKnown(s.info, Pool(s)) && Untangled(s.info, Pool(s)) && CallsFit(s.index, calls, now)
    ensures CanEnd(s, now, count, calls)
  {
    Starts(s, now);
    var r := SelectMore(s, now, count, [], calls);
    if r.finished {
      FinishedCanEnd(s, now, count, calls);
    } else {
      StillRunning(s, now, count, s, now, [], calls);
      var full := GrowsFully(s.info, Pool(s), r.selected);
      GrownShort(s.info, Pool(s), full);
      if |full| < |Pool(s)| {
        UntangledGrows(s.info, Pool(s), full);
      }
      var more := EndsGrowing(s, now, count, r.net, EndOf(now, calls), r.selected, full);
      Continued(s, now, count, Pool(s), calls, more);
    }
  }

  lemma {:induction false} StillRunning<N>(s: Net<N>, now: real, count: int, t: Net<N>, at: real, selected: seq<N>,
          calls: seq<Call>)
    requires Valid(s, now) && Follows(s, t, at) && OnTheWay(t, at, selected, Pool(s)) && CallsFit(t.index, calls, at)
    ensures var r := SelectMore(t, at, count, selected, calls);
            !r.finished ==>
              && Follows(s, r.net, EndOf(at, calls)) && OnTheWay(r.net, EndOf(at, calls), r.selected, Pool(s))
              && !Complete(r.net, count, r.selected) && AllKnown(s.info, r.selected)
    decreases |calls|
  {
    if calls != [] && !Complete(t, count, selected) {
      SelectMoreNext(t, at, count, selected, Pool(s), calls);
      ValidLater(t, at, calls[0].time);
      FollowsReadmit(s, t, at, calls[0].time);
      var u := Readmit(t, calls[0].time);
      StillRunning(s, now, count, u, calls[0].time, Taken(u, selected, calls[0].draw), calls[1..]);
    }
  }

  /** Asked for as many nodes as there are, some selection blocks exactly when some node is tangled. */
  lemma BlockedIffTangled<N(!new)>(s: Net<N>, now: real, count: int)
    requires Valid(s, now) && s.healthy != [] && AllKnown(s.info, Pool(s)) && AllKnown(s.info, s.nodes)
    requires count >= |s.healthy| + s.unhealthyCount
    ensures (exists selected :: Blocks(s, now, count, selected)) <==> !Untangled(s.info, Pool(s))
  {
    PoolMembers(s, now);
    AlwaysGrowsIff(s.info, Pool(s));
    if selected :| Blocks(s, now, count, selected) {
      assert !CanGrow(s.info, Pool(s), selected);
    }
    if !Untangled(s.info, Pool(s)) {
      var selected :| Grown(s.info, Pool(s), selected) && AllKnown(s.info, selected) && |selected| < |Pool(s)|
                      && !CanGrow(s.info, Pool(s), selected);
      assert Blocks(s, now, count, selected);
    }
  }
}
