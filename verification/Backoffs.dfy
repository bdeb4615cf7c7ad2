/** A node's backoff and readmit time, on values. */
module Backoffs {

  function MinReal(a: real, b: real): real
  {
    if a <= b then a else b
  }

  function MaxReal(a: real, b: real): real
  {
    if a >= b then a else b
  }

  datatype Endpoint = Endpoint(host: string, port: nat)

  datatype NodeState = NodeState(
    key: string, endpoint: Endpoint,
    readmitTime: real, currentBackoff: real, minBackoff: real, maxBackoff: real)

  const DEFAULT_MIN_BACKOFF: real := 8000.0
  const DEFAULT_MAX_BACKOFF: real := 3600000.0

  function NewNode(key: string, endpoint: Endpoint, now: real): NodeState
  {
    NodeState(key, endpoint, now, DEFAULT_MIN_BACKOFF, DEFAULT_MIN_BACKOFF, DEFAULT_MAX_BACKOFF)
  }

  function Increased(n: NodeState, now: real): NodeState
  {
    var backoff := MinReal(n.currentBackoff * 2.0, n.maxBackoff);
    n.(currentBackoff := backoff, readmitTime := now + backoff)
  }

  function Decreased(n: NodeState): NodeState
  {
    n.(currentBackoff := MaxReal(n.currentBackoff / 2.0, n.minBackoff))
  }

  function WithMinBackoff(n: NodeState, minBackoff: real): NodeState
  {
    n.(minBackoff := minBackoff,
        currentBackoff := if n.currentBackoff <= minBackoff then minBackoff else n.currentBackoff)
  }

  function WithMaxBackoff(n: NodeState, maxBackoff: real): NodeState
  {
    n.(maxBackoff := maxBackoff,
        currentBackoff := if n.currentBackoff <= maxBackoff then maxBackoff else n.currentBackoff)
  }

  /** min <= current <= max, with a positive minimum. */
  predicate Bounded(n: NodeState)
  {
    0.0 < n.minBackoff <= n.currentBackoff <= n.maxBackoff
  }

  /** `x` times 2^k. */
  function Doubled(x: real, k: nat): real
  {
    if k == 0 then x else Doubled(x, k - 1) * 2.0
  }

  function Power2(k: nat): (p: nat)
    ensures p > 0
  {
    if k == 0 then 1 else 2 * Power2(k - 1)
  }

  lemma {:induction false} DoubledPower(x: real, k: nat)
    ensures Doubled(x, k) == x * Power2(k) as real
  {
    if k > 0 {
      DoubledPower(x, k - 1);
      var p := Power2(k - 1) as real;
      assert Power2(k) as real == 2.0 * p;
      assert x * p * 2.0 == x * (2.0 * p);
    }
  }

  /** `x` divided by 2^k. */
  function Halved(x: real, k: nat): real
  {
    if k == 0 then x else Halved(x, k - 1) / 2.0
  }

  /** `k` increases in a row, at the given times. */
  function IncreasedTimes(n: NodeState, times: seq<real>): NodeState
  {
    if times == [] then n else Increased(IncreasedTimes(n, times[..|times| - 1]), times[|times| - 1])
  }

  function DecreasedTimes(n: NodeState, k: nat): NodeState
  {
    if k == 0 then n else Decreased(DecreasedTimes(n, k - 1))
  }

  lemma {:induction false} IncreasedBounded(n: NodeState, times: seq<real>)
    requires Bounded(n)
    ensures Bounded(IncreasedTimes(n, times))
    ensures IncreasedTimes(n, times).maxBackoff == n.maxBackoff && IncreasedTimes(n, times).minBackoff == n.minBackoff
  {
    if times != [] {
      IncreasedBounded(n, times[..|times| - 1]);
    }
  }

  /** Any number of increases in closed form: current times 2^k, capped. */
  lemma {:induction false} IncreasedClosedForm(n: NodeState, times: seq<real>)
    requires Bounded(n)
    ensures IncreasedTimes(n, times).currentBackoff == MinReal(Doubled(n.currentBackoff, |times|), n.maxBackoff)
  {
    if times != [] {
      IncreasedClosedForm(n, times[..|times| - 1]);
      IncreasedBounded(n, times[..|times| - 1]);
    }
  }

  /** Any number of decreases in closed form: current divided by 2^k, floored at the minimum. */
  lemma {:induction false} DecreasedClosedForm(n: NodeState, k: nat)
    requires Bounded(n)
    ensures DecreasedTimes(n, k).currentBackoff == MaxReal(Halved(n.currentBackoff, k), n.minBackoff)
    ensures DecreasedTimes(n, k).maxBackoff == n.maxBackoff && DecreasedTimes(n, k).minBackoff == n.minBackoff
    ensures Bounded(DecreasedTimes(n, k))
  {
    if k > 0 {
      DecreasedClosedForm(n, k - 1);
      HalvedBelow(n.currentBackoff, k - 1);
    }
  }

  lemma {:induction false} HalvedPower(x: real, k: nat)
    ensures Halved(x, k) * Power2(k) as real == x
  {
    if k > 0 {
      HalvedPower(x, k - 1);
      var h, p := Halved(x, k - 1), Power2(k - 1) as real;
      assert Halved(x, k) == h / 2.0 && Power2(k) as real == 2.0 * p;
      assert h / 2.0 * (2.0 * p) == h * p;
    }
  }

  /** `x` times 2^k, or `most` when that is less. */
  ghost predicate PowerOrMost(x: real, k: nat, most: real, b: real)
  {
    var up := x * Power2(k) as real;
    b == if up <= most then up else most
  }

  /** The 2^k-th part of `x`, or `least` when that is more. */
  ghost predicate PartOrLeast(x: real, k: nat, least: real, b: real)
  {
    var p := Power2(k) as real;
    b * p == x || (b == least && b * p >= x)
  }

  lemma CappedPower(x: real, k: nat, most: real)
    ensures PowerOrMost(x, k, most, MinReal(Doubled(x, k), most))
  {
    DoubledPower(x, k);
  }

  lemma LargerPart(x: real, k: nat, least: real)
    ensures PartOrLeast(x, k, least, MaxReal(Halved(x, k), least))
  {
    HalvedPower(x, k);
    var h, p := Halved(x, k), Power2(k) as real;
    assert (least - h) * p == least * p - x;
  }

  /** Increases in a row give the backoff times 2^k, or the cap when that is less. */
  lemma IncreasedPower(n: NodeState, times: seq<real>)
    requires Bounded(n)
    ensures PowerOrMost(n.currentBackoff, |times|, n.maxBackoff, IncreasedTimes(n, times).currentBackoff)
  {
    IncreasedClosedForm(n, times);
    CappedPower(n.currentBackoff, |times|, n.maxBackoff);
  }

  /** Decreases in a row give the 2^k-th part of it, or the minimum when that is more. */
  lemma DecreasedPower(n: NodeState, k: nat)
    requires Bounded(n)
    ensures PartOrLeast(n.currentBackoff, k, n.minBackoff, DecreasedTimes(n, k).currentBackoff)
  {
    DecreasedClosedForm(n, k);
    LargerPart(n.currentBackoff, k, n.minBackoff);
  }

  lemma {:induction false} HalvedBelow(x: real, k: nat)
    requires x > 0.0
    ensures 0.0 < Halved(x, k) <= x
  {
    if k > 0 {
      HalvedBelow(x, k - 1);
    }
  }

  lemma {:induction false} HalvedAtFront(x: real, k: nat)
    ensures Halved(x * 2.0, k + 1) == Halved(x, k)
  {
    if k > 0 {
      HalvedAtFront(x, k - 1);
    }
  }

  /** Halving undoes doubling and keeps strict order. */
  lemma {:induction false} HalvedDoubled(x: real, k: nat)
    ensures Halved(Doubled(x, k), k) == x
  {
    if k > 0 {
      HalvedDoubled(x, k - 1);
      HalvedAtFront(Doubled(x, k - 1), k - 1);
    }
  }

  lemma {:induction false} HalvedMonotone(x: real, y: real, k: nat)
    requires x < y
    ensures Halved(x, k) < Halved(y, k)
  {
    if k > 0 {
      HalvedMonotone(x, y, k - 1);
    }
  }

  /**
   As many decreases as increases never leave the backoff above where it began, and restore it
   exactly when the increases did not reach the cap or it began at the minimum.
   */
  lemma IncreasesThenDecreases(n: NodeState, times: seq<real>)
    requires Bounded(n)
    ensures var back := DecreasedTimes(IncreasedTimes(n, times), |times|).currentBackoff;
            && back <= n.currentBackoff
            && (back == n.currentBackoff <==>
                Doubled(n.currentBackoff, |times|) <= n.maxBackoff || n.currentBackoff == n.minBackoff)
  {
    var up, k := IncreasedTimes(n, times), |times|;
    IncreasedClosedForm(n, times);
    IncreasedBounded(n, times);
    DecreasedClosedForm(up, k);
    HalvedDoubled(n.currentBackoff, k);
    if n.maxBackoff < Doubled(n.currentBackoff, k) {
      HalvedMonotone(n.maxBackoff, Doubled(n.currentBackoff, k), k);
    }
  }

  /** Lowering or raising the cap keeps the bounds exactly when the current backoff is below the new cap. */
  lemma SetMaxKeepsBounds(n: NodeState, maxBackoff: real)
    requires Bounded(n)
    ensures Bounded(WithMaxBackoff(n, maxBackoff)) <==> n.currentBackoff <= maxBackoff
  {
  }

  lemma SetMinKeepsBounds(n: NodeState, minBackoff: real)
    requires Bounded(n)
    ensures Bounded(WithMinBackoff(n, minBackoff)) <==> 0.0 < minBackoff <= n.maxBackoff
  {
  }
}
