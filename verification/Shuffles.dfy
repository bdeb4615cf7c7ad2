/** The in-place shuffle; the random draws are a parameter. */
module Shuffles {
  import opened Sequences

  /** One draw per step: the draw made with `n - k` elements left is below `n - k`. */
  ghost predicate ValidDraws(draws: seq<nat>, n: nat)
  {
    |draws| == n && forall k | 0 <= k < n :: draws[k] < n - k
  }

  function Swap<T>(s: seq<T>, i: nat, j: nat): (r: seq<T>)
    requires i < |s| && j < |s|
    ensures |r| == |s|
  {
    s[i := s[j]][j := s[i]]
  }

  /** Shuffles the first `n` elements. */
  ghost function Shuffled<T>(s: seq<T>, n: nat, draws: seq<nat>): (r: seq<T>)
    requires n <= |s| && ValidDraws(draws, n)
    ensures |r| == |s|
    decreases n
  {
    if n == 0 then s else Shuffled(Swap(s, n - 1, draws[0]), n - 1, draws[1..])
  }

  method Shuffle<T>(a: array<T>, draws: seq<nat>)
    requires ValidDraws(draws, a.Length)
    modifies a
    ensures a[..] == Shuffled(old(a[..]), a.Length, draws)
  {
    var currentIndex := a.Length;
    while currentIndex != 0
      invariant 0 <= currentIndex <= a.Length
      invariant ValidDraws(draws[a.Length - currentIndex..], currentIndex)
      invariant Shuffled(a[..], currentIndex, draws[a.Length - currentIndex..]) == Shuffled(old(a[..]), a.Length, draws)
    {
      ghost var before, rest := a[..], draws[a.Length - currentIndex..];
      var randomIndex := draws[a.Length - currentIndex];
      assert randomIndex == rest[0];
      currentIndex := currentIndex - 1;
      var temporaryValue := a[currentIndex];
      a[currentIndex] := a[randomIndex];
      a[randomIndex] := temporaryValue;
      assert a[..] == Swap(before, currentIndex, randomIndex);
      assert draws[a.Length - currentIndex..] == rest[1..];
    }
  }

  lemma SwapPermutes<T>(s: seq<T>, i: nat, j: nat)
    requires i < |s| && j < |s|
    ensures multiset(Swap(s, i, j)) == multiset(s)
  {
  }

  lemma SwapDistinct<T>(s: seq<T>, i: nat, j: nat)
    requires i < |s| && j < |s| && Distinct(s)
    ensures Distinct(Swap(s, i, j))
  {
  }

  /** The result is a permutation that leaves the elements from `n` on in place. */
  lemma {:induction false} ShuffledPermutes<T>(s: seq<T>, n: nat, draws: seq<nat>)
    requires n <= |s| && ValidDraws(draws, n)
    ensures multiset(Shuffled(s, n, draws)) == multiset(s)
    ensures Shuffled(s, n, draws)[n..] == s[n..]
    decreases n
  {
    if n > 0 {
      var t := Swap(s, n - 1, draws[0]);
      SwapPermutes(s, n - 1, draws[0]);
      ShuffledPermutes(t, n - 1, draws[1..]);
      var r := Shuffled(s, n, draws);
      assert r[n..] == r[n - 1..][1..] == t[n - 1..][1..] == t[n..];
    }
  }

  /** Different draws give different arrangements of distinct elements. */
  lemma {:induction false} ShuffledInjective<T>(s: seq<T>, n: nat, d: seq<nat>, e: seq<nat>)
    requires n <= |s| && Distinct(s) && ValidDraws(d, n) && ValidDraws(e, n)
    requires Shuffled(s, n, d) == Shuffled(s, n, e)
    ensures d == e
    decreases n
  {
    if n > 0 {
      FirstDrawn(s, n, d);
      FirstDrawn(s, n, e);
      assert d[0] == e[0];
      SwapDistinct(s, n - 1, d[0]);
      ShuffledInjective(Swap(s, n - 1, d[0]), n - 1, d[1..], e[1..]);
      assert d == [d[0]] + d[1..] && e == [e[0]] + e[1..];
    }
  }

  /** The first draw decides the last place. */
  lemma FirstDrawn<T>(s: seq<T>, n: nat, d: seq<nat>)
    requires 0 < n <= |s| && ValidDraws(d, n)
    ensures Shuffled(s, n, d)[n - 1] == s[d[0]]
  {
    var t := Swap(s, n - 1, d[0]);
    ShuffledPermutes(t, n - 1, d[1..]);
    assert Shuffled(s, n, d)[n - 1..][0] == t[n - 1..][0];
  }

  /** Every arrangement of the first `n` of distinct elements comes from some draws. */
  lemma {:induction false} DrawsFor<T>(s: seq<T>, n: nat, p: seq<T>) returns (d: seq<nat>)
    requires n <= |s| == |p| && Distinct(s) && multiset(p) == multiset(s) && p[n..] == s[n..]
    ensures ValidDraws(d, n) && Shuffled(s, n, d) == p
    decreases n
  {
    if n == 0 {
      assert p[0..] == p && s[0..] == s;
      d := [];
    } else {
      var r := PlaceOf(s, n, p);
      var t := Swap(s, n - 1, r);
      SwapPermutes(s, n - 1, r);
      SwapDistinct(s, n - 1, r);
      forall k | n - 1 <= k < |s| ensures p[k] == t[k] {
        assert k >= n ==> p[n..][k - n] == s[n..][k - n];
      }
      assert p[n - 1..] == t[n - 1..];
      var rest := DrawsFor(t, n - 1, p);
      d := [r] + rest;
      assert d[0] == r && d[1..] == rest;
    }
  }

  /** Where the element wanted in place `n - 1` stands. */
  lemma PlaceOf<T>(s: seq<T>, n: nat, p: seq<T>) returns (r: nat)
    requires 0 < n <= |s| == |p| && Distinct(s) && multiset(p) == multiset(s) && p[n..] == s[n..]
    ensures r < n && s[r] == p[n - 1]
  {
    PermutationDistinct(s, p);
    forall k | n <= k < |s| ensures s[k] != p[n - 1] {
      assert p[k] == p[n..][k - n] == s[n..][k - n] == s[k];
    }
    assert p[n - 1] in multiset(s);
    r :| 0 <= r < |s| && s[r] == p[n - 1];
  }

  /**
   The shuffle of distinct elements is a bijection between draw sequences and permutations: a
   sequence is a permutation of `s` exactly when some draws give it, and then only those draws do.
   */
  lemma {:induction false} ShuffleBijective<T>(s: seq<T>, p: seq<T>)
    requires Distinct(s)
    ensures multiset(p) == multiset(s) <==> exists d :: ValidDraws(d, |s|) && Shuffled(s, |s|, d) == p
    ensures forall d, e | ValidDraws(d, |s|) && ValidDraws(e, |s|)
                          && Shuffled(s, |s|, d) == p == Shuffled(s, |s|, e) :: d == e
  {
    if multiset(p) == multiset(s) {
      assert |p| == |multiset(p)| == |multiset(s)| == |s|;
      var d := DrawsFor(s, |s|, p);
    }
    forall d | ValidDraws(d, |s|) && Shuffled(s, |s|, d) == p ensures multiset(p) == multiset(s) {
      ShuffledPermutes(s, |s|, d);
    }
    forall d, e | ValidDraws(d, |s|) && ValidDraws(e, |s|) && Shuffled(s, |s|, d) == p == Shuffled(s, |s|, e)
      ensures d == e {
      ShuffledInjective(s, |s|, d, e);
    }
  }
}
