/** Facts about sequences that several modules use. */
module Sequences {

  ghost predicate Distinct<T>(s: seq<T>)
  {
    forall i, j | 0 <= i < j < |s| :: s[i] != s[j]
  }

  /** `part` is `whole` with some elements left out. */
  ghost predicate InOrder<T>(part: seq<T>, whole: seq<T>)
    decreases |whole|
  {
    || part == []
    || (whole != []
        && var p, w := |part| - 1, |whole| - 1;
           InOrder(part, whole[..w]) || (part[p] == whole[w] && InOrder(part[..p], whole[..w])))
  }

  lemma InOrderNext<T>(part: seq<T>, whole: seq<T>)
    requires whole != [] && InOrder(part, whole[..|whole| - 1])
    ensures InOrder(part + [], whole) && InOrder(part + [whole[|whole| - 1]], whole)
  {
    var more := part + [whole[|whole| - 1]];
    assert more[..|part|] == part == part + [];
  }

  lemma ConcatDistinct<T>(s: seq<T>, t: seq<T>)
    requires Distinct(s) && Distinct(t) && forall x | x in t :: x !in s
    ensures Distinct(s + t)
  {
    var r := s + t;
    forall i, j | 0 <= i < j < |r| ensures r[i] != r[j] {
      if i < |s| <= j {
        assert r[j] == t[j - |s|] && r[j] in t && r[i] == s[i];
      }
    }
  }

  lemma PermutationDistinct<T>(s: seq<T>, p: seq<T>)
    requires Distinct(s) && multiset(p) == multiset(s)
    ensures Distinct(p)
  {
    forall i, j | 0 <= i < j < |p| ensures p[i] != p[j] {
      Occurrences(s, p[i]);
      assert p == p[..j] + [p[j]] + p[j + 1..];
      assert p[..j][i] == p[i] && p[i] in p[..j];
      assert multiset(p)[p[i]] == multiset(s)[p[i]] <= 1;
    }
  }

  lemma Occurrences<T>(s: seq<T>, x: T)
    requires Distinct(s)
    ensures multiset(s)[x] <= 1
  {
    if x in s {
      var i :| 0 <= i < |s| && s[i] == x;
      assert s == s[..i] + [x] + s[i + 1..];
      assert x !in s[..i] && x !in s[i + 1..];
    }
  }

  lemma SameElements<T>(xs: seq<T>, ys: seq<T>)
    requires multiset(xs) == multiset(ys)
    ensures |xs| == |ys|
    ensures forall x | x in xs :: x in ys
    ensures forall x | x in ys :: x in xs
  {
    assert |multiset(xs)| == |multiset(ys)|;
    forall x | x in xs ensures x in ys {
      assert x in multiset(xs);
    }
    forall x | x in ys ensures x in xs {
      assert x in multiset(ys);
    }
  }

  lemma SplitAt<T>(xs: seq<T>, j: nat)
    requires j < |xs|
    ensures xs == xs[..j] + [xs[j]] + xs[j + 1..]
  {
  }

  lemma RemoveOne<T>(xs: seq<T>, ys: seq<T>) returns (j: nat)
    requires xs != [] && multiset(xs) == multiset(ys)
    ensures j < |ys| && ys[j] == xs[|xs| - 1]
    ensures multiset(xs[..|xs| - 1]) == multiset(ys[..j] + ys[j + 1..])
  {
    var x := xs[|xs| - 1];
    assert x in multiset(ys);
    j :| 0 <= j < |ys| && ys[j] == x;
    var init, rest := xs[..|xs| - 1], ys[..j] + ys[j + 1..];
    assert xs == init + [x];
    TakenOut(ys, j);
    assert multiset(init) + multiset{x} == multiset(rest) + multiset{x};
    assert multiset(init) == multiset(init) + multiset{x} - multiset{x};
    assert multiset(rest) == multiset(rest) + multiset{x} - multiset{x};
  }

  lemma TakenOut<T>(xs: seq<T>, j: nat)
    requires j < |xs|
    ensures multiset(xs) == multiset(xs[..j] + xs[j + 1..]) + multiset{xs[j]}
  {
    SplitAt(xs, j);
  }
}
