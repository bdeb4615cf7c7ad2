/**
 Comparators as `Array.prototype.sort` takes them, and the stable sort it performs
 (ECMA-262, section 23.1.3.30: the order is defined when the comparator is consistent on the
 elements, and the sort is then stable).
 */
module Ordering {
  import opened Sequences

  /** What a three-way comparison of two numbers answers. */
  function CompareInt(a: int, b: int): (r: int)
  {
    if a < b then -1 else if a > b then 1 else 0
  }

  /** What `<` and `>` on strings decide: lexicographic by code unit, a prefix first. */
  function CompareText(a: string, b: string): (r: int)
  {
    if a == [] || b == [] then CompareInt(|a|, |b|)
    else if a[0] != b[0] then CompareInt(a[0] as int, b[0] as int)
    else CompareText(a[1..], b[1..])
  }

  lemma {:induction false} CompareTextAntisymmetric(a: string, b: string)
    ensures CompareText(a, b) == -CompareText(b, a)
    ensures CompareText(a, b) == 0 <==> a == b
  {
    if a != [] && b != [] && a[0] == b[0] {
      CompareTextAntisymmetric(a[1..], b[1..]);
      assert a == [a[0]] + a[1..] && b == [b[0]] + b[1..];
    }
  }

  lemma {:induction false} CompareTextTransitive(a: string, b: string, c: string)
    requires CompareText(a, b) <= 0 && CompareText(b, c) <= 0
    ensures CompareText(a, c) <= 0
  {
    if a != [] && b != [] && c != [] && a[0] == b[0] == c[0] {
      CompareTextTransitive(a[1..], b[1..], c[1..]);
    }
  }

  /** The texts agree up to place `k`; there `s` ends first or has the lower element. */
  ghost predicate LowerAt<T>(rank: T -> int, s: seq<T>, t: seq<T>, k: nat)
  {
    k <= |s| && k < |t| && s[..k] == t[..k] && (k == |s| || rank(s[k]) < rank(t[k]))
  }

  /** Dictionary order. */
  ghost predicate Lexical<T>(rank: T -> int, s: seq<T>, t: seq<T>)
  {
    exists k: nat :: LowerAt(rank, s, t, k)
  }

  lemma LexicalFirst<T>(rank: T -> int, s: seq<T>, t: seq<T>)
    requires s != [] && t != []
    ensures Lexical(rank, s, t) <==> rank(s[0]) < rank(t[0]) || (s[0] == t[0] && Lexical(rank, s[1..], t[1..]))
  {
    if k: nat :| LowerAt(rank, s, t, k) {
      if k > 0 {
        assert s[..k][0] == t[..k][0] && s[1..][..k - 1] == s[..k][1..] && t[1..][..k - 1] == t[..k][1..];
        assert LowerAt(rank, s[1..], t[1..], k - 1);
      }
    }
    if rank(s[0]) < rank(t[0]) {
      assert LowerAt(rank, s, t, 0);
    }
    if s[0] == t[0] && Lexical(rank, s[1..], t[1..]) {
      var k: nat :| LowerAt(rank, s[1..], t[1..], k);
      assert s[..k + 1] == [s[0]] + s[1..][..k] && t[..k + 1] == [t[0]] + t[1..][..k];
      assert LowerAt(rank, s, t, k + 1);
    }
  }

  lemma LexicalEmpty<T>(rank: T -> int, s: seq<T>, t: seq<T>)
    requires s == [] || t == []
    ensures Lexical(rank, s, t) <==> |s| < |t|
  {
    if s == [] && t != [] {
      assert LowerAt(rank, s, t, 0);
    }
  }

  function CodeUnit(c: char): int
  {
    c as int
  }

  /** The comparison of texts is negative exactly on dictionary order by code unit. */
  lemma {:induction false} CompareTextLexical(a: string, b: string)
    ensures CompareText(a, b) < 0 <==> Lexical(CodeUnit, a, b)
  {
    if a == [] || b == [] {
      LexicalEmpty(CodeUnit, a, b);
    } else {
      LexicalFirst(CodeUnit, a, b);
      if a[0] == b[0] {
        CompareTextLexical(a[1..], b[1..]);
      }
    }
  }

  /** `cmp` is a consistent comparator on the elements of `xs`: antisymmetric and transitive. */
  ghost predicate Consistent<T>(cmp: (T, T) -> int, xs: set<T>)
  {
    && (forall a, b {:trigger cmp(a, b)} | a in xs && b in xs :: cmp(a, b) < 0 <==> cmp(b, a) > 0)
    && (forall a, b, c {:trigger cmp(a, b), cmp(b, c)} | a in xs && b in xs && c in xs ::
          cmp(a, b) <= 0 && cmp(b, c) <= 0 ==> cmp(a, c) <= 0)
  }

  ghost predicate Sorted<T>(cmp: (T, T) -> int, xs: seq<T>)
  {
    forall i, j | 0 <= i < j < |xs| :: cmp(xs[i], xs[j]) <= 0
  }

  /** The elements of `xs` that compare equal to `x`, in order. */
  ghost function Ties<T>(cmp: (T, T) -> int, x: T, xs: seq<T>): seq<T>
  {
    if xs == [] then []
    else Ties(cmp, x, xs[..|xs| - 1]) + if cmp(x, xs[|xs| - 1]) == 0 then [xs[|xs| - 1]] else []
  }

  /** Puts `x` after every element that compares less or equal. */
  function InsertLast<T>(cmp: (T, T) -> int, xs: seq<T>, x: T): (r: seq<T>)
    ensures multiset(r) == multiset(xs) + multiset{x}
  {
    if xs == [] || cmp(xs[|xs| - 1], x) <= 0 then xs + [x]
    else
      assert xs == xs[..|xs| - 1] + [xs[|xs| - 1]];
      InsertLast(cmp, xs[..|xs| - 1], x) + [xs[|xs| - 1]]
  }

  /** The stable sort. */
  function Sort<T>(cmp: (T, T) -> int, xs: seq<T>): (r: seq<T>)
    ensures multiset(r) == multiset(xs)
  {
    if xs == [] then []
    else
      assert xs == xs[..|xs| - 1] + [xs[|xs| - 1]];
      InsertLast(cmp, Sort(cmp, xs[..|xs| - 1]), xs[|xs| - 1])
  }

  /** Every element of `xs` is in `all`. */
  ghost predicate Within<T>(xs: seq<T>, all: set<T>)
  {
    forall i | 0 <= i < |xs| :: xs[i] in all
  }

  lemma SortedAppend<T>(cmp: (T, T) -> int, xs: seq<T>, x: T)
    requires Sorted(cmp, xs) && forall i | 0 <= i < |xs| :: cmp(xs[i], x) <= 0
    ensures Sorted(cmp, xs + [x])
  {
  }

  lemma InsertLastElements<T>(cmp: (T, T) -> int, xs: seq<T>, x: T, y: T)
    requires y in InsertLast(cmp, xs, x)
    ensures y in xs || y == x
  {
    assert y in multiset(InsertLast(cmp, xs, x));
  }

  lemma {:induction false} InsertLastSorted<T>(cmp: (T, T) -> int, xs: seq<T>, x: T, all: set<T>)
    requires Consistent(cmp, all) && Within(xs, all) && x in all && Sorted(cmp, xs)
    ensures Sorted(cmp, InsertLast(cmp, xs, x))
    decreases |xs|, 1
  {
    if xs == [] {
    } else if cmp(xs[|xs| - 1], x) <= 0 {
      forall i | 0 <= i < |xs| ensures cmp(xs[i], x) <= 0 {
        assert i < |xs| - 1 ==> cmp(xs[i], xs[|xs| - 1]) <= 0;
      }
      SortedAppend(cmp, xs, x);
    } else {
      InsertBeforeLast(cmp, xs, x, all);
    }
  }

  lemma {:induction false} InsertBeforeLast<T>(cmp: (T, T) -> int, xs: seq<T>, x: T, all: set<T>)
    requires Consistent(cmp, all) && Within(xs, all) && x in all && Sorted(cmp, xs)
    requires xs != [] && cmp(xs[|xs| - 1], x) > 0
    ensures Sorted(cmp, InsertLast(cmp, xs, x))
    decreases |xs|, 0
  {
    var init, last := xs[..|xs| - 1], xs[|xs| - 1];
    InsertLastSorted(cmp, init, x, all);
    var r := InsertLast(cmp, init, x);
    forall i | 0 <= i < |r| ensures cmp(r[i], last) <= 0 {
      InsertLastElements(cmp, init, x, r[i]);
    }
    SortedAppend(cmp, r, last);
  }

  lemma {:induction false} SortSorted<T>(cmp: (T, T) -> int, xs: seq<T>, all: set<T>)
    requires Consistent(cmp, all) && Within(xs, all)
    ensures Sorted(cmp, Sort(cmp, xs))
  {
    if xs != [] {
      var init, last := xs[..|xs| - 1], xs[|xs| - 1];
      SortSorted(cmp, init, all);
      SameElements(Sort(cmp, init), init);
      assert Within(Sort(cmp, init), all) by { assert forall x | x in init :: x in all; }
      InsertLastSorted(cmp, Sort(cmp, init), last, all);
    }
  }

  /** Where no two different elements tie, the sorted arrangement of a multiset is unique. */
  lemma {:induction false} SortedUnique<T>(cmp: (T, T) -> int, xs: seq<T>, ys: seq<T>, all: set<T>)
    requires multiset(xs) == multiset(ys)
    requires Consistent(cmp, all) && Within(xs, all)
    requires forall a, b {:trigger cmp(a, b)} | a in all && b in all && cmp(a, b) == 0 :: a == b
    requires Sorted(cmp, xs) && Sorted(cmp, ys)
    ensures xs == ys
    decreases |xs|
  {
    SameElements(xs, ys);
    if xs != [] {
      var a, b := xs[|xs| - 1], ys[|ys| - 1];
      assert a == b by {
        MaximumLast(cmp, xs, b);
        MaximumLast(cmp, ys, a);
      }
      DropLast(xs);
      DropLast(ys);
      SortedUnique(cmp, xs[..|xs| - 1], ys[..|ys| - 1], all);
    }
  }

  /** Sorting forgets the order it was given, where no two different elements tie. */
  lemma SortPermutation<T>(cmp: (T, T) -> int, xs: seq<T>, ys: seq<T>, all: set<T>)
    requires multiset(xs) == multiset(ys)
    requires Consistent(cmp, all) && Within(xs, all)
    requires forall a, b {:trigger cmp(a, b)} | a in all && b in all && cmp(a, b) == 0 :: a == b
    ensures Sort(cmp, xs) == Sort(cmp, ys)
  {
    SameElements(xs, ys);
    assert forall x | x in ys :: x in all by { assert forall x | x in xs :: x in all; }
    SortSorted(cmp, xs, all);
    SortSorted(cmp, ys, all);
    SameElements(Sort(cmp, xs), xs);
    assert Within(Sort(cmp, xs), all) by { assert forall x | x in xs :: x in all; }
    SortedUnique(cmp, Sort(cmp, xs), Sort(cmp, ys), all);
  }

  lemma MaximumLast<T>(cmp: (T, T) -> int, xs: seq<T>, x: T)
    requires x in xs && Sorted(cmp, xs)
    ensures xs[|xs| - 1] == x || cmp(x, xs[|xs| - 1]) <= 0
  {
    var i :| 0 <= i < |xs| && xs[i] == x;
  }

  lemma DropLast<T>(xs: seq<T>)
    requires xs != []
    ensures xs == xs[..|xs| - 1] + [xs[|xs| - 1]]
    ensures multiset(xs[..|xs| - 1]) == multiset(xs) - multiset{xs[|xs| - 1]}
  {
    assert xs == xs[..|xs| - 1] + [xs[|xs| - 1]];
  }

  // ----- stability

  /** A consistent comparator on three elements: what ties with `x` does not come after what ties with `x`. */
  lemma TieApart<T>(cmp: (T, T) -> int, x: T, y: T, later: T, all: set<T>)
    requires Consistent(cmp, all) && x in all && y in all && later in all
    requires cmp(x, y) == 0 && cmp(later, y) > 0
    ensures cmp(x, later) != 0
  {
    assert cmp(x, later) == 0 ==> cmp(later, x) <= 0;
  }

  lemma {:induction false} InsertLastTies<T>(cmp: (T, T) -> int, xs: seq<T>, y: T, x: T, all: set<T>)
    requires Consistent(cmp, all) && Within(xs, all) && x in all && y in all
    ensures Ties(cmp, x, InsertLast(cmp, xs, y)) == Ties(cmp, x, xs + [y])
  {
    assert (xs + [y])[..|xs|] == xs;
    if xs != [] && cmp(xs[|xs| - 1], y) > 0 {
      var init, last := xs[..|xs| - 1], xs[|xs| - 1];
      InsertLastTies(cmp, init, y, x, all);
      assert (init + [y])[..|init|] == init;
      if cmp(x, y) == 0 {
        TieApart(cmp, x, y, last, all);
      }
    }
  }

  /** The sort keeps the order of elements that compare equal. */
  lemma {:induction false} SortStable<T>(cmp: (T, T) -> int, xs: seq<T>, x: T, all: set<T>)
    requires Consistent(cmp, all) && Within(xs, all) && x in all
    ensures Ties(cmp, x, Sort(cmp, xs)) == Ties(cmp, x, xs)
  {
    if xs != [] {
      var init, last := xs[..|xs| - 1], xs[|xs| - 1];
      var sorted := Sort(cmp, init);
      SortStable(cmp, init, x, all);
      SameElements(sorted, init);
      assert Within(sorted, all) by { assert forall e | e in init :: e in all; }
      InsertLastTies(cmp, sorted, last, x, all);
      assert (sorted + [last])[..|sorted|] == sorted;
    }
  }

  lemma LastTies<T>(cmp: (T, T) -> int, xs: seq<T>, ys: seq<T>, all: set<T>)
    requires xs != [] && ys != [] && multiset(xs) == multiset(ys)
    requires Consistent(cmp, all) && Within(xs, all) && Within(ys, all) && Sorted(cmp, xs) && Sorted(cmp, ys)
    ensures cmp(xs[|xs| - 1], ys[|ys| - 1]) == 0 && cmp(xs[|xs| - 1], xs[|xs| - 1]) == 0
  {
    SameElements(xs, ys);
    MaximumLast(cmp, xs, ys[|ys| - 1]);
    MaximumLast(cmp, ys, xs[|xs| - 1]);
  }

  ghost predicate SameTies<T>(cmp: (T, T) -> int, xs: seq<T>, ys: seq<T>, all: set<T>)
  {
    forall x | x in all :: Ties(cmp, x, xs) == Ties(cmp, x, ys)
  }

  lemma SameLast<T>(cmp: (T, T) -> int, xs: seq<T>, ys: seq<T>, all: set<T>)
    requires xs != [] && ys != [] && xs[|xs| - 1] in all && SameTies(cmp, xs, ys, all)
    requires cmp(xs[|xs| - 1], ys[|ys| - 1]) == 0 && cmp(xs[|xs| - 1], xs[|xs| - 1]) == 0
    ensures xs[|xs| - 1] == ys[|ys| - 1]
  {
    var a, b := xs[|xs| - 1], ys[|ys| - 1];
    var s, t := Ties(cmp, a, xs), Ties(cmp, a, ys);
    assert s == Ties(cmp, a, xs[..|xs| - 1]) + [a] && s[|s| - 1] == a;
    assert t == Ties(cmp, a, ys[..|ys| - 1]) + [b] && t[|t| - 1] == b;
  }

  lemma SameTiesBefore<T>(cmp: (T, T) -> int, xs: seq<T>, ys: seq<T>, all: set<T>)
    requires xs != [] && ys != [] && SameTies(cmp, xs, ys, all) && xs[|xs| - 1] == ys[|ys| - 1]
    ensures SameTies(cmp, xs[..|xs| - 1], ys[..|ys| - 1], all)
  {
    forall x | x in all ensures Ties(cmp, x, xs[..|xs| - 1]) == Ties(cmp, x, ys[..|ys| - 1]) {
      DropTie(Ties(cmp, x, xs[..|xs| - 1]), Ties(cmp, x, ys[..|ys| - 1]),
              if cmp(x, xs[|xs| - 1]) == 0 then [xs[|xs| - 1]] else []);
    }
  }

  /** Two sorted arrangements that keep tied elements in the same order are the same. */
  lemma {:induction false} StableUnique<T>(cmp: (T, T) -> int, xs: seq<T>, ys: seq<T>, all: set<T>)
    requires multiset(xs) == multiset(ys) && Consistent(cmp, all) && Within(xs, all) && Within(ys, all)
    requires Sorted(cmp, xs) && Sorted(cmp, ys) && SameTies(cmp, xs, ys, all)
    ensures xs == ys
    decreases |xs|
  {
    assert |multiset(xs)| == |xs| && |multiset(ys)| == |ys|;
    if xs != [] {
      LastTies(cmp, xs, ys, all);
      SameLast(cmp, xs, ys, all);
      PrefixesArranged(cmp, xs, ys, all);
      SameTiesBefore(cmp, xs, ys, all);
      StableUnique(cmp, xs[..|xs| - 1], ys[..|ys| - 1], all);
      assert xs == xs[..|xs| - 1] + [xs[|xs| - 1]];
    }
  }

  lemma PrefixesArranged<T>(cmp: (T, T) -> int, xs: seq<T>, ys: seq<T>, all: set<T>)
    requires xs != [] && ys != [] && multiset(xs) == multiset(ys) && xs[|xs| - 1] == ys[|ys| - 1]
    requires Within(xs, all) && Within(ys, all) && Sorted(cmp, xs) && Sorted(cmp, ys)
    ensures multiset(xs[..|xs| - 1]) == multiset(ys[..|ys| - 1])
    ensures Within(xs[..|xs| - 1], all) && Within(ys[..|ys| - 1], all)
    ensures Sorted(cmp, xs[..|xs| - 1]) && Sorted(cmp, ys[..|ys| - 1])
  {
    DropLast(xs);
    DropLast(ys);
  }

  lemma DropTie<T>(s: seq<T>, t: seq<T>, last: seq<T>)
    requires s + last == t + last
    ensures s == t
  {
    assert |s| == |t|;
    forall i | 0 <= i < |s| ensures s[i] == t[i] {
      assert (s + last)[i] == (t + last)[i];
    }
  }

  /**
   The result of a stable sort is determined: any sorted arrangement that keeps tied elements in
   order is the one `Sort` gives.
   */
  lemma SortDetermined<T>(cmp: (T, T) -> int, xs: seq<T>, ys: seq<T>, all: set<T>)
    requires Consistent(cmp, all) && Within(xs, all) && multiset(ys) == multiset(xs)
    requires Sorted(cmp, ys) && SameTies(cmp, ys, xs, all)
    ensures ys == Sort(cmp, xs)
  {
    SortSorted(cmp, xs, all);
    forall x | x in all ensures Ties(cmp, x, Sort(cmp, xs)) == Ties(cmp, x, ys) {
      SortStable(cmp, xs, x, all);
    }
    SameWithin(xs, ys, all);
    SameWithin(xs, Sort(cmp, xs), all);
    StableUnique(cmp, Sort(cmp, xs), ys, all);
  }

  lemma SameWithin<T>(xs: seq<T>, ys: seq<T>, all: set<T>)
    requires multiset(ys) == multiset(xs) && Within(xs, all)
    ensures Within(ys, all)
  {
    SameElements(xs, ys);
    assert forall x | x in xs :: x in all;
  }
}
