/** When replacing the network throws, and what the throw leaves behind. */
module NetworkClosing {
  import opened NetworkState
  import opened NetworkSetup

  ghost predicate Unwanted<N>(s: Net<N>, entries: seq<Entry>, p: nat)
    requires forall n | n in s.nodes :: n in s.info
  {
    p < |s.nodes| && !Wanted(s.info[s.nodes[p]], entries)
  }

  /** The node is some unwanted one with an index above `p` and below `i`. */
  ghost predicate ClosedBetween<N>(s: Net<N>, entries: seq<Entry>, p: nat, i: nat, n: N)
    requires forall n | n in s.nodes :: n in s.info
  {
    exists q: nat :: p < q < i && Unwanted(s, entries, q) && s.nodes[q] == n
  }

  /** Node `p` is unwanted, and its key has no indexed node once the unwanted ones above it are closed. */
  ghost predicate Unclosable<N>(s: Net<N>, entries: seq<Entry>, p: nat, i: nat)
    requires Mapped(s)
  {
    && Unwanted(s, entries, p)
    && var key := s.info[s.nodes[p]].key;
       key in s.index ==> forall m | m in s.index[key] :: ClosedBetween(s, entries, p, i, m)
  }

  lemma UnclosableFewer<N>(s: Net<N>, entries: seq<Entry>, p: nat, i: nat)
    requires Mapped(s) && 0 < i <= |s.nodes| && !Unwanted(s, entries, i - 1)
    ensures Unclosable(s, entries, p, i - 1) <==> Unclosable(s, entries, p, i)
  {
    if Unwanted(s, entries, p) && s.info[s.nodes[p]].key in s.index {
      forall m | m in s.index[s.info[s.nodes[p]].key]
        ensures ClosedBetween(s, entries, p, i - 1, m) <==> ClosedBetween(s, entries, p, i, m)
      {
        if q: nat :| p < q < i && Unwanted(s, entries, q) && s.nodes[q] == m {
          assert q < i - 1;
        }
      }
    }
  }

  /** The indexed nodes of a key after node `i - 1` is closed. */
  lemma IndexAfterClose<N>(s: Net<N>, i: nat, key: string)
    requires Mapped(s) && 0 < i <= |s.nodes| && Close(s, i - 1).Some?
    ensures var t, n := Close(s, i - 1).value, s.nodes[i - 1];
            && (key in t.index ==> key in s.index)
            && (key in s.index && key !in t.index ==> forall m | m in s.index[key] :: m == n)
            && (key in t.index ==> forall m | m in t.index[key] :: m in s.index[key])
            && (key in t.index ==> forall m | m in s.index[key] && m != n :: m in t.index[key])
  {
    var n := s.nodes[i - 1];
    var own := s.info[n].key;
    RemoveFirstMembers(s.index[own], n);
  }

  lemma BetweenAfterClose<N>(s: Net<N>, entries: seq<Entry>, p: nat, i: nat, m: N)
    requires Mapped(s) && 0 < i <= |s.nodes| && Close(s, i - 1).Some? && Unwanted(s, entries, i - 1) && p < i - 1
    ensures Mapped(Close(s, i - 1).value)
    ensures ClosedBetween(s, entries, p, i, m) <==>
            m == s.nodes[i - 1] || ClosedBetween(Close(s, i - 1).value, entries, p, i - 1, m)
  {
    CloseMapped(s, i - 1);
    CloseOneKeeps(s, entries, i);
    SameBetween(s, Close(s, i - 1).value, entries, p, i, m);
  }

  lemma SameBetween<N>(s: Net<N>, t: Net<N>, entries: seq<Entry>, p: nat, i: nat, m: N)
    requires Mapped(s) && Mapped(t) && 0 < i <= |s.nodes| && |t.nodes| >= i - 1 && t.info == s.info && p < i - 1
    requires t.nodes[..i - 1] == s.nodes[..i - 1] && Unwanted(s, entries, i - 1)
    ensures ClosedBetween(s, entries, p, i, m) <==>
            m == s.nodes[i - 1] || ClosedBetween(t, entries, p, i - 1, m)
  {
    forall q: nat | q < i - 1
      ensures t.nodes[q] == s.nodes[q] && (Unwanted(t, entries, q) <==> Unwanted(s, entries, q))
    {
      assert t.nodes[..i - 1][q] == s.nodes[..i - 1][q];
    }
  }

  lemma UnclosableAfterClose<N>(s: Net<N>, entries: seq<Entry>, p: nat, i: nat)
    requires Mapped(s) && 0 < i <= |s.nodes| && Close(s, i - 1).Some? && Unwanted(s, entries, i - 1) && p < i - 1
    ensures Mapped(Close(s, i - 1).value)
    ensures Unclosable(Close(s, i - 1).value, entries, p, i - 1) <==> Unclosable(s, entries, p, i)
  {
    CloseMapped(s, i - 1);
    CloseOneKeeps(s, entries, i);
    var t := Close(s, i - 1).value;
    assert t.nodes[..i - 1][p] == s.nodes[..i - 1][p];
    var key := s.info[s.nodes[p]].key;
    IndexAfterClose(s, i, key);
    if key in s.index {
      forall m | m in s.index[key]
        ensures ClosedBetween(s, entries, p, i, m) <==> m == s.nodes[i - 1] || ClosedBetween(t, entries, p, i - 1, m)
      {
        BetweenAfterClose(s, entries, p, i, m);
      }
      SameUnclosable(s, t, entries, p, i, key);
    }
  }

  lemma SameUnclosable<N>(s: Net<N>, t: Net<N>, entries: seq<Entry>, p: nat, i: nat, key: string)
    requires Mapped(s) && Mapped(t) && 0 < i <= |s.nodes| && key in s.index
    requires key !in t.index ==> forall m | m in s.index[key] :: m == s.nodes[i - 1]
    requires key in t.index ==> forall m | m in t.index[key] :: m in s.index[key] && m != s.nodes[i - 1]
    requires key in t.index ==> forall m | m in s.index[key] && m != s.nodes[i - 1] :: m in t.index[key]
    requires forall m | m in s.index[key] ::
               ClosedBetween(s, entries, p, i, m) <==> m == s.nodes[i - 1] || ClosedBetween(t, entries, p, i - 1, m)
    ensures (forall m | m in s.index[key] :: ClosedBetween(s, entries, p, i, m))
       <==> (key in t.index ==> forall m | m in t.index[key] :: ClosedBetween(t, entries, p, i - 1, m))
  {
  }

  ghost predicate SomeUnclosable<N>(s: Net<N>, entries: seq<Entry>, i: nat)
    requires Mapped(s)
  {
    exists p: nat :: p < i && Unclosable(s, entries, p, i)
  }

  /** The last of the first `i` nodes that cannot be closed. */
  ghost predicate ThrowsAt<N>(s: Net<N>, entries: seq<Entry>, i: nat, at: nat)
    requires Mapped(s)
  {
    at < i && Unclosable(s, entries, at, i) && forall p: nat | at < p < i :: !Unclosable(s, entries, p, i)
  }

  lemma SameThrow<N>(s: Net<N>, t: Net<N>, entries: seq<Entry>, i: nat)
    requires Mapped(s) && Mapped(t) && i > 0 && !Unclosable(s, entries, i - 1, i)
    requires forall p: nat | p < i - 1 :: Unclosable(t, entries, p, i - 1) <==> Unclosable(s, entries, p, i)
    ensures SomeUnclosable(t, entries, i - 1) <==> SomeUnclosable(s, entries, i)
    ensures forall at: nat | ThrowsAt(t, entries, i - 1, at) :: ThrowsAt(s, entries, i, at)
  {
    if SomeUnclosable(s, entries, i) {
      var p: nat :| p < i && Unclosable(s, entries, p, i);
      assert p < i - 1 && Unclosable(t, entries, p, i - 1);
    }
    var j := i - 1;
    if SomeUnclosable(t, entries, j) {
      var p: nat :| p < j && Unclosable(t, entries, p, j);
      assert Unclosable(s, entries, p, i);
    }
  }

  /**
   Closing throws exactly when some unwanted node cannot be closed when its turn comes: its key is not
   indexed, or all the indexed nodes of its key are unwanted ones that come after it in the node list.
   The last such node throws.
   */
  lemma {:induction false} ClosingThrowsIff<N>(s: Net<N>, entries: seq<Entry>, i: nat)
    requires Mapped(s) && i <= |s.nodes|
    ensures var r := CloseUnwanted(s, entries, i);
            (r.Threw? <==> SomeUnclosable(s, entries, i)) && (r.Threw? ==> ThrowsAt(s, entries, i, r.at))
    decreases i
  {
    if i > 0 {
      if !Unwanted(s, entries, i - 1) {
        ClosingThrowsIff(s, entries, i - 1);
        forall p: nat | p < i - 1 ensures Unclosable(s, entries, p, i - 1) <==> Unclosable(s, entries, p, i) {
          UnclosableFewer(s, entries, p, i);
        }
        SameThrow(s, s, entries, i);
      } else {
        LastUnclosable(s, entries, i);
        if Close(s, i - 1).Some? {
          ThrowsAfterClose(s, entries, i);
          ClosingThrowsIff(Close(s, i - 1).value, entries, i - 1);
        }
      }
    }
  }

  lemma ThrowsAfterClose<N>(s: Net<N>, entries: seq<Entry>, i: nat)
    requires Mapped(s) && 0 < i <= |s.nodes| && Unwanted(s, entries, i - 1) && Close(s, i - 1).Some?
    ensures var t := Close(s, i - 1).value;
            && Mapped(t) && |t.nodes| == |s.nodes| - 1
            && (SomeUnclosable(t, entries, i - 1) <==> SomeUnclosable(s, entries, i))
            && forall at: nat | ThrowsAt(t, entries, i - 1, at) :: ThrowsAt(s, entries, i, at)
  {
    CloseMapped(s, i - 1);
    CloseOneKeeps(s, entries, i);
    LastUnclosable(s, entries, i);
    var t := Close(s, i - 1).value;
    forall p: nat | p < i - 1 ensures Unclosable(t, entries, p, i - 1) <==> Unclosable(s, entries, p, i) {
      UnclosableAfterClose(s, entries, p, i);
    }
    SameThrow(s, t, entries, i);
  }

  lemma LastUnclosable<N>(s: Net<N>, entries: seq<Entry>, i: nat)
    requires Mapped(s) && 0 < i <= |s.nodes| && Unwanted(s, entries, i - 1)
    ensures Unclosable(s, entries, i - 1, i) <==> Close(s, i - 1).None?
  {
    var key := s.info[s.nodes[i - 1]].key;
    if key in s.index {
      assert Listed(s, s.index[key], key);
      assert s.index[key][0] in s.index[key];
      assert !ClosedBetween(s, entries, i - 1, i, s.index[key][0]);
    }
  }
}
