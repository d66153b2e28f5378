/** The order an array-backed binary heap keeps, stated on sequences.
    Elements are compared through a `rank`: the key itself for a max-heap and
    its negation for a min-heap, so "precedes" always means "has the larger
    rank". */
module HeapOrder {
  import opened Seqs

  /** `_compare(a, b, equals)` on ranks: strictly better, or better-or-equal
      when `equals` is set. */
  predicate Precedes<T>(rank: T -> int, a: T, b: T, equals: bool)
  {
    if equals then rank(a) >= rank(b) else rank(a) > rank(b)
  }

  /** The parent of slot `i`, written as the source computes it from the
      one-based position `i + 1`. */
  function ParentIndex(i: int): (p: int)
    requires i >= 1
    ensures 0 <= p < i
    ensures i == 2 * p + 1 || i == 2 * p + 2
  {
    var si := i + 1;
    (si - si % 2) / 2 - 1
  }

  /** Heap order: no slot has a larger rank than its parent. */
  predicate Ordered<T>(s: seq<T>, rank: T -> int)
  {
    forall i :: 0 < i < |s| ==> rank(s[ParentIndex(i)]) >= rank(s[i])
  }

  /** The state while an element climbs from slot `i`: heap order holds
      everywhere except between `i` and its parent, and `i`'s parent already
      dominates `i`'s children. */
  predicate AlmostUp<T>(s: seq<T>, i: int, rank: T -> int)
  {
    && 0 <= i < |s|
    && (forall j :: 0 < j < |s| && j != i ==> rank(s[ParentIndex(j)]) >= rank(s[j]))
    && (i > 0 ==> forall j :: 0 < j < |s| && ParentIndex(j) == i ==>
                              rank(s[ParentIndex(i)]) >= rank(s[j]))
  }

  /** The state while an element sinks from slot `i`: heap order holds
      everywhere except between `i` and its children, and `i`'s parent
      already dominates `i`'s children. */
  predicate AlmostDown<T>(s: seq<T>, i: int, rank: T -> int)
  {
    && 0 <= i
    && (forall j :: 0 < j < |s| && ParentIndex(j) != i ==> rank(s[ParentIndex(j)]) >= rank(s[j]))
    && (0 < i < |s| ==> forall j :: 0 < j < |s| && ParentIndex(j) == i ==>
                                rank(s[ParentIndex(i)]) >= rank(s[j]))
  }

  /** Appending to a heap leaves it almost ordered at the new last slot. */
  lemma AppendAlmostUp<T>(s: seq<T>, x: T, rank: T -> int)
    requires Ordered(s, rank)
    ensures AlmostUp(s + [x], |s|, rank)
  {
    var t := s + [x];
    forall j | 0 < j < |t| && j != |s|
      ensures rank(t[ParentIndex(j)]) >= rank(t[j])
    {
      assert t[j] == s[j] && t[ParentIndex(j)] == s[ParentIndex(j)];
    }
  }

  /** Climbing stops at the root or below a parent that is not worse. */
  lemma AlmostUpDone<T>(s: seq<T>, i: int, rank: T -> int)
    requires AlmostUp(s, i, rank)
    requires i == 0 || !Precedes(rank, s[i], s[ParentIndex(i)], false)
    ensures Ordered(s, rank)
  {
  }

  /** One climbing step: swapping with a worse parent moves the defect up. */
  lemma AlmostUpStep<T>(s: seq<T>, i: int, rank: T -> int)
    requires AlmostUp(s, i, rank) && i > 0
    requires Precedes(rank, s[i], s[ParentIndex(i)], false)
    ensures AlmostUp(Swap(s, i, ParentIndex(i)), ParentIndex(i), rank)
  {
    var p := ParentIndex(i);
    var t := Swap(s, i, p);
    forall j | 0 < j < |t| && j != p
      ensures rank(t[ParentIndex(j)]) >= rank(t[j])
    {
      ClimbStepAt(s, i, rank, j);
    }
    if p > 0 {
      var g := ParentIndex(p);
      forall j | 0 < j < |t| && ParentIndex(j) == p
        ensures rank(t[g]) >= rank(t[j])
      {
        assert rank(s[g]) >= rank(s[p]);
        if j != i {
          assert rank(s[p]) >= rank(s[j]);
        }
      }
    }
  }

  /** The parent relation of one slot `j` after a climbing step. */
  lemma ClimbStepAt<T>(s: seq<T>, i: int, rank: T -> int, j: int)
    requires AlmostUp(s, i, rank) && i > 0
    requires Precedes(rank, s[i], s[ParentIndex(i)], false)
    requires 0 < j < |s| && j != ParentIndex(i)
    ensures var t := Swap(s, i, ParentIndex(i)); rank(t[ParentIndex(j)]) >= rank(t[j])
  {
    var p := ParentIndex(i);
    var t := Swap(s, i, p);
    var q := ParentIndex(j);
    if j == i {
      assert t[q] == s[i] && t[j] == s[p];
    } else if q == p {
      assert t[q] == s[i] && t[j] == s[j];
      assert rank(s[p]) >= rank(s[j]);
    } else if q == i {
      assert t[q] == s[p] && t[j] == s[j];
    } else {
      assert t[j] == s[j] && t[q] == s[q];
    }
  }

  /** Removing the last slot keeps every remaining parent relation. */
  lemma DropLastAlmostDown<T>(s: seq<T>, rank: T -> int)
    requires |s| > 0 && Ordered(s, rank)
    ensures AlmostDown(Swap(s, 0, |s| - 1)[..|s| - 1], 0, rank)
  {
    var l := |s| - 1;
    var t := Swap(s, 0, l)[..l];
    forall j | 0 < j < |t| && ParentIndex(j) != 0
      ensures rank(t[ParentIndex(j)]) >= rank(t[j])
    {
      assert t[j] == s[j] && t[ParentIndex(j)] == s[ParentIndex(j)];
    }
  }

  /** Sinking stops when no child is better than the slot. */
  lemma AlmostDownDone<T>(s: seq<T>, i: int, rank: T -> int)
    requires AlmostDown(s, i, rank)
    requires 2 * i + 1 < |s| ==> Precedes(rank, s[i], s[2 * i + 1], false)
    requires 2 * i + 2 < |s| ==> Precedes(rank, s[i], s[2 * i + 2], false)
    ensures Ordered(s, rank)
  {
    forall j | 0 < j < |s| && ParentIndex(j) == i
      ensures rank(s[i]) >= rank(s[j])
    {
    }
  }

  /** One sinking step: swapping with a child that dominates both the slot
      and its sibling moves the defect down to that child. */
  lemma AlmostDownStep<T>(s: seq<T>, i: int, c: int, rank: T -> int)
    requires AlmostDown(s, i, rank)
    requires c == 2 * i + 1 || c == 2 * i + 2
    requires c < |s| && rank(s[c]) >= rank(s[i])
    requires 2 * i + 1 < |s| ==> rank(s[c]) >= rank(s[2 * i + 1])
    requires 2 * i + 2 < |s| ==> rank(s[c]) >= rank(s[2 * i + 2])
    ensures AlmostDown(Swap(s, i, c), c, rank)
  {
    var t := Swap(s, i, c);
    forall j | 0 < j < |t| && ParentIndex(j) != c
      ensures rank(t[ParentIndex(j)]) >= rank(t[j])
    {
      SinkStepAt(s, i, c, rank, j);
    }
    forall j | 0 < j < |t| && ParentIndex(j) == c
      ensures rank(t[i]) >= rank(t[j])
    {
      assert t[j] == s[j];
    }
  }

  /** The parent relation of one slot `j` after a sinking step. */
  lemma SinkStepAt<T>(s: seq<T>, i: int, c: int, rank: T -> int, j: int)
    requires AlmostDown(s, i, rank)
    requires c == 2 * i + 1 || c == 2 * i + 2
    requires c < |s| && rank(s[c]) >= rank(s[i])
    requires 2 * i + 1 < |s| ==> rank(s[c]) >= rank(s[2 * i + 1])
    requires 2 * i + 2 < |s| ==> rank(s[c]) >= rank(s[2 * i + 2])
    requires 0 < j < |s| && ParentIndex(j) != c
    ensures var t := Swap(s, i, c); rank(t[ParentIndex(j)]) >= rank(t[j])
  {
    var t := Swap(s, i, c);
    var q := ParentIndex(j);
    if j == c {
      assert q == i;
    } else if q == i {
      assert t[j] == s[j] && t[q] == s[c];
    } else if j == i {
      assert t[q] == s[q] && t[j] == s[c];
    } else {
      assert t[j] == s[j] && t[q] == s[q];
    }
  }

  /** A sinking step from an almost ordered state stays almost ordered. */
  lemma SinkTo<T>(s: seq<T>, i: int, c: int, rank: T -> int)
    requires 0 <= i
    requires c == 2 * i + 1 || c == 2 * i + 2
    requires c < |s| && rank(s[c]) >= rank(s[i])
    requires 2 * i + 1 < |s| ==> rank(s[c]) >= rank(s[2 * i + 1])
    requires 2 * i + 2 < |s| ==> rank(s[c]) >= rank(s[2 * i + 2])
    ensures AlmostDown(s, i, rank) ==> AlmostDown(Swap(s, i, c), c, rank)
  {
    if AlmostDown(s, i, rank) {
      AlmostDownStep(s, i, c, rank);
    }
  }

  /** The root of a heap has the largest rank. */
  lemma {:induction false} RootIsBest<T>(s: seq<T>, rank: T -> int, k: int)
    requires Ordered(s, rank) && 0 <= k < |s|
    ensures rank(s[0]) >= rank(s[k])
    decreases k
  {
    if k > 0 {
      RootIsBest(s, rank, ParentIndex(k));
    }
  }

  /** Every element of a heap is dominated by the root. */
  lemma RootDominates<T>(s: seq<T>, rank: T -> int, x: T)
    requires Ordered(s, rank) && x in s
    ensures rank(s[0]) >= rank(x)
  {
    var m :| 0 <= m < |s| && s[m] == x;
    RootIsBest(s, rank, m);
  }

  /** `isValidHeap(i)` as written: every slot of the subtree at `i` is
      compared (non-strictly) with its left child only; the right child is
      never compared with its parent. */
  function IsValidHeap<T>(s: seq<T>, i: int, rank: T -> int): (r: bool)
    requires i >= 0
    ensures Ordered(s, rank) ==> r
    decreases |s| - i
  {
    if i >= |s| then true
    else
      var child1 := i * 2 + 1;
      var child2 := child1 + 1;
      assert ParentIndex(child1) == i && ParentIndex(child2) == i;
      (child1 >= |s| || Precedes(rank, s[i], s[child1], true))
      && IsValidHeap(s, child1, rank) && IsValidHeap(s, child2, rank)
  }

  /** The check as written accepts a max-heap whose root is smaller than
      its right child. */
  lemma IsValidHeapMissesRightChild()
    ensures IsValidHeap([5, 4, 9], 0, (x: int) => x)
    ensures !Ordered([5, 4, 9], (x: int) => x)
  {
    assert ParentIndex(2) == 0;
  }

  /** The check with the right child compared as well. */
  function IsValidHeapBothChildren<T>(s: seq<T>, i: int, rank: T -> int): (r: bool)
    requires i >= 0
    ensures Ordered(s, rank) ==> r
    decreases |s| - i
  {
    if i >= |s| then true
    else
      var child1 := i * 2 + 1;
      var child2 := child1 + 1;
      assert ParentIndex(child1) == i && ParentIndex(child2) == i;
      (child1 >= |s| || Precedes(rank, s[i], s[child1], true))
      && (child2 >= |s| || Precedes(rank, s[i], s[child2], true))
      && IsValidHeapBothChildren(s, child1, rank) && IsValidHeapBothChildren(s, child2, rank)
  }

  /** A passing check at the root reaches every slot. */
  lemma {:induction false} BothChildrenReachesAll<T>(s: seq<T>, rank: T -> int, k: int)
    requires IsValidHeapBothChildren(s, 0, rank) && 0 <= k < |s|
    ensures IsValidHeapBothChildren(s, k, rank)
    decreases k
  {
    if k > 0 {
      BothChildrenReachesAll(s, rank, ParentIndex(k));
    }
  }

  /** The corrected check accepts exactly the heaps. */
  lemma IsValidHeapBothChildrenExact<T>(s: seq<T>, rank: T -> int)
    ensures IsValidHeapBothChildren(s, 0, rank) <==> Ordered(s, rank)
  {
    if IsValidHeapBothChildren(s, 0, rank) {
      forall j | 0 < j < |s|
        ensures rank(s[ParentIndex(j)]) >= rank(s[j])
      {
        BothChildrenReachesAll(s, rank, ParentIndex(j));
      }
    }
  }

  /** While a heap is drained: what was taken is in rank order, and nothing
      left ranks above anything taken. */
  ghost predicate DrainedInOrder<T>(taken: seq<T>, rest: seq<T>, rank: T -> int)
  {
    && (forall i, j :: 0 <= i < j < |taken| ==> rank(taken[i]) >= rank(taken[j]))
    && (forall i, x :: 0 <= i < |taken| && x in rest ==> rank(taken[i]) >= rank(x))
  }

  /** Taking the root of a heap continues a drain in order. */
  lemma DrainStep<T>(taken: seq<T>, s: seq<T>, rest: seq<T>, rank: T -> int)
    requires Ordered(s, rank) && |s| > 0
    requires multiset(rest) + multiset{s[0]} == multiset(s)
    requires DrainedInOrder(taken, s, rank)
    ensures DrainedInOrder(taken + [s[0]], rest, rank)
  {
    var t := taken + [s[0]];
    forall i, x | 0 <= i < |t| && x in rest
      ensures rank(t[i]) >= rank(x)
    {
      assert x in multiset(s);
      RootDominates(s, rank, x);
      if i < |taken| {
        assert t[i] == taken[i];
      }
    }
    forall i, j | 0 <= i < j < |t|
      ensures rank(t[i]) >= rank(t[j])
    {
      if j < |taken| {
        assert t[i] == taken[i] && t[j] == taken[j];
      } else {
        assert t[i] == taken[i] && s[0] in s;
      }
    }
  }
}
