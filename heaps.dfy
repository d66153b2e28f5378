/** The array-backed binary heap of `heapClass.js`. The same class, line for
    line, appears in `heapClass.ts`, in `heapify.js` (numbers only, no
    property key, and a `pop` that yields `undefined` on an empty heap) and
    as the open list of the grid search in `astar.ts` / `astar.js`. */
module Heaps {
  import opened Wrappers
  import opened HeapOrder
  import opened Seqs

  /** A heap over `arr`: the root at slot 0, the children of slot `i` at
      `2i+1` and `2i+2`. Order "max" keeps the largest `key` at the root,
      any other order the smallest. `key` reads the compared property of an
      element (the source's `prop`; the element itself when no property is
      set). It is a variable because the elements are objects whose compared
      property their owner may change while they sit in the heap. */
  class Heap<T> {
    var arr: seq<T>
    const order: string
    var key: T -> int

    constructor(a: seq<T>, order: string, key: T -> int)
      ensures arr == a && this.order == order && this.key == key
    {
      arr := a;
      this.order := order;
      this.key := key;
    }

    /** The key oriented so that a larger rank is closer to the root. */
    function Rank(): T -> int
      reads this
    {
      var k := key;
      if order == "max" then k else (x: T) => -k(x)
    }

    /** `_compare(a, b, equals)`. */
    function Compare(a: T, b: T, equals: bool): (r: bool)
      reads this
      ensures r == Precedes(Rank(), a, b, equals)
    {
      if !equals then
        if order == "max" then key(a) > key(b) else key(a) < key(b)
      else
        if order == "max" then key(a) >= key(b) else key(a) <= key(b)
    }

    /** The owner of the elements changed their compared property: the heap
        now compares by `k`, and holds the same array. */
    method Rekey(k: T -> int)
      modifies this
      ensures arr == old(arr) && key == k
    {
      key := k;
    }

    /** The `size` getter. */
    function Size(): nat
      reads this
    {
      |arr|
    }

    /** `insert`: append, then let the new element climb. */
    method Insert(a: T)
      modifies this
      ensures key == old(key)
      ensures |arr| == old(|arr|) + 1
      ensures multiset(arr) == old(multiset(arr)) + multiset{a}
      ensures Ordered(old(arr), Rank()) ==> Ordered(arr, Rank())
    {
      ghost var s := arr;
      arr := arr + [a];
      if Ordered(s, Rank()) {
        AppendAlmostUp(s, a, Rank());
      }
      BubbleUp(|arr| - 1);
    }

    /** `_bubbleUp`: swap with the parent while strictly better than it. */
    method BubbleUp(startIndex: int)
      modifies this
      requires 0 <= startIndex < |arr|
      ensures key == old(key)
      ensures |arr| == old(|arr|) && multiset(arr) == old(multiset(arr))
      ensures AlmostUp(old(arr), startIndex, Rank()) ==> Ordered(arr, Rank())
      decreases startIndex
    {
      if startIndex == 0 {
        if AlmostUp(arr, startIndex, Rank()) {
          AlmostUpDone(arr, startIndex, Rank());
        }
        return;
      }
      var si := startIndex + 1;
      var parentIndex := (si - si % 2) / 2 - 1;
      ghost var s := arr;
      if Compare(arr[startIndex], arr[parentIndex], false) {
        arr := Swap(arr, startIndex, parentIndex);
        if AlmostUp(s, startIndex, Rank()) {
          AlmostUpStep(s, startIndex, Rank());
        }
      } else {
        if AlmostUp(s, startIndex, Rank()) {
          AlmostUpDone(s, startIndex, Rank());
        }
        return;
      }
      BubbleUp(parentIndex);
    }

    /** `pop` of `heapify.js`: move the last element to the root, remove and
        return the old root, and let the new root sink. An empty heap yields
        `undefined` and is left as it was. */
    method PopOrUndefined() returns (p: Option<T>)
      modifies this
      ensures key == old(key)
      ensures old(|arr|) == 0 ==> p == None && arr == old(arr)
      ensures old(|arr|) > 0 ==>
                && p == Some(old(arr[0]))
                && |arr| == old(|arr|) - 1
                && multiset(arr) + multiset{p.value} == old(multiset(arr))
      ensures Ordered(old(arr), Rank()) ==> Ordered(arr, Rank())
    {
      if |arr| == 0 {
        return None;
      }
      ghost var s := arr;
      var l := |arr| - 1;
      arr := Swap(arr, 0, l);
      var top := arr[l];
      assert arr == arr[..l] + [top];
      arr := arr[..l];
      if Ordered(s, Rank()) {
        DropLastAlmostDown(s, Rank());
      }
      Heapify(0);
      return Some(top);
    }

    /** `pop` of `heapClass.js` and `heapClass.ts`, which throws when the
        removed element is `undefined`, that is, when the heap was empty. */
    method Pop() returns (r: Result<T>)
      modifies this
      ensures key == old(key)
      ensures old(|arr|) == 0 ==> r == Err("Error popping heap") && arr == old(arr)
      ensures old(|arr|) > 0 ==>
                && r == Ok(old(arr[0]))
                && |arr| == old(|arr|) - 1
                && multiset(arr) + multiset{r.value} == old(multiset(arr))
      ensures Ordered(old(arr), Rank()) ==> Ordered(arr, Rank())
    {
      var p := PopOrUndefined();
      if p.None? {
        return Err("Error popping heap");
      }
      return Ok(p.value);
    }

    /** `_heapify`: swap with the better child while that child is at least
        as good, preferring the left child only when it is strictly better
        than the right one. */
    method Heapify(startIndex: int)
      modifies this
      requires 0 <= startIndex
      ensures key == old(key)
      ensures |arr| == old(|arr|) && multiset(arr) == old(multiset(arr))
      ensures AlmostDown(old(arr), startIndex, Rank()) ==> Ordered(arr, Rank())
      decreases |arr| - startIndex
    {
      if startIndex > |arr| {
        if AlmostDown(arr, startIndex, Rank()) {
          AlmostDownDone(arr, startIndex, Rank());
        }
        return;
      }
      var child1 := startIndex * 2 + 1;
      var child2 := startIndex * 2 + 2;
      var child1Exists := child1 < |arr|;
      var child2Exists := child2 < |arr|;
      var finalIndex := -1;
      ghost var s := arr;
      if child1Exists && !Compare(arr[startIndex], arr[child1], false) {
        if child2Exists && Compare(arr[child1], arr[child2], false) {
          SinkTo(s, startIndex, child1, Rank());
          arr := Swap(arr, startIndex, child1);
          finalIndex := child1;
        } else if child2Exists {
          SinkTo(s, startIndex, child2, Rank());
          arr := Swap(arr, startIndex, child2);
          finalIndex := child2;
        } else {
          SinkTo(s, startIndex, child1, Rank());
          arr := Swap(arr, startIndex, child1);
          finalIndex := child1;
        }
      } else if child2Exists && !Compare(arr[startIndex], arr[child2], false) {
        SinkTo(s, startIndex, child2, Rank());
        arr := Swap(arr, startIndex, child2);
        finalIndex := child2;
      } else {
        if AlmostDown(s, startIndex, Rank()) {
          AlmostDownDone(s, startIndex, Rank());
        }
        return;
      }
      if finalIndex != -1 {
        Heapify(finalIndex);
      }
    }

    /** `_initHeapify`: empty the stored array from its end, inserting each
        element into a fresh heap. */
    method InitHeapify()
      modifies this
      ensures key == old(key)
      ensures multiset(arr) == old(multiset(arr))
      ensures Ordered(arr, Rank())
    {
      var tempArr := arr;
      arr := [];
      while |tempArr| > 0
        invariant key == old(key)
        invariant multiset(arr) + multiset(tempArr) == old(multiset(arr))
        invariant Ordered(arr, Rank())
      {
        var p := tempArr[|tempArr| - 1];
        assert tempArr == tempArr[..|tempArr| - 1] + [p];
        tempArr := tempArr[..|tempArr| - 1];
        Insert(p);
      }
    }

    /** `sort`: rebuild the heap, then pop it dry. The array the heap held
        before is the very array `_initHeapify` drained, so reinstalling it
        leaves the heap empty. */
    method Sort() returns (sortedArr: seq<T>)
      modifies this
      ensures key == old(key)
      ensures multiset(sortedArr) == old(multiset(arr))
      ensures forall i, j :: 0 <= i < j < |sortedArr| ==> Rank()(sortedArr[i]) >= Rank()(sortedArr[j])
      ensures arr == []
    {
      InitHeapify();
      ghost var rank := Rank();
      sortedArr := [];
      while |arr| > 0
        invariant key == old(key) && Rank() == rank
        invariant Ordered(arr, rank)
        invariant multiset(sortedArr) + multiset(arr) == old(multiset(arr))
        invariant DrainedInOrder(sortedArr, arr, rank)
        decreases |arr|
      {
        ghost var s := arr;
        var p := Pop();
        DrainStep(sortedArr, s, arr, rank);
        sortedArr := sortedArr + [p.value];
      }
      arr := [];
    }
  }
}

/** The fixtures of `heapClass.test.js`, run through the model. */
module HeapFixtures {
  import opened Wrappers
  import opened HeapOrder
  import opened Heaps

  function ValidMaxHeap(): seq<int> { [150, 40, 80, 39, 3, 79, 77, 36, 2, 1, 0, 40] }

  function ValidMinHeap(): seq<int> { [0, 1, 5, 3, 5, 7, 8, 4, 5, 6, 6] }

  /** The key of a heap of plain numbers: the number itself. */
  function Id(x: int): int { x }

  /** The max-heap fixture is a heap, so it passes the check. */
  lemma MaxFixtureValid()
    ensures IsValidHeap(ValidMaxHeap(), 0, Id)
  {
    var s := ValidMaxHeap();
    forall i | 0 < i < |s|
      ensures Id(s[ParentIndex(i)]) >= Id(s[i])
    {
    }
    assert Ordered(s, Id);
  }

  /** The min-heap fixture fails the check when read as a max-heap: its
      root is below its left child. */
  lemma MinFixtureInvalidAsMax()
    ensures !IsValidHeap(ValidMinHeap(), 0, Id)
  {
    var s := ValidMinHeap();
    assert !Precedes(Id, s[0], s[1], true);
  }

  /** Popping the max-heap fixture yields 150. */
  method PopFixture() returns (s: Result<int>)
    ensures s == Ok(150)
  {
    var p := new Heap(ValidMaxHeap(), "max", Id);
    s := p.Pop();
  }

  /** Sorting the max-heap fixture yields its elements, largest first. */
  method SortMaxFixture() returns (sorted: seq<int>)
    ensures multiset(sorted) == multiset(ValidMaxHeap())
    ensures forall i :: 0 < i < |sorted| ==> sorted[i] <= sorted[i - 1]
  {
    var p := new Heap(ValidMaxHeap(), "max", Id);
    sorted := p.Sort();
  }

  /** Sorting the min-heap fixture yields its elements, smallest first. */
  method SortMinFixture() returns (sorted: seq<int>)
    ensures multiset(sorted) == multiset(ValidMinHeap())
    ensures forall i :: 0 < i < |sorted| ==> sorted[i] >= sorted[i - 1]
  {
    var p := new Heap(ValidMinHeap(), "min", Id);
    sorted := p.Sort();
    assert p.order == "min" && p.key == Id;
    forall i | 0 < i < |sorted|
      ensures sorted[i] >= sorted[i - 1]
    {
      assert p.Rank()(sorted[i - 1]) >= p.Rank()(sorted[i]);
    }
  }

  /** Inserting 300 into the max-heap fixture keeps it a valid heap. */
  method InsertMaxFixture() returns (valid: bool)
    ensures valid
  {
    var p := new Heap(ValidMaxHeap(), "max", Id);
    assert Ordered(p.arr, p.Rank());
    p.Insert(300);
    valid := IsValidHeap(p.arr, 0, p.Rank());
  }

  /** Inserting -1 into the min-heap fixture keeps it a valid heap. */
  method InsertMinFixture() returns (valid: bool)
    ensures valid
  {
    var p := new Heap(ValidMinHeap(), "min", Id);
    assert Ordered(p.arr, p.Rank());
    p.Insert(-1);
    valid := IsValidHeap(p.arr, 0, p.Rank());
  }

  /** A heap over `r` zeros reports size `r`, and after sorting it is empty. */
  method SizeFixture(r: nat) returns (before: nat, after: nat)
    ensures before == r && after == 0
  {
    var p := new Heap(seq(r, _ => 0), "min", Id);
    before := p.Size();
    var _ := p.Sort();
    after := p.Size();
  }
}
