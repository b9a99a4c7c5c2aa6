/**
 * `BlockMetaHeap`: a slice of blocks that Go's `container/heap` keeps as a
 * binary heap. Its `Less` compares with `>` on the object count, which turns
 * the library's min-heap into a max-heap: the root holds a block with the
 * most objects.
 *
 * The library functions the selector calls (`heap.Push`, `heap.Pop` and
 * their sift helpers `up` and `down`) are modelled as the textbook binary
 * heap operations they are, built only from the type's own `Len`, `Less`,
 * `Swap`, `Push` and `Pop`. Each method is specified by a function on the
 * slice's contents; the lemmas prove that those functions keep the heap
 * order and lose no block.
 */
module BlockHeap {
  import opened Blocks

  /** The parent of slot `k` in the implicit binary tree. */
  function Parent(k: nat): nat
    requires k > 0
  {
    (k - 1) / 2
  }

  /** The slice after `Swap(i, j)`. */
  function Swapped(s: seq<BlockMeta>, i: nat, j: nat): (r: seq<BlockMeta>)
    requires i < |s| && j < |s|
    ensures |r| == |s| && r[i] == s[j] && r[j] == s[i]
    ensures forall k :: 0 <= k < |s| && k != i && k != j ==> r[k] == s[k]
  {
    s[i := s[j]][j := s[i]]
  }

  /** A swap loses and gains no block. */
  lemma SwappedPerm(s: seq<BlockMeta>, i: nat, j: nat)
    requires i < |s| && j < |s|
    ensures multiset(Swapped(s, i, j)) == multiset(s)
  {
  }

  /** Heap order on the first `n` slots: no child holds more objects than its
      parent. */
  ghost predicate HeapPrefix(s: seq<BlockMeta>, n: nat)
    requires n <= |s|
  {
    forall k :: 0 < k < n ==> s[Parent(k)].totalObjects >= s[k].totalObjects
  }

  ghost predicate IsMaxHeap(s: seq<BlockMeta>) {
    HeapPrefix(s, |s|)
  }

  /** In a heap every block holds at most as many objects as the root. */
  lemma {:induction false} RootIsMax(s: seq<BlockMeta>, n: nat, k: nat)
    requires n <= |s| && HeapPrefix(s, n) && k < n
    ensures s[0].totalObjects >= s[k].totalObjects
    decreases k
  {
    if k > 0 {
      RootIsMax(s, n, Parent(k));
    }
  }

  /* ---- container/heap `up`, used by `heap.Push` ---- */

  /** Heap order everywhere except on the edge into slot `j`, whose parent
      still dominates `j`'s children: the state `up` works in. */
  ghost predicate HeapExceptUp(s: seq<BlockMeta>, j: nat)
    requires j < |s|
  {
    (forall k :: 0 < k < |s| && k != j ==> s[Parent(k)].totalObjects >= s[k].totalObjects) &&
    (j > 0 ==> forall k :: 0 < k < |s| && Parent(k) == j ==> s[Parent(j)].totalObjects >= s[k].totalObjects)
  }

  /** Move the block at `j` towards the root while it holds more objects
      than its parent. */
  function SiftUp(s: seq<BlockMeta>, j: nat): (r: seq<BlockMeta>)
    requires j < |s|
    decreases j
    ensures |r| == |s|
  {
    if j == 0 then s
    else
      var i := Parent(j);
      if !(s[j].totalObjects > s[i].totalObjects) then s
      else SiftUp(Swapped(s, i, j), i)
  }

  /** `SiftUp` only reorders the slice. */
  lemma {:induction false} SiftUpPerm(s: seq<BlockMeta>, j: nat)
    requires j < |s|
    decreases j
    ensures multiset(SiftUp(s, j)) == multiset(s)
  {
    if j > 0 && s[j].totalObjects > s[Parent(j)].totalObjects {
      SwappedPerm(s, Parent(j), j);
      SiftUpPerm(Swapped(s, Parent(j), j), Parent(j));
    }
  }

  lemma {:induction false} SiftUpRestores(s: seq<BlockMeta>, j: nat)
    requires j < |s| && HeapExceptUp(s, j)
    ensures IsMaxHeap(SiftUp(s, j))
    decreases j
  {
    if j > 0 {
      var i := Parent(j);
      if s[j].totalObjects > s[i].totalObjects {
        var t := Swapped(s, i, j);
        forall k | 0 < k < |t| && k != i
          ensures t[Parent(k)].totalObjects >= t[k].totalObjects
        {
          if k == j {
          } else if Parent(k) == j {
            assert t[k] == s[k];
          } else if Parent(k) == i {
            assert t[k] == s[k];
          } else {
            assert t[k] == s[k] && t[Parent(k)] == s[Parent(k)];
          }
        }
        if i > 0 {
          forall k | 0 < k < |t| && Parent(k) == i
            ensures t[Parent(i)].totalObjects >= t[k].totalObjects
          {
            assert t[Parent(i)] == s[Parent(i)];
            if k != j {
              assert t[k] == s[k];
            }
          }
        }
        SiftUpRestores(t, i);
      }
    }
  }

  /** `heap.Push`: append, then sift the new block up. */
  function PushHeap(s: seq<BlockMeta>, x: BlockMeta): (r: seq<BlockMeta>)
    ensures |r| == |s| + 1
  {
    SiftUp(s + [x], |s|)
  }

  /** Pushing onto a heap gives a heap. */
  lemma PushHeapCorrect(s: seq<BlockMeta>, x: BlockMeta)
    requires IsMaxHeap(s)
    ensures IsMaxHeap(PushHeap(s, x))
  {
    var t := s + [x];
    assert forall k :: 0 < k < |s| ==> t[k] == s[k] && t[Parent(k)] == s[Parent(k)];
    assert HeapExceptUp(t, |s|);
    SiftUpRestores(t, |s|);
  }

  /** Pushing adds exactly `x`. */
  lemma PushHeapPerm(s: seq<BlockMeta>, x: BlockMeta)
    ensures multiset(PushHeap(s, x)) == multiset(s) + multiset{x}
  {
    SiftUpPerm(s + [x], |s|);
  }

  /* ---- container/heap `down`, used by `heap.Pop` ---- */

  /** Heap order on the first `n` slots except on the edges out of slot `i`,
      whose parent still dominates `i`'s children: the state `down` works in. */
  ghost predicate HeapExceptDown(s: seq<BlockMeta>, i: nat, n: nat)
    requires n <= |s|
  {
    (forall k :: 0 < k < n && Parent(k) != i ==> s[Parent(k)].totalObjects >= s[k].totalObjects) &&
    (i > 0 ==> forall k :: 0 < k < n && Parent(k) == i ==> s[Parent(i)].totalObjects >= s[k].totalObjects)
  }

  /** Move the block at `i` away from the root, within the first `n` slots,
      while one of its children holds more objects; it swaps with the larger
      child (the left one on a tie). Slots from `n` on are untouched. */
  function SiftDown(s: seq<BlockMeta>, i: nat, n: nat): (r: seq<BlockMeta>)
    requires n <= |s|
    decreases n - i
    ensures |r| == |s|
  {
    var j1 := 2 * i + 1;
    if j1 >= n then s
    else
      var j := if j1 + 1 < n && s[j1 + 1].totalObjects > s[j1].totalObjects then j1 + 1 else j1;
      if !(s[j].totalObjects > s[i].totalObjects) then s
      else SiftDown(Swapped(s, i, j), j, n)
  }

  /** `SiftDown` only reorders the slice. */
  lemma {:induction false} SiftDownPerm(s: seq<BlockMeta>, i: nat, n: nat)
    requires n <= |s|
    decreases n - i
    ensures multiset(SiftDown(s, i, n)) == multiset(s)
  {
    var j1 := 2 * i + 1;
    if j1 < n {
      var j := if j1 + 1 < n && s[j1 + 1].totalObjects > s[j1].totalObjects then j1 + 1 else j1;
      SiftDownUnfold(s, i, n, j);
      if s[j].totalObjects > s[i].totalObjects {
        var t := Swapped(s, i, j);
        SwappedPerm(s, i, j);
        SiftDownPerm(t, j, n);
      }
    }
  }

  /** `SiftDown` leaves the slots from `n` on alone. */
  lemma {:induction false} SiftDownKeepsTail(s: seq<BlockMeta>, i: nat, n: nat, k: nat)
    requires n <= k < |s|
    decreases n - i
    ensures SiftDown(s, i, n)[k] == s[k]
  {
    var j1 := 2 * i + 1;
    if j1 < n {
      var j := if j1 + 1 < n && s[j1 + 1].totalObjects > s[j1].totalObjects then j1 + 1 else j1;
      SiftDownUnfold(s, i, n, j);
      if s[j].totalObjects > s[i].totalObjects {
        SiftDownKeepsTail(Swapped(s, i, j), j, n, k);
      }
    }
  }

  /** `j` is the child of `i` that `down` compares `i` with: the right one
      when it holds strictly more objects than the left one. */
  predicate LargerChild(s: seq<BlockMeta>, i: nat, n: nat, j: nat)
    requires n <= |s| && 2 * i + 1 < n
  {
    j == if 2 * i + 2 < n && s[2 * i + 2].totalObjects > s[2 * i + 1].totalObjects then 2 * i + 2 else 2 * i + 1
  }

  /** One step of `SiftDown`: swap with the larger child when it holds more
      objects, or stop. */
  lemma SiftDownUnfold(s: seq<BlockMeta>, i: nat, n: nat, j: nat)
    requires n <= |s| && 2 * i + 1 < n && LargerChild(s, i, n, j)
    ensures s[j].totalObjects > s[i].totalObjects ==> SiftDown(s, i, n) == SiftDown(Swapped(s, i, j), j, n)
    ensures !(s[j].totalObjects > s[i].totalObjects) ==> SiftDown(s, i, n) == s
  {
  }

  lemma {:induction false} SiftDownRestores(s: seq<BlockMeta>, i: nat, n: nat)
    requires n <= |s| && HeapExceptDown(s, i, n)
    ensures HeapPrefix(SiftDown(s, i, n), n)
    decreases n - i
  {
    var j1 := 2 * i + 1;
    if j1 < n {
      var j := if j1 + 1 < n && s[j1 + 1].totalObjects > s[j1].totalObjects then j1 + 1 else j1;
      if s[j].totalObjects > s[i].totalObjects {
        SwapDownStep(s, i, j, n);
        assert SiftDown(s, i, n) == SiftDown(Swapped(s, i, j), j, n);
        SiftDownRestores(Swapped(s, i, j), j, n);
      } else {
        DownSettled(s, i, n);
      }
    } else {
      DownSettled(s, i, n);
    }
  }

  /** One swap of `down` with the larger child `j` moves the defect one
      level down. */
  lemma SwapDownStep(s: seq<BlockMeta>, i: nat, j: nat, n: nat)
    requires n <= |s| && HeapExceptDown(s, i, n)
    requires j == 2 * i + 1 || j == 2 * i + 2
    requires j < n && s[j].totalObjects > s[i].totalObjects
    requires s[j].totalObjects >= s[2 * i + 1].totalObjects
    requires 2 * i + 2 < n ==> s[j].totalObjects >= s[2 * i + 2].totalObjects
    ensures HeapExceptDown(Swapped(s, i, j), j, n)
  {
    var t := Swapped(s, i, j);
    forall k | 0 < k < n && Parent(k) != j
      ensures t[Parent(k)].totalObjects >= t[k].totalObjects
    {
      if k == j {
      } else if Parent(k) == i {
        assert k == 2 * i + 1 || k == 2 * i + 2;
        assert t[k] == s[k];
      } else if k == i {
        assert t[Parent(k)] == s[Parent(k)];
      } else {
        assert t[k] == s[k] && t[Parent(k)] == s[Parent(k)];
      }
    }
    forall k | 0 < k < n && Parent(k) == j
      ensures t[Parent(j)].totalObjects >= t[k].totalObjects
    {
      assert t[k] == s[k];
    }
  }

  /** When no child of `i` holds more objects than `i`, `down` stops and the
      prefix is a heap. */
  lemma DownSettled(s: seq<BlockMeta>, i: nat, n: nat)
    requires n <= |s| && HeapExceptDown(s, i, n)
    requires 2 * i + 1 < n ==> s[i].totalObjects >= s[2 * i + 1].totalObjects
    requires 2 * i + 2 < n ==> s[i].totalObjects >= s[2 * i + 2].totalObjects
    ensures HeapPrefix(s, n)
  {
    forall k | 0 < k < n
      ensures s[Parent(k)].totalObjects >= s[k].totalObjects
    {
      if Parent(k) == i {
        assert k == 2 * i + 1 || k == 2 * i + 2;
      }
    }
  }

  /** `heap.Pop` without its result: swap the root with the last block, sift
      the new root down over the other slots, and drop the last slot (which
      now holds the old root). */
  function HeapRest(s: seq<BlockMeta>): (r: seq<BlockMeta>)
    requires |s| > 0
    ensures |r| == |s| - 1
  {
    var n := |s| - 1;
    SiftDown(Swapped(s, 0, n), 0, n)[..n]
  }

  /** Popping a heap removes its root, a block with the most objects, and
      leaves a heap holding all the other blocks. */
  lemma PopHeapCorrect(s: seq<BlockMeta>)
    requires IsMaxHeap(s) && |s| > 0
    ensures forall k :: 0 <= k < |s| ==> s[0].totalObjects >= s[k].totalObjects
    ensures IsMaxHeap(HeapRest(s))
    ensures multiset(HeapRest(s)) + multiset{s[0]} == multiset(s)
  {
    forall k | 0 <= k < |s| ensures s[0].totalObjects >= s[k].totalObjects {
      RootIsMax(s, |s|, k);
    }
    var n := |s| - 1;
    var t := Swapped(s, 0, n);
    SwapRootToLast(s);
    SiftDownRestores(t, 0, n);
    SiftDownPerm(t, 0, n);
    SwappedPerm(s, 0, n);
    SiftDownKeepsTail(t, 0, n, n);
    DropLast(SiftDown(t, 0, n), n, s[0]);
  }

  /** Swapping the root of a heap with its last slot leaves the other slots
      in the state `down` starts from. */
  lemma SwapRootToLast(s: seq<BlockMeta>)
    requires IsMaxHeap(s) && |s| > 0
    ensures HeapExceptDown(Swapped(s, 0, |s| - 1), 0, |s| - 1)
  {
    var n := |s| - 1;
    var t := Swapped(s, 0, n);
    forall k | 0 < k < n && Parent(k) != 0
      ensures t[Parent(k)].totalObjects >= t[k].totalObjects
    {
      assert t[k] == s[k] && t[Parent(k)] == s[Parent(k)];
    }
  }

  /** Dropping the last slot, which holds `x`, keeps the heap order of the
      rest and removes exactly `x`. */
  lemma DropLast(r: seq<BlockMeta>, n: nat, x: BlockMeta)
    requires |r| == n + 1 && r[n] == x && HeapPrefix(r, n)
    ensures IsMaxHeap(r[..n])
    ensures multiset(r[..n]) + multiset{x} == multiset(r)
  {
    assert r == r[..n] + [x];
    forall k | 0 < k < n
      ensures r[..n][Parent(k)].totalObjects >= r[..n][k].totalObjects
    {
      assert r[..n][k] == r[k] && r[..n][Parent(k)] == r[Parent(k)];
    }
  }

  /** The heap after popping while it holds more than `n` blocks. */
  function TrimHeap(h: seq<BlockMeta>, n: nat): (r: seq<BlockMeta>)
    decreases |h|
    ensures |r| == if |h| <= n then |h| else n
    ensures |h| <= n ==> r == h
  {
    if |h| <= n then h else TrimHeap(HeapRest(h), n)
  }

  /** `BlockMetaHeap`: the slice the selector fills and trims. */
  class BlockMetaHeap {
    var items: seq<BlockMeta>

    /** `BlockMetaHeap(make([]*backend.BlockMeta, 0))` followed by
        `heap.Init`, which has nothing to order in an empty slice. */
    constructor ()
      ensures items == []
    {
      items := [];
    }

    /** The number of blocks in the heap. */
    function Len(): nat
      reads this
    {
      |items|
    }

    /** Inverted on purpose: `i` sorts first when it holds MORE objects. */
    function Less(i: nat, j: nat): bool
      reads this
      requires i < |items| && j < |items|
    {
      items[i].totalObjects > items[j].totalObjects
    }

    method Swap(i: nat, j: nat)
      requires i < |items| && j < |items|
      modifies this
      ensures items == Swapped(old(items), i, j)
    {
      items := items[i := items[j]][j := items[i]];
    }

    method Push(x: BlockMeta)
      modifies this
      ensures items == old(items) + [x]
    {
      items := items + [x];
    }

    /** Removes and returns the last slot (not the root: `heap.Pop` swaps the
        root there first). */
    method Pop() returns (x: BlockMeta)
      requires |items| > 0
      modifies this
      ensures x == old(items)[|old(items)| - 1]
      ensures items == old(items)[..|old(items)| - 1]
    {
      var n := |items|;
      x := items[n - 1];
      items := items[0..n - 1];
    }

    /** container/heap's `up`. */
    method Up(j0: nat)
      requires j0 < |items|
      modifies this
      ensures items == SiftUp(old(items), j0)
    {
      var j: nat := j0;
      while j > 0
        invariant j < |items|
        invariant SiftUp(items, j) == SiftUp(old(items), j0)
      {
        var i := Parent(j);
        if !Less(j, i) {
          break;
        }
        Swap(i, j);
        j := i;
      }
    }

    /** container/heap's `down` (its boolean result is used only by
        `heap.Fix` and `heap.Remove`, which the selector does not call). */
    method Down(i0: nat, n: nat)
      requires n <= |items|
      modifies this
      ensures items == SiftDown(old(items), i0, n)
    {
      var i: nat := i0;
      while true
        invariant n <= |items|
        invariant SiftDown(items, i, n) == SiftDown(old(items), i0, n)
        decreases n - i
      {
        var j1 := 2 * i + 1;
        if j1 >= n {
          break;
        }
        var j := j1;
        var j2 := j1 + 1;
        if j2 < n && Less(j2, j1) {
          j := j2;
        }
        SiftDownUnfold(items, i, n, j);
        if !Less(j, i) {
          break;
        }
        ghost var before := items;
        Swap(i, j);
        assert SiftDown(items, j, n) == SiftDown(before, i, n);
        i := j;
      }
    }

    /** Lines 97-99 of the selector: pop the root while more than `n`
        blocks remain. */
    method Trim(n: nat)
      modifies this
      ensures items == TrimHeap(old(items), n)
    {
      while |items| > n
        invariant TrimHeap(items, n) == TrimHeap(old(items), n)
        decreases |items|
      {
        var _ := HeapPop();
      }
    }

    /** `heap.Push(h, x)`. */
    method HeapPush(x: BlockMeta)
      modifies this
      ensures items == PushHeap(old(items), x)
    {
      Push(x);
      Up(Len() - 1);
    }

    /** `heap.Pop(h)`: returns the root. */
    method HeapPop() returns (x: BlockMeta)
      requires |items| > 0
      modifies this
      ensures x == old(items)[0]
      ensures items == HeapRest(old(items))
    {
      var n := Len() - 1;
      Swap(0, n);
      Down(0, n);
      x := Pop();
      SiftDownKeepsTail(Swapped(old(items), 0, n), 0, n, n);
    }
  }

  /** `container/heap` needs `Less` to be a strict weak order, as
      `sort.Interface` says: irreflexive, transitive, and with
      incomparability transitive too. The inverted comparison on object
      counts is one. */
  lemma LessIsStrictWeakOrder(h: BlockMetaHeap, i: nat, j: nat, k: nat)
    requires i < |h.items| && j < |h.items| && k < |h.items|
    ensures !h.Less(i, i)
    ensures h.Less(i, j) && h.Less(j, k) ==> h.Less(i, k)
    ensures !h.Less(i, j) && !h.Less(j, i) && !h.Less(j, k) && !h.Less(k, j) ==>
      !h.Less(i, k) && !h.Less(k, i)
  {
  }
}
