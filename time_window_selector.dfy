/**
 * The time-window block selector. From its cursor it collects the maximal
 * run of consecutive blocks that start in the same time window; a run with at
 * least `inputBlocks` blocks is pushed into a max-heap on object count and the
 * largest blocks are popped until `inputBlocks` remain, which are returned
 * keyed by "<tenant>-<window>". Shorter runs are skipped by moving the cursor
 * to their end. A successful call leaves the cursor at the start of the
 * returned run, so the next call looks at the same window again.
 */
module TimeWindowSelector {
  import opened Blocks
  import opened BlockHeap

  /** Where the inner scan at lines 85-92 stops when it starts at `e` looking
      for blocks of window `w`: the first position at or after `e` whose
      block lies in another window, or the end of the list. */
  function RunEndFrom(list: seq<BlockMeta>, maxRange: int, w: int, e: nat): (r: nat)
    requires e <= |list| && WindowSeconds(maxRange) != 0
    decreases |list| - e
    ensures e <= r <= |list|
    ensures forall k :: e <= k < r ==> WindowForBlock(list[k], maxRange) == w
    ensures r < |list| ==> WindowForBlock(list[r], maxRange) != w
  {
    if e == |list| || WindowForBlock(list[e], maxRange) != w then e
    else RunEndFrom(list, maxRange, w, e + 1)
  }

  /** `cursorEnd` after the inner scan from `c`: one past the maximal run of
      blocks from `c` on that share `c`'s window. */
  function RunEnd(list: seq<BlockMeta>, maxRange: int, c: nat): (e: nat)
    requires c < |list| && WindowSeconds(maxRange) != 0
    ensures c < e <= |list|
    ensures forall k :: c <= k < e ==> WindowForBlock(list[k], maxRange) == WindowForBlock(list[c], maxRange)
    ensures e < |list| ==> WindowForBlock(list[e], maxRange) != WindowForBlock(list[c], maxRange)
  {
    RunEndFrom(list, maxRange, WindowForBlock(list[c], maxRange), c + 1)
  }

  /** Where the outer loop settles from cursor `c`: it skips runs shorter
      than `n` and stops at the start of the first long enough run, or at the
      end of the list. */
  function NextWindowStart(list: seq<BlockMeta>, n: nat, maxRange: int, c: nat): (r: nat)
    requires c <= |list| && WindowSeconds(maxRange) != 0
    decreases |list| - c
    ensures c <= r <= |list|
    ensures r < |list| ==> RunEnd(list, maxRange, r) - r >= n
  {
    if c == |list| then c
    else
      var e := RunEnd(list, maxRange, c);
      if e - c >= n then c else NextWindowStart(list, n, maxRange, e)
  }

  /** The heap after pushing the blocks `list[a..b]` in order (lines 83 and
      90). */
  function HeapOf(list: seq<BlockMeta>, a: nat, b: nat): (h: seq<BlockMeta>)
    requires a <= b <= |list|
    decreases b - a
    ensures |h| == b - a
  {
    if b == a then [] else PushHeap(HeapOf(list, a, b - 1), list[b - 1])
  }

  lemma HeapOfStep(list: seq<BlockMeta>, a: nat, b: nat)
    requires a < b <= |list|
    ensures HeapOf(list, a, b) == PushHeap(HeapOf(list, a, b - 1), list[b - 1])
  {
  }

  /** Pushing the next block of the list onto the heap of a run gives the
      heap of the longer run. */
  lemma HeapOfNext(list: seq<BlockMeta>, a: nat, b: nat, h: seq<BlockMeta>, h': seq<BlockMeta>)
    requires a <= b < |list|
    requires h == HeapOf(list, a, b) && h' == PushHeap(h, list[b])
    ensures h' == HeapOf(list, a, b + 1)
  {
  }

  /** The heap of a run is a max-heap. */
  lemma {:induction false} HeapOfIsHeap(list: seq<BlockMeta>, a: nat, b: nat)
    requires a <= b <= |list|
    decreases b - a
    ensures IsMaxHeap(HeapOf(list, a, b))
  {
    if b > a {
      HeapOfIsHeap(list, a, b - 1);
      HeapOfStep(list, a, b);
      PushHeapCorrect(HeapOf(list, a, b - 1), list[b - 1]);
    }
  }

  /** The blocks `list[a..b]`, counted with multiplicity. */
  ghost function Bag(list: seq<BlockMeta>, a: nat, b: nat): multiset<BlockMeta>
    requires a <= b <= |list|
    decreases b - a
  {
    if b == a then multiset{} else Bag(list, a, b - 1) + multiset{list[b - 1]}
  }

  lemma {:induction false} BagOfSlice(list: seq<BlockMeta>, a: nat, b: nat)
    requires a <= b <= |list|
    decreases b - a
    ensures Bag(list, a, b) == multiset(list[a..b])
  {
    if b > a {
      BagOfSlice(list, a, b - 1);
      SliceSnoc(list, a, b);
      SnocMultiset(list[a..b], list[a..b - 1], list[b - 1]);
    }
  }

  lemma SliceSnoc<T>(list: seq<T>, a: nat, b: nat)
    requires a < b <= |list|
    ensures list[a..b] == list[a..b - 1] + [list[b - 1]]
  {
  }

  lemma SnocMultiset<T>(s: seq<T>, t: seq<T>, x: T)
    requires s == t + [x]
    ensures multiset(s) == multiset(t) + multiset{x}
  {
  }

  /** The heap of a run holds exactly the run's blocks. */
  lemma {:induction false} HeapOfPerm(list: seq<BlockMeta>, a: nat, b: nat)
    requires a <= b <= |list|
    decreases b - a
    ensures multiset(HeapOf(list, a, b)) == Bag(list, a, b)
  {
    if b > a {
      HeapOfPerm(list, a, b - 1);
      HeapOfStep(list, a, b);
      PushHeapPerm(HeapOf(list, a, b - 1), list[b - 1]);
    }
  }

  /** `kept` is drawn from `whole`, and every block of `whole` left out holds
      at least as many objects as every block kept: `kept` consists of the
      blocks with the fewest objects (ties broken either way). */
  ghost predicate KeepsSmallest(kept: seq<BlockMeta>, whole: seq<BlockMeta>) {
    multiset(kept) <= multiset(whole) &&
    forall x, y :: x in multiset(whole) - multiset(kept) && y in kept ==> x.totalObjects >= y.totalObjects
  }

  /** Popping a max-heap down to `n` blocks keeps the `n` blocks with the
      fewest objects. */
  lemma {:induction false} TrimKeepsSmallest(h: seq<BlockMeta>, n: nat)
    requires IsMaxHeap(h)
    decreases |h|
    ensures |TrimHeap(h, n)| == if |h| <= n then |h| else n
    ensures KeepsSmallest(TrimHeap(h, n), h)
  {
    if |h| > n {
      var rest := HeapRest(h);
      PopHeapCorrect(h);
      TrimKeepsSmallest(rest, n);
      KeepsSmallestAfterPop(h, rest, TrimHeap(rest, n));
    } else {
      assert multiset(h) - multiset(h) == multiset{};
    }
  }

  /** Removing a block with the most objects and then keeping the smallest
      of the rest keeps the smallest of the whole. */
  lemma KeepsSmallestAfterPop(h: seq<BlockMeta>, rest: seq<BlockMeta>, t: seq<BlockMeta>)
    requires |h| > 0 && multiset(rest) + multiset{h[0]} == multiset(h)
    requires forall k :: 0 <= k < |h| ==> h[0].totalObjects >= h[k].totalObjects
    requires KeepsSmallest(t, rest)
    ensures KeepsSmallest(t, h)
  {
    assert multiset(t) <= multiset(h);
    forall x, y | x in multiset(h) - multiset(t) && y in t
      ensures x.totalObjects >= y.totalObjects
    {
      if x !in multiset(rest) - multiset(t) {
        assert x == h[0];
        assert y in multiset(h);
        var k :| 0 <= k < |h| && h[k] == y;
      }
    }
  }

  /** The blocks returned for the run starting at `s`. */
  function Group(list: seq<BlockMeta>, n: nat, maxRange: int, s: nat): (g: seq<BlockMeta>)
    requires s < |list| && WindowSeconds(maxRange) != 0
    ensures var len := RunEnd(list, maxRange, s) - s; |g| == if len <= n then len else n
  {
    TrimHeap(HeapOf(list, s, RunEnd(list, maxRange, s)), n)
  }

  /** A group has exactly `n` blocks when its run is long enough, keeps the
      run's blocks with the fewest objects, and all its blocks lie in the
      window of the run's first block. */
  lemma GroupSpec(list: seq<BlockMeta>, n: nat, maxRange: int, s: nat)
    requires s < |list| && WindowSeconds(maxRange) != 0
    requires RunEnd(list, maxRange, s) - s >= n
    ensures var g, run := Group(list, n, maxRange, s), list[s..RunEnd(list, maxRange, s)];
      |g| == n && KeepsSmallest(g, run) &&
      forall b :: b in g ==> WindowForBlock(b, maxRange) == WindowForBlock(list[s], maxRange)
  {
    var e := RunEnd(list, maxRange, s);
    var h := HeapOf(list, s, e);
    HeapOfIsHeap(list, s, e);
    HeapOfPerm(list, s, e);
    BagOfSlice(list, s, e);
    TrimKeepsSmallest(h, n);
    KeepsSmallestSameBag(TrimHeap(h, n), h, list[s..e]);
    DrawnFromWindow(Group(list, n, maxRange, s), list, s, e, maxRange, WindowForBlock(list[s], maxRange));
  }

  lemma KeepsSmallestSameBag(kept: seq<BlockMeta>, whole: seq<BlockMeta>, other: seq<BlockMeta>)
    requires KeepsSmallest(kept, whole) && multiset(whole) == multiset(other)
    ensures KeepsSmallest(kept, other)
  {
  }

  /** Blocks drawn from a run of one window lie in that window. */
  lemma DrawnFromWindow(g: seq<BlockMeta>, list: seq<BlockMeta>, s: nat, e: nat, maxRange: int, w: int)
    requires s <= e <= |list| && WindowSeconds(maxRange) != 0
    requires multiset(g) <= multiset(list[s..e])
    requires forall k :: s <= k < e ==> WindowForBlock(list[k], maxRange) == w
    ensures forall b :: b in g ==> WindowForBlock(b, maxRange) == w
  {
    forall b | b in g
      ensures WindowForBlock(b, maxRange) == w
    {
      assert b in multiset(g);
      InSlice(list, s, e, b);
    }
  }

  lemma InSlice<T>(list: seq<T>, s: nat, e: nat, x: T)
    requires s <= e <= |list| && x in multiset(list[s..e])
    ensures exists k :: s <= k < e && list[k] == x
  {
    var run := list[s..e];
    var i :| 0 <= i < |run| && run[i] == x;
    assert list[s + i] == x;
  }

  /** One call of `BlocksToCompact` from cursor `c`. */
  function TimeWindowStep(list: seq<BlockMeta>, n: nat, maxRange: int, c: nat): (st: Step)
    requires c <= |list| && WindowSeconds(maxRange) != 0
    ensures c <= st.cursor <= |list|
    ensures st.cursor == |list| ==> st.blocks == [] && st.key == ""
    ensures st.cursor < |list| ==> |st.blocks| == n
  {
    var s := NextWindowStart(list, n, maxRange, c);
    if s == |list| then Step([], "", s)
    else Step(Group(list, n, maxRange, s), WindowKey(list[s].tenantId, WindowForBlock(list[s], maxRange)), s)
  }

  /** What one call returns. The cursor never moves back. A non-empty result
      has exactly `n` blocks, all from the maximal same-window run that
      starts at the new cursor, and they are that run's blocks with the
      fewest objects; the key names the run's first tenant and its window.
      The result is empty exactly when the cursor has reached the end. */
  lemma TimeWindowStepSpec(list: seq<BlockMeta>, n: nat, maxRange: int, c: nat)
    requires n >= 1 && c <= |list| && WindowSeconds(maxRange) != 0
    ensures var st := TimeWindowStep(list, n, maxRange, c);
      c <= st.cursor <= |list| &&
      (st.blocks == [] <==> st.cursor == |list|) &&
      (st.blocks == [] ==> st.key == "") &&
      (st.cursor < |list| ==>
        var s, e := st.cursor, RunEnd(list, maxRange, st.cursor);
        var w := WindowForBlock(list[s], maxRange);
        e - s >= n && |st.blocks| == n &&
        (forall k :: s <= k < e ==> WindowForBlock(list[k], maxRange) == w) &&
        (e < |list| ==> WindowForBlock(list[e], maxRange) != w) &&
        KeepsSmallest(st.blocks, list[s..e]) &&
        (forall b :: b in st.blocks ==> WindowForBlock(b, maxRange) == w) &&
        st.key == list[s].tenantId + "-" + Decimal(w))
  {
    var s := NextWindowStart(list, n, maxRange, c);
    if s < |list| {
      GroupSpec(list, n, maxRange, s);
    }
  }

  /** The cursor stays on a window it has returned: a second call gives the
      same blocks, key and cursor as the first. */
  lemma RepeatedCallSameStep(list: seq<BlockMeta>, n: nat, maxRange: int, c: nat)
    requires c <= |list| && WindowSeconds(maxRange) != 0
    ensures var st := TimeWindowStep(list, n, maxRange, c);
      TimeWindowStep(list, n, maxRange, st.cursor) == st
  {
    var s := NextWindowStart(list, n, maxRange, c);
    assert NextWindowStart(list, n, maxRange, s) == s;
  }

  /** The positions skipped by a call are covered by runs shorter than `n`
      that each end where the next begins. */
  ghost predicate InShortRun(list: seq<BlockMeta>, n: nat, maxRange: int, s: nat, k: nat, bound: nat)
    requires WindowSeconds(maxRange) != 0
  {
    s <= k < |list| && var e := RunEnd(list, maxRange, s); k < e <= bound && e - s < n
  }

  /** Every position a call skips lies in a run, starting at or after the old
      cursor and ending no later than the new one, with fewer than `n`
      blocks: no block of a short run is ever returned. */
  lemma {:induction false} SkippedRunsAreShort(list: seq<BlockMeta>, n: nat, maxRange: int, c: nat, k: nat)
    requires c <= |list| && WindowSeconds(maxRange) != 0
    requires c <= k < NextWindowStart(list, n, maxRange, c)
    decreases |list| - c
    ensures exists s :: c <= s && InShortRun(list, n, maxRange, s, k, NextWindowStart(list, n, maxRange, c))
  {
    var e := RunEnd(list, maxRange, c);
    var r := NextWindowStart(list, n, maxRange, c);
    assert e - c < n && r == NextWindowStart(list, n, maxRange, e);
    if k < e {
      assert InShortRun(list, n, maxRange, c, k, r);
    } else {
      SkippedRunsAreShort(list, n, maxRange, e, k);
      var s :| e <= s && InShortRun(list, n, maxRange, s, k, r);
      assert c <= s;
    }
  }

  /** Once the cursor is at the end, every call returns nothing and leaves
      it there. */
  lemma ExhaustedStaysExhausted(list: seq<BlockMeta>, n: nat, maxRange: int)
    requires WindowSeconds(maxRange) != 0
    ensures TimeWindowStep(list, n, maxRange, |list|) == Step([], "", |list|)
  {
  }

  /** The `timeWindowBlockSelector` struct. It is meant to be used once per
      time slot and rebuilt with a fresh block list. */
  class TimeWindowBlockSelector {
    var cursor: nat
    const blocklist: seq<BlockMeta>
    /** The window width, say six hours. */
    const maxCompactionRange: int
    /** The package constant `inputBlocks`. */
    const inputBlocks: nat

    ghost predicate Valid()
      reads this
    {
      inputBlocks >= 1 && cursor <= |blocklist|
    }

    /** `newTimeWindowBlockSelector`: the cursor starts at zero. */
    constructor (blocklist: seq<BlockMeta>, maxCompactionRange: int, inputBlocks: nat)
      requires inputBlocks >= 1
      ensures Valid() && cursor == 0
      ensures this.blocklist == blocklist && this.maxCompactionRange == maxCompactionRange
      ensures this.inputBlocks == inputBlocks
    {
      this.blocklist := blocklist;
      this.maxCompactionRange := maxCompactionRange;
      this.inputBlocks := inputBlocks;
      cursor := 0;
    }

    method BlocksToCompact() returns (blocks: seq<BlockMeta>, key: string)
      requires Valid() && WindowSeconds(maxCompactionRange) != 0
      modifies this
      ensures Valid()
      ensures Step(blocks, key, cursor) == TimeWindowStep(blocklist, inputBlocks, maxCompactionRange, old(cursor))
    {
      while cursor < |blocklist|
        invariant Valid() && old(cursor) <= cursor
        invariant NextWindowStart(blocklist, inputBlocks, maxCompactionRange, cursor)
               == NextWindowStart(blocklist, inputBlocks, maxCompactionRange, old(cursor))
      {
        var cursorBlock := blocklist[cursor];
        var currentWindow := WindowForBlock(cursorBlock, maxCompactionRange);
        var blocksToCompact, cursorEnd := CollectWindow(cursor);

        // enough blocks: return them, and look at this window again next call
        if blocksToCompact.Len() >= inputBlocks {
          blocksToCompact.Trim(inputBlocks);
          return blocksToCompact.items, WindowKey(cursorBlock.tenantId, currentWindow);
        }

        // otherwise move the cursor past this window and try the next one
        cursor := cursorEnd;
      }
      return [], "";
    }

    /** Lines 79-92: a fresh heap holding every block from `start` on that
        lies in `start`'s window, and one past the last of them. */
    method CollectWindow(start: nat) returns (blocksToCompact: BlockMetaHeap, cursorEnd: nat)
      requires start < |blocklist| && WindowSeconds(maxCompactionRange) != 0
      ensures fresh(blocksToCompact)
      ensures cursorEnd == RunEnd(blocklist, maxCompactionRange, start)
      ensures blocksToCompact.items == HeapOf(blocklist, start, cursorEnd)
    {
      blocksToCompact := new BlockMetaHeap();
      cursorEnd := start + 1;
      var cursorBlock := blocklist[start];
      var currentWindow := WindowForBlock(cursorBlock, maxCompactionRange);
      blocksToCompact.HeapPush(cursorBlock);

      while cursorEnd < |blocklist|
        modifies blocksToCompact
        invariant start < cursorEnd <= |blocklist|
        invariant RunEndFrom(blocklist, maxCompactionRange, currentWindow, cursorEnd)
               == RunEnd(blocklist, maxCompactionRange, start)
        invariant blocksToCompact.items == HeapOf(blocklist, start, cursorEnd)
      {
        if currentWindow != WindowForBlock(blocklist[cursorEnd], maxCompactionRange) {
          break;
        }
        ghost var pushed := blocksToCompact.items;
        blocksToCompact.HeapPush(blocklist[cursorEnd]);
        HeapOfNext(blocklist, start, cursorEnd, pushed, blocksToCompact.items);
        cursorEnd := cursorEnd + 1;
      }
    }
  }
}
