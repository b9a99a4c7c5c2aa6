/**
 * The simple block selector: a first-fit sliding window over the block list.
 * From its cursor it looks for the first `inputBlocks` consecutive blocks
 * whose overall time span (last end minus first start) is below the
 * configured maximum, returns them keyed by the first block's tenant, and
 * moves the cursor past them.
 */
module SimpleSelector {
  import opened Blocks

  datatype Option<T> = None | Some(value: T)

  /** The span test at line 34 for the window of `n` blocks starting at `p`. */
  predicate SpanFits(list: seq<BlockMeta>, n: nat, maxRange: int, p: nat)
    requires 1 <= n && p + n <= |list|
  {
    list[p + n - 1].endTime - list[p].startTime < maxRange
  }

  /** The first window start at or after `c` that passes the span test, if
      any. */
  function FirstFit(list: seq<BlockMeta>, n: nat, maxRange: int, c: nat): (r: Option<nat>)
    requires n >= 1
    decreases |list| - c
    ensures r.Some? ==>
      c <= r.value && r.value + n <= |list| && SpanFits(list, n, maxRange, r.value) &&
      forall q :: c <= q < r.value ==> !SpanFits(list, n, maxRange, q)
    ensures r.None? ==>
      forall q :: c <= q && q + n <= |list| ==> !SpanFits(list, n, maxRange, q)
  {
    if c + n > |list| then None
    else if SpanFits(list, n, maxRange, c) then Some(c)
    else FirstFit(list, n, maxRange, c + 1)
  }

  /** One call of `BlocksToCompact` from cursor `c`: the first fitting window
      with its tenant as key, the cursor moved just past it; or nothing, with
      the cursor where the scan stopped. */
  function SimpleStep(list: seq<BlockMeta>, n: nat, maxRange: int, c: nat): (st: Step)
    requires n >= 1
    ensures |st.blocks| == 0 || |st.blocks| == n
    ensures st.blocks == [] ==> st.key == ""
    ensures c <= |list| ==> st.cursor <= |list|
  {
    match FirstFit(list, n, maxRange, c)
    case Some(p) => Step(list[p..p + n], list[p].tenantId, p + n)
    case None => Step([], "", Max(c, |list| - n + 1))
  }

  /** What a non-empty result is: exactly `n` consecutive blocks of the list,
      starting at the first position at or after the cursor whose span is
      below the maximum, keyed by the first block's tenant; the cursor moves
      just past them. An empty result means no such position exists, and the
      cursor stops where no full window is left to try. */
  lemma SimpleStepSpec(list: seq<BlockMeta>, n: nat, maxRange: int, c: nat)
    requires n >= 1
    ensures var s := SimpleStep(list, n, maxRange, c);
      if s.blocks != [] then
        exists p ::
          c <= p && p + n <= |list| && s.blocks == list[p..p + n] && |s.blocks| == n &&
          s.blocks[n - 1].endTime - s.blocks[0].startTime < maxRange &&
          s.key == list[p].tenantId && s.cursor == p + n &&
          forall q :: c <= q < p ==> !SpanFits(list, n, maxRange, q)
      else
        s.key == "" && s.cursor == Max(c, |list| - n + 1) &&
        forall q :: c <= q && q + n <= |list| ==> !SpanFits(list, n, maxRange, q)
  {
    match FirstFit(list, n, maxRange, c)
    case Some(p) =>
      var s := SimpleStep(list, n, maxRange, c);
      assert s.blocks[0] == list[p] && s.blocks[n - 1] == list[p + n - 1];
    case None =>
  }

  /** The guard at lines 27-30 changes nothing: with fewer blocks than
      `inputBlocks` the scan finds nothing and leaves the cursor alone. */
  lemma ShortListSelectsNothing(list: seq<BlockMeta>, n: nat, maxRange: int, c: nat)
    requires n >= 1 && n > |list|
    ensures SimpleStep(list, n, maxRange, c) == Step([], "", c)
  {
  }

  /** Once a call comes back empty, every later call does too and leaves the
      cursor where it is. */
  lemma ExhaustedStaysExhausted(list: seq<BlockMeta>, n: nat, maxRange: int, c: nat)
    requires n >= 1
    requires SimpleStep(list, n, maxRange, c).blocks == []
    ensures var c' := SimpleStep(list, n, maxRange, c).cursor;
      SimpleStep(list, n, maxRange, c') == Step([], "", c')
  {
  }

  /** The cursor never moves back; it moves strictly forward on every
      non-empty result. */
  lemma CursorMonotone(list: seq<BlockMeta>, n: nat, maxRange: int, c: nat)
    requires n >= 1
    ensures c <= SimpleStep(list, n, maxRange, c).cursor
    ensures SimpleStep(list, n, maxRange, c).blocks != [] ==> c < SimpleStep(list, n, maxRange, c).cursor
  {
  }

  /** Start positions of the groups that successive calls return, from cursor
      `c` until the first empty result. The windows they start pass the span
      test, lie at or after `c`, never overlap and come in list order. */
  function GroupStarts(list: seq<BlockMeta>, n: nat, maxRange: int, c: nat): (ps: seq<nat>)
    requires n >= 1
    decreases |list| - c
    ensures forall i :: 0 <= i < |ps| ==>
      c <= ps[i] && ps[i] + n <= |list| && SpanFits(list, n, maxRange, ps[i])
    ensures forall i, j :: 0 <= i < j < |ps| ==> ps[i] + n <= ps[j]
  {
    match FirstFit(list, n, maxRange, c)
    case None => []
    case Some(p) => [p] + GroupStarts(list, n, maxRange, p + n)
  }

  /** `GroupStarts` is what successive calls return: the first call comes
      back empty exactly when there are no starts, and otherwise it returns
      the window at the first start and leaves the cursor where the rest of
      the starts are taken from. */
  lemma GroupStartsFollowSteps(list: seq<BlockMeta>, n: nat, maxRange: int, c: nat)
    requires n >= 1
    ensures var st, ps := SimpleStep(list, n, maxRange, c), GroupStarts(list, n, maxRange, c);
      (st.blocks == [] <==> ps == []) &&
      (st.blocks != [] ==>
        st.cursor >= n && ps == [st.cursor - n] + GroupStarts(list, n, maxRange, st.cursor) &&
        st.blocks == list[ps[0]..ps[0] + n])
  {
  }

  /** Some window of `n` blocks starting at a position in `ps` contains
      position `q`. */
  ghost predicate Covers(ps: seq<nat>, n: nat, q: nat) {
    exists i :: 0 <= i < |ps| && ps[i] <= q < ps[i] + n
  }

  /** Driving one selector to exhaustion misses no fitting window: every
      position at or after the starting cursor that passes the span test
      lies inside one of the returned windows. */
  lemma {:induction false} GroupsComplete(list: seq<BlockMeta>, n: nat, maxRange: int, c: nat, q: nat)
    requires n >= 1
    requires c <= q && q + n <= |list| && SpanFits(list, n, maxRange, q)
    decreases |list| - c
    ensures Covers(GroupStarts(list, n, maxRange, c), n, q)
  {
    match FirstFit(list, n, maxRange, c)
    case None =>
      assert false;
    case Some(p) =>
      var rest := GroupStarts(list, n, maxRange, p + n);
      assert GroupStarts(list, n, maxRange, c) == [p] + rest;
      if q < p + n {
        CoversHead(p, rest, n, q);
      } else {
        GroupsComplete(list, n, maxRange, p + n, q);
        CoversTail(p, rest, n, q);
      }
  }

  lemma CoversHead(p: nat, rest: seq<nat>, n: nat, q: nat)
    requires p <= q < p + n
    ensures Covers([p] + rest, n, q)
  {
    assert ([p] + rest)[0] == p;
  }

  lemma CoversTail(p: nat, rest: seq<nat>, n: nat, q: nat)
    requires Covers(rest, n, q)
    ensures Covers([p] + rest, n, q)
  {
    var i :| 0 <= i < |rest| && rest[i] <= q < rest[i] + n;
    assert ([p] + rest)[i + 1] == rest[i];
  }

  /** The `simpleBlockSelector` struct: a cursor over a fixed block list. */
  class SimpleBlockSelector {
    var cursor: nat
    const blocklist: seq<BlockMeta>
    const maxCompactionRange: int
    /** The package constant `inputBlocks`: how many blocks one compaction
        merges. */
    const inputBlocks: nat

    ghost predicate Valid()
      reads this
    {
      inputBlocks >= 1 && cursor <= |blocklist|
    }

    /** The struct literal `&simpleBlockSelector{...}`: the cursor starts at
        zero. */
    constructor (blocklist: seq<BlockMeta>, maxCompactionRange: int, inputBlocks: nat)
      requires inputBlocks >= 1
      ensures Valid() && cursor == 0
      ensures this.blocklist == blocklist && this.maxCompactionRange == maxCompactionRange
      ensures this.inputBlocks == inputBlocks
    {
      this.blocklist := blocklist;
      this.maxCompactionRange := maxCompactionRange;
      this.inputBlocks := inputBlocks;
      cursor := 0;
    }

    method BlocksToCompact() returns (blocks: seq<BlockMeta>, key: string)
      requires Valid()
      modifies this
      ensures Valid()
      ensures Step(blocks, key, cursor) == SimpleStep(blocklist, inputBlocks, maxCompactionRange, old(cursor))
    {
      if inputBlocks > |blocklist| {
        ShortListSelectsNothing(blocklist, inputBlocks, maxCompactionRange, cursor);
        return [], "";
      }

      while cursor < |blocklist| - inputBlocks + 1
        invariant Valid() && old(cursor) <= cursor
        invariant cursor <= Max(old(cursor), |blocklist| - inputBlocks + 1)
        invariant FirstFit(blocklist, inputBlocks, maxCompactionRange, cursor)
               == FirstFit(blocklist, inputBlocks, maxCompactionRange, old(cursor))
      {
        var cursorEnd := cursor + inputBlocks - 1;
        if blocklist[cursorEnd].endTime - blocklist[cursor].startTime < maxCompactionRange {
          var startPos := cursor;
          cursor := startPos + inputBlocks;
          var hashString := blocklist[startPos].tenantId;
          return blocklist[startPos..startPos + inputBlocks], hashString;
        }
        cursor := cursor + 1;
      }

      return [], "";
    }
  }
}
