/** `_sbrk`: moving the end of the newlib heap, in 32-bit pointer arithmetic that wraps. */
module Sbrk {
  import opened Options
  import opened Words

  predicate Int32(x: int) {
    -0x8000_0000 <= x < 0x8000_0000
  }

  /** The linker's symbols: `end` is `_end`, and `limit` is `_estack - _Min_Stack_Size`. */
  datatype Layout = Layout(end: word, limit: word) {
    /** The heap starts somewhere, below the reserved stack. */
    predicate Ok() {
      1 <= end <= limit
    }
  }

  /** `stack_limit`. */
  function StackLimit(estack: word, minStackSize: word): word {
    Wrap(estack - minStackSize)
  }

  /** The break a stored `__sbrk_heap_end` stands for: NULL means not yet initialised. */
  function Break(l: Layout, heapEnd: word): word {
    if heapEnd == 0 then l.end else heapEnd
  }

  /** The test on wrapped pointers. */
  predicate Granted(l: Layout, brk: word, incr: int) {
    Wrap(brk + incr) <= l.limit
  }

  /** `__sbrk_heap_end` after one call. */
  function After(l: Layout, heapEnd: word, incr: int): word {
    var brk := Break(l, heapEnd);
    if Granted(l, brk, incr) then Wrap(brk + incr) else brk
  }

  class Heap {
    const layout: Layout
    var heapEnd: word
    var outOfMemory: bool   // errno == ENOMEM

    constructor (l: Layout)
      ensures layout == l && heapEnd == 0 && !outOfMemory
    {
      layout, heapEnd, outOfMemory := l, 0, false;
    }

    /** `_sbrk`: `None` stands for `(void *)-1`.  A refused call changes only `errno`; a
        granted one returns the old break. */
    method Sbrk(incr: int) returns (block: Option<word>)
      requires Int32(incr)
      modifies this
      ensures heapEnd == After(layout, old(heapEnd), incr)
      ensures block == if Granted(layout, Break(layout, old(heapEnd)), incr) then Some(Break(layout, old(heapEnd))) else None
      ensures block == None ==> outOfMemory && Break(layout, heapEnd) == Break(layout, old(heapEnd))
      ensures block != None ==> outOfMemory == old(outOfMemory)
    {
      if heapEnd == 0 {
        heapEnd := layout.end;
      }
      if Wrap(heapEnd + incr) > layout.limit {
        outOfMemory := true;
        return None;
      }
      var prevHeapEnd := heapEnd;
      heapEnd := Wrap(heapEnd + incr);
      return Some(prevHeapEnd);
    }
  }

  // ---------------------------------------------------------------- the guard

  /** What the guard is for, on unbounded integers. */
  predicate Fits(l: Layout, brk: word, incr: int) {
    0 <= brk + incr <= l.limit
  }

  lemma WrapBelow(x: int)
    requires -0x8000_0000 < x < 0
    ensures Wrap(x) > 0x8000_0000
  {
    WrapOnce(x);
  }

  lemma GuardExactBelowHalf(l: Layout, brk: word, incr: int)
    requires l.limit <= 0x8000_0000 && 1 <= brk <= l.limit && Int32(incr)
    ensures Granted(l, brk, incr) <==> Fits(l, brk, incr)
  {
    if brk + incr >= 0 {
      WrapOnce(brk + incr);
    } else {
      WrapBelow(brk + incr);
    }
  }

  /** The wrapped test decides like the integer test, for every break and every 32-bit
      increment, exactly when the limit is at most 2^31. */
  lemma GuardExactIff(l: Layout)
    ensures (forall brk: word, incr: int :: 1 <= brk <= l.limit && Int32(incr) ==> (Granted(l, brk, incr) <==> Fits(l, brk, incr)))
            <==> l.limit <= 0x8000_0000
  {
    if l.limit <= 0x8000_0000 {
      forall brk: word, incr: int | 1 <= brk <= l.limit && Int32(incr)
        ensures Granted(l, brk, incr) <==> Fits(l, brk, incr)
      {
        GuardExactBelowHalf(l, brk, incr);
      }
    } else {
      var incr := 0x7FFF_FFFF;
      assert Wrap(l.limit + incr) == l.limit + incr - 0x1_0000_0000;
      assert Granted(l, l.limit, incr) && !Fits(l, l.limit, incr);
    }
  }

  /** The layout of STM32MP157DACX_RAM.ld is on the safe side. */
  lemma LinkedLayoutIsSafe()
    ensures StackLimit(0x1004_0000, 0x400) == 0x1003_FC00 <= 0x8000_0000
  {
  }

  /** There is no lower check.  A call leaves the break below `_end` exactly when the integer
      sum lies between zero and `_end`; at zero the stored pointer is NULL, and the next call
      starts over at `_end`. */
  lemma DropsBelowEndIff(l: Layout, heapEnd: word, incr: int)
    requires l.Ok() && l.limit <= 0x8000_0000 && Int32(incr) && l.end <= Break(l, heapEnd) <= l.limit
    ensures var sum := Break(l, heapEnd) + incr;
            && (After(l, heapEnd, incr) < l.end <==> 0 <= sum < l.end)
            && (After(l, heapEnd, incr) == 0 <==> sum == 0)
            && (Break(l, After(l, heapEnd, incr)) < l.end <==> 0 < sum < l.end)
  {
    var brk := Break(l, heapEnd);
    GuardExactBelowHalf(l, brk, incr);
    if Fits(l, brk, incr) {
      WrapSum(l, brk, incr);
    }
  }

  lemma WrapSum(l: Layout, brk: word, incr: int)
    requires Fits(l, brk, incr)
    ensures Wrap(brk + incr) == brk + incr
  {
  }

  // ---------------------------------------------------------------- whole runs

  function HeapEndAfter(l: Layout, reqs: seq<int>): word {
    if reqs == [] then 0 else After(l, HeapEndAfter(l, reqs[..|reqs| - 1]), reqs[|reqs| - 1])
  }

  function BreakAfter(l: Layout, reqs: seq<int>): word {
    Break(l, HeapEndAfter(l, reqs))
  }

  predicate LastGranted(l: Layout, reqs: seq<int>)
    requires reqs != []
  {
    Granted(l, BreakAfter(l, reqs[..|reqs| - 1]), reqs[|reqs| - 1])
  }

  /** The sum of the increments that were granted. */
  function GrantedSum(l: Layout, reqs: seq<int>): int {
    if reqs == [] then 0
    else GrantedSum(l, reqs[..|reqs| - 1]) + if LastGranted(l, reqs) then reqs[|reqs| - 1] else 0
  }

  /** The caller never gives back more than it was given: no granted call would move the
      integer sum below `_end`. */
  predicate NeverBelowEnd(l: Layout, reqs: seq<int>) {
    if reqs == [] then true
    else
      && NeverBelowEnd(l, reqs[..|reqs| - 1])
      && Int32(reqs[|reqs| - 1])
      && (LastGranted(l, reqs) ==> BreakAfter(l, reqs[..|reqs| - 1]) + reqs[|reqs| - 1] >= l.end)
  }

  /** Over every such run the break is `_end` plus what was granted, inside its limits. */
  lemma {:induction false} BreakIsGrantedSum(l: Layout, reqs: seq<int>)
    requires l.Ok() && l.limit <= 0x8000_0000 && NeverBelowEnd(l, reqs)
    ensures BreakAfter(l, reqs) == l.end + GrantedSum(l, reqs)
    ensures l.end <= BreakAfter(l, reqs) <= l.limit
  {
    if reqs != [] {
      var front, incr := reqs[..|reqs| - 1], reqs[|reqs| - 1];
      BreakIsGrantedSum(l, front);
      GuardExactBelowHalf(l, BreakAfter(l, front), incr);
      if LastGranted(l, reqs) {
        WrapSum(l, BreakAfter(l, front), incr);
      }
    }
  }

  datatype Block = Block(start: int, len: int)

  /** Giving back `n` bytes from the top. */
  function Released(blocks: seq<Block>, n: int): seq<Block> {
    if blocks == [] || n <= 0 then blocks
    else
      var top := blocks[|blocks| - 1];
      if n < top.len then blocks[..|blocks| - 1] + [Block(top.start, top.len - n)]
      else Released(blocks[..|blocks| - 1], n - top.len)
  }

  /** The blocks handed out and not released, lowest first. */
  function Live(l: Layout, reqs: seq<int>): seq<Block> {
    if reqs == [] then []
    else
      var front, incr := reqs[..|reqs| - 1], reqs[|reqs| - 1];
      if !LastGranted(l, reqs) || incr == 0 then Live(l, front)
      else if incr > 0 then Live(l, front) + [Block(BreakAfter(l, front), incr)]
      else Released(Live(l, front), -incr)
  }

  /** The blocks cover [lo, hi) without gap or overlap. */
  predicate Tiles(blocks: seq<Block>, lo: int, hi: int) {
    if blocks == [] then lo == hi
    else
      var top := blocks[|blocks| - 1];
      top.len > 0 && top.start + top.len == hi && Tiles(blocks[..|blocks| - 1], lo, top.start)
  }

  lemma {:induction false} ReleasedTiles(blocks: seq<Block>, lo: int, hi: int, n: int)
    requires Tiles(blocks, lo, hi) && 0 <= n <= hi - lo
    ensures Tiles(Released(blocks, n), lo, hi - n)
    decreases |blocks|
  {
    if blocks != [] && n > 0 {
      var front, top := blocks[..|blocks| - 1], blocks[|blocks| - 1];
      if n < top.len {
        assert (front + [Block(top.start, top.len - n)])[..|front|] == front;
      } else {
        TilesOrdered(front, lo, top.start);
        ReleasedTiles(front, lo, top.start, n - top.len);
      }
    }
  }

  lemma {:induction false} TilesOrdered(blocks: seq<Block>, lo: int, hi: int)
    requires Tiles(blocks, lo, hi)
    ensures lo <= hi
    ensures forall i :: 0 <= i < |blocks| ==> lo <= blocks[i].start && blocks[i].start + blocks[i].len <= hi
    ensures forall i, j :: 0 <= i < j < |blocks| ==> blocks[i].start + blocks[i].len <= blocks[j].start
  {
    if blocks != [] {
      TilesOrdered(blocks[..|blocks| - 1], lo, blocks[|blocks| - 1].start);
    }
  }

  /** After every run the live blocks tile the heap from `_end` to the break, so they are
      adjacent and disjoint, and every byte between is in one of them. */
  lemma {:induction false} LiveBlocksTileHeap(l: Layout, reqs: seq<int>)
    requires l.Ok() && l.limit <= 0x8000_0000 && NeverBelowEnd(l, reqs)
    ensures Tiles(Live(l, reqs), l.end, BreakAfter(l, reqs))
  {
    if reqs != [] {
      var front, incr := reqs[..|reqs| - 1], reqs[|reqs| - 1];
      var brk := BreakAfter(l, front);
      LiveBlocksTileHeap(l, front);
      BreakIsGrantedSum(l, front);
      BreakIsGrantedSum(l, reqs);
      if LastGranted(l, reqs) {
        if incr > 0 {
          assert (Live(l, front) + [Block(brk, incr)])[..|Live(l, front)|] == Live(l, front);
        } else if incr < 0 {
          ReleasedTiles(Live(l, front), l.end, brk, -incr);
        }
      }
    }
  }
}
