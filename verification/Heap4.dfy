/** The FreeRTOS heap_4 allocator over its block headers. */
module Heap4 {
  import opened HeapList
  import opened HeapRows
  import opened HeapRuns

  class Heap {
    const start: nat
    const base: nat
    const end: nat
    var headers: Headers
    var freeBytes: nat
    var minimumEver: nat
    ghost var blocks: seq<Block>

    ghost predicate Valid()
      reads this
    {
      Consistent(headers, blocks, start, base, end) && minimumEver <= freeBytes == Total(Frees(blocks))
    }

    /** `prvHeapInit` over the `total` bytes at `heap`, with `xStart` outside them. */
    constructor (heap: nat, total: nat, xStart: nat)
      requires 0 < heap && heap + total <= 0x1_0000_0000 && 2 * HEADER + ALIGNMENT <= total < TOP_BIT
      requires !(heap <= xStart <= heap + total)
      ensures Valid() && blocks == [Block(base, end - base, true)]
      ensures heap <= base < heap + ALIGNMENT && end + HEADER <= heap + total < end + HEADER + ALIGNMENT
      ensures minimumEver == freeBytes == end - base
    {
      var address, size := heap, total;
      if address % ALIGNMENT != 0 {
        address := address + (ALIGNMENT - 1);
        address := address - address % ALIGNMENT;
        size := size - (address - heap);
      }
      var last := address + size - HEADER;
      last := last - last % ALIGNMENT;
      start, base, end := xStart, address, last;
      headers := map[
        xStart := Header(address, 0, false), last := Header(0, 0, false), address := Header(last, last - address, false)];
      minimumEver, freeBytes := last - address, last - address;
      blocks := [Block(address, last - address, true)];
      new;
      OneBlock(headers, start, base, end);
    }

    /** The first loop of `prvInsertBlockIntoFreeList`: the last node below `block`. */
    method FindBefore(block: nat, ghost f: seq<Block>, ghost x: Block, ghost g: seq<Block>) returns (it: nat)
      requires Chain(headers, Nodes(start, f + g, end)) && Between(f, x, g, start, end) && block == x.addr
      ensures it == Before(start, f).addr
    {
      ghost var k := 0;
      it := start;
      NodeAt(headers, f, x, g, start, end, 0);
      while headers[it].next < block
        invariant k <= |f| && it == Before(start, f[..k]).addr
        invariant it in headers && (headers[it].next < block <==> k < |f|)
        invariant k < |f| ==> headers[it].next == f[k].addr
        decreases |f| - k
      {
        it := headers[it].next;
        k := k + 1;
        NodeAt(headers, f, x, g, start, end, k);
      }
      assert f[..k] == f;
    }

    /** The rest of it: joining and linking. */
    method SpliceIn(it: nat, block: nat)
      requires it != block && it in headers && block in headers && headers[it].next in headers
      modifies this`headers
      ensures headers == Splice(old(headers), it, block, end)
    {
      var insert := block;
      if it + headers[it].size == block {
        headers := headers[it := headers[it].(size := headers[it].size + headers[block].size)];
        insert := it;
      }
      if insert + headers[insert].size == headers[it].next {
        var next := headers[it].next;
        if next != end {
          headers := headers[insert := Header(headers[next].next, headers[insert].size + headers[next].size, false)];
        } else {
          headers := headers[insert := Header(end, headers[insert].size, false)];
        }
      } else {
        headers := headers[insert := Header(headers[it].next, headers[insert].size, false)];
      }
      if it != insert {
        headers := headers[it := headers[it].(next := insert)];
      }
    }

    /** `prvInsertBlockIntoFreeList`. */
    method Insert(block: nat, ghost f: seq<Block>, ghost x: Block, ghost g: seq<Block>)
      requires Chain(headers, Nodes(start, f + g, end)) && Between(f, x, g, start, end)
      requires block == x.addr && block in headers && headers[block].size == x.size && end in headers
      modifies this`headers
      ensures Chain(headers, Nodes(start, Joined(f, x, g), end))
      ensures forall a :: a in old(headers) && a != block && a != Before(start, f).addr ==>
                a in headers && headers[a] == old(headers)[a]
    {
      SpliceJoins(headers, f, x, g, start, end);
      var it := FindBefore(block, f, x, g);
      SpliceIn(it, block);
    }

    /** `vPortFree` takes the mark off a block and puts it on the list. */
    method Attach(block: nat, ghost l: seq<Block>, ghost x: Block, ghost r: seq<Block>)
      requires Consistent(headers, l + [x] + r, start, base, end) && !x.free && block == x.addr
      modifies this`headers
      ensures Chain(headers, Nodes(start, Joined(Frees(l), x, Frees(r)), end))
      ensures Same(old(headers), headers, Touched(start, l, x))
    {
      BeforeRelease(headers, l, x, r, start, base, end);
      headers := headers[block := headers[block].(owned := false)];
      Insert(block, Frees(l), x, Frees(r));
    }

    /** The work of `vPortFree` on a block in use. */
    method Release(block: nat, ghost l: seq<Block>, ghost x: Block, ghost r: seq<Block>)
      requires Valid() && blocks == l + [x] + r && !x.free && block == x.addr
      modifies this
      ensures Valid() && blocks == Joined(l, x, r) && minimumEver == old(minimumEver)
    {
      ghost var before := headers;
      assert x in blocks;
      freeBytes := freeBytes + headers[block].size;
      Attach(block, l, x, r);
      AfterRelease(before, headers, l, x, r, start, base, end);
      ReleasedTotal(l, x, r, base, end);
      blocks := Joined(l, x, r);
    }

    /** `vPortFree`. */
    method Free(pv: nat)
      requires Valid() && (pv == 0 || InUse(blocks, pv))
      modifies this
      ensures Valid() && minimumEver == old(minimumEver)
      ensures Step(old(blocks), HeapRuns.Release(pv), blocks) && (pv == 0 ==> headers == old(headers))
    {
      if pv != 0 {
        var link := pv - HEADER;
        ghost var l, x, r := FindUsed(blocks, pv);
        assert headers[link] == Header(0, x.size, true);
        if headers[link].owned {
          if headers[link].next == 0 {
            Release(link, l, x, r);
          }
        }
      }
    }

    /** The split of `pvPortMalloc`: the bytes of `x` behind `want` become the free block `y`. */
    method SplitOff(block: nat, want: nat, ghost f: seq<Block>, ghost x: Block, ghost g: seq<Block>, ghost y: Block)
      requires Chain(headers, Nodes(start, f + g, end)) && Between(f, x, g, start, end) && Between(f, y, g, start, end)
      requires 0 < want < x.size && y == Block(x.addr + want, x.size - want, true) && Apart(f, y, g)
      requires block == x.addr && block in headers && headers[block].size == x.size && end in headers
      modifies this`headers
      ensures Chain(headers, Nodes(start, f + [y] + g, end))
      ensures block in headers && headers[block].size == want
      ensures Same(old(headers), headers, {Before(start, f).addr, block, y.addr})
    {
      var link, stale: nat := block + want, *;
      OffList(headers, f, y, g, start, end, Header(stale, headers[block].size - want, false));
      headers := headers[link := Header(stale, headers[block].size - want, false)];
      OffList(headers, f, x, g, start, end, headers[block].(size := want));
      headers := headers[block := headers[block].(size := want)];
      NothingToJoin(f, y, g);
      Insert(link, f, y, g);
    }

    /** `pvPortMalloc` takes the found block off the list and puts back what it does not need. */
    method Detach(previous: nat, block: nat, want: nat, ghost l: seq<Block>, ghost x: Block, ghost r: seq<Block>)
      requires Consistent(headers, l + [x] + r, start, base, end) && x.free
      requires block == x.addr && previous == Before(start, Frees(l)).addr && 0 < want <= x.size
      modifies this`headers
      ensures Chain(headers, Nodes(start, Frees(l) + Rest(x, want) + Frees(r), end))
      ensures block in headers && headers[block].size == Taken(x, want)
      ensures Same(old(headers), headers, Touched(start, l, x) + Created(x, want))
    {
      BeforeCarve(headers, l, x, r, want, start, base, end);
      headers := headers[previous := headers[previous].(next := headers[block].next)];
      if headers[block].size - want > MINIMUM_BLOCK {
        SplitOff(block, want, Frees(l), x, Frees(r), Block(x.addr + want, x.size - want, true));
      } else {
        assert Frees(l) + [] + Frees(r) == Frees(l) + Frees(r);
      }
    }

    /** The rest of `pvPortMalloc` once the free block `x` is found. */
    method Carve(previous: nat, block: nat, want: nat, ghost l: seq<Block>, ghost x: Block, ghost r: seq<Block>)
      requires Valid() && blocks == l + [x] + r && x.free
      requires block == x.addr && previous == Before(start, Frees(l)).addr
      requires 0 < want <= x.size && want % ALIGNMENT == 0
      modifies this
      ensures Valid() && blocks == l + Carved(x, want) + r
      ensures minimumEver == if freeBytes < old(minimumEver) then freeBytes else old(minimumEver)
    {
      ghost var before := headers;
      Detach(previous, block, want, l, x, r);
      CarvedTotal(l, x, r, want);
      freeBytes := freeBytes - headers[block].size;
      if freeBytes < minimumEver {
        minimumEver := freeBytes;
      }
      AfterCarve(before, headers, l, x, r, want, start, base, end);
      headers := headers[block := Header(0, headers[block].size, true)];
      blocks := l + Carved(x, want) + r;
    }

    /** The search of `pvPortMalloc`: the first free block of at least `want` bytes and the
        node before it, or `pxEnd`. */
    method FindFit(want: nat, ghost fs: seq<Block>) returns (previous: nat, block: nat, ghost k: nat)
      requires Listed(headers, fs, start, end) && 0 < want
      ensures Searching(headers, fs, start, end, k, previous, block)
      ensures TooSmall(fs[..k], want) && (k < |fs| ==> want <= fs[k].size)
      ensures block == end || (block in headers && want <= headers[block].size)
    {
      k := 0;
      SearchAt(headers, fs, start, end, 0);
      previous := start;
      block := headers[start].next;
      while headers[block].size < want && headers[block].next != 0
        invariant Searching(headers, fs, start, end, k, previous, block) && TooSmall(fs[..k], want)
        decreases |fs| - k
      {
        assert fs[..k + 1] == fs[..k] + [fs[k]];
        SearchAt(headers, fs, start, end, k + 1);
        previous := block;
        block := headers[block].next;
        k := k + 1;
      }
    }

    /** `pvPortMalloc`. */
    method Malloc(wanted: nat) returns (pv: nat)
      requires Valid()
      modifies this
      ensures Valid() && Step(old(blocks), Request(wanted, pv), blocks)
      ensures pv == 0 ==> headers == old(headers) && minimumEver == old(minimumEver)
      ensures pv != 0 ==> minimumEver == if freeBytes < old(minimumEver) then freeBytes else old(minimumEver)
    {
      pv := 0;
      FreesWithin(blocks);
      if wanted < TOP_BIT {
        var want := if 0 < wanted then Adjusted(wanted) else 0;
        PartOfTotal(Frees(blocks));
        if 0 < want && want <= freeBytes {
          pv := Search(want);
        }
      }
    }

    /** `pvPortMalloc` once the size is settled. */
    method Search(want: nat) returns (pv: nat)
      requires Valid() && 0 < want && want % ALIGNMENT == 0
      modifies this
      ensures Valid()
      ensures pv == 0 <==> TooSmall(Frees(old(blocks)), want)
      ensures pv == 0 ==> blocks == old(blocks) && headers == old(headers) && minimumEver == old(minimumEver)
      ensures pv != 0 ==> FirstFit(old(blocks), want, pv, blocks)
      ensures pv != 0 ==> minimumEver == if freeBytes < old(minimumEver) then freeBytes else old(minimumEver)
    {
      pv := 0;
      ghost var fs := Frees(blocks);
      FreesAscend(blocks, base, end);
      var previous, block, k := FindFit(want, fs);
      if block != end {
        pv := headers[previous].next + HEADER;
        ghost var l, r := FindFree(blocks, k);
        Carve(previous, block, want, l, fs[k], r);
      }
    }
  }
}
