/** The FreeRTOS heap_4 allocator, seen as what it does to a row of blocks: first fit,
    splitting on allocation, joining neighbours on release. */
module HeapRows {

  /** `xHeapStructSize` and `portBYTE_ALIGNMENT` on this port, `heapMINIMUM_BLOCK_SIZE`. */
  const HEADER: nat := 8
  const ALIGNMENT: nat := 8
  const MINIMUM_BLOCK: nat := 16

  /** `xBlockAllocatedBit`, the top bit of a `size_t`. */
  const TOP_BIT: nat := 0x8000_0000

  datatype Block = Block(addr: nat, size: nat, free: bool) {
    function End(): nat {
      addr + size
    }
  }

  /** The blocks follow one another from `lo` to `hi` without gap or overlap, all aligned. */
  predicate Tiles(bs: seq<Block>, lo: nat, hi: nat) {
    if bs == [] then lo == hi
    else
      && bs[0].addr == lo && 0 < bs[0].size && bs[0].size % ALIGNMENT == 0
      && Tiles(bs[1..], bs[0].End(), hi)
  }

  /** No two neighbours are both free. */
  predicate Coalesced(bs: seq<Block>) {
    |bs| <= 1 || (!(bs[0].free && bs[1].free) && Coalesced(bs[1..]))
  }

  /** Two rows meet in two free blocks. */
  predicate Touching(a: seq<Block>, b: seq<Block>) {
    a != [] && b != [] && a[|a| - 1].free && b[0].free
  }

  function Frees(bs: seq<Block>): seq<Block> {
    if bs == [] then [] else (if bs[0].free then [bs[0]] else []) + Frees(bs[1..])
  }

  function Total(bs: seq<Block>): nat {
    if bs == [] then 0 else bs[0].size + Total(bs[1..])
  }

  predicate HasUsed(bs: seq<Block>, b: Block) {
    b in bs && !b.free
  }

  // ---------------------------------------------------------------- what the operations do to it

  /** Block `x` between the rows `l` and `r` is released, joining free neighbours. */
  function JoinLeft(l: seq<Block>, x: Block): (seq<Block>, Block) {
    if l != [] && l[|l| - 1].free && l[|l| - 1].End() == x.addr then
      (l[..|l| - 1], Block(l[|l| - 1].addr, l[|l| - 1].size + x.size, true))
    else (l, Block(x.addr, x.size, true))
  }

  function JoinRight(x: Block, r: seq<Block>): (Block, seq<Block>) {
    if r != [] && r[0].free && x.End() == r[0].addr then (Block(x.addr, x.size + r[0].size, true), r[1..])
    else (x, r)
  }

  function Joined(l: seq<Block>, x: Block, r: seq<Block>): seq<Block> {
    var (l', y) := JoinLeft(l, x);
    var (z, r') := JoinRight(y, r);
    l' + [z] + r'
  }

  /** `pv` is the payload of a block in use. */
  ghost predicate InUse(bs: seq<Block>, pv: nat) {
    exists b :: HasUsed(bs, b) && b.addr + HEADER == pv
  }

  /** The block with this payload is released. */
  ghost predicate Released(bs: seq<Block>, pv: nat, after: seq<Block>) {
    exists l, x, r :: bs == l + [x] + r && !x.free && x.addr + HEADER == pv && after == Joined(l, x, r)
  }

  /** The size of the block that serves a request: header included, rounded up. */
  function Adjusted(wanted: nat): (r: nat)
    ensures r % ALIGNMENT == 0 && wanted + HEADER <= r < wanted + HEADER + ALIGNMENT
  {
    var n := wanted + HEADER;
    if n % ALIGNMENT != 0 then n + (ALIGNMENT - n % ALIGNMENT) else n
  }

  /** What a free block keeps when it gives up `want` bytes: nothing, if that is too little. */
  function Rest(x: Block, want: nat): seq<Block>
    requires want <= x.size
  {
    if x.size - want > MINIMUM_BLOCK then [Block(x.addr + want, x.size - want, true)] else []
  }

  /** The bytes handed out. */
  function Taken(x: Block, want: nat): nat
    requires want <= x.size
  {
    if x.size - want > MINIMUM_BLOCK then want else x.size
  }

  function Carved(x: Block, want: nat): seq<Block>
    requires want <= x.size
  {
    [Block(x.addr, Taken(x, want), false)] + Rest(x, want)
  }

  predicate TooSmall(fs: seq<Block>, want: nat) {
    forall b :: b in fs ==> b.size < want
  }

  /** Some free block is large enough for a request within the range of sizes. */
  predicate Serves(bs: seq<Block>, wanted: nat) {
    0 < wanted < TOP_BIT && !TooSmall(Frees(bs), Adjusted(wanted))
  }

  /** `pv` is the payload of the first free block of `want` bytes, which is carved up. */
  ghost predicate FirstFit(bs: seq<Block>, want: nat, pv: nat, after: seq<Block>) {
    exists l, x, r ::
      && bs == l + [x] + r && x.free && TooSmall(Frees(l), want) && want <= x.size
      && pv == x.addr + HEADER && after == l + Carved(x, want) + r
  }

  ghost predicate Allocated(bs: seq<Block>, wanted: nat, pv: nat, after: seq<Block>) {
    FirstFit(bs, Adjusted(wanted), pv, after)
  }

  // ---------------------------------------------------------------- facts about rows

  lemma {:induction false} CoalescedAppend(a: seq<Block>, b: seq<Block>)
    ensures Coalesced(a + b) <==> Coalesced(a) && Coalesced(b) && !Touching(a, b)
  {
    if a == [] {
      assert a + b == b;
    } else {
      CoalescedAppend(a[1..], b);
      assert (a + b)[1..] == a[1..] + b;
    }
  }

  lemma {:induction false} FreesAppend(a: seq<Block>, b: seq<Block>)
    ensures Frees(a + b) == Frees(a) + Frees(b)
  {
    if a == [] {
      assert a + b == b;
    } else {
      var head := if a[0].free then [a[0]] else [];
      FreesAppend(a[1..], b);
      assert (a + b)[1..] == a[1..] + b;
      assert Frees(a + b) == head + (Frees(a[1..]) + Frees(b));
    }
  }

  lemma {:induction false} TotalAppend(a: seq<Block>, b: seq<Block>)
    ensures Total(a + b) == Total(a) + Total(b)
  {
    if a == [] {
      assert a + b == b;
    } else {
      TotalAppend(a[1..], b);
      assert (a + b)[1..] == a[1..] + b;
    }
  }

  lemma TotalAround(a: seq<Block>, b: seq<Block>, c: seq<Block>)
    ensures Total(a + b + c) == Total(a) + Total(b) + Total(c)
  {
    TotalAppend(a + b, c);
    TotalAppend(a, b);
  }

  lemma {:induction false} PartOfTotal(bs: seq<Block>)
    ensures forall b :: b in bs ==> b.size <= Total(bs)
  {
    if bs != [] {
      PartOfTotal(bs[1..]);
    }
  }

  function Cut(a: seq<Block>, lo: nat): nat {
    lo + Total(a)
  }

  /** Where a row splits. */
  lemma {:induction false} TilesSplit(a: seq<Block>, b: seq<Block>, lo: nat, hi: nat)
    requires Tiles(a + b, lo, hi)
    ensures lo <= Cut(a, lo) <= hi && Tiles(a, lo, Cut(a, lo)) && Tiles(b, Cut(a, lo), hi)
  {
    if a == [] {
      assert a + b == b;
      TilesBounds(b, lo, hi);
    } else {
      assert (a + b)[1..] == a[1..] + b;
      TilesSplit(a[1..], b, a[0].End(), hi);
    }
  }

  lemma {:induction false} TilesJoin(a: seq<Block>, b: seq<Block>, lo: nat, mid: nat, hi: nat)
    requires Tiles(a, lo, mid) && Tiles(b, mid, hi)
    ensures Tiles(a + b, lo, hi)
  {
    if a == [] {
      assert a + b == b;
    } else {
      TilesJoin(a[1..], b, a[0].End(), mid, hi);
      assert (a + b)[1..] == a[1..] + b;
    }
  }

  lemma {:induction false} TilesBounds(bs: seq<Block>, lo: nat, hi: nat)
    requires Tiles(bs, lo, hi)
    ensures lo <= hi && hi == lo + Total(bs)
    ensures forall b :: b in bs ==> lo <= b.addr && b.End() <= hi && 0 < b.size && b.size % ALIGNMENT == 0
    ensures bs != [] ==> bs[|bs| - 1].End() == hi
  {
    if bs != [] {
      TilesBounds(bs[1..], bs[0].End(), hi);
    }
  }

  lemma {:induction false} TilesAligned(bs: seq<Block>, lo: nat, hi: nat)
    requires Tiles(bs, lo, hi) && lo % ALIGNMENT == 0
    ensures hi % ALIGNMENT == 0 && forall b :: b in bs ==> b.addr % ALIGNMENT == 0
  {
    if bs != [] {
      TilesAligned(bs[1..], bs[0].End(), hi);
    }
  }

  /** Distinct blocks of a row do not overlap. */
  lemma {:induction false} TilesDisjoint(bs: seq<Block>, lo: nat, hi: nat, i: nat, j: nat)
    requires Tiles(bs, lo, hi) && i < j < |bs|
    ensures bs[i].End() <= bs[j].addr
  {
    if i == 0 {
      TilesBounds(bs[1..], bs[0].End(), hi);
      assert bs[j] in bs[1..];
    } else {
      TilesDisjoint(bs[1..], bs[0].End(), hi, i - 1, j - 1);
    }
  }

  /** So a block is known by its address. */
  lemma AddressNamesBlock(bs: seq<Block>, lo: nat, hi: nat)
    requires Tiles(bs, lo, hi)
    ensures forall b, c :: b in bs && c in bs && b.addr == c.addr ==> b == c
  {
    TilesBounds(bs, lo, hi);
    forall b, c | b in bs && c in bs && b.addr == c.addr
      ensures b == c
    {
      var i :| 0 <= i < |bs| && bs[i] == b;
      var j :| 0 <= j < |bs| && bs[j] == c;
      if i < j {
        TilesDisjoint(bs, lo, hi, i, j);
      } else if j < i {
        TilesDisjoint(bs, lo, hi, j, i);
      }
    }
  }

  lemma RowAround(l: seq<Block>, x: Block, r: seq<Block>, lo: nat, hi: nat)
    requires Tiles(l + [x] + r, lo, hi)
    ensures Tiles(l, lo, x.addr) && Tiles(r, x.End(), hi)
    ensures 0 < x.size && x.size % ALIGNMENT == 0 && lo <= x.addr && x.End() <= hi
  {
    assert l + [x] + r == l + ([x] + r);
    TilesSplit(l, [x] + r, lo, hi);
    assert ([x] + r)[1..] == r;
    TilesBounds(r, x.End(), hi);
  }

  lemma RowOf(l: seq<Block>, z: Block, r: seq<Block>, lo: nat, hi: nat)
    requires Tiles(l, lo, z.addr) && Tiles(r, z.End(), hi) && 0 < z.size && z.size % ALIGNMENT == 0
    ensures Tiles(l + [z] + r, lo, hi)
    ensures Coalesced(l) && Coalesced(r) && !Touching(l, [z]) && !Touching([z], r) ==> Coalesced(l + [z] + r)
  {
    TilesJoin(l, [z], lo, z.addr, z.End());
    TilesJoin(l + [z], r, lo, z.End(), hi);
    CoalescedAppend(l, [z]);
    CoalescedAppend(l + [z], r);
  }

  lemma {:induction false} FreesWithin(bs: seq<Block>)
    ensures forall b :: b in Frees(bs) <==> b in bs && b.free
  {
    if bs != [] {
      FreesWithin(bs[1..]);
    }
  }

  lemma FreesAround(l: seq<Block>, z: Block, r: seq<Block>)
    ensures Frees(l + [z] + r) == Frees(l) + (if z.free then [z] else []) + Frees(r)
  {
    FreesAppend(l + [z], r);
    FreesAppend(l, [z]);
    assert Frees([z]) == if z.free then [z] else [];
  }

  /** In a tiled row the last free block reaches the end exactly if the last block is free. */
  lemma {:induction false} LastFree(l: seq<Block>, lo: nat, hi: nat)
    requires Tiles(l, lo, hi)
    ensures Frees(l) != [] && Frees(l)[|Frees(l)| - 1].End() == hi <==> l != [] && l[|l| - 1].free
    ensures l != [] && l[|l| - 1].free ==>
              Frees(l)[|Frees(l)| - 1] == l[|l| - 1] && Frees(l)[..|Frees(l)| - 1] == Frees(l[..|l| - 1])
  {
    if l != [] {
      var front, last := l[..|l| - 1], l[|l| - 1];
      assert l == front + [last];
      TilesSplit(front, [last], lo, hi);
      FreesAppend(front, [last]);
      assert Frees([last]) == if last.free then [last] else [];
      TilesBounds(front, lo, Cut(front, lo));
      FreesWithin(front);
    }
  }

  /** It begins with a free block exactly if its first free block is where it begins. */
  lemma FirstFree(r: seq<Block>, lo: nat, hi: nat)
    requires Tiles(r, lo, hi)
    ensures Frees(r) != [] && Frees(r)[0].addr == lo <==> r != [] && r[0].free
    ensures r != [] && r[0].free ==> Frees(r)[0] == r[0] && Frees(r)[1..] == Frees(r[1..])
  {
    if r != [] {
      TilesBounds(r[1..], r[0].End(), hi);
      FreesWithin(r[1..]);
    }
  }

  /** Free blocks stand in address order. */
  lemma {:induction false} FreesAscend(bs: seq<Block>, lo: nat, hi: nat)
    requires Tiles(bs, lo, hi)
    ensures forall b :: b in Frees(bs) ==> b.free && lo <= b.addr && b.addr < b.End() <= hi
    ensures forall i, j :: 0 <= i < j < |Frees(bs)| ==> Frees(bs)[i].addr < Frees(bs)[j].addr
  {
    if bs != [] {
      TilesBounds(bs[1..], bs[0].End(), hi);
      FreesAscend(bs[1..], bs[0].End(), hi);
    }
  }

  /** The `k`-th free block of a row, and the rows on either side of it. */
  lemma {:induction false} FindFree(bs: seq<Block>, k: nat) returns (l: seq<Block>, r: seq<Block>)
    requires k < |Frees(bs)|
    ensures bs == l + [Frees(bs)[k]] + r
    ensures Frees(l) == Frees(bs)[..k] && Frees(r) == Frees(bs)[k + 1..]
  {
    if bs[0].free && k == 0 {
      l, r := [], bs[1..];
    } else {
      var j := if bs[0].free then k - 1 else k;
      l, r := FindFree(bs[1..], j);
      l := [bs[0]] + l;
      assert l[1..] + [Frees(bs)[k]] + r == bs[1..];
    }
  }

  lemma FindUsed(bs: seq<Block>, pv: nat) returns (l: seq<Block>, x: Block, r: seq<Block>)
    requires InUse(bs, pv)
    ensures bs == l + [x] + r && x in bs && !x.free && x.addr + HEADER == pv
  {
    x :| HasUsed(bs, x) && x.addr + HEADER == pv;
    var i :| 0 <= i < |bs| && bs[i] == x;
    l, r := bs[..i], bs[i + 1..];
  }

  // ---------------------------------------------------------------- release

  lemma FreesJoinLeft(l: seq<Block>, x: Block, lo: nat)
    requires Tiles(l, lo, x.addr)
    ensures JoinLeft(Frees(l), x) == (Frees(JoinLeft(l, x).0), JoinLeft(l, x).1)
    ensures JoinLeft(l, x).1.End() == x.End() && JoinLeft(l, x).1.free
  {
    LastFree(l, lo, x.addr);
    FreesWithin(l);
    TilesBounds(l, lo, x.addr);
  }

  lemma FreesJoinRight(x: Block, r: seq<Block>, hi: nat)
    requires Tiles(r, x.End(), hi)
    ensures JoinRight(x, Frees(r)) == (JoinRight(x, r).0, Frees(JoinRight(x, r).1))
    ensures x.free ==> JoinRight(x, r).0.free
  {
    FirstFree(r, x.End(), hi);
    FreesWithin(r);
  }

  /** Releasing a block does to the free list what it does to the heap. */
  lemma FreesOfJoined(l: seq<Block>, x: Block, r: seq<Block>, lo: nat, hi: nat)
    requires Tiles(l + [x] + r, lo, hi)
    ensures Frees(Joined(l, x, r)) == Joined(Frees(l), x, Frees(r))
  {
    RowAround(l, x, r, lo, hi);
    FreesJoinLeft(l, x, lo);
    var (l', y) := JoinLeft(l, x);
    FreesJoinRight(y, r, hi);
    var (z, r') := JoinRight(y, r);
    FreesAround(l', z, r');
  }

  lemma DropLast(l: seq<Block>, lo: nat, hi: nat)
    requires l != [] && Tiles(l, lo, hi) && Coalesced(l)
    ensures var front, last := l[..|l| - 1], l[|l| - 1];
            && Tiles(front, lo, last.addr) && Coalesced(front) && !Touching(front, [last])
            && last.End() == hi && 0 < last.size && last.size % ALIGNMENT == 0
  {
    var front, last := l[..|l| - 1], l[|l| - 1];
    assert l == front + [last];
    TilesSplit(front, [last], lo, hi);
    CoalescedAppend(front, [last]);
  }

  lemma JoinedLeft(l: seq<Block>, x: Block, lo: nat)
    requires Tiles(l, lo, x.addr) && Coalesced(l) && 0 < x.size && x.size % ALIGNMENT == 0
    ensures var (l', y) := JoinLeft(l, x);
            && Tiles(l', lo, y.addr) && Coalesced(l') && !Touching(l', [y])
            && y.free && y.End() == x.End() && 0 < y.size && y.size % ALIGNMENT == 0
  {
    if l != [] && l[|l| - 1].free {
      DropLast(l, lo, x.addr);
    }
  }

  lemma JoinedRight(y: Block, r: seq<Block>, hi: nat)
    requires Tiles(r, y.End(), hi) && Coalesced(r) && y.free && 0 < y.size && y.size % ALIGNMENT == 0
    ensures var (z, r') := JoinRight(y, r);
            && Tiles(r', z.End(), hi) && Coalesced(r') && !Touching([z], r')
            && z.addr == y.addr && z.free && 0 < z.size && z.size % ALIGNMENT == 0
  {
  }

  /** The heap stays tiled, and coalesced, when a block is released. */
  lemma JoinedTiles(l: seq<Block>, x: Block, r: seq<Block>, lo: nat, hi: nat)
    requires Tiles(l + [x] + r, lo, hi) && Coalesced(l + [x] + r)
    ensures Tiles(Joined(l, x, r), lo, hi) && Coalesced(Joined(l, x, r))
  {
    RowAround(l, x, r, lo, hi);
    CoalescedAppend(l + [x], r);
    CoalescedAppend(l, [x]);
    JoinedLeft(l, x, lo);
    var (l', y) := JoinLeft(l, x);
    JoinedRight(y, r, hi);
    var (z, r') := JoinRight(y, r);
    RowOf(l', z, r', lo, hi);
  }

  lemma {:induction false} JoinedTotal(l: seq<Block>, x: Block, r: seq<Block>)
    ensures Total(Joined(l, x, r)) == Total(l) + x.size + Total(r)
  {
    var (l', y) := JoinLeft(l, x);
    var (z, r') := JoinRight(y, r);
    if l != [] {
      assert l == l[..|l| - 1] + [l[|l| - 1]];
      TotalAppend(l[..|l| - 1], [l[|l| - 1]]);
      assert Total([l[|l| - 1]]) == l[|l| - 1].size;
    }
    TotalAppend(l' + [z], r');
    TotalAppend(l', [z]);
    assert Total([z]) == z.size;
  }

  /** The free total grows by what is released. */
  lemma ReleasedTotal(l: seq<Block>, x: Block, r: seq<Block>, lo: nat, hi: nat)
    requires Tiles(l + [x] + r, lo, hi) && !x.free
    ensures Total(Frees(Joined(l, x, r))) == Total(Frees(l + [x] + r)) + x.size
  {
    FreesOfJoined(l, x, r, lo, hi);
    JoinedTotal(Frees(l), x, Frees(r));
    TotalAppend(Frees(l), Frees(r));
    FreesAround(l, x, r);
    assert Frees(l) + [] + Frees(r) == Frees(l) + Frees(r);
  }

  lemma JoinedHas(l: seq<Block>, x: Block, r: seq<Block>, b: Block)
    requires !b.free && b in Joined(l, x, r)
    ensures b in l || b in r
  {
  }

  // ---------------------------------------------------------------- allocation

  lemma CarvedRow(x: Block, want: nat)
    requires 0 < want <= x.size && want % ALIGNMENT == 0 && x.size % ALIGNMENT == 0
    ensures Tiles(Carved(x, want), x.addr, x.End()) && Coalesced(Carved(x, want))
    ensures Carved(x, want) != [] && !Carved(x, want)[0].free
  {
  }

  /** The heap stays tiled, and coalesced, when a free block is carved up. */
  lemma CarvedTiles(l: seq<Block>, x: Block, r: seq<Block>, want: nat, lo: nat, hi: nat)
    requires Tiles(l + [x] + r, lo, hi) && Coalesced(l + [x] + r) && x.free
    requires 0 < want <= x.size && want % ALIGNMENT == 0
    ensures Tiles(l + Carved(x, want) + r, lo, hi) && Coalesced(l + Carved(x, want) + r)
  {
    RowAround(l, x, r, lo, hi);
    CoalescedAppend(l + [x], r);
    CoalescedAppend(l, [x]);
    CarvedRow(x, want);
    var c := Carved(x, want);
    TilesJoin(l, c, lo, x.addr, x.End());
    TilesJoin(l + c, r, lo, x.End(), hi);
    CoalescedAppend(l, c);
    CoalescedAppend(l + c, r);
  }

  /** On the free list the remainder stands in for the block. */
  lemma FreesOfCarved(l: seq<Block>, x: Block, r: seq<Block>, want: nat)
    requires x.free && want <= x.size
    ensures Frees(l + [x] + r) == Frees(l) + [x] + Frees(r)
    ensures Frees(l + Carved(x, want) + r) == Frees(l) + Rest(x, want) + Frees(r)
  {
    FreesAround(l, x, r);
    var c, rest := Carved(x, want), Rest(x, want);
    FreesAppend(l + c, r);
    FreesAppend(l, c);
    assert c[1..] == rest;
    assert Frees(rest) == rest by {
      if rest != [] {
        assert rest[1..] == [];
      }
    }
  }

  /** The free total shrinks by the block handed out. */
  lemma CarvedTotal(l: seq<Block>, x: Block, r: seq<Block>, want: nat)
    requires x.free && 0 < want <= x.size
    ensures Total(Frees(l + [x] + r)) == Total(Frees(l + Carved(x, want) + r)) + Taken(x, want)
  {
    FreesOfCarved(l, x, r, want);
    TotalAround(Frees(l), [x], Frees(r));
    TotalAround(Frees(l), Rest(x, want), Frees(r));
  }

  lemma FreesApart(l: seq<Block>, x: Block, r: seq<Block>, lo: nat, hi: nat)
    requires Tiles(l + [x] + r, lo, hi) && Coalesced(l + [x] + r) && x.free
    ensures Frees(l) != [] ==> Frees(l)[|Frees(l)| - 1].End() <= x.addr
    ensures Frees(r) != [] ==> Frees(r)[0].addr != x.End()
  {
    RowAround(l, x, r, lo, hi);
    CoalescedAppend(l + [x], r);
    FirstFree(r, x.End(), hi);
    TilesBounds(l, lo, x.addr);
    FreesWithin(l);
  }
}
