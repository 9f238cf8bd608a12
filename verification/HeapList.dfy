/** The free list of the heap_4 allocator, threaded through the block headers in address order,
    and its agreement with the row of blocks. */
module HeapList {
  import opened HeapRows

  /** `BlockLink_t`, with the top bit of `xBlockSize` apart. */
  datatype Header = Header(next: nat, size: nat, owned: bool)

  type Headers = map<nat, Header>

  predicate Link(h: Headers, x: Block, y: Block) {
    x.addr in h && h[x.addr] == Header(y.addr, x.size, false)
  }

  /** The headers link these nodes in this order. */
  predicate Chain(h: Headers, ns: seq<Block>) {
    |ns| <= 1 || (Link(h, ns[0], ns[1]) && Chain(h, ns[1..]))
  }

  lemma {:induction false} ChainAppend(h: Headers, a: seq<Block>, b: seq<Block>)
    requires a != [] && b != []
    ensures Chain(h, a + b) <==> Chain(h, a) && Chain(h, b) && Link(h, a[|a| - 1], b[0])
  {
    assert (a + b)[1..] == a[1..] + b;
    if |a| > 1 {
      ChainAppend(h, a[1..], b);
    }
  }

  /** Only the headers of all nodes but the last matter, and of the last only its address. */
  lemma {:induction false} ChainFrame(h: Headers, h2: Headers, ns: seq<Block>, last: Block)
    requires ns != [] && Chain(h, ns) && last.addr == ns[|ns| - 1].addr
    requires forall n :: n in ns[..|ns| - 1] && n.addr in h ==> n.addr in h2 && h2[n.addr] == h[n.addr]
    ensures Chain(h2, ns[..|ns| - 1] + [last])
  {
    if |ns| > 1 {
      var rest := ns[1..];
      assert rest[..|rest| - 1] == ns[..|ns| - 1][1..];
      assert ns[0] in ns[..|ns| - 1];
      ChainFrame(h, h2, rest, last);
      var moved := ns[..|ns| - 1] + [last];
      assert moved[1..] == rest[..|rest| - 1] + [last];
      assert moved[1].addr == ns[1].addr;
    }
  }

  /** The end of `prvInsertBlockIntoFreeList`, when `it` is the last node below `b`: join `b`
      to it, join what follows, and link. */
  function Splice(h: Headers, it: nat, b: nat, end: nat): Headers
    requires it in h && b in h && h[it].next in h
  {
    var q := h[it].next;
    var left := it + h[it].size == b;
    var block := if left then it else b;
    var size := if left then h[it].size + h[b].size else h[b].size;
    var right := block + size == q && q != end;
    var h1 := h[block := Header(if right then h[q].next else q, if right then size + h[q].size else size, false)];
    if left then h1 else h1[it := h1[it].(next := b)]
  }

  /** Where a block belongs in the free list. */
  predicate Between(f: seq<Block>, x: Block, g: seq<Block>, start: nat, end: nat) {
    && (forall b :: b in f ==> b.free && b.addr < x.addr && b.addr != start)
    && (forall b :: b in g ==> b.free && x.addr < b.addr < end && b.addr != start)
    && start != x.addr && x.addr < end
    && (forall i, j :: 0 <= i < j < |f| ==> f[i].addr != f[j].addr)
  }

  /** No neighbour on the list touches `y`. */
  predicate Apart(f: seq<Block>, y: Block, g: seq<Block>) {
    y.free && (f != [] ==> f[|f| - 1].End() != y.addr) && (g != [] ==> g[0].addr != y.End())
  }

  function Sentinel(a: nat): Block {
    Block(a, 0, true)
  }

  /** `xStart`, the free blocks, `pxEnd`. */
  function Nodes(start: nat, f: seq<Block>, end: nat): seq<Block> {
    [Sentinel(start)] + f + [Sentinel(end)]
  }

  /** The last node below where a block belongs. */
  function Before(start: nat, f: seq<Block>): Block {
    if f == [] then Sentinel(start) else f[|f| - 1]
  }

  /** The first node above. */
  function Behind(g: seq<Block>, end: nat): Block {
    if g == [] then Sentinel(end) else g[0]
  }

  lemma ListHalves(h: Headers, f: seq<Block>, g: seq<Block>, start: nat, end: nat)
    requires Chain(h, Nodes(start, f + g, end))
    ensures Chain(h, [Sentinel(start)] + f) && Chain(h, g + [Sentinel(end)])
    ensures Link(h, Before(start, f), Behind(g, end))
    ensures g != [] ==> Link(h, g[0], Behind(g[1..], end)) && Chain(h, g[1..] + [Sentinel(end)])
  {
    var a, c := [Sentinel(start)] + f, g + [Sentinel(end)];
    assert Nodes(start, f + g, end) == a + c;
    ChainAppend(h, a, c);
    if g != [] {
      assert c == [g[0]] + (g[1..] + [Sentinel(end)]);
      ChainAppend(h, [g[0]], g[1..] + [Sentinel(end)]);
    }
  }

  lemma ListJoined(h: Headers, f: seq<Block>, z: Block, g: seq<Block>, start: nat, end: nat)
    requires Chain(h, [Sentinel(start)] + f + [z]) && Chain(h, g + [Sentinel(end)]) && Link(h, z, Behind(g, end))
    ensures Chain(h, Nodes(start, f + [z] + g, end))
  {
    var a, c := [Sentinel(start)] + f + [z], g + [Sentinel(end)];
    assert Nodes(start, f + [z] + g, end) == a + c;
    ChainAppend(h, a, c);
  }

  /** A block that touches no free block goes on the free list by itself. */
  lemma NothingToJoin(f: seq<Block>, b: Block, g: seq<Block>)
    requires b.free && (f != [] ==> f[|f| - 1].End() != b.addr) && (g != [] ==> g[0].addr != b.End())
    ensures Joined(f, b, g) == f + [b] + g
  {
  }

  /** The nodes below the splice keep their links, and the last of them leads to `z`. */
  lemma SpliceFront(h: Headers, h2: Headers, f: seq<Block>, x: Block, start: nat, z: Block)
    requires Chain(h, [Sentinel(start)] + f) && z.addr == JoinLeft(f, x).1.addr
    requires forall b :: b in f ==> b.free && b.addr != start
    requires forall i, j :: 0 <= i < j < |f| ==> f[i].addr != f[j].addr
    requires forall a :: a in h && a != Before(start, f).addr && a != x.addr ==> a in h2 && h2[a] == h[a]
    requires start != x.addr && forall b :: b in f ==> b.addr != x.addr
    requires JoinLeft(f, x).0 == f ==> Link(h2, Before(start, f), z)
    ensures Chain(h2, [Sentinel(start)] + JoinLeft(f, x).0 + [z])
  {
    var a := [Sentinel(start)] + f;
    var f' := JoinLeft(f, x).0;
    forall n | n in a[..|a| - 1] && n.addr in h
      ensures n.addr in h2 && h2[n.addr] == h[n.addr]
    {
    }
    if f' == f {
      ChainFrame(h, h2, a, a[|a| - 1]);
      assert a[..|a| - 1] + [a[|a| - 1]] == a;
      ChainAppend(h2, a, [z]);
    } else {
      ChainFrame(h, h2, a, z);
      assert a[..|a| - 1] == [Sentinel(start)] + f';
    }
  }

  lemma SpliceTail(h: Headers, h2: Headers, x: Block, g: seq<Block>, start: nat, end: nat, it: nat)
    requires Chain(h, g + [Sentinel(end)])
    requires forall b :: b in g ==> b.addr != x.addr && b.addr != it
    requires forall a :: a in h && a != it && a != x.addr ==> a in h2 && h2[a] == h[a]
    ensures Chain(h2, g + [Sentinel(end)])
  {
    var ns := g + [Sentinel(end)];
    assert ns[..|ns| - 1] == g;
    ChainFrame(h, h2, ns, Sentinel(end));
  }

  /** Splicing a block in at its place joins it to the free neighbours and no others. */
  lemma SpliceJoins(h: Headers, f: seq<Block>, x: Block, g: seq<Block>, start: nat, end: nat)
    requires Chain(h, Nodes(start, f + g, end)) && Between(f, x, g, start, end)
    requires x.addr in h && h[x.addr].size == x.size && end in h
    ensures Before(start, f).addr in h && h[Before(start, f).addr].next in h
    ensures Chain(Splice(h, Before(start, f).addr, x.addr, end), Nodes(start, Joined(f, x, g), end))
  {
    ListHalves(h, f, g, start, end);
    var h2 := Splice(h, Before(start, f).addr, x.addr, end);
    var (f', y) := JoinLeft(f, x);
    var (z, g') := JoinRight(y, g);
    SpliceFront(h, h2, f, x, start, z);
    SpliceTail(h, h2, x, g', start, end, Before(start, f).addr);
    assert Link(h2, z, Behind(g', end));
    ListJoined(h2, f', z, g', start, end);
  }

  lemma UnlinkFront(h: Headers, h2: Headers, f: seq<Block>, start: nat)
    requires Chain(h, [Sentinel(start)] + f)
    requires forall a :: a in h && a != Before(start, f).addr ==> a in h2 && h2[a] == h[a]
    requires forall b :: b in f ==> b.addr != start
    requires forall i, j :: 0 <= i < j < |f| ==> f[i].addr != f[j].addr
    ensures Chain(h2, [Sentinel(start)] + f)
  {
    var a := [Sentinel(start)] + f;
    ChainFrame(h, h2, a, a[|a| - 1]);
    assert a[..|a| - 1] + [a[|a| - 1]] == a;
  }

  /** Taking a block off the list. */
  lemma Unlinked(h: Headers, f: seq<Block>, x: Block, g: seq<Block>, start: nat, end: nat)
    requires Chain(h, Nodes(start, f + [x] + g, end)) && x.addr != start
    requires forall b :: b in f ==> b.addr != start && b.addr != x.addr
    requires forall b :: b in g ==> b.addr != start && forall c :: c in f ==> b.addr != c.addr
    requires forall i, j :: 0 <= i < j < |f| ==> f[i].addr != f[j].addr
    ensures var p := Before(start, f).addr;
            && Link(h, Before(start, f), x) && Link(h, x, Behind(g, end))
            && Chain(h[p := h[p].(next := h[x.addr].next)], Nodes(start, f + g, end))
  {
    assert f + [x] + g == f + ([x] + g);
    ListHalves(h, f, [x] + g, start, end);
    assert ([x] + g)[1..] == g;
    var p := Before(start, f).addr;
    var h2 := h[p := h[p].(next := h[x.addr].next)];
    UnlinkFront(h, h2, f, start);
    SpliceTail(h, h2, Before(start, f), g, start, end, p);
    HalvesMeet(h2, f, g, start, end);
  }

  lemma HalvesMeet(h: Headers, f: seq<Block>, g: seq<Block>, start: nat, end: nat)
    requires Chain(h, [Sentinel(start)] + f) && Chain(h, g + [Sentinel(end)]) && Link(h, Before(start, f), Behind(g, end))
    ensures Chain(h, Nodes(start, f + g, end))
  {
    ChainAppend(h, [Sentinel(start)] + f, g + [Sentinel(end)]);
    assert Nodes(start, f + g, end) == ([Sentinel(start)] + f) + (g + [Sentinel(end)]);
  }

  /** The node before position `k` of the lower half leads into it, or past the gap. */
  lemma NodeAt(h: Headers, f: seq<Block>, x: Block, g: seq<Block>, start: nat, end: nat, k: nat)
    requires Chain(h, Nodes(start, f + g, end)) && Between(f, x, g, start, end) && k <= |f|
    ensures var it := Before(start, f[..k]).addr;
            it in h && (h[it].next < x.addr <==> k < |f|) && (k < |f| ==> h[it].next == f[k].addr)
  {
    assert f + g == f[..k] + (f[k..] + g);
    ListHalves(h, f[..k], f[k..] + g, start, end);
  }

  /** `h2` differs from `h` at these addresses only. */
  ghost predicate Same(h: Headers, h2: Headers, but: set<nat>) {
    forall a :: a in h && a !in but ==> a in h2 && h2[a] == h[a]
  }

  /** Writing headers of no listed block leaves the list. */
  lemma ListKept(h: Headers, h2: Headers, fs: seq<Block>, start: nat, end: nat, but: set<nat>)
    requires Chain(h, Nodes(start, fs, end)) && Same(h, h2, but)
    requires start !in but && forall b :: b in fs ==> b.addr !in but
    ensures Chain(h2, Nodes(start, fs, end))
  {
    var ns := Nodes(start, fs, end);
    assert ns[..|ns| - 1] == [Sentinel(start)] + fs;
    ChainFrame(h, h2, ns, Sentinel(end));
  }

  /** Rewriting the header of a block off the list leaves the list. */
  lemma OffList(h: Headers, f: seq<Block>, x: Block, g: seq<Block>, start: nat, end: nat, v: Header)
    requires Chain(h, Nodes(start, f + g, end)) && Between(f, x, g, start, end)
    ensures Chain(h[x.addr := v], Nodes(start, f + g, end))
  {
    ListKept(h, h[x.addr := v], f + g, start, end, {x.addr});
  }

  // ---------------------------------------------------------------- the list and the heap

  /** The header of a block in use has no next block and carries the mark. */
  ghost predicate Marked(h: Headers, bs: seq<Block>) {
    forall b :: b in bs && !b.free ==> b.addr in h && h[b.addr] == Header(0, b.size, true)
  }

  /** `xStart` lies outside the heap.  The list in the headers is the free blocks of a coalesced
      tiling of the heap, and the header of every other block is marked. */
  ghost predicate Consistent(h: Headers, bs: seq<Block>, start: nat, base: nat, end: nat) {
    && 0 < base <= end < 0x1_0000_0000 && end - base < TOP_BIT && base % ALIGNMENT == 0 && !(base <= start <= end)
    && Tiles(bs, base, end) && Coalesced(bs) && Marked(h, bs)
    && Chain(h, Nodes(start, Frees(bs), end)) && end in h && h[end] == Header(0, 0, false)
  }

  /** The place of `x`, or of a part of it, in the free list. */
  lemma FreesBetween(l: seq<Block>, x: Block, r: seq<Block>, y: Block, lo: nat, hi: nat, start: nat)
    requires Tiles(l + [x] + r, lo, hi) && !(lo <= start <= hi) && x.addr <= y.addr < x.End()
    ensures Between(Frees(l), y, Frees(r), start, hi)
  {
    RowAround(l, x, r, lo, hi);
    FreesAscend(l, lo, x.addr);
    FreesAscend(r, x.End(), hi);
  }

  /** A block in use is between two halves of the free list. */
  lemma UsedBetween(l: seq<Block>, x: Block, r: seq<Block>, lo: nat, hi: nat, start: nat)
    requires Tiles(l + [x] + r, lo, hi) && !(lo <= start <= hi) && !x.free
    ensures Frees(l + [x] + r) == Frees(l) + Frees(r) && Between(Frees(l), x, Frees(r), start, hi)
  {
    RowAround(l, x, r, lo, hi);
    FreesAround(l, x, r);
    FreesBetween(l, x, r, x, lo, hi, start);
  }

  /** The end marker is neither `x` nor a node below it. */
  lemma EndApart(f: seq<Block>, x: Block, g: seq<Block>, start: nat, end: nat)
    requires Between(f, x, g, start, end) && start != end
    ensures Before(start, f).addr != end && x.addr != end
  {
  }

  /** The addresses whose headers a release or an allocation around `x` may write. */
  function Touched(start: nat, l: seq<Block>, x: Block): set<nat> {
    {Before(start, Frees(l)).addr, x.addr}
  }

  /** Blocks in use on either side keep their headers. */
  lemma MarkedAround(h: Headers, h2: Headers, l: seq<Block>, x: Block, r: seq<Block>, lo: nat, hi: nat, start: nat, extra: set<nat>)
    requires Tiles(l + [x] + r, lo, hi) && !(lo <= start <= hi) && Marked(h, l + [x] + r)
    requires Same(h, h2, Touched(start, l, x) + extra) && forall a :: a in extra ==> x.addr <= a < x.End()
    ensures Marked(h2, l) && Marked(h2, r)
  {
    RowAround(l, x, r, lo, hi);
    BelowUntouched(l, x, lo, start);
    AboveUntouched(l, x, r, lo, hi, start);
    assert forall b :: b in l || b in r ==> b in l + [x] + r;
    MarksKept(h, h2, l, Touched(start, l, x) + extra);
    MarksKept(h, h2, r, Touched(start, l, x) + extra);
  }

  /** Blocks in use whose headers are not written keep them. */
  lemma MarksKept(h: Headers, h2: Headers, bs: seq<Block>, but: set<nat>)
    requires Same(h, h2, but) && Marked(h, bs) && forall b :: b in bs && !b.free ==> b.addr !in but
    ensures Marked(h2, bs)
  {
  }

  lemma BelowUntouched(l: seq<Block>, x: Block, lo: nat, start: nat)
    requires Tiles(l, lo, x.addr) && !(lo <= start <= x.addr)
    ensures forall b :: b in l && !b.free ==> b.addr !in Touched(start, l, x) && b.addr < x.addr
  {
    TilesBounds(l, lo, x.addr);
    FreesWithin(l);
    AddressNamesBlock(l, lo, x.addr);
  }

  lemma AboveUntouched(l: seq<Block>, x: Block, r: seq<Block>, lo: nat, hi: nat, start: nat)
    requires Tiles(l, lo, x.addr) && Tiles(r, x.End(), hi) && !(lo <= start <= hi) && 0 < x.size && lo <= x.addr
    ensures forall b :: b in r ==> b.addr !in Touched(start, l, x) && x.End() <= b.addr
  {
    FreesAscend(l, lo, x.addr);
    TilesBounds(r, x.End(), hi);
  }

  lemma MarkedRow(h: Headers, l: seq<Block>, m: seq<Block>, r: seq<Block>)
    requires Marked(h, l) && Marked(h, m) && Marked(h, r)
    ensures Marked(h, l + m + r)
  {
  }

  /** The list and the row of a heap that is one free block. */
  lemma OneBlock(h: Headers, start: nat, base: nat, end: nat)
    requires 0 < base < end < 0x1_0000_0000 && end - base < TOP_BIT && !(base <= start <= end)
    requires base % ALIGNMENT == 0 && end % ALIGNMENT == 0
    requires start in h && h[start] == Header(base, 0, false) && end in h && h[end] == Header(0, 0, false)
    requires base in h && h[base] == Header(end, end - base, false)
    ensures var whole := [Block(base, end - base, true)];
            Consistent(h, whole, start, base, end) && Total(Frees(whole)) == end - base
  {
    var whole := [Block(base, end - base, true)];
    assert Frees(whole) == whole;
    var ns := Nodes(start, whole, end);
    assert ns[1..][1..] == [Sentinel(end)];
  }

  // ---------------------------------------------------------------- release

  /** Unmarking a block readies it for the free list. */
  lemma BeforeRelease(h: Headers, l: seq<Block>, x: Block, r: seq<Block>, start: nat, base: nat, end: nat)
    requires Consistent(h, l + [x] + r, start, base, end) && !x.free
    ensures x.addr in h && h[x.addr] == Header(0, x.size, true) && x.addr != end
    ensures Between(Frees(l), x, Frees(r), start, end)
    ensures Chain(h[x.addr := Header(0, x.size, false)], Nodes(start, Frees(l) + Frees(r), end))
  {
    assert x in l + [x] + r;
    UsedBetween(l, x, r, base, end, start);
    OffList(h, Frees(l), x, Frees(r), start, end, Header(0, x.size, false));
  }

  lemma MarkedJoined(h: Headers, l: seq<Block>, x: Block, r: seq<Block>)
    requires Marked(h, l) && Marked(h, r)
    ensures Marked(h, Joined(l, x, r))
  {
    forall b | b in Joined(l, x, r) && !b.free
      ensures b.addr in h && h[b.addr] == Header(0, b.size, true)
    {
      JoinedHas(l, x, r, b);
    }
  }

  lemma AfterRelease(h: Headers, h2: Headers, l: seq<Block>, x: Block, r: seq<Block>, start: nat, base: nat, end: nat)
    requires Consistent(h, l + [x] + r, start, base, end) && !x.free
    requires Same(h, h2, Touched(start, l, x))
    requires Chain(h2, Nodes(start, Joined(Frees(l), x, Frees(r)), end))
    ensures Consistent(h2, Joined(l, x, r), start, base, end)
  {
    UsedBetween(l, x, r, base, end, start);
    EndApart(Frees(l), x, Frees(r), start, end);
    assert h2[end] == h[end];
    JoinedTiles(l, x, r, base, end);
    FreesOfJoined(l, x, r, base, end);
    MarkedAround(h, h2, l, x, r, base, end, start, {});
    MarkedJoined(h2, l, x, r);
  }

  // ---------------------------------------------------------------- allocation

  /** A list of blocks at addresses other than NULL, ended by `pxEnd`. */
  predicate Listed(h: Headers, fs: seq<Block>, start: nat, end: nat) {
    && Chain(h, Nodes(start, fs, end)) && end != 0 && end in h && h[end] == Header(0, 0, false)
    && forall b :: b in fs ==> b.addr != 0
  }

  /** The walk has passed `k` free blocks; unless it is at `pxEnd` it is at the next one. */
  ghost predicate Searching(h: Headers, fs: seq<Block>, start: nat, end: nat, k: nat, previous: nat, block: nat) {
    && k <= |fs| && previous == Before(start, fs[..k]).addr && previous in h && h[previous].next == block && block in h
    && if k == |fs| then block == end && h[block] == Header(0, 0, false)
       else block == fs[k].addr && h[block].size == fs[k].size && h[block].next != 0
              && h[block].next == Behind(fs[k + 1..], end).addr
  }

  lemma SearchAt(h: Headers, fs: seq<Block>, start: nat, end: nat, k: nat)
    requires Listed(h, fs, start, end) && k <= |fs|
    ensures start in h && (k == 0 ==> h[start].next == Behind(fs[k..], end).addr)
    ensures Searching(h, fs, start, end, k, Before(start, fs[..k]).addr, Behind(fs[k..], end).addr)
  {
    assert fs == [] + fs;
    ListHalves(h, [], fs, start, end);
    assert fs[0..] == fs;
    assert fs == fs[..k] + fs[k..];
    ListHalves(h, fs[..k], fs[k..], start, end);
    assert k < |fs| ==> fs[k..][1..] == fs[k + 1..] && fs[k] in fs;
    assert k + 1 < |fs| ==> fs[k + 1] in fs;
  }

  lemma BetweenUnlinked(h: Headers, f: seq<Block>, x: Block, g: seq<Block>, start: nat, end: nat)
    requires Chain(h, Nodes(start, f + [x] + g, end)) && Between(f, x, g, start, end)
    ensures var p := Before(start, f).addr;
            && p in h && x.addr in h && h[x.addr].size == x.size && p != x.addr
            && Chain(h[p := h[p].(next := h[x.addr].next)], Nodes(start, f + g, end))
  {
    Unlinked(h, f, x, g, start, end);
  }

  /** Off the list goes the found block, and there is a place for a part of it. */
  lemma BeforeCarve(h: Headers, l: seq<Block>, x: Block, r: seq<Block>, want: nat, start: nat, base: nat, end: nat)
    requires Consistent(h, l + [x] + r, start, base, end) && x.free && 0 < want <= x.size
    ensures var p := Before(start, Frees(l)).addr;
            && p in h && x.addr in h && h[x.addr].size == x.size && p != x.addr && p != end && x.addr != end
            && Chain(h[p := h[p].(next := h[x.addr].next)], Nodes(start, Frees(l) + Frees(r), end))
    ensures Between(Frees(l), x, Frees(r), start, end)
    ensures want < x.size ==> var y := Block(x.addr + want, x.size - want, true);
              Between(Frees(l), y, Frees(r), start, end) && Apart(Frees(l), y, Frees(r))
  {
    FreesAround(l, x, r);
    FreesBetween(l, x, r, x, base, end, start);
    FreesApart(l, x, r, base, end);
    BetweenUnlinked(h, Frees(l), x, Frees(r), start, end);
    EndApart(Frees(l), x, Frees(r), start, end);
    if want < x.size {
      FreesBetween(l, x, r, Block(x.addr + want, x.size - want, true), base, end, start);
    }
  }

  /** The address of the header an allocation from `x` creates, if it does. */
  function Created(x: Block, want: nat): set<nat>
    requires want <= x.size
  {
    if x.size - want > MINIMUM_BLOCK then {x.addr + want} else {}
  }

  lemma RestOnList(h: Headers, f: seq<Block>, x: Block, g: seq<Block>, want: nat, start: nat, end: nat, v: Header)
    requires 0 < want <= x.size && Between(f, x, g, start, end)
    requires Chain(h, Nodes(start, f + Rest(x, want) + g, end))
    ensures Chain(h[x.addr := v], Nodes(start, f + Rest(x, want) + g, end))
  {
    ListKept(h, h[x.addr := v], f + Rest(x, want) + g, start, end, {x.addr});
  }

  /** Marking what is taken of `x` completes an allocation. */
  lemma AfterCarve(h: Headers, h2: Headers, l: seq<Block>, x: Block, r: seq<Block>, want: nat, start: nat, base: nat, end: nat)
    requires Consistent(h, l + [x] + r, start, base, end) && x.free && 0 < want <= x.size && want % ALIGNMENT == 0
    requires Same(h, h2, Touched(start, l, x) + Created(x, want))
    requires Chain(h2, Nodes(start, Frees(l) + Rest(x, want) + Frees(r), end))
    ensures Consistent(h2[x.addr := Header(0, Taken(x, want), true)], l + Carved(x, want) + r, start, base, end)
  {
    var h3 := h2[x.addr := Header(0, Taken(x, want), true)];
    CarvedTiles(l, x, r, want, base, end);
    FreesOfCarved(l, x, r, want);
    FreesBetween(l, x, r, x, base, end, start);
    RestOnList(h2, Frees(l), x, Frees(r), want, start, end, Header(0, Taken(x, want), true));
    MarkedAround(h, h3, l, x, r, base, end, start, Created(x, want));
    MarkedRow(h3, l, Carved(x, want), r);
    EndApart(Frees(l), x, Frees(r), start, end);
    RowAround(l, x, r, base, end);
    assert h3[end] == h[end];
  }
}
