/** What whole runs of `pvPortMalloc` and `vPortFree` calls guarantee their callers. */
module HeapRuns {
  import opened HeapRows

  datatype Call = Request(wanted: nat, pv: nat) | Release(pv: nat)

  /** One call on a row of blocks: an allocation that may be refused, or a release of NULL
      or of a payload in use. */
  ghost predicate Step(bs: seq<Block>, c: Call, after: seq<Block>) {
    match c
    case Request(wanted, pv) =>
      if pv == 0 then !Serves(bs, wanted) && after == bs
      else Serves(bs, wanted) && Allocated(bs, wanted, pv, after)
    case Release(pv) =>
      if pv == 0 then after == bs else Released(bs, pv, after)
  }

  /** The rows before and after each call. */
  ghost predicate Run(rows: seq<seq<Block>>, calls: seq<Call>) {
    |rows| == |calls| + 1 && forall i :: 0 <= i < |calls| ==> Step(rows[i], calls[i], rows[i + 1])
  }

  /** A heap of `lo` to `hi` in order. */
  predicate Sound(bs: seq<Block>, lo: nat, hi: nat) {
    Tiles(bs, lo, hi) && Coalesced(bs)
  }

  // ---------------------------------------------------------------- one call

  /** Releasing a block takes it, and no other, out of use. */
  lemma UsedAfterJoin(l: seq<Block>, x: Block, r: seq<Block>, lo: nat, hi: nat)
    requires Tiles(l + [x] + r, lo, hi) && !x.free
    ensures forall b :: HasUsed(Joined(l, x, r), b) <==> HasUsed(l + [x] + r, b) && b.addr != x.addr
  {
    RowAround(l, x, r, lo, hi);
    TilesBounds(l, lo, x.addr);
    TilesBounds(r, x.End(), hi);
    forall b
      ensures HasUsed(Joined(l, x, r), b) <==> HasUsed(l + [x] + r, b) && b.addr != x.addr
    {
      if HasUsed(Joined(l, x, r), b) {
        JoinedHas(l, x, r, b);
      }
      if HasUsed(l + [x] + r, b) && b.addr != x.addr {
        JoinedKeeps(l, x, r, b);
      }
    }
  }

  lemma JoinedKeeps(l: seq<Block>, x: Block, r: seq<Block>, b: Block)
    requires !b.free && (b in l || b in r)
    ensures b in Joined(l, x, r)
  {
    var (l', y) := JoinLeft(l, x);
    var (z, r') := JoinRight(y, r);
    assert b in l ==> b in l';
    assert b in r ==> b in r';
  }

  /** An allocation puts one block in use that was not, and leaves the others. */
  lemma UsedAfterCarve(l: seq<Block>, x: Block, r: seq<Block>, want: nat, lo: nat, hi: nat)
    requires Tiles(l + [x] + r, lo, hi) && x.free && 0 < want <= x.size
    ensures forall b :: HasUsed(l + Carved(x, want) + r, b) <==>
              HasUsed(l + [x] + r, b) || b == Block(x.addr, Taken(x, want), false)
    ensures forall b :: HasUsed(l + [x] + r, b) ==> b.End() <= x.addr || x.End() <= b.addr
  {
    RowAround(l, x, r, lo, hi);
    TilesBounds(l, lo, x.addr);
    TilesBounds(r, x.End(), hi);
  }

  /** Releasing a block as soon as it is allocated restores the heap exactly. */
  lemma AllocateThenRelease(l: seq<Block>, x: Block, r: seq<Block>, want: nat, lo: nat, hi: nat)
    requires Sound(l + [x] + r, lo, hi) && x.free && 0 < want <= x.size
    ensures Joined(l, Carved(x, want)[0], Rest(x, want) + r) == l + [x] + r
  {
    CoalescedAppend(l + [x], r);
    CoalescedAppend(l, [x]);
    if Rest(x, want) != [] {
      assert (Rest(x, want) + r)[1..] == r;
    } else {
      assert Rest(x, want) + r == r;
    }
  }

  lemma StepKeeps(bs: seq<Block>, c: Call, after: seq<Block>, lo: nat, hi: nat)
    requires Sound(bs, lo, hi) && Step(bs, c, after)
    ensures Sound(after, lo, hi)
    ensures forall b :: HasUsed(bs, b) && c != Release(b.addr + HEADER) ==> HasUsed(after, b)
    ensures forall b :: HasUsed(after, b) && !HasUsed(bs, b) ==> c.Request? && c.pv == b.addr + HEADER
    ensures c.Release? && c.pv != 0 ==> !InUse(after, c.pv)
  {
    if c.pv == 0 {
    } else if c.Request? {
      var l, x, r := AllocatedRow(bs, Adjusted(c.wanted), c.pv, after);
      CarvedTiles(l, x, r, Adjusted(c.wanted), lo, hi);
      UsedAfterCarve(l, x, r, Adjusted(c.wanted), lo, hi);
    } else {
      var l, x, r :| bs == l + [x] + r && !x.free && x.addr + HEADER == c.pv && after == Joined(l, x, r);
      JoinedTiles(l, x, r, lo, hi);
      UsedAfterJoin(l, x, r, lo, hi);
    }
  }

  lemma AllocatedRow(bs: seq<Block>, want: nat, pv: nat, after: seq<Block>) returns (l: seq<Block>, x: Block, r: seq<Block>)
    requires FirstFit(bs, want, pv, after)
    ensures bs == l + [x] + r && x.free && TooSmall(Frees(l), want) && want <= x.size
    ensures pv == x.addr + HEADER && after == l + Carved(x, want) + r
  {
    l, x, r :|
      && bs == l + [x] + r && x.free && TooSmall(Frees(l), want) && want <= x.size
      && pv == x.addr + HEADER && after == l + Carved(x, want) + r;
  }

  /** What a caller gets: an aligned payload of the wanted size inside the heap, apart from
      every payload and header in use. */
  lemma Granted(bs: seq<Block>, wanted: nat, pv: nat, after: seq<Block>, lo: nat, hi: nat)
    requires Sound(bs, lo, hi) && lo % ALIGNMENT == 0 && Step(bs, Request(wanted, pv), after) && pv != 0
    ensures pv % ALIGNMENT == 0 && lo + HEADER <= pv && pv + wanted <= hi
    ensures forall b :: HasUsed(bs, b) ==> b.End() <= pv - HEADER || pv + wanted <= b.addr
    ensures InUse(after, pv) && !InUse(bs, pv)
  {
    var l, x, r := AllocatedRow(bs, Adjusted(wanted), pv, after);
    PayloadPlaced(l, x, r, wanted, lo, hi);
    PayloadIsNew(l, x, r, Adjusted(wanted), lo, hi);
  }

  lemma PayloadPlaced(l: seq<Block>, x: Block, r: seq<Block>, wanted: nat, lo: nat, hi: nat)
    requires Tiles(l + [x] + r, lo, hi) && lo % ALIGNMENT == 0 && x.free && Adjusted(wanted) <= x.size
    ensures var pv := x.addr + HEADER;
            && pv % ALIGNMENT == 0 && lo + HEADER <= pv && pv + wanted <= hi
            && forall b :: HasUsed(l + [x] + r, b) ==> b.End() <= x.addr || pv + wanted <= b.addr
  {
    RowAround(l, x, r, lo, hi);
    TilesAligned(l, lo, x.addr);
    UsedAfterCarve(l, x, r, Adjusted(wanted), lo, hi);
    HeaderAligned(x.addr);
  }

  lemma HeaderAligned(a: nat)
    requires a % ALIGNMENT == 0
    ensures (a + HEADER) % ALIGNMENT == 0
  {
  }

  lemma PayloadIsNew(l: seq<Block>, x: Block, r: seq<Block>, want: nat, lo: nat, hi: nat)
    requires Tiles(l + [x] + r, lo, hi) && x.free && 0 < want <= x.size
    ensures InUse(l + Carved(x, want) + r, x.addr + HEADER) && !InUse(l + [x] + r, x.addr + HEADER)
  {
    assert HasUsed(l + Carved(x, want) + r, Carved(x, want)[0]);
    AddressNamesBlock(l + [x] + r, lo, hi);
    assert x in l + [x] + r;
  }

  /** A request with its 8-byte header, rounded up to a multiple of 8. */
  lemma AdjustedValue(wanted: nat)
    ensures Adjusted(wanted) == (wanted + 15) / 8 * 8
  {
  }

  /** A request is served exactly if it is for something and some free block can hold it. */
  lemma ServesIff(bs: seq<Block>, lo: nat, hi: nat, wanted: nat)
    requires Tiles(bs, lo, hi) && hi - lo < 0x8000_0000
    ensures Serves(bs, wanted) <==> 0 < wanted && exists b :: b in bs && b.free && (wanted + 15) / 8 * 8 <= b.size
  {
    AdjustedValue(wanted);
    FreesWithin(bs);
    TilesBounds(bs, lo, hi);
  }

  /** What a granted request does to the heap, in bytes.  The lowest free block that can hold
      it is used; it is split unless no more than 16 bytes would be left over. */
  lemma GrantedBlock(bs: seq<Block>, wanted: nat, pv: nat, after: seq<Block>, lo: nat, hi: nat) returns (x: Block)
    requires Sound(bs, lo, hi) && Step(bs, Request(wanted, pv), after) && pv != 0
    ensures x in bs && x.free && x.addr + 8 == pv && (wanted + 15) / 8 * 8 <= x.size
    ensures forall f :: f in bs && f.free && f.addr < x.addr ==> f.size < (wanted + 15) / 8 * 8
    ensures var want := (wanted + 15) / 8 * 8;
            if x.size - want > 16 then Block(x.addr, want, false) in after && Block(x.addr + want, x.size - want, true) in after
            else Block(x.addr, x.size, false) in after
  {
    AdjustedValue(wanted);
    var l, y, r := AllocatedRow(bs, Adjusted(wanted), pv, after);
    x := y;
    assert x in l + [x] + r;
    CarvedParts(l, x, r, Adjusted(wanted));
    forall f | f in bs && f.free && f.addr < x.addr
      ensures f.size < Adjusted(wanted)
    {
      LowerIsLeft(l, x, r, lo, hi, f);
      FreesWithin(l);
    }
  }

  lemma CarvedParts(l: seq<Block>, x: Block, r: seq<Block>, want: nat)
    requires want <= x.size
    ensures var after := l + Carved(x, want) + r;
            if x.size - want > 16 then Block(x.addr, want, false) in after && Block(x.addr + want, x.size - want, true) in after
            else Block(x.addr, x.size, false) in after
  {
    var c := Carved(x, want);
    assert c[0] in c && (|c| == 2 ==> c[1] in c);
    assert forall b :: b in c ==> b in l + c + r;
  }

  lemma LowerIsLeft(l: seq<Block>, x: Block, r: seq<Block>, lo: nat, hi: nat, f: Block)
    requires Tiles(l + [x] + r, lo, hi) && f in l + [x] + r && f.addr < x.addr
    ensures f in l
  {
    RowAround(l, x, r, lo, hi);
    TilesBounds(r, x.End(), hi);
  }

  /** So the block handed out is at most 31 bytes larger than what was asked for: 8 for the
      header, 7 for rounding, 16 for what is too little to split off. */
  lemma HandedOutSize(bs: seq<Block>, wanted: nat, pv: nat, after: seq<Block>, lo: nat, hi: nat)
    requires Sound(bs, lo, hi) && Step(bs, Request(wanted, pv), after) && pv != 0
    ensures exists b :: HasUsed(after, b) && b.addr + 8 == pv
    ensures forall b :: HasUsed(after, b) && b.addr + 8 == pv ==> wanted + 8 <= b.size <= wanted + 31
  {
    var x := GrantedBlock(bs, wanted, pv, after, lo, hi);
    var want := (wanted + 15) / 8 * 8;
    var b := Block(x.addr, if x.size - want > 16 then want else x.size, false);
    assert HasUsed(after, b);
    StepKeeps(bs, Request(wanted, pv), after, lo, hi);
    AddressNamesBlock(after, lo, hi);
  }

  /** Enough free bytes serve every request exactly while there is at most one free block. */
  lemma FreeBytesServeIff(bs: seq<Block>, lo: nat, hi: nat)
    requires Tiles(bs, lo, hi) && hi - lo < TOP_BIT
    ensures (forall wanted: nat :: 0 < wanted && Adjusted(wanted) <= Total(Frees(bs)) ==> Serves(bs, wanted))
            <==> |Frees(bs)| <= 1
  {
    TilesBounds(bs, lo, hi);
    FreesWithin(bs);
    FreeTotal(bs);
    if |Frees(bs)| >= 2 {
      PartIsLess(Frees(bs));
      var all: nat := Total(Frees(bs)) - HEADER;
      assert Adjusted(all) == Total(Frees(bs));
      assert !Serves(bs, all);
    } else {
      forall wanted: nat | 0 < wanted && Adjusted(wanted) <= Total(Frees(bs))
        ensures Serves(bs, wanted)
      {
        OneBlockServes(Frees(bs), wanted);
      }
    }
  }

  lemma OneBlockServes(fs: seq<Block>, wanted: nat)
    requires |fs| <= 1 && Adjusted(wanted) <= Total(fs)
    ensures !TooSmall(fs, Adjusted(wanted))
  {
    assert fs != [] ==> fs[1..] == [] && fs[0] in fs;
  }

  lemma {:induction false} FreeTotal(bs: seq<Block>)
    requires forall b :: b in bs ==> b.size % ALIGNMENT == 0
    ensures Total(Frees(bs)) <= Total(bs) && Total(Frees(bs)) % ALIGNMENT == 0
  {
    if bs != [] {
      FreeTotal(bs[1..]);
      if bs[0].free {
        assert Frees(bs)[1..] == Frees(bs[1..]);
      } else {
        assert Frees(bs) == Frees(bs[1..]);
      }
    }
  }

  /** Each of several blocks is smaller than all of them. */
  lemma {:induction false} PartIsLess(fs: seq<Block>)
    requires |fs| >= 2 && forall b :: b in fs ==> 0 < b.size && b.size % ALIGNMENT == 0
    ensures 2 * HEADER <= Total(fs) && forall b :: b in fs ==> b.size < Total(fs)
  {
    assert fs[0] in fs && fs[1] in fs && fs[1] in fs[1..];
    PartOfTotal(fs[1..]);
  }

  // ---------------------------------------------------------------- whole runs

  lemma {:induction false} RunSound(rows: seq<seq<Block>>, calls: seq<Call>, lo: nat, hi: nat, j: nat)
    requires Run(rows, calls) && j <= |calls| && Sound(rows[0], lo, hi)
    ensures Sound(rows[j], lo, hi) && Total(rows[j]) == hi - lo
  {
    if j > 0 {
      RunSound(rows, calls, lo, hi, j - 1);
      StepKeeps(rows[j - 1], calls[j - 1], rows[j], lo, hi);
    }
    TilesBounds(rows[j], lo, hi);
  }

  /** A block keeps its place and size until its payload is released. */
  lemma {:induction false} LiveUntilReleased(rows: seq<seq<Block>>, calls: seq<Call>, lo: nat, hi: nat, b: Block, i: nat, j: nat)
    requires Run(rows, calls) && i <= j <= |calls| && Sound(rows[0], lo, hi) && HasUsed(rows[i], b)
    requires forall k :: i <= k < j ==> calls[k] != Release(b.addr + HEADER)
    ensures HasUsed(rows[j], b)
  {
    if i < j {
      LiveUntilReleased(rows, calls, lo, hi, b, i, j - 1);
      RunSound(rows, calls, lo, hi, j - 1);
      StepKeeps(rows[j - 1], calls[j - 1], rows[j], lo, hi);
    }
  }

  /** In every run two payloads that are live together do not overlap. */
  lemma LiveApart(rows: seq<seq<Block>>, calls: seq<Call>, lo: nat, hi: nat, i: nat, j: nat)
    requires Run(rows, calls) && Sound(rows[0], lo, hi) && lo % ALIGNMENT == 0 && i < j < |calls|
    requires calls[i].Request? && calls[j].Request? && calls[i].pv != 0 && calls[j].pv != 0
    requires forall k :: i < k < j ==> calls[k] != Release(calls[i].pv)
    ensures calls[i].pv + calls[i].wanted + HEADER <= calls[j].pv || calls[j].pv + calls[j].wanted + HEADER <= calls[i].pv
  {
    var want := Adjusted(calls[i].wanted);
    RunSound(rows, calls, lo, hi, i);
    var l, x, r := AllocatedRow(rows[i], want, calls[i].pv, rows[i + 1]);
    RowAround(l, x, r, lo, hi);
    var b := Block(x.addr, Taken(x, want), false);
    UsedAfterCarve(l, x, r, want, lo, hi);
    assert HasUsed(rows[i + 1], b);
    LiveUntilReleased(rows, calls, lo, hi, b, i + 1, j);
    RunSound(rows, calls, lo, hi, j);
    Granted(rows[j], calls[j].wanted, calls[j].pv, rows[j + 1], lo, hi);
  }

  /** A sound heap with no block in use is one free block. */
  lemma NoneInUse(bs: seq<Block>, lo: nat, hi: nat)
    requires Sound(bs, lo, hi) && lo < hi && forall b :: b in bs ==> b.free
    ensures bs == [Block(lo, hi - lo, true)]
  {
    assert bs[0] in bs;
    if |bs| == 1 {
      TilesBounds(bs, lo, hi);
    }
  }

  ghost predicate SameUsed(bs: seq<Block>, cs: seq<Block>) {
    forall b :: HasUsed(bs, b) <==> HasUsed(cs, b)
  }

  /** The blocks in use decide everything else: what is free, and in how many pieces. */
  lemma {:induction false} UsedDecideRow(bs: seq<Block>, cs: seq<Block>, lo: nat, hi: nat)
    requires Sound(bs, lo, hi) && Sound(cs, lo, hi) && SameUsed(bs, cs)
    ensures bs == cs
  {
    if bs == [] || cs == [] {
      TilesBounds(bs, lo, hi);
      TilesBounds(cs, lo, hi);
    } else {
      FirstBlock(bs, cs, lo, hi);
      TailsSameUsed(bs, cs, lo, hi);
      UsedDecideRow(bs[1..], cs[1..], bs[0].End(), hi);
      assert bs == [bs[0]] + bs[1..] && cs == [cs[0]] + cs[1..];
    }
  }

  lemma FirstBlock(bs: seq<Block>, cs: seq<Block>, lo: nat, hi: nat)
    requires bs != [] && cs != [] && Sound(bs, lo, hi) && Sound(cs, lo, hi) && SameUsed(bs, cs)
    ensures bs[0] == cs[0]
  {
    assert bs[0] in bs && cs[0] in cs;
    AddressNamesBlock(bs, lo, hi);
    AddressNamesBlock(cs, lo, hi);
    if !bs[0].free {
      assert HasUsed(cs, bs[0]);
    } else if !cs[0].free {
      assert HasUsed(bs, cs[0]);
    } else {
      FreeHeadEnds(bs, cs, lo, hi);
      FreeHeadEnds(cs, bs, lo, hi);
    }
  }

  /** A free first block reaches at least as far as any other row's does. */
  lemma FreeHeadEnds(bs: seq<Block>, cs: seq<Block>, lo: nat, hi: nat)
    requires bs != [] && cs != [] && Sound(bs, lo, hi) && Sound(cs, lo, hi) && SameUsed(bs, cs)
    requires bs[0].free && cs[0].free
    ensures cs[0].End() <= bs[0].End()
  {
    TilesBounds(cs, lo, hi);
    TilesBounds(cs[1..], cs[0].End(), hi);
    assert cs[0] in cs;
    if |bs| == 1 {
      TilesBounds(bs, lo, hi);
    } else {
      assert bs[1] in bs && HasUsed(bs, bs[1]) && HasUsed(cs, bs[1]);
      assert bs[1] in cs[1..];
      assert Tiles(bs[1..], bs[0].End(), hi) && bs[1..][0] == bs[1];
    }
  }

  lemma TailsSameUsed(bs: seq<Block>, cs: seq<Block>, lo: nat, hi: nat)
    requires bs != [] && cs != [] && Sound(bs, lo, hi) && Sound(cs, lo, hi) && SameUsed(bs, cs) && bs[0] == cs[0]
    ensures SameUsed(bs[1..], cs[1..])
  {
    TilesBounds(bs[1..], bs[0].End(), hi);
    TilesBounds(cs[1..], cs[0].End(), hi);
    forall b
      ensures HasUsed(bs[1..], b) <==> HasUsed(cs[1..], b)
    {
      assert HasUsed(bs, b) <==> HasUsed(cs, b);
    }
  }

  /** Two runs from the same heap that end with the same blocks in use end with the same heap,
      however they got there. */
  lemma HistoryForgotten(rows: seq<seq<Block>>, calls: seq<Call>, rows': seq<seq<Block>>, calls': seq<Call>, lo: nat, hi: nat)
    requires Run(rows, calls) && Run(rows', calls') && Sound(rows[0], lo, hi) && rows'[0] == rows[0]
    requires SameUsed(rows[|calls|], rows'[|calls'|])
    ensures rows[|calls|] == rows'[|calls'|]
  {
    RunSound(rows, calls, lo, hi, |calls|);
    RunSound(rows', calls', lo, hi, |calls'|);
    UsedDecideRow(rows[|calls|], rows'[|calls'|], lo, hi);
  }

  /** Every payload handed out is given back later. */
  predicate AllGivenBack(calls: seq<Call>) {
    forall i :: 0 <= i < |calls| && calls[i].Request? && calls[i].pv != 0 ==>
      exists k :: i < k < |calls| && calls[k] == Release(calls[i].pv)
  }

  lemma InUseStep(bs: seq<Block>, c: Call, after: seq<Block>, lo: nat, hi: nat, pv: nat)
    requires Sound(bs, lo, hi) && Step(bs, c, after) && InUse(after, pv)
    ensures pv != 0 && c != Release(pv) && (InUse(bs, pv) || (c.Request? && c.pv == pv))
  {
    var b :| HasUsed(after, b) && b.addr + HEADER == pv;
    StepKeeps(bs, c, after, lo, hi);
  }

  /** What is in use was handed out, and has not been given back since. */
  lemma {:induction false} InUseWasGranted(rows: seq<seq<Block>>, calls: seq<Call>, lo: nat, hi: nat, pv: nat, j: nat) returns (i: nat)
    requires Run(rows, calls) && j <= |calls| && Sound(rows[0], lo, hi)
    requires (forall b :: b in rows[0] ==> b.free) && InUse(rows[j], pv)
    ensures i < j && calls[i].Request? && calls[i].pv == pv != 0 && forall k :: i < k < j ==> calls[k] != Release(pv)
  {
    assert j > 0;
    RunSound(rows, calls, lo, hi, j - 1);
    InUseStep(rows[j - 1], calls[j - 1], rows[j], lo, hi, pv);
    if InUse(rows[j - 1], pv) {
      i := InUseWasGranted(rows, calls, lo, hi, pv, j - 1);
    } else {
      i := j - 1;
    }
  }

  /** However calls were ordered and sized, once everything handed out has been given back the
      heap is in one piece again. */
  lemma AllReleased(rows: seq<seq<Block>>, calls: seq<Call>, lo: nat, hi: nat)
    requires Run(rows, calls) && AllGivenBack(calls)
    requires lo < hi && (hi - lo) % ALIGNMENT == 0 && rows[0] == [Block(lo, hi - lo, true)]
    ensures rows[|calls|] == rows[0]
  {
    RunSound(rows, calls, lo, hi, |calls|);
    forall b | b in rows[|calls|]
      ensures b.free
    {
      if HasUsed(rows[|calls|], b) {
        assert InUse(rows[|calls|], b.addr + HEADER);
        var i := InUseWasGranted(rows, calls, lo, hi, b.addr + HEADER, |calls|);
      }
    }
    NoneInUse(rows[|calls|], lo, hi);
  }

  // ---------------------------------------------------------------- how small blocks get

  predicate AtLeast(bs: seq<Block>, n: nat) {
    forall b :: b in bs ==> n <= b.size
  }

  lemma JoinedSizes(l: seq<Block>, x: Block, r: seq<Block>, n: nat)
    requires AtLeast(l + [x] + r, n)
    ensures AtLeast(Joined(l, x, r), n)
  {
    assert forall b :: b in l || b == x || b in r ==> b in l + [x] + r;
  }

  lemma CarvedSizes(l: seq<Block>, x: Block, r: seq<Block>, want: nat, n: nat)
    requires AtLeast(l + [x] + r, n) && n <= want <= x.size && n <= 24 && want % 8 == 0 && x.size % 8 == 0
    ensures AtLeast(l + Carved(x, want) + r, n)
  {
    assert forall b :: b in l || b == x || b in r ==> b in l + [x] + r;
  }

  lemma StepSizes(bs: seq<Block>, c: Call, after: seq<Block>, lo: nat, hi: nat, n: nat)
    requires Sound(bs, lo, hi) && Step(bs, c, after) && AtLeast(bs, n) && n <= 24
    requires c.Request? && c.pv != 0 ==> n <= (c.wanted + 15) / 8 * 8
    ensures AtLeast(after, n)
  {
    if c.pv == 0 {
    } else if c.Request? {
      AdjustedValue(c.wanted);
      var l, x, r := AllocatedRow(bs, Adjusted(c.wanted), c.pv, after);
      RowAround(l, x, r, lo, hi);
      CarvedSizes(l, x, r, Adjusted(c.wanted), n);
    } else {
      var l, x, r :| bs == l + [x] + r && !x.free && x.addr + HEADER == c.pv && after == Joined(l, x, r);
      JoinedSizes(l, x, r, n);
    }
  }

  /** A run from one free block, of at least 24 bytes, in which every request granted is for
      at least `n` bytes. */
  ghost predicate WholeRun(rows: seq<seq<Block>>, calls: seq<Call>, lo: nat, hi: nat, n: nat) {
    && Run(rows, calls) && lo + 24 <= hi && (hi - lo) % 8 == 0 && rows[0] == [Block(lo, hi - lo, true)]
    && forall i :: 0 <= i < |calls| && calls[i].Request? && calls[i].pv != 0 ==> n <= calls[i].wanted
  }

  /** Every block has room for a header and 8 bytes, whatever is requested; and for 16 bytes if
      every request is for more than 8. */
  lemma {:induction false} RunSizes(rows: seq<seq<Block>>, calls: seq<Call>, lo: nat, hi: nat, n: nat, j: nat)
    requires WholeRun(rows, calls, lo, hi, n) && j <= |calls|
    ensures AtLeast(rows[j], if n > 8 then 24 else 16)
  {
    if j > 0 {
      RunSizes(rows, calls, lo, hi, n, j - 1);
      RunSound(rows, calls, lo, hi, j - 1);
      StepSizes(rows[j - 1], calls[j - 1], rows[j], lo, hi, if n > 8 then 24 else 16);
    }
  }

  ghost predicate NoSmallFree(rows: seq<seq<Block>>) {
    forall j, b: Block :: 0 <= j < |rows| && b in rows[j] && b.free ==> 24 <= b.size
  }

  /** Splitting leaves no free block below 24 bytes, but releasing a block of 16 can.  No run
      has one exactly if every request is for more than 8 bytes. */
  lemma NoSmallFreeIff(n: nat)
    ensures (forall rows, calls, lo, hi :: WholeRun(rows, calls, lo, hi, n) ==> NoSmallFree(rows)) <==> n > 8
  {
    if n > 8 {
      forall rows, calls, lo, hi | WholeRun(rows, calls, lo, hi, n)
        ensures NoSmallFree(rows)
      {
        forall j, b: Block | 0 <= j < |rows| && b in rows[j] && b.free
          ensures 24 <= b.size
        {
          RunSizes(rows, calls, lo, hi, n, j);
        }
      }
    } else {
      FragmentedRefusal();
      assert WholeRun(FragmentedRows(), FragmentedCalls(), 8, 72, n);
      var b := Block(8, 16, true);
      assert b in FragmentedRows()[3] && b.free;
    }
  }

  // ---------------------------------------------------------------- fragmentation

  /** The rows of a run that ends in a refusal although enough bytes are free. */
  function FragmentedRows(): seq<seq<Block>> {
    [[Block(8, 64, true)],
     [Block(8, 16, false), Block(24, 48, true)],
     [Block(8, 16, false), Block(24, 16, false), Block(40, 32, true)],
     [Block(8, 16, true), Block(24, 16, false), Block(40, 32, true)],
     [Block(8, 16, true), Block(24, 16, false), Block(40, 32, true)]]
  }

  function FragmentedCalls(): seq<Call> {
    [Request(8, 16), Request(8, 32), Release(16), Request(40, 0)]
  }

  lemma FirstRequests()
    ensures Step(FragmentedRows()[0], FragmentedCalls()[0], FragmentedRows()[1])
    ensures Step(FragmentedRows()[1], FragmentedCalls()[1], FragmentedRows()[2])
  {
    var x, a, y := Block(8, 64, true), Block(8, 16, false), Block(24, 48, true);
    assert FragmentedRows()[0] == [] + [x] + [] && FragmentedRows()[1] == [] + Carved(x, 16) + [];
    assert Frees([x]) == [x] && x in Frees([x]);
    assert FirstFit(FragmentedRows()[0], 16, 16, FragmentedRows()[1]);
    assert FragmentedRows()[1] == [a] + [y] + [] && FragmentedRows()[2] == [a] + Carved(y, 16) + [];
    assert [a, y][1..] == [y] && Frees([y]) == [y] && y in Frees([a, y]) && Frees([a]) == [];
    assert FirstFit(FragmentedRows()[1], 16, 32, FragmentedRows()[2]);
  }

  lemma ReleaseAndRefusal()
    ensures Step(FragmentedRows()[2], FragmentedCalls()[2], FragmentedRows()[3])
    ensures Step(FragmentedRows()[3], FragmentedCalls()[3], FragmentedRows()[4])
    ensures Total(Frees(FragmentedRows()[3])) == 48
  {
    var a, b, c := Block(8, 16, false), Block(24, 16, false), Block(40, 32, true);
    var a' := Block(8, 16, true);
    assert FragmentedRows()[2] == [] + [a] + [b, c] && FragmentedRows()[3] == Joined([], a, [b, c]);
    assert [a', b, c][1..] == [b, c] && [b, c][1..] == [c] && [c][1..] == [];
    assert Frees([a', b, c]) == [a', c] && [a', c][1..] == [c];
  }

  /** In a run from one free block, a request for fewer bytes than are free is refused. */
  lemma FragmentedRefusal()
    ensures Run(FragmentedRows(), FragmentedCalls())
    ensures Adjusted(40) <= Total(Frees(FragmentedRows()[3])) && !Serves(FragmentedRows()[3], 40)
  {
    forall i | 0 <= i < 4
      ensures Step(FragmentedRows()[i], FragmentedCalls()[i], FragmentedRows()[i + 1])
    {
      if i < 2 {
        FirstRequests();
      } else {
        ReleaseAndRefusal();
      }
    }
    assert FragmentedCalls()[3] == Request(40, 0) && Adjusted(40) == 48;
    ReleaseAndRefusal();
  }
}
