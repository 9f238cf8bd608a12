/** Loading a region table into the Armv8-M MPU, where an alias is not another name for the
    selected register but an offset from it: with RNR aligned, alias `n` is region RNR + n.
    `ARM_MPU_LoadEx` therefore has to start in the middle of a window and move RNR along. */
module MpuV8 {
  import opened Words

  datatype Row = Row(rbar: word, rlar: word)

  /** The first region of the window that holds region `r`, for windows of `w`. */
  function AlignDown(r: nat, w: nat): (base: nat)
    requires w >= 1
    ensures base <= r < base + w
  {
    if r < w then 0 else AlignDown(r - w, w) + w
  }

  lemma {:induction false} AlignDownValue(r: nat, w: nat)
    requires w >= 1
    ensures AlignDown(r, w) + r % w == r && r % w < w
    ensures Aligned(AlignDown(r, w), w)
    decreases r
  {
    if r < w {
      ModuloUnique(r, w, 0, r);
    } else {
      AlignDownValue(r - w, w);
      ModuloUnique(r, w, (r - w) / w + 1, (r - w) % w);
    }
  }

  /** `r` is the first region of a window. */
  ghost predicate Aligned(r: nat, w: nat)
    requires w >= 1
  {
    r == 0 || (w <= r && Aligned(r - w, w))
  }

  /** Only one window holds a region. */
  lemma {:induction false} WindowOf(base: nat, w: nat, r: nat)
    requires w >= 1 && Aligned(base, w) && base <= r < base + w
    ensures AlignDown(r, w) == base
    decreases base
  {
    if base != 0 {
      WindowOf(base - w, w, r - w);
    }
  }

  /** `rnr & ~(MPU_TYPE_RALIASES - 1U)`, for a number of aliases that is a power of two. */
  lemma MaskAligns(rnr: word, k: nat)
    requires k <= 31
    ensures 1 <= Pow2(k) <= 0x8000_0000
    ensures And(rnr, Not(Pow2(k) - 1)) == AlignDown(rnr, Pow2(k))
  {
    Pow2Of32();
    Pow2Monotone(k, 31);
    MaskComplement(rnr, k, 32);
    ClearedIsMultiple(rnr, k);
    AlignDownValue(rnr, Pow2(k));
  }

  /** The regions after the rows of `t` are put at `first`, `first + 1`, ...: what the
      function promises. */
  function Placed(regions: seq<Row>, first: nat, t: seq<Row>): (r: seq<Row>)
    requires first + |t| <= |regions|
    ensures |r| == |regions|
  {
    seq(|regions|, j requires 0 <= j < |regions| => if first <= j < first + |t| then t[j - first] else regions[j])
  }

  lemma PlacedAppend(regions: seq<Row>, first: nat, t: seq<Row>, u: seq<Row>)
    requires first + |t| + |u| <= |regions|
    ensures Placed(Placed(regions, first, t), first + |t|, u) == Placed(regions, first, t + u)
  {
  }

  /** Word `i` of a table. */
  function WordOf(t: seq<Row>, i: nat): word
    requires i < 2 * |t|
  {
    if i % 2 == 0 then t[i / 2].rbar else t[i / 2].rlar
  }

  /** A write to the RBAR or, at odd offsets, the RLAR of region `r`. */
  function PutWord(regions: seq<Row>, r: nat, offset: nat, v: word): (r': seq<Row>)
    requires r < |regions|
    ensures |r'| == |regions|
  {
    regions[r := if offset % 2 == 0 then regions[r].(rbar := v) else regions[r].(rlar := v)]
  }

  /** The first `i` words of a table, written to the regions they belong to. */
  function Fed(regions: seq<Row>, first: nat, t: seq<Row>, i: nat): (r: seq<Row>)
    requires first + |t| <= |regions| && i <= 2 * |t|
    ensures |r| == |regions|
  {
    if i == 0 then regions
    else PutWord(Fed(regions, first, t, i - 1), first + (i - 1) / 2, i - 1, WordOf(t, i - 1))
  }

  lemma {:induction false} FedIsPlaced(regions: seq<Row>, first: nat, t: seq<Row>, n: nat)
    requires first + |t| <= |regions| && n <= |t|
    ensures Fed(regions, first, t, 2 * n) == Placed(regions, first, t[..n])
  {
    if n != 0 {
      FedIsPlaced(regions, first, t, n - 1);
      var before := Fed(regions, first, t, 2 * n - 2);
      assert Fed(regions, first, t, 2 * n - 1) == PutWord(before, first + n - 1, 2 * n - 2, t[n - 1].rbar);
      assert Fed(regions, first, t, 2 * n) == before[first + n - 1 := t[n - 1]];
    } else {
      assert Placed(regions, first, []) == regions;
    }
  }

  /** The region that word `offset` of the window acts on.  Alias 0 is RBAR/RLAR, which act on
      RNR itself. */
  function Target(rnr: nat, w: nat, offset: nat): nat
    requires w >= 1
  {
    if offset < 2 then rnr else AlignDown(rnr, w) + offset / 2
  }

  /** From `slot` on, consecutive words of an aligned window are those of consecutive regions. */
  lemma SlotTarget(rnr: nat, w: nat, slot: nat, i: nat)
    requires w >= 1 && (Aligned(rnr, w) || (slot == 0 && i < 2))
    ensures Target(rnr, w, 2 * slot + i) == rnr + slot + i / 2
    ensures (2 * slot + i) % 2 == i % 2
  {
    if Aligned(rnr, w) {
      WindowOf(rnr, w, rnr);
    }
  }

  /** Storing the next word at its place in the window is writing it to its region. */
  lemma FedStep(was: seq<Row>, first: nat, t: seq<Row>, i: nat, rnr: nat, w: nat, slot: nat)
    requires w >= 1 && first == rnr + slot && first + |t| <= |was| && i < 2 * |t|
    requires Aligned(rnr, w) || (slot == 0 && |t| <= 1)
    ensures Target(rnr, w, 2 * slot + i) < |was|
    ensures Store(Fed(was, first, t, i), rnr, w, 2 * slot + i, WordOf(t, i)) == Fed(was, first, t, i + 1)
  {
    SlotTarget(rnr, w, slot, i);
  }

  lemma FedAll(was: seq<Row>, first: nat, t: seq<Row>)
    requires first + |t| <= |was|
    ensures Fed(was, first, t, 2 * |t|) == Placed(was, first, t)
  {
    FedIsPlaced(was, first, t, |t|);
    assert t[..|t|] == t;
  }

  /** A store to word `offset` of the window that starts at RBAR. */
  function Store(regions: seq<Row>, rnr: nat, w: nat, offset: nat, v: word): seq<Row>
    requires 1 <= w && Target(rnr, w, offset) < |regions|
  {
    PutWord(regions, Target(rnr, w, offset), offset, v)
  }

  /** Word `i` of a table to its place in the window, after the words before it. */
  method StoreNext(before: seq<Row>, ghost was: seq<Row>, rnr: nat, w: nat, slot: nat, t: seq<Row>, i: nat) returns (regions: seq<Row>)
    requires 1 <= w && rnr + slot + |t| <= |was| && i < 2 * |t|
    requires Aligned(rnr, w) || (slot == 0 && |t| <= 1)
    requires before == Fed(was, rnr + slot, t, i)
    ensures regions == Fed(was, rnr + slot, t, i + 1)
  {
    FedStep(was, rnr + slot, t, i, rnr, w, slot);
    regions := Store(before, rnr, w, 2 * slot + i, WordOf(t, i));
  }

  /** Position `2 * n` of the window that is aligned at `rnr` is the RBAR of region `rnr + n`,
      the next its RLAR; and these are the words of a table, in order. */
  lemma WindowPositions(regions: seq<Row>, rnr: nat, w: nat, n: nat, v: word, t: seq<Row>, i: nat)
    requires 1 <= w && Aligned(rnr, w) && rnr + n < |regions| && i < |t|
    ensures Store(regions, rnr, w, 2 * n, v) == regions[rnr + n := Row(v, regions[rnr + n].rlar)]
    ensures Store(regions, rnr, w, 2 * n + 1, v) == regions[rnr + n := Row(regions[rnr + n].rbar, v)]
    ensures WordOf(t, 2 * i) == t[i].rbar && WordOf(t, 2 * i + 1) == t[i].rlar
  {
    SlotTarget(rnr, w, n, 0);
    SlotTarget(rnr, w, n, 1);
  }

  /** `ARM_MPU_OrderedMemcpy(&mpu->RBAR + 2 * slot, &table->RBAR, 2 * |t|)`: the words of the
      rows of `t`, RBAR then RLAR, to consecutive window positions. */
  method OrderedMemcpy(was: seq<Row>, rnr: nat, w: nat, slot: nat, t: seq<Row>) returns (regions: seq<Row>)
    requires slot + |t| <= w && 1 <= w
    requires Aligned(rnr, w) || (slot == 0 && |t| <= 1)
    requires rnr + slot + |t| <= |was|
    ensures regions == Placed(was, rnr + slot, t)
  {
    var i: nat := 0;
    regions := was;
    while i < 2 * |t|
      invariant i <= 2 * |t|
      invariant regions == Fed(was, rnr + slot, t, i)
    {
      regions := StoreNext(regions, was, rnr, w, slot, t, i);
      i := i + 1;
    }
    FedAll(was, rnr + slot, t);
  }

  /** The window of a region and the region's place in it. */
  method SplitNumber(rnr: word, k: nat, aliases: nat) returns (rnrBase: word, rnrOffset: nat)
    requires k <= 8 && aliases == Pow2(k)
    ensures rnrBase == AlignDown(rnr, aliases) && rnrBase + rnrOffset == rnr
  {
    MaskAligns(rnr, k);
    AlignDownValue(rnr, aliases);
    rnrBase := And(rnr, Not(aliases - 1));
    rnrOffset := rnr % aliases;
  }

  /** `ARM_MPU_LoadEx`, with 2^k aliases: row `i` becomes region `first + i` and no other
      region changes, wherever in a window the range starts and however many windows it
      crosses.  RNR is left at the window of the last row. */
  method LoadEx(was: seq<Row>, k: nat, first: word, table: seq<Row>, count: nat) returns (rnr: nat, regions: seq<Row>)
    requires k <= 8 && |was| == 256 && first < 256
    requires |table| == count && first + |table| <= 256
    ensures regions == Placed(was, first, table)
    ensures rnr == if |table| == 1 then first else LastWindow(first, Pow2(k), table)
  {
    regions := was;
    var aliases := Pow2(k);
    if count == 1 {
      rnr := first;
      regions := OrderedMemcpy(regions, rnr, aliases, 0, table);
    } else {
      var rnrBase: nat, rnrOffset: nat := SplitNumber(first, k, aliases);
      var cnt, t := count, table;
      LoadFromStart(was, rnrBase, rnrOffset, aliases, first, table);
      rnr := rnrBase;
      while rnrOffset + cnt > aliases
        invariant cnt == |t| && rnrBase == rnr
        invariant Pending(regions, rnr, rnrOffset, aliases, t)
        invariant LoadFrom(regions, rnr, rnrOffset, aliases, t)
               == (LastWindow(first, aliases, table), Placed(was, first, table))
      {
        var c: nat := aliases - rnrOffset;
        LoadStep(regions, rnr, rnrOffset, aliases, t);
        regions := OrderedMemcpy(regions, rnr, aliases, rnrOffset, t[..c]);
        t := t[c..];
        cnt := cnt - c;
        rnrOffset := 0;
        rnrBase := rnrBase + aliases;
        rnr := rnrBase;
      }
      regions := OrderedMemcpy(regions, rnr, aliases, rnrOffset, t);
    }
  }

  /** RNR selects a window, the next region is `offset` into it, and there is room. */
  ghost predicate Pending(regions: seq<Row>, rnr: nat, offset: nat, w: nat, t: seq<Row>) {
    offset < w && rnr + offset + |t| <= |regions| && Aligned(rnr, w)
  }

  /** What is left to do when RNR selects the window at `rnr`, the next region is `offset`
      into it, and the rows of `t` are still to come: RNR and the regions at the end. */
  function LoadFrom(regions: seq<Row>, rnr: nat, offset: nat, w: nat, t: seq<Row>): (nat, seq<Row>)
    requires offset < w && rnr + offset + |t| <= |regions|
    decreases |t|
  {
    if offset + |t| <= w then (rnr, Placed(regions, rnr + offset, t))
    else LoadFrom(Placed(regions, rnr + offset, t[..w - offset]), rnr + w, 0, w, t[w - offset..])
  }

  /** Filling up a window leads to the start of the next. */
  lemma LoadStep(regions: seq<Row>, rnr: nat, offset: nat, w: nat, t: seq<Row>)
    requires Pending(regions, rnr, offset, w, t) && offset + |t| > w
    ensures var next := Placed(regions, rnr + offset, t[..w - offset]);
            && Pending(next, rnr + w, 0, w, t[w - offset..])
            && LoadFrom(next, rnr + w, 0, w, t[w - offset..]) == LoadFrom(regions, rnr, offset, w, t)
  {
  }

  /** The window of the last of the rows placed from `first` on. */
  function LastWindow(first: nat, w: nat, t: seq<Row>): nat
    requires w >= 1
  {
    AlignDown(if t == [] then first else first + |t| - 1, w)
  }

  /** Going window by window places the rows one after another, and stops in the window of
      the last. */
  lemma {:induction false} LoadFromPlaces(regions: seq<Row>, rnr: nat, offset: nat, w: nat, t: seq<Row>)
    requires Pending(regions, rnr, offset, w, t)
    ensures LoadFrom(regions, rnr, offset, w, t)
         == (LastWindow(rnr + offset, w, t), Placed(regions, rnr + offset, t))
    decreases |t|
  {
    if offset + |t| <= w {
      WindowOf(rnr, w, if t == [] then rnr + offset else rnr + offset + |t| - 1);
    } else {
      var c := w - offset;
      PlacedAppend(regions, rnr + offset, t[..c], t[c..]);
      assert t[..c] + t[c..] == t;
      LoadFromPlaces(Placed(regions, rnr + offset, t[..c]), rnr + w, 0, w, t[c..]);
    }
  }

  lemma LoadFromStart(regions: seq<Row>, rnr: nat, offset: nat, w: nat, first: nat, t: seq<Row>)
    requires w >= 1 && rnr == AlignDown(first, w) && rnr + offset == first && first + |t| <= |regions|
    ensures Pending(regions, rnr, offset, w, t)
    ensures LoadFrom(regions, rnr, offset, w, t) == (LastWindow(first, w, t), Placed(regions, first, t))
  {
    AlignDownValue(first, w);
    LoadFromPlaces(regions, rnr, offset, w, t);
  }
}
