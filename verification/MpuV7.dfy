/** Loading a region table into the Armv7-M MPU (PMSAv7, section B3.5 of Arm DDI 0403). */
module MpuV7 {
  import opened Words

  // ---------------------------------------------------------------- the register block

  datatype Region = Region(base: word, attr: word)

  /** RNR selects the region that RBAR and RASR, and every alias of them, act on.  RNR has
      eight bits, so there are slots for 256 regions. */
  datatype Mpu = Mpu(rnr: nat, regions: seq<Region>) {
    predicate Ok() {
      rnr < 256 && |regions| == 256
    }
  }

  predicate Valid(rbar: word) {
    Bit(rbar, 4)
  }

  function RegionField(rbar: word): nat {
    And(rbar, 0xF)
  }

  function Base(rbar: word): word {
    And(rbar, 0xFFFF_FFE0)
  }

  lemma BaseIsCleared(rbar: word)
    ensures Base(rbar) == Cleared(rbar, 5)
  {
    Pow2Of32();
    assert Pow2(5) == 32;
    MaskComplement(rbar, 5, 32);
  }

  /** The base address of a region is the address written, rounded down to 32 bytes. */
  lemma BaseValue(rbar: word)
    ensures Base(rbar) % 32 == 0 && Base(rbar) + rbar % 32 == rbar
  {
    BaseIsCleared(rbar);
    assert Pow2(5) == 32;
    ClearedIsMultiple(rbar, 5);
    RoundedDown(Cleared(rbar, 5), rbar);
  }

  lemma RoundedDown(a: nat, x: nat)
    requires a + x % 32 == x
    ensures a % 32 == 0
  {
  }

  lemma BitOfBase(rbar: word, t: nat)
    requires t < 32
    ensures Bit(Base(rbar), t) == (5 <= t && Bit(rbar, t))
  {
    BaseIsCleared(rbar);
    BitOfCleared(rbar, 5, t);
  }

  /** A write to RBAR: with VALID set it first moves RNR to the region it names. */
  function WriteRbar(s: Mpu, v: word): (s': Mpu)
    requires s.Ok()
    ensures s'.Ok()
  {
    var r := if Valid(v) then RegionField(v) else s.rnr;
    Mpu(r, s.regions[r := s.regions[r].(base := Base(v))])
  }

  function WriteRasr(s: Mpu, v: word): (s': Mpu)
    requires s.Ok()
    ensures s'.Ok()
  {
    s.(regions := s.regions[s.rnr := s.regions[s.rnr].(attr := v)])
  }

  /** Word `k` of the window that starts at RBAR: RBAR, RASR, RBAR_A1, RASR_A1, ... */
  function WriteWindow(s: Mpu, k: nat, v: word): (s': Mpu)
    requires s.Ok()
    ensures s'.Ok()
  {
    if k % 2 == 0 then WriteRbar(s, v) else WriteRasr(s, v)
  }

  /** With VALID clear, both writes go to the region RNR already selects. */
  lemma SelectedRegion(s: Mpu, rbar: word, rasr: word)
    requires s.Ok() && !Valid(rbar)
    ensures var s' := SetRegion(s, rbar, rasr);
            && s'.rnr == s.rnr && s'.regions[s.rnr].base + rbar % 32 == rbar && s'.regions[s.rnr].attr == rasr
            && forall r :: 0 <= r < 256 && r != s.rnr ==> s'.regions[r] == s.regions[r]
  {
    BaseValue(rbar);
  }

  /** `ARM_MPU_SetRegion`. */
  function SetRegion(s: Mpu, rbar: word, rasr: word): (s': Mpu)
    requires s.Ok()
    ensures s'.Ok()
  {
    WriteRasr(WriteRbar(s, rbar), rasr)
  }

  // ---------------------------------------------------------------- tables

  /** `ARM_MPU_Region_t`. */
  datatype Row = Row(rbar: word, rasr: word)

  /** A table as the words it occupies. */
  function Flat(t: seq<Row>): (ws: seq<word>)
    ensures |ws| == 2 * |t|
  {
    if t == [] then [] else Flat(t[..|t| - 1]) + [t[|t| - 1].rbar, t[|t| - 1].rasr]
  }

  /** `ARM_MPU_SetRegion` on each row in order. */
  function SetRows(s: Mpu, t: seq<Row>): (s': Mpu)
    requires s.Ok()
    ensures s'.Ok()
  {
    if t == [] then s
    else SetRegion(SetRows(s, t[..|t| - 1]), t[|t| - 1].rbar, t[|t| - 1].rasr)
  }

  /** Copying words to the window from RBAR on. */
  function Feed(s: Mpu, ws: seq<word>): (s': Mpu)
    requires s.Ok()
    ensures s'.Ok()
  {
    if ws == [] then s
    else WriteWindow(Feed(s, ws[..|ws| - 1]), |ws| - 1, ws[|ws| - 1])
  }

  lemma {:induction false} FeedIsSetRows(s: Mpu, t: seq<Row>)
    requires s.Ok()
    ensures Feed(s, Flat(t)) == SetRows(s, t)
  {
    if t != [] {
      var front, row, ws := t[..|t| - 1], t[|t| - 1], Flat(t);
      FeedIsSetRows(s, front);
      FeedTwo(s, Flat(front), row.rbar, row.rasr);
    }
  }

  lemma FeedTwo(s: Mpu, ws: seq<word>, x: word, y: word)
    requires s.Ok() && |ws| % 2 == 0
    ensures Feed(s, ws + [x, y]) == SetRegion(Feed(s, ws), x, y)
  {
    FeedOne(s, ws, x);
    FeedOne(s, ws + [x], y);
    assert ws + [x, y] == (ws + [x]) + [y];
    WindowPair(Feed(s, ws), |ws|, x, y);
  }

  /** An even and the next odd word of the window act as RBAR and RASR. */
  lemma WindowPair(s: Mpu, k: nat, x: word, y: word)
    requires s.Ok() && k % 2 == 0
    ensures WriteWindow(WriteWindow(s, k, x), k + 1, y) == SetRegion(s, x, y)
  {
  }

  lemma FeedOne(s: Mpu, ws: seq<word>, x: word)
    requires s.Ok()
    ensures Feed(s, ws + [x]) == WriteWindow(Feed(s, ws), |ws|, x)
  {
    assert (ws + [x])[..|ws|] == ws;
  }

  lemma {:induction false} SetRowsAppend(s: Mpu, t: seq<Row>, u: seq<Row>)
    requires s.Ok()
    ensures SetRows(s, t + u) == SetRows(SetRows(s, t), u)
    decreases |u|
  {
    if u == [] {
      assert t + u == t;
    } else {
      SetRowsAppend(s, t, u[..|u| - 1]);
      assert (t + u)[..|t + u| - 1] == t + u[..|u| - 1];
    }
  }

  lemma {:induction false} FlatAppend(t: seq<Row>, u: seq<Row>)
    ensures Flat(t + u) == Flat(t) + Flat(u)
    decreases |u|
  {
    if u == [] {
      assert t + u == t;
    } else {
      FlatAppend(t, u[..|u| - 1]);
      assert (t + u)[..|t + u| - 1] == t + u[..|u| - 1];
    }
  }

  /** Each row is its RBAR word and then its RASR word. */
  lemma {:induction false} FlatWords(t: seq<Row>, i: nat)
    requires i < |t|
    ensures Flat(t)[2 * i] == t[i].rbar && Flat(t)[2 * i + 1] == t[i].rasr
    decreases |t|
  {
    if i < |t| - 1 {
      FlatWords(t[..|t| - 1], i);
    }
  }

  // ---------------------------------------------------------------- what a table means

  predicate AllValid(t: seq<Row>) {
    forall i :: 0 <= i < |t| ==> Valid(t[i].rbar)
  }

  /** No row from `i` on names region `r`. */
  predicate NotNamedFrom(t: seq<Row>, i: nat, r: nat) {
    forall j :: i <= j < |t| ==> RegionField(t[j].rbar) != r
  }

  /** With VALID in every row, the last row to name a region decides it, and a region no row
      names keeps what it had. */
  lemma {:induction false} LastNamingRowWins(s: Mpu, t: seq<Row>, r: nat, i: nat)
    requires s.Ok() && AllValid(t) && r < 256 && NotNamedFrom(t, i + 1, r)
    ensures i < |t| && RegionField(t[i].rbar) == r ==> SetRows(s, t).regions[r] == Region(Base(t[i].rbar), t[i].rasr)
    ensures NotNamedFrom(t, 0, r) ==> SetRows(s, t).regions[r] == s.regions[r]
    decreases |t|
  {
    if t != [] {
      var last := |t| - 1;
      var front := t[..last];
      assert Valid(t[last].rbar);
      if i != last || RegionField(t[last].rbar) != r {
        LastNamingRowWins(s, front, r, i);
      }
    }
  }

  // ---------------------------------------------------------------- the loops

  /** One bus write: a word offset into the window and the value written there. */
  datatype Access = Access(offset: nat, value: word)

  class MpuRegisters {
    const aliases: nat
    var rnr: nat
    var regions: seq<Region>
    ghost var trace: seq<Access>

    ghost predicate Ready()
      reads this
    {
      View().Ok() && 1 <= aliases && 2 * aliases < 0x1_0000_0000
    }

    ghost function View(): Mpu
      reads this
    {
      Mpu(rnr, regions)
    }

    constructor (n: nat)
      requires 1 <= n && 2 * n < 0x1_0000_0000
      ensures Ready() && aliases == n && trace == []
    {
      aliases, rnr, trace := n, 0, [];
      regions := seq(256, _ => Region(0, 0));
    }

    /** A store to word `k` of the window; storing anywhere else would not be an MPU write. */
    method Store(k: uint32, v: word)
      requires Ready() && k as int < 2 * aliases
      modifies this
      ensures Ready() && View() == WriteWindow(old(View()), k as nat, v)
      ensures trace == old(trace) + [Access(k as nat, v)]
    {
      if k % 2 == 0 {
        if Valid(v) {
          rnr := RegionField(v);
        }
        regions := regions[rnr := regions[rnr].(base := Base(v))];
      } else {
        regions := regions[rnr := regions[rnr].(attr := v)];
      }
      trace := trace + [Access(k as nat, v)];
    }

    /** `ARM_MPU_SetRegion`. */
    method SetRegionRegisters(rbar: word, rasr: word)
      requires Ready()
      modifies this
      ensures Ready() && View() == SetRegion(old(View()), rbar, rasr)
      ensures trace == old(trace) + [Access(0, rbar), Access(1, rasr)]
    {
      Store(0, rbar);
      Store(1, rasr);
    }

    /** `ARM_MPU_OrderedMemcpy(&MPU->RBAR, source, len)`. */
    method OrderedMemcpy(source: seq<word>, len: uint32)
      requires Ready() && len as int == |source| <= 2 * aliases
      modifies this
      ensures Ready() && View() == Feed(old(View()), source)
      ensures trace == old(trace) + InOrder(source)
    {
      var i: uint32 := 0;
      while i < len
        invariant i <= len && Ready()
        invariant View() == Feed(old(View()), source[..i])
        invariant trace == old(trace) + InOrder(source[..i])
      {
        assert source[..i + 1][..i] == source[..i];
        assert InOrder(source[..i + 1]) == InOrder(source[..i]) + [Access(i as nat, source[i])];
        Store(i, source[i]);
        i := i + 1;
      }
      assert source[..len] == source;
    }

    /** One `ARM_MPU_OrderedMemcpy` of whole rows, after the rows of `done`. */
    method LoadChunk(rows: seq<Row>, len: uint32, ghost was: Mpu, ghost log: seq<Access>, ghost done: seq<Row>)
      requires Ready() && len as nat == 2 * |rows| <= 2 * aliases
      requires was.Ok() && Multiple(2 * |done|, 2 * aliases) && Loaded(was, log, done, 2 * aliases, View(), trace)
      modifies this
      ensures Ready() && Loaded(was, log, done + rows, 2 * aliases, View(), trace)
    {
      ghost var mid, midLog := View(), trace;
      OrderedMemcpy(Flat(rows), len);
      NextChunk(was, log, done, rows, 2 * aliases, mid, midLog, View(), trace);
    }

    /** `ARM_MPU_Load`: whatever the number of aliases, the effect is that of setting the
        rows one by one.  Word `i` of the table goes to window position `i` modulo the
        window, in table order, and nothing else is written. */
    method Load(table: seq<Row>, count: uint32)
      requires Ready() && |table| == count as nat
      modifies this
      ensures Ready() && View() == SetRows(old(View()), table)
      ensures trace == old(trace) + Spread(Flat(table), 2 * aliases)
    {
      var t, cnt := table, count;
      var rowWordSize: uint32 := 2;
      ghost var was, log, done: seq<Row> := View(), trace, [];
      while cnt > aliases as uint32
        invariant Ready() && cnt as nat == |t| && done + t == table
        invariant Multiple(2 * |done|, 2 * aliases)
        invariant Loaded(was, log, done, 2 * aliases, View(), trace)
      {
        LoadChunk(t[..aliases], aliases as uint32 * rowWordSize, was, log, done);
        Reassociate(table, done, t, aliases);
        done := done + t[..aliases];
        t := t[aliases..];
        cnt := cnt - aliases as uint32;
      }
      LoadChunk(t, cnt * rowWordSize, was, log, done);
    }
  }

  /** The rows of `done` have been loaded: the state and the bus log say so. */
  ghost predicate Loaded(was: Mpu, log: seq<Access>, done: seq<Row>, w: nat, now: Mpu, trace: seq<Access>)
    requires was.Ok() && w >= 1
  {
    now == SetRows(was, done) && trace == log + Spread(Flat(done), w)
  }

  lemma NextChunk(was: Mpu, log: seq<Access>, done: seq<Row>, chunk: seq<Row>, w: nat,
                  mid: Mpu, midLog: seq<Access>, now: Mpu, trace: seq<Access>)
    requires was.Ok() && w >= 1 && Multiple(2 * |done|, w) && 2 * |chunk| <= w
    requires Loaded(was, log, done, w, mid, midLog)
    requires now == Feed(mid, Flat(chunk)) && trace == midLog + InOrder(Flat(chunk))
    ensures Loaded(was, log, done + chunk, w, now, trace)
  {
    RowsLoaded(was, done, chunk);
    FlatAppend(done, chunk);
    LogGrows(log, Flat(done), Flat(chunk), w, midLog, trace);
  }

  lemma LogGrows(log: seq<Access>, done: seq<word>, chunk: seq<word>, w: nat, midLog: seq<Access>, trace: seq<Access>)
    requires w >= 1 && Multiple(|done|, w) && |chunk| <= w
    requires midLog == log + Spread(done, w) && trace == midLog + InOrder(chunk)
    ensures trace == log + Spread(done + chunk, w)
  {
    ChunkSpread(done, chunk, w);
  }

  lemma Reassociate(table: seq<Row>, done: seq<Row>, t: seq<Row>, n: nat)
    requires done + t == table && n <= |t|
    ensures (done + t[..n]) + t[n..] == table
  {
  }

  ghost function InOrder(t: seq<word>): seq<Access> {
    seq(|t|, i requires 0 <= i < |t| => Access(i, t[i]))
  }

  /** Where the words of a table go in a window of `w` words that is filled over and over. */
  ghost function Spread(t: seq<word>, w: nat): seq<Access>
    requires w >= 1
  {
    seq(|t|, i requires 0 <= i < |t| => Access(i % w, t[i]))
  }

  /** `n` is a whole number of chunks of `w`. */
  ghost predicate Multiple(n: nat, w: nat)
    requires w >= 1
  {
    n == 0 || (w <= n && Multiple(n - w, w))
  }

  lemma {:induction false} PositionInWindow(n: nat, i: nat, w: nat)
    requires w >= 1 && Multiple(n, w) && n <= i < n + w
    ensures i % w == i - n
  {
    if n == 0 {
      ModuloUnique(i, w, 0, i);
    } else {
      PositionInWindow(n - w, i - w, w);
      ModuloUnique(i, w, (i - w) / w + 1, i - n);
    }
  }

  /** Feeding the window the next rows of a table sets them. */
  lemma RowsLoaded(was: Mpu, done: seq<Row>, chunk: seq<Row>)
    requires was.Ok()
    ensures Feed(SetRows(was, done), Flat(chunk)) == SetRows(was, done + chunk)
  {
    FeedIsSetRows(SetRows(was, done), chunk);
    SetRowsAppend(was, done, chunk);
  }

  /** A chunk that starts a new pass goes to the window in order. */
  lemma ChunkSpread(done: seq<word>, chunk: seq<word>, w: nat)
    requires w >= 1 && Multiple(|done|, w) && |chunk| <= w
    ensures Spread(done + chunk, w) == Spread(done, w) + InOrder(chunk)
  {
    forall i | |done| <= i < |done| + |chunk|
      ensures i % w == i - |done|
    {
      PositionInWindow(|done|, i, w);
    }
  }

  // ---------------------------------------------------------------- the packing macros

  /** The mask of a field `width` bits wide at `pos`, as the header's `_Msk` constants. */
  function FieldMask(pos: nat, width: nat): word
    requires width <= 31
  {
    Pow2Of32(); Pow2Monotone(width, 31);
    Shl(Pow2(width) - 1, pos)
  }

  function Or32(x: word, y: word): word {
    Pow2Of32(); OrBelow(x, y, 32);
    Or(x, y)
  }

  lemma BitOfMask(pos: nat, width: nat, t: nat)
    requires width <= 31 && t < 32
    ensures Bit(FieldMask(pos, width), t) == (pos <= t < pos + width)
  {
    Pow2Of32();
    Pow2Monotone(width, 31);
    BitOfShl(Pow2(width) - 1, pos, t);
    if pos <= t < pos + width {
      BitOfComplement(0, width, t - pos);
      BitOfZero(t - pos);
    } else if pos <= t {
      HighBitsClear(Pow2(width) - 1, width, t - pos);
    }
  }

  function FieldValue(x: word, pos: nat, width: nat): word
    requires width <= 31
  {
    And(Shl(x, pos), FieldMask(pos, width))
  }

  lemma BitOfFieldValue(x: word, pos: nat, width: nat, t: nat)
    requires width <= 31 && t < 32
    ensures Bit(FieldValue(x, pos, width), t) == (pos <= t < pos + width && Bit(x, t - pos))
  {
    BitOfAnd(Shl(x, pos), FieldMask(pos, width), t);
    BitOfShl(x, pos, t);
    BitOfMask(pos, width, t);
  }

  /** `ARM_MPU_RBAR`.  The address field starts at bit `pos`: 5 in core_cm4.h, 8 in
      core_cm0plus.h. */
  function Rbar(pos: nat, region: word, address: word): word
    requires 5 <= pos <= 8
  {
    Or32(Or32(And(address, FieldMask(pos, 32 - pos)), And(region, FieldMask(0, 4))), FieldMask(4, 1))
  }

  /** `ARM_MPU_ACCESS_`. */
  function Access_(tex: word, shareable: word, cacheable: word, bufferable: word): word {
    Or32(Or32(Or32(FieldValue(tex, 19, 3), FieldValue(shareable, 18, 1)), FieldValue(cacheable, 17, 1)),
         FieldValue(bufferable, 16, 1))
  }

  /** `ARM_MPU_ACCESS_NORMAL`. */
  function AccessNormal(outer: word, inner: word, shareable: word): word {
    Access_(Or32(4, outer), shareable, And(inner, 2), And(inner, 1))
  }

  /** `ARM_MPU_RASR_EX`. */
  function RasrEx(xn: word, ap: word, access: word, srd: word, size: word): word {
    Or32(Or32(Or32(Or32(Or32(FieldValue(xn, 28, 1), FieldValue(ap, 24, 3)),
                        And(access, AccessMask())),
                   FieldValue(srd, 8, 8)), FieldValue(size, 1, 5)), FieldMask(0, 1))
  }

  lemma BitOfOr32(x: word, y: word, t: nat)
    ensures Bit(Or32(x, y), t) == (Bit(x, t) || Bit(y, t))
  {
    BitOfOr(x, y, t);
  }

  /** Where every bit of `ARM_MPU_RBAR` comes from: VALID is always set, so a table built
      with it satisfies `AllValid`, and each row names the region asked for. */
  lemma RbarBits(pos: nat, region: word, address: word, t: nat)
    requires 5 <= pos <= 8 && t < 32
    ensures Bit(Rbar(pos, region, address), t)
         == if pos <= t then Bit(address, t) else if t < 4 then Bit(region, t) else t == 4
  {
    BitOfOr32(Or32(And(address, FieldMask(pos, 32 - pos)), And(region, FieldMask(0, 4))), FieldMask(4, 1), t);
    BitOfOr32(And(address, FieldMask(pos, 32 - pos)), And(region, FieldMask(0, 4)), t);
    BitOfAnd(address, FieldMask(pos, 32 - pos), t);
    BitOfAnd(region, FieldMask(0, 4), t);
    BitOfMask(pos, 32 - pos, t);
    BitOfMask(0, 4, t);
    BitOfMask(4, 1, t);
  }

  /** So a table row built with `ARM_MPU_RBAR` is VALID and names its region. */
  lemma RbarNamesRegion(pos: nat, region: word, address: word)
    requires 5 <= pos <= 8
    ensures Valid(Rbar(pos, region, address))
    ensures RegionField(Rbar(pos, region, address)) == region % 16
  {
    RbarBits(pos, region, address, 4);
    assert FieldMask(0, 4) == 0xF;
    forall t: nat | t < 32
      ensures Bit(And(Rbar(pos, region, address), 0xF), t) == Bit(And(region, 0xF), t)
    {
      RbarBits(pos, region, address, t);
      BitOfAnd(Rbar(pos, region, address), 0xF, t);
      BitOfAnd(region, 0xF, t);
      BitOfMask(0, 4, t);
    }
    WordExtensionality(And(Rbar(pos, region, address), 0xF), And(region, 0xF));
    assert Pow2(4) == 16;
    MaskIsModulo(region, 4);
  }

  /** And it asks for the region to start at the address, with the bits below the field
      cleared. */
  lemma RbarNamesBase(pos: nat, region: word, address: word)
    requires 5 <= pos <= 8
    ensures Base(Rbar(pos, region, address)) + address % Pow2(pos) == address
  {
    forall t: nat | t < 32
      ensures Bit(Base(Rbar(pos, region, address)), t) == Bit(Cleared(address, pos), t)
    {
      RbarBits(pos, region, address, t);
      BitOfBase(Rbar(pos, region, address), t);
      BitOfCleared(address, pos, t);
    }
    ClearedIsMultiple(address, pos);
    WordExtensionality(Base(Rbar(pos, region, address)), Cleared(address, pos));
  }

  /** A table that sets every region with `ARM_MPU_RBAR` leaves each region it names at the
      address, and with the attributes, of the last row to name it. */
  lemma LoadedRegion(s: Mpu, t: seq<Row>, i: nat, pos: nat, region: word, address: word)
    requires s.Ok() && AllValid(t) && i < |t| && 5 <= pos <= 8
    requires t[i].rbar == Rbar(pos, region, address) && NotNamedFrom(t, i + 1, region % 16)
    ensures var r := SetRows(s, t).regions[region % 16];
            r.base + address % Pow2(pos) == address && r.attr == t[i].rasr
  {
    RbarNamesRegion(pos, region, address);
    RbarNamesBase(pos, region, address);
    LastNamingRowWins(s, t, region % 16, i);
  }

  lemma BitOfAccess(tex: word, shareable: word, cacheable: word, bufferable: word, t: nat)
    requires t < 32
    ensures Bit(Access_(tex, shareable, cacheable, bufferable), t)
         == if t == 16 then Bit(bufferable, 0) else if t == 17 then Bit(cacheable, 0)
            else if t == 18 then Bit(shareable, 0) else 19 <= t < 22 && Bit(tex, t - 19)
  {
    var a, b := FieldValue(tex, 19, 3), FieldValue(shareable, 18, 1);
    var c, d := FieldValue(cacheable, 17, 1), FieldValue(bufferable, 16, 1);
    BitOfOr32(Or32(Or32(a, b), c), d, t);
    BitOfOr32(Or32(a, b), c, t);
    BitOfOr32(a, b, t);
    BitOfFieldValue(tex, 19, 3, t);
    BitOfFieldValue(shareable, 18, 1, t);
    BitOfFieldValue(cacheable, 17, 1, t);
    BitOfFieldValue(bufferable, 16, 1, t);
  }

  function AccessMask(): word {
    Or32(Or32(Or32(FieldMask(19, 3), FieldMask(18, 1)), FieldMask(17, 1)), FieldMask(16, 1))
  }

  lemma BitOfAccessMask(t: nat)
    requires t < 32
    ensures Bit(AccessMask(), t) == (16 <= t < 22)
  {
    var a, b, c, d := FieldMask(19, 3), FieldMask(18, 1), FieldMask(17, 1), FieldMask(16, 1);
    BitOfOr32(Or32(Or32(a, b), c), d, t);
    BitOfOr32(Or32(a, b), c, t);
    BitOfOr32(a, b, t);
    BitOfMask(19, 3, t);
    BitOfMask(18, 1, t);
    BitOfMask(17, 1, t);
    BitOfMask(16, 1, t);
  }

  /** Where every bit of `ARM_MPU_RASR_EX` comes from: no field spills into another, whatever
      the arguments, and the region is always enabled. */
  lemma RasrBits(xn: word, ap: word, access: word, srd: word, size: word, t: nat)
    requires t < 32
    ensures Bit(RasrEx(xn, ap, access, srd, size), t)
         == if t == 0 then true else if t < 6 then Bit(size, t - 1)
            else if 8 <= t < 16 then Bit(srd, t - 8) else if 16 <= t < 22 then Bit(access, t)
            else if 24 <= t < 27 then Bit(ap, t - 24) else t == 28 && Bit(xn, 0)
  {
    var a, b, c := FieldValue(xn, 28, 1), FieldValue(ap, 24, 3), And(access, AccessMask());
    var d, e, f := FieldValue(srd, 8, 8), FieldValue(size, 1, 5), FieldMask(0, 1);
    BitOfOr32(Or32(Or32(Or32(Or32(a, b), c), d), e), f, t);
    BitOfOr32(Or32(Or32(Or32(a, b), c), d), e, t);
    BitOfOr32(Or32(Or32(a, b), c), d, t);
    BitOfOr32(Or32(a, b), c, t);
    BitOfOr32(a, b, t);
    BitOfFieldValue(xn, 28, 1, t);
    BitOfFieldValue(ap, 24, 3, t);
    BitOfAnd(access, AccessMask(), t);
    BitOfAccessMask(t);
    BitOfFieldValue(srd, 8, 8, t);
    BitOfFieldValue(size, 1, 5, t);
    BitOfMask(0, 1, t);
  }

  /** `ARM_MPU_ACCESS_NORMAL` is documented to reflect the inner cache policy in C and B.
      The C bit is bit 17, and it is clear for every policy: it reflects bit 1 of `inner`
      exactly when that bit is clear.  B reflects bit 0. */
  lemma NormalAccessReflectsPolicyIff(outer: word, inner: word, shareable: word)
    ensures !Bit(AccessNormal(outer, inner, shareable), 17)
    ensures Bit(AccessNormal(outer, inner, shareable), 17) == Bit(inner, 1) <==> And(inner, 2) == 0
    ensures Bit(AccessNormal(outer, inner, shareable), 16) == Bit(inner, 0)
  {
    NormalAccessBits(outer, inner, shareable, 17);
    NormalAccessBits(outer, inner, shareable, 16);
    TestBit(inner, 1);
    assert Pow2(1) == 2;
  }

  /** Where its bits come from: the outer policy in the low two bits of TEX, whose top bit is
      set, the inner policy's bit 0 in B, and S. */
  lemma NormalAccessBits(outer: word, inner: word, shareable: word, t: nat)
    requires t < 32
    ensures Bit(AccessNormal(outer, inner, shareable), t)
         == if t == 16 then Bit(inner, 0) else if t == 18 then Bit(shareable, 0)
            else if t == 21 then true else 19 <= t < 21 && Bit(outer, t - 19)
  {
    BitOfAccess(Or32(4, outer), shareable, And(inner, 2), And(inner, 1), t);
    InnerBits(inner);
    if 19 <= t < 22 {
      OuterBits(outer, t - 19);
    }
  }

  lemma InnerBits(inner: word)
    ensures !Bit(And(inner, 2), 0) && Bit(And(inner, 1), 0) == Bit(inner, 0)
  {
    BitOfAnd(inner, 2, 0);
    BitOfAnd(inner, 1, 0);
  }

  lemma OuterBits(outer: word, k: nat)
    requires k < 3
    ensures Bit(Or32(4, outer), k) == (k == 2 || Bit(outer, k))
  {
    BitOfOr32(4, outer, k);
    assert Pow2(2) == 4;
    BitOfPow2(2, k);
  }
}
