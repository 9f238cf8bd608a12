/** The trace buffer of openamp_log.c, which the A7 reads while the M4 writes: a ring of
    characters with a terminator that moves ahead of the newest one. */
module TraceLog {
  import opened Words

  /** `system_log_buf` and the static `offset`. */
  datatype Log = Log(buf: seq<byte>, offset: nat) {
    predicate Ok() {
      |buf| >= 2 && offset < |buf|
    }
  }

  /** A `char` stores the low eight bits of the `int` it is given. */
  function AsChar(ch: int): byte {
    ch % 256
  }

  /** `log_buff`. */
  function Put(s: Log, c: byte): (s': Log)
    requires s.Ok()
    ensures s'.Ok() && |s'.buf| == |s.buf|
  {
    var at := if s.offset + 1 >= |s.buf| then 0 else s.offset;
    Log(s.buf[at := c][at + 1 := 0], at + 1)
  }

  function PutAll(s: Log, cs: seq<byte>): (s': Log)
    requires s.Ok()
    ensures s'.Ok() && |s'.buf| == |s.buf|
  {
    if cs == [] then s else Put(PutAll(s, cs[..|cs| - 1]), cs[|cs| - 1])
  }

  /** The last `n` of a history. */
  function LastOf(cs: seq<byte>, n: nat): seq<byte>
    requires n <= |cs|
  {
    cs[|cs| - n..]
  }

  /** The number of characters in front of the terminator after `n >= 1` of them, in a buffer
      of `size`. */
  function Filled(n: nat, size: nat): (m: nat)
    requires n >= 1 && size >= 2
    ensures 1 <= m < size && m <= n
  {
    if n < size then n else Filled(n - (size - 1), size)
  }

  lemma {:induction false} FilledValue(n: nat, size: nat)
    requires n >= 1 && size >= 2
    ensures Filled(n, size) == (n - 1) % (size - 1) + 1
    decreases n
  {
    var w := size - 1;
    if n < size {
      ModuloUnique(n - 1, w, 0, n - 1);
    } else {
      FilledValue(n - w, size);
      ModuloUnique(n - 1, w, (n - 1 - w) / w + 1, (n - 1 - w) % w);
    }
  }

  lemma {:induction false} FilledNext(n: nat, size: nat)
    requires n >= 1 && size >= 2
    ensures Filled(n + 1, size) == if Filled(n, size) + 1 >= size then 1 else Filled(n, size) + 1
    decreases n
  {
    if n >= size {
      FilledNext(n - (size - 1), size);
    } else if n == size - 1 {
      assert Filled(n + 1, size) == Filled(1, size);
    }
  }

  /** What the buffer holds after a history `cs`: the newest characters in front of the
      terminator and, once it has wrapped, those before them behind it. */
  predicate Shows(s: Log, cs: seq<byte>)
    requires s.Ok()
  {
    if cs == [] then s.offset == 0
    else s.offset == Filled(|cs|, |s.buf|) && s.buf[s.offset] == 0 && ShowsNewest(s, cs) && ShowsOlder(s, cs)
  }

  predicate ShowsNewest(s: Log, cs: seq<byte>)
    requires s.Ok() && s.offset <= |cs|
  {
    forall p :: 0 <= p < s.offset ==> s.buf[p] == cs[|cs| - s.offset + p]
  }

  predicate ShowsOlder(s: Log, cs: seq<byte>)
    requires s.Ok()
  {
    |cs| >= |s.buf| ==> forall p :: s.offset < p < |s.buf| - 1 ==> s.buf[p] == cs[|cs| - s.offset - (|s.buf| - 1) + p]
  }

  lemma PutShows(s: Log, cs: seq<byte>, c: byte)
    requires s.Ok() && Shows(s, cs)
    ensures Shows(Put(s, c), cs + [c])
  {
    var s', cs' := Put(s, c), cs + [c];
    if cs != [] {
      FilledNext(|cs|, |s.buf|);
    }
    PutNewest(s, cs, c);
    PutOlder(s, cs, c);
  }

  lemma PutNewest(s: Log, cs: seq<byte>, c: byte)
    requires s.Ok() && (if cs == [] then s.offset == 0 else s.offset <= |cs| && ShowsNewest(s, cs))
    ensures Put(s, c).offset <= |cs| + 1 && ShowsNewest(Put(s, c), cs + [c])
  {
  }

  lemma PutOlder(s: Log, cs: seq<byte>, c: byte)
    requires s.Ok() && Shows(s, cs)
    ensures ShowsOlder(Put(s, c), cs + [c])
  {
    if cs != [] {
      FilledNext(|cs|, |s.buf|);
      FilledWhole(|cs|, |s.buf|);
    }
  }

  /** Until the buffer wraps, every character counts. */
  lemma FilledWhole(n: nat, size: nat)
    requires n >= 1 && size >= 2
    ensures n < size ==> Filled(n, size) == n
  {
  }

  lemma {:induction false} BufferShowsHistory(s: Log, cs: seq<byte>)
    requires s.Ok() && s.offset == 0
    ensures Shows(PutAll(s, cs), cs)
  {
    if cs != [] {
      var front := cs[..|cs| - 1];
      BufferShowsHistory(s, front);
      PutShows(PutAll(s, front), front, cs[|cs| - 1]);
      assert cs == front + [cs[|cs| - 1]];
    }
  }

  lemma ShownText(r: Log, cs: seq<byte>)
    requires r.Ok() && cs != [] && Shows(r, cs)
    ensures r.offset <= |cs| && r.buf[..r.offset] == LastOf(cs, r.offset) && r.buf[r.offset] == 0
  {
  }

  lemma ShownWrapped(r: Log, cs: seq<byte>)
    requires r.Ok() && cs != [] && Shows(r, cs) && |cs| >= |r.buf| && r.offset <= |r.buf| - 2
    ensures r.buf[r.offset + 1..|r.buf| - 1] + r.buf[..r.offset] == LastOf(cs, |r.buf| - 2)
  {
    var size, m := |r.buf|, r.offset;
    assert r.buf[m + 1..size - 1] == LastOf(cs, size - 2)[..size - 2 - m];
    assert r.buf[..m] == LastOf(cs, size - 2)[size - 2 - m..];
  }

  /** The terminator is at `m`, the text before it is the newest `m` characters, and, once
      wrapped with room behind the terminator, what follows it and then the text are the
      newest `size - 2`. */
  ghost predicate ReadsAs(r: Log, cs: seq<byte>, m: nat)
    requires r.Ok()
  {
    && r.offset == m <= |cs| && r.buf[m] == 0 && r.buf[..m] == LastOf(cs, m)
    && (|cs| >= |r.buf| && m <= |r.buf| - 2 ==> r.buf[m + 1..|r.buf| - 1] + r.buf[..m] == LastOf(cs, |r.buf| - 2))
  }

  lemma ShownReads(r: Log, cs: seq<byte>, m: nat)
    requires r.Ok() && cs != [] && Shows(r, cs) && m == r.offset
    ensures ReadsAs(r, cs, m)
  {
    ShownText(r, cs);
    if |cs| >= |r.buf| && m <= |r.buf| - 2 {
      ShownWrapped(r, cs);
    }
  }

  /** The bytes behind the terminator that the history does not decide: until the buffer wraps
      they are what they were, and from then on the last byte of the buffer is zero. */
  lemma {:induction false} BehindTerminator(s: Log, cs: seq<byte>)
    requires s.Ok() && s.offset == 0
    ensures var r := PutAll(s, cs);
            && (|cs| < |s.buf| ==> r.offset == |cs| && forall p :: |cs| < p < |s.buf| ==> r.buf[p] == s.buf[p])
            && (|cs| >= |s.buf| - 1 ==> r.buf[|s.buf| - 1] == 0)
  {
    if cs != [] {
      BehindTerminator(s, cs[..|cs| - 1]);
    }
  }

  /** What the reader finds after any history of at least one character. */
  lemma ReaderSeesTail(s: Log, cs: seq<byte>, m: nat)
    requires s.Ok() && s.offset == 0 && cs != []
    requires m == (|cs| - 1) % (|s.buf| - 1) + 1
    ensures ReadsAs(PutAll(s, cs), cs, m)
  {
    BufferShowsHistory(s, cs);
    FilledValue(|cs|, |s.buf|);
    ShownReads(PutAll(s, cs), cs, m);
  }

  class TraceBuffer {
    const buf: array<byte>
    var offset: int
    ghost var history: seq<byte>

    ghost predicate Valid()
      reads this, buf
    {
      buf.Length >= 2 && 0 <= offset < buf.Length && Shows(Log(buf[..], offset), history)
    }

    /** The buffer and the offset are static, hence zero. */
    constructor (size: nat)
      requires size >= 2
      ensures Valid() && history == [] && buf.Length == size && fresh(buf)
      ensures offset == 0 && forall k :: 0 <= k < size ==> buf[k] == 0
    {
      buf := new byte[size](_ => 0);
      offset, history := 0, [];
    }

    /** `log_buff`. */
    method LogBuff(ch: int)
      requires Valid()
      modifies this, buf
      ensures Valid() && history == old(history) + [AsChar(ch)]
      ensures Log(buf[..], offset) == Put(old(Log(buf[..], offset)), AsChar(ch))
      ensures offset == (if old(offset) + 1 >= buf.Length then 0 else old(offset)) + 1
      ensures (buf[offset - 1] - ch) % 256 == 0 && (0 <= ch < 256 ==> buf[offset - 1] == ch)
      ensures buf[offset] == 0
      ensures forall k :: 0 <= k < buf.Length && k != offset - 1 && k != offset ==> buf[k] == old(buf[k])
    {
      ghost var before := Log(buf[..], offset);
      PutShows(before, history, AsChar(ch));
      if offset + 1 >= buf.Length {
        offset := 0;
      }
      buf[offset] := AsChar(ch);
      buf[offset + 1] := 0;
      offset := offset + 1;
      history := history + [AsChar(ch)];
      assert Log(buf[..], offset) == Put(before, AsChar(ch));
    }
  }
}
