/** `__cmsis_start`: filling .data from the copy table and clearing .bss from the zero table,
    word by word over one flat memory. */
module Startup {
  import opened Words

  /** Addresses are word indices. */
  datatype Copy = Copy(src: nat, dest: nat, wlen: nat) {
    predicate Fits(size: nat) {
      src + wlen <= size && dest + wlen <= size
    }

    predicate Writes(a: nat) {
      dest <= a < dest + wlen
    }

    /** The word that belongs at address `a`. */
    function Origin(a: nat): nat
      requires Writes(a)
    {
      src + (a - dest)
    }

    predicate Reads(a: nat) {
      src <= a < src + wlen
    }
  }

  datatype Zero = Zero(dest: nat, wlen: nat) {
    predicate Fits(size: nat) {
      dest + wlen <= size
    }

    predicate Writes(a: nat) {
      dest <= a < dest + wlen
    }
  }

  predicate CopiesFit(cs: seq<Copy>, size: nat) {
    forall c :: c in cs ==> c.Fits(size)
  }

  predicate ZerosFit(zs: seq<Zero>, size: nat) {
    forall z :: z in zs ==> z.Fits(size)
  }

  // ---------------------------------------------------------------- the loops, as functions

  /** The first `n` words of one copy entry. */
  function CopyWords(m: seq<word>, c: Copy, n: nat): (r: seq<word>)
    requires c.Fits(|m|) && n <= c.wlen
    ensures |r| == |m|
  {
    if n == 0 then m
    else
      var before := CopyWords(m, c, n - 1);
      before[c.dest + n - 1 := before[c.src + n - 1]]
  }

  function RunCopies(m: seq<word>, cs: seq<Copy>): (r: seq<word>)
    requires CopiesFit(cs, |m|)
    ensures |r| == |m|
  {
    if cs == [] then m
    else
      var c := cs[|cs| - 1];
      CopyWords(RunCopies(m, cs[..|cs| - 1]), c, c.wlen)
  }

  function ZeroWords(m: seq<word>, z: Zero, n: nat): (r: seq<word>)
    requires z.Fits(|m|) && n <= z.wlen
    ensures |r| == |m|
  {
    if n == 0 then m else ZeroWords(m, z, n - 1)[z.dest + n - 1 := 0]
  }

  function RunZeros(m: seq<word>, zs: seq<Zero>): (r: seq<word>)
    requires ZerosFit(zs, |m|)
    ensures |r| == |m|
  {
    if zs == [] then m
    else
      var z := zs[|zs| - 1];
      ZeroWords(RunZeros(m, zs[..|zs| - 1]), z, z.wlen)
  }

  /** `__cmsis_start`, up to its call of `_start`. */
  method CmsisStart(mem: array<word>, copies: seq<Copy>, zeros: seq<Zero>)
    requires CopiesFit(copies, mem.Length) && ZerosFit(zeros, mem.Length)
    modifies mem
    ensures mem[..] == RunZeros(RunCopies(old(mem[..]), copies), zeros)
  {
    ghost var m0 := mem[..];
    var t := 0;
    while t < |copies|
      invariant t <= |copies|
      invariant mem[..] == RunCopies(m0, copies[..t])
    {
      ghost var m := mem[..];
      assert copies[t].Fits(mem.Length);
      var i := 0;
      while i < copies[t].wlen
        invariant i <= copies[t].wlen
        invariant mem[..] == CopyWords(m, copies[t], i)
      {
        mem[copies[t].dest + i] := mem[copies[t].src + i];
        i := i + 1;
      }
      assert copies[..t + 1][..t] == copies[..t];
      t := t + 1;
    }
    assert copies[..t] == copies;
    ghost var m1 := mem[..];
    t := 0;
    while t < |zeros|
      invariant t <= |zeros|
      invariant mem[..] == RunZeros(m1, zeros[..t])
    {
      ghost var m := mem[..];
      assert zeros[t].Fits(mem.Length);
      var i := 0;
      while i < zeros[t].wlen
        invariant i <= zeros[t].wlen
        invariant mem[..] == ZeroWords(m, zeros[t], i)
      {
        mem[zeros[t].dest + i] := 0;
        i := i + 1;
      }
      assert zeros[..t + 1][..t] == zeros[..t];
      t := t + 1;
    }
    assert zeros[..t] == zeros;
  }

  // ---------------------------------------------------------------- one copy entry

  /** The one way an entry can spoil its own source: a word is written before it is read. */
  predicate OverwritesItself(c: Copy) {
    c.src < c.dest < c.src + c.wlen
  }

  ghost predicate Copied(m: seq<word>, c: Copy, r: seq<word>)
    requires c.Fits(|m|) && |r| == |m|
  {
    forall a: nat :: c.Writes(a) ==> r[a] == m[c.Origin(a)]
  }

  lemma {:induction false} CopyWordsAt(m: seq<word>, c: Copy, n: nat, a: nat)
    requires c.Fits(|m|) && n <= c.wlen && a < |m| && !OverwritesItself(c)
    ensures CopyWords(m, c, n)[a] == if c.dest <= a < c.dest + n then m[c.src + (a - c.dest)] else m[a]
  {
    if n != 0 {
      CopyWordsAt(m, c, n - 1, a);
      CopyWordsAt(m, c, n - 1, c.src + n - 1);
    }
  }

  lemma {:induction false} CopyWordsFrame(m: seq<word>, c: Copy, n: nat, a: nat)
    requires c.Fits(|m|) && n <= c.wlen && a < |m|
    ensures !(c.dest <= a < c.dest + n) ==> CopyWords(m, c, n)[a] == m[a]
  {
    if n != 0 {
      CopyWordsFrame(m, c, n - 1, a);
    }
  }

  /** A memory on which a self-overwriting entry goes wrong: zero, but one at `dest`. */
  function Witness(c: Copy, size: nat): (m: seq<word>)
    requires c.dest < size
    ensures |m| == size
  {
    seq(size, a => if a == c.dest then 1 else 0)
  }

  lemma SelfOverwriteFails(c: Copy, size: nat)
    requires c.Fits(size) && OverwritesItself(c)
    ensures !Copied(Witness(c, size), c, CopyWords(Witness(c, size), c, c.wlen))
  {
    var m, d := Witness(c, size), c.dest - c.src;
    assert CopyWords(m, c, 1) == m[c.dest := 0] by { assert CopyWords(m, c, 0) == m; }
    AllZeroOnward(c, size, c.wlen);
    assert c.Writes(c.dest + d) && c.Origin(c.dest + d) == c.dest;
    assert CopyWords(m, c, c.wlen)[c.dest + d] == 0 && m[c.dest] == 1;
  }

  lemma {:induction false} AllZeroOnward(c: Copy, size: nat, n: nat)
    requires c.Fits(size) && OverwritesItself(c) && 1 <= n <= c.wlen
    ensures forall a :: 0 <= a < size ==> CopyWords(Witness(c, size), c, n)[a] == 0
  {
    var m := Witness(c, size);
    if n == 1 {
      assert CopyWords(m, c, 0) == m;
    } else {
      AllZeroOnward(c, size, n - 1);
    }
  }

  /** A copy entry moves its words faithfully, for every memory, exactly when it does not
      overwrite its own source; a destination below an overlapping source is fine. */
  lemma CopyFaithfulIff(c: Copy, size: nat)
    requires c.Fits(size)
    ensures (forall m: seq<word> :: |m| == size ==> Copied(m, c, CopyWords(m, c, c.wlen))) <==> !OverwritesItself(c)
  {
    if OverwritesItself(c) {
      SelfOverwriteFails(c, size);
    } else {
      forall m: seq<word> | |m| == size
        ensures Copied(m, c, CopyWords(m, c, c.wlen))
      {
        forall a: nat | c.Writes(a)
          ensures CopyWords(m, c, c.wlen)[a] == m[c.Origin(a)]
        {
          CopyWordsAt(m, c, c.wlen, a);
        }
      }
    }
  }

  // ---------------------------------------------------------------- whole tables

  /** What the linker script owes the loops: no destination is written twice, and no source
      is written before or while it is read.  Later entries may reuse a source. */
  ghost predicate SafeCopies(cs: seq<Copy>) {
    && (forall j :: 0 <= j < |cs| ==> !OverwritesItself(cs[j]))
    && (forall i, j, a: nat :: 0 <= i < j < |cs| && cs[i].Writes(a) ==> !cs[j].Writes(a) && !cs[j].Reads(a))
  }

  lemma {:induction false} CopiesAt(m: seq<word>, cs: seq<Copy>, j: nat, a: nat)
    requires CopiesFit(cs, |m|) && SafeCopies(cs) && j < |cs| && cs[j].Writes(a)
    ensures cs[j] in cs && RunCopies(m, cs)[a] == m[cs[j].Origin(a)]
    decreases |cs|
  {
    var last := |cs| - 1;
    var front, c := cs[..last], cs[last];
    var mid := RunCopies(m, front);
    assert cs[j] in cs;
    if j == last {
      CopyWordsAt(mid, c, c.wlen, a);
      assert c.Reads(c.Origin(a));
      CopiesFrame(m, front, c.Origin(a));
    } else {
      assert front[j] == cs[j];
      CopiesAt(m, front, j, a);
      assert !c.Writes(a);
      CopyWordsFrame(mid, c, c.wlen, a);
    }
  }

  lemma {:induction false} CopiesFrame(m: seq<word>, cs: seq<Copy>, a: nat)
    requires CopiesFit(cs, |m|) && a < |m| && forall i :: 0 <= i < |cs| ==> !cs[i].Writes(a)
    ensures RunCopies(m, cs)[a] == m[a]
    decreases |cs|
  {
    if cs != [] {
      var c := cs[|cs| - 1];
      CopiesFrame(m, cs[..|cs| - 1], a);
      assert !c.Writes(a);
      CopyWordsFrame(RunCopies(m, cs[..|cs| - 1]), c, c.wlen, a);
    }
  }

  lemma {:induction false} ZeroWordsAt(m: seq<word>, z: Zero, n: nat, a: nat)
    requires z.Fits(|m|) && n <= z.wlen && a < |m|
    ensures ZeroWords(m, z, n)[a] == if z.dest <= a < z.dest + n then 0 else m[a]
  {
    if n != 0 {
      ZeroWordsAt(m, z, n - 1, a);
    }
  }

  /** Zero ranges may overlap one another. */
  lemma {:induction false} ZerosAt(m: seq<word>, zs: seq<Zero>, a: nat)
    requires ZerosFit(zs, |m|) && a < |m|
    ensures RunZeros(m, zs)[a] == if exists i :: 0 <= i < |zs| && zs[i].Writes(a) then 0 else m[a]
    decreases |zs|
  {
    if zs != [] {
      var last := |zs| - 1;
      ZerosAt(m, zs[..last], a);
      ZeroWordsAt(RunZeros(m, zs[..last]), zs[last], zs[last].wlen, a);
      if i :| 0 <= i < last && zs[i].Writes(a) {
        assert zs[..last][i].Writes(a);
      }
      if i :| 0 <= i < last && zs[..last][i].Writes(a) {
        assert zs[i].Writes(a);
      }
    }
  }

  /** After start-up every copy destination holds the original words of its source, every
      zero range is zero, and no other word of memory has changed. */
  ghost predicate ImageEstablished(m: seq<word>, cs: seq<Copy>, zs: seq<Zero>, r: seq<word>)
    requires CopiesFit(cs, |m|) && ZerosFit(zs, |m|) && |r| == |m|
  {
    && (forall c :: c in cs ==> Copied(m, c, r))
    && (forall z, a: nat :: z in zs && z.Writes(a) ==> r[a] == 0)
    && (forall a: nat :: a < |m| && Untouched(cs, zs, a) ==> r[a] == m[a])
  }

  ghost predicate Untouched(cs: seq<Copy>, zs: seq<Zero>, a: nat) {
    (forall i :: 0 <= i < |cs| ==> !cs[i].Writes(a)) && (forall i :: 0 <= i < |zs| ==> !zs[i].Writes(a))
  }

  ghost predicate ZerosMissCopies(cs: seq<Copy>, zs: seq<Zero>) {
    forall i, j, a: nat :: 0 <= i < |cs| && 0 <= j < |zs| && cs[i].Writes(a) ==> !zs[j].Writes(a)
  }

  lemma CopySurvives(m: seq<word>, cs: seq<Copy>, zs: seq<Zero>, c: Copy, a: nat)
    requires CopiesFit(cs, |m|) && ZerosFit(zs, |m|) && SafeCopies(cs) && ZerosMissCopies(cs, zs)
    requires c in cs && c.Writes(a)
    ensures RunZeros(RunCopies(m, cs), zs)[a] == m[c.Origin(a)]
  {
    var j :| 0 <= j < |cs| && cs[j] == c;
    CopiesAt(m, cs, j, a);
    ZerosAt(RunCopies(m, cs), zs, a);
  }

  lemma ZeroHolds(m: seq<word>, zs: seq<Zero>, z: Zero, a: nat)
    requires ZerosFit(zs, |m|) && z in zs && z.Writes(a)
    ensures RunZeros(m, zs)[a] == 0
  {
    var i :| 0 <= i < |zs| && zs[i] == z;
    ZerosAt(m, zs, a);
    assert zs[i].Writes(a);
  }

  lemma StartupEstablishesImage(m: seq<word>, cs: seq<Copy>, zs: seq<Zero>)
    requires CopiesFit(cs, |m|) && ZerosFit(zs, |m|) && SafeCopies(cs) && ZerosMissCopies(cs, zs)
    ensures ImageEstablished(m, cs, zs, RunZeros(RunCopies(m, cs), zs))
  {
    var mid := RunCopies(m, cs);
    var r := RunZeros(mid, zs);
    forall c, a: nat | c in cs && c.Writes(a)
      ensures r[a] == m[c.Origin(a)]
    {
      CopySurvives(m, cs, zs, c, a);
    }
    forall z, a: nat | z in zs && z.Writes(a)
      ensures r[a] == 0
    {
      ZeroHolds(mid, zs, z, a);
    }
    forall a: nat | a < |m| && Untouched(cs, zs, a)
      ensures r[a] == m[a]
    {
      ZerosAt(mid, zs, a);
      CopiesFrame(m, cs, a);
    }
  }
}
