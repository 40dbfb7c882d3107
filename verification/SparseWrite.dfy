// lib/sparsewrite.cc: writing a buffer to a file, leaving out blocks that read as zeros anyway.
module SparseWrite {
  import opened Arithmetic
  import opened SearchSpec

  // ---- Whether a block is all zeros ----

  ghost predicate AllZero(data: seq<Byte>) {
    forall i :: 0 <= i < |data| ==> data[i] == 0
  }

  /** The easy implementation, which the source keeps beside the fast one. */
  method IsZeroBlockEasy(data: seq<Byte>) returns (r: bool)
    ensures r <==> AllZero(data)
  {
    for a := 0 to |data|
      invariant AllZero(data[..a])
    {
      if data[a] != 0 {
        return false;
      }
    }
    r := true;
  }

  /** is_zero_block as compiled: true when memchr finds no zero byte. */
  predicate IsZeroBlock(data: seq<Byte>) {
    0 !in data
  }

  /** The two agree on a block exactly when it is empty, or has bytes of both kinds. */
  lemma IsZeroBlockIsEasyIff(data: seq<Byte>)
    ensures (IsZeroBlock(data) <==> AllZero(data)) <==>
            data == [] || (0 in data && exists i :: 0 <= i < |data| && data[i] != 0)
  {
    if data != [] {
      assert data[0] in data;
      if AllZero(data) {
        assert data[0] == 0;
      }
    }
  }

  // ---- The file ----

  /** What a file holds at a place; it reads as zeros where nothing was written. */
  ghost function ByteOf(file: seq<Byte>, p: nat): Byte {
    if p < |file| then file[p] else 0
  }

  class File {
    var data: seq<Byte>

    /** pwrite64, which extends the file with zeros up to its place. */
    method PWrite(bytes: seq<Byte>, pos: nat)
      modifies this
      ensures forall q: nat ::
                ByteOf(data, q) == if pos <= q < pos + |bytes| then bytes[q - pos] else ByteOf(old(data), q)
    {
      var before := if |data| < pos then data + seq(pos - |data|, _ => 0) else data[..pos];
      var after := if pos + |bytes| < |data| then data[pos + |bytes|..] else [];
      data := before + bytes + after;
    }
  }

  // ---- Which bytes are written ----

  /** The bytes written unseen at first: the mask clears one bit of the position, and a boundary before the position
      wraps to a number that no size reaches. */
  function FirstRun(pos: nat, size: nat): (r: nat)
    ensures r <= size
  {
    if (pos + 1023) / 1024 % 2 == 1 then size else Min(size, 1023)
  }

  /** In the source's terms: the boundary is the sum with one bit cleared, and the difference wraps at 64 bits. */
  lemma FirstRunIsRemainder(pos: nat, size: nat, boundary: nat)
    requires pos + 1023 < 0x1_0000_0000_0000_0000 && size < 0x1_0000_0000_0000_0000 - 1
    requires boundary / 1024 % 2 == 0
    requires boundary == pos + 1023 || (boundary == pos + 1023 - 1024 && (pos + 1023) / 1024 % 2 == 1)
    ensures FirstRun(pos, size) == Min(size, (boundary - pos) % 0x1_0000_0000_0000_0000)
  {
  }

  /** The chunk that byte i of the buffer is in. */
  function ChunkStart(pos: nat, size: nat, i: nat): (s: nat)
    requires FirstRun(pos, size) <= i < size
    ensures s <= i < s + 1024
  {
    FirstRun(pos, size) + (i - FirstRun(pos, size)) / 1024 * 1024
  }

  ghost predicate Kept(buffer: seq<Byte>, pos: nat, isZero: seq<Byte> -> bool, i: nat)
    requires i < |buffer|
  {
    i < FirstRun(pos, |buffer|) ||
    var s := ChunkStart(pos, |buffer|, i);
    !isZero(buffer[s..Min(s + 1024, |buffer|)])
  }

  /** Every byte of the chunk that begins at s is kept, or none is. */
  lemma ChunkIsOne(buffer: seq<Byte>, pos: nat, isZero: seq<Byte> -> bool, s: nat, k: nat, i: nat)
    requires s == FirstRun(pos, |buffer|) + k * 1024 && s <= i < Min(s + 1024, |buffer|)
    ensures Kept(buffer, pos, isZero, i) <==> !isZero(buffer[s..Min(s + 1024, |buffer|)])
  {
    var r := FirstRun(pos, |buffer|);
    assert (i - r) / 1024 == k by {
      assert 0 <= i - r - k * 1024 < 1024;
    }
  }

  /** Writes what is kept of the first part of the buffer. */
  ghost predicate WrittenUpTo(was: seq<Byte>, now: seq<Byte>, buffer: seq<Byte>, pos: nat, isZero: seq<Byte> -> bool,
                              n: nat)
    requires n <= |buffer|
  {
    forall q: nat :: ByteOf(now, q) == if pos <= q < pos + n && Kept(buffer, pos, isZero, q - pos) then buffer[q - pos]
                                       else ByteOf(was, q)
  }

  /** What has been passed: written up to begin, kept from there for size bytes, and then not kept up to at. */
  ghost predicate Passed(was: seq<Byte>, now: seq<Byte>, buffer: seq<Byte>, pos: nat, isZero: seq<Byte> -> bool,
                         begin: nat, size: nat, at: nat)
  {
    && begin + size <= at <= |buffer|
    && WrittenUpTo(was, now, buffer, pos, isZero, begin)
    && (forall i :: begin <= i < begin + size ==> Kept(buffer, pos, isZero, i))
    && forall i :: begin + size <= i < at ==> !Kept(buffer, pos, isZero, i)
  }

  /** Flushing what is kept completes the part passed. */
  lemma Flushed(was: seq<Byte>, now: seq<Byte>, now': seq<Byte>, buffer: seq<Byte>, pos: nat, isZero: seq<Byte> -> bool,
                begin: nat, size: nat, at: nat)
    requires Passed(was, now, buffer, pos, isZero, begin, size, at)
    requires forall q: nat ::
               ByteOf(now', q) == if pos + begin <= q < pos + begin + size then buffer[q - pos] else ByteOf(now, q)
    ensures WrittenUpTo(was, now', buffer, pos, isZero, at)
  {
    hide ByteOf, Kept;
    forall q: nat
      ensures ByteOf(now', q) == if pos <= q < pos + at && Kept(buffer, pos, isZero, q - pos) then buffer[q - pos]
                                 else ByteOf(was, q)
    {
      assert ByteOf(now', q) == if pos + begin <= q < pos + begin + size then buffer[q - pos] else ByteOf(now, q);
    }
  }

  /** FlushBuf. */
  method FlushBuf(f: File, buffer: seq<Byte>, begin: nat, size: nat, pos: nat)
    requires begin + size <= |buffer|
    modifies f
    ensures forall q: nat :: ByteOf(f.data, q) ==
                             if pos + begin <= q < pos + begin + size then buffer[q - pos] else ByteOf(old(f.data), q)
  {
    hide ByteOf;
    if size != 0 {
      f.PWrite(buffer[begin..begin + size], pos + begin);
    }
  }

  /** One chunk of at most 1024 bytes: skipped, or appended to what is kept, which is flushed first if a gap lies
      between. */
  method PassChunk(f: File, buffer: seq<Byte>, pos: nat, isZero: seq<Byte> -> bool, begin0: nat, size0: nat, at: nat,
                   next: nat, ghost was: seq<Byte>, ghost k: nat)
    returns (begin: nat, size: nat)
    requires at == FirstRun(pos, |buffer|) + k * 1024 && at < |buffer| && next == Min(at + 1024, |buffer|)
    requires Passed(was, f.data, buffer, pos, isZero, begin0, size0, at)
    modifies f
    ensures Passed(was, f.data, buffer, pos, isZero, begin, size, next)
  {
    forall i | at <= i < next
      ensures Kept(buffer, pos, isZero, i) <==> !isZero(buffer[at..next])
    {
      ChunkIsOne(buffer, pos, isZero, at, k, i);
    }
    hide Kept, ByteOf, WrittenUpTo;
    begin, size := begin0, size0;
    if isZero(buffer[at..next]) {
    } else if begin0 + size0 < at {
      ghost var now := f.data;
      FlushBuf(f, buffer, begin0, size0, pos);
      Flushed(was, now, f.data, buffer, pos, isZero, begin0, size0, at);
      begin, size := at, next - at;
    } else {
      size := next - begin;
    }
  }

  method SparseWrite(f: File, buffer: seq<Byte>, pos: nat, isZero: seq<Byte> -> bool)
    modifies f
    ensures WrittenUpTo(old(f.data), f.data, buffer, pos, isZero, |buffer|)
  {
    ghost var was := f.data;
    var begin, size, at := 0, FirstRun(pos, |buffer|), FirstRun(pos, |buffer|);
    ghost var k: nat := 0;
    while |buffer| - at >= 1024
      invariant at == FirstRun(pos, |buffer|) + k * 1024
      invariant Passed(was, f.data, buffer, pos, isZero, begin, size, at)
    {
      begin, size := PassChunk(f, buffer, pos, isZero, begin, size, at, at + 1024, was, k);
      at, k := at + 1024, k + 1;
    }
    if at < |buffer| {
      begin, size := PassChunk(f, buffer, pos, isZero, begin, size, at, |buffer|, was, k);
    }
    ghost var now := f.data;
    FlushBuf(f, buffer, begin, size, pos);
    Flushed(was, now, f.data, buffer, pos, isZero, begin, size, |buffer|);
  }

  // ---- When the file reads as the buffer ----

  ghost predicate ReadsAs(file: seq<Byte>, buffer: seq<Byte>, pos: nat) {
    forall i :: 0 <= i < |buffer| ==> ByteOf(file, pos + i) == buffer[i]
  }

  /** Over zeros the file reads as the buffer exactly when all bytes left out are zeros. */
  lemma ReadsAsIff(was: seq<Byte>, now: seq<Byte>, buffer: seq<Byte>, pos: nat, isZero: seq<Byte> -> bool)
    requires WrittenUpTo(was, now, buffer, pos, isZero, |buffer|)
    requires forall q: nat :: pos <= q < pos + |buffer| ==> ByteOf(was, q) == 0
    ensures ReadsAs(now, buffer, pos) <==>
            forall i :: 0 <= i < |buffer| && !Kept(buffer, pos, isZero, i) ==> buffer[i] == 0
  {
    hide ByteOf, Kept;
    forall i | 0 <= i < |buffer|
      ensures ByteOf(now, pos + i) == if Kept(buffer, pos, isZero, i) then buffer[i] else 0
    {
      assert pos <= pos + i < pos + |buffer|;
    }
  }

  /** With the easy test nothing is ever lost. */
  lemma EasyTestReadsAs(was: seq<Byte>, now: seq<Byte>, buffer: seq<Byte>, pos: nat, isZero: seq<Byte> -> bool)
    requires WrittenUpTo(was, now, buffer, pos, isZero, |buffer|)
    requires forall q: nat :: pos <= q < pos + |buffer| ==> ByteOf(was, q) == 0
    requires forall data :: isZero(data) ==> AllZero(data)
    ensures ReadsAs(now, buffer, pos)
  {
    ReadsAsIff(was, now, buffer, pos, isZero);
    forall i | 0 <= i < |buffer| && !Kept(buffer, pos, isZero, i)
      ensures buffer[i] == 0
    {
      var s := ChunkStart(pos, |buffer|, i);
      assert buffer[s..Min(s + 1024, |buffer|)][i - s] == buffer[i];
    }
  }

  /** With the test as compiled the file reads as the buffer exactly when nothing is left out: every chunk after the
      first run has a zero byte. */
  lemma CompiledTestReadsAsIff(was: seq<Byte>, now: seq<Byte>, buffer: seq<Byte>, pos: nat)
    requires WrittenUpTo(was, now, buffer, pos, IsZeroBlock, |buffer|)
    requires forall q: nat :: pos <= q < pos + |buffer| ==> ByteOf(was, q) == 0
    ensures ReadsAs(now, buffer, pos) <==> forall i :: FirstRun(pos, |buffer|) <= i < |buffer| ==>
              var s := ChunkStart(pos, |buffer|, i);
              0 in buffer[s..Min(s + 1024, |buffer|)]
  {
    ReadsAsIff(was, now, buffer, pos, IsZeroBlock);
    forall i | FirstRun(pos, |buffer|) <= i < |buffer|
      ensures var s := ChunkStart(pos, |buffer|, i);
              && (Kept(buffer, pos, IsZeroBlock, i) <==> 0 in buffer[s..Min(s + 1024, |buffer|)])
              && (buffer[i] == 0 ==> Kept(buffer, pos, IsZeroBlock, i))
    {
      var s := ChunkStart(pos, |buffer|, i);
      assert buffer[s..Min(s + 1024, |buffer|)][i - s] == buffer[i];
    }
  }

  /** The smallest loss: at the start of a file, the last of 1024 bytes that are all 1. */
  lemma OnesAreLost(was: seq<Byte>, now: seq<Byte>)
    requires WrittenUpTo(was, now, seq(1024, _ => 1), 0, IsZeroBlock, 1024)
    requires forall q: nat :: ByteOf(was, q) == 0
    ensures ByteOf(now, 1023) == 0 && !ReadsAs(now, seq(1024, _ => 1), 0)
  {
    var buffer: seq<Byte> := seq(1024, _ => 1);
    assert FirstRun(0, 1024) == 1023 && ChunkStart(0, 1024, 1023) == 1023;
    assert buffer[1023..1024] == [1];
    assert !Kept(buffer, 0, IsZeroBlock, 1023);
    assert buffer[1023] == 1;
  }
}
