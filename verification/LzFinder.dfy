// lib/lzma/C/LzFind.c: the match finder as a transition system over its fields. The text is the input stream itself;
// the class MatchFinder of LzMachine shows that the sliding buffer holds exactly that text wherever it is read.
module LzFinder {
  import opened Arithmetic
  import opened SearchSpec
  import opened LzDescent

  const MAX_POS: UInt32 := 0xFFFF_FFFF
  const NORMALIZE_STEP: nat := 1024

  /** What one read of the stream yields. */
  datatype Chunk = Got(count: nat) | Failed

  /** What stays fixed between Init calls. reader(offset, room) is the stream's answer to a read. */
  datatype Config = Config(input: seq<Byte>, reader: (nat, nat) -> Chunk, crc: seq<nat>, hashBits: nat,
                           historySize: nat, matchMaxLen: nat, keepBefore: nat, keepAfter: nat,
                           blockSize: nat, cutValue: nat) {
    ghost predicate Valid() {
      && |crc| == 256
      && historySize < keepBefore && matchMaxLen <= keepAfter
      && keepBefore + keepAfter < blockSize < 0x1_0000_0000
      && historySize <= 3 * 0x4000_0000
      && forall offset: nat, room: nat :: offset <= |input| ==>
           match reader(offset, room)
           case Got(count) => count <= room && offset + count <= |input|
           case Failed => true
    }

    function Size(): nat {
      historySize + 1
    }
  }

  datatype Finder = Finder(buffer: nat, pos: UInt32, posLimit: UInt32, streamPos: UInt32, lenLimit: nat,
                           cyc: nat, hash: seq<UInt32>, son: seq<UInt32>, ended: bool, failed: bool, taken: nat) {
    /** Bytes read ahead of the current position. */
    function Avail(): UInt32 {
      Sub32(streamPos, pos)
    }

    /** The current position in the stream. */
    function Cursor(): int {
      taken - Avail()
    }
  }

  function Add32(a: UInt32, b: UInt32): UInt32 {
    if a + b < 0x1_0000_0000 then a + b else a + b - 0x1_0000_0000
  }

  lemma AddSub32(a: UInt32, b: UInt32, n: UInt32)
    requires Sub32(a, b) + n < 0x1_0000_0000
    ensures Sub32(Add32(a, n), b) == Sub32(a, b) + n
  {
  }

  // ---- The window ----

  /** Reading stops for good only where the stream has given nothing, or failed. */
  ghost predicate StopsRightly(c: Config, s: Finder) {
    && (s.ended ==> exists room: nat :: 0 < room && c.reader(s.taken, room) == Got(0))
    && (s.failed ==> exists room: nat :: 0 < room && c.reader(s.taken, room) == Failed)
  }

  /** MatchFinder_ReadBlock, from the loop on. */
  function ReadLoop(c: Config, s: Finder): (s': Finder)
    requires c.Valid() && s.taken <= |c.input| && s.buffer + s.Avail() <= c.blockSize
    ensures s' == s.(streamPos := s'.streamPos, taken := s'.taken, ended := s'.ended, failed := s'.failed)
    ensures s'.Cursor() == s.Cursor() && s.Avail() <= s'.Avail() && s'.buffer + s'.Avail() <= c.blockSize
    ensures s'.taken <= |c.input|
    ensures s'.ended || s'.failed || s'.Avail() > c.keepAfter || s'.buffer + s'.Avail() == c.blockSize
    ensures !s.ended && !s.failed ==> StopsRightly(c, s')
    decreases c.blockSize - s.buffer - s.Avail()
  {
    var room := c.blockSize - s.buffer - s.Avail();
    if room == 0 then s
    else
      match c.reader(s.taken, room)
      case Failed => s.(failed := true)
      case Got(count) =>
        if count == 0 then s.(ended := true)
        else
          AddSub32(s.streamPos, s.pos, count);
          var s1 := s.(streamPos := Add32(s.streamPos, count), taken := s.taken + count);
          if s1.Avail() > c.keepAfter then s1 else ReadLoop(c, s1)
  }

  function ReadBlock(c: Config, s: Finder): (s': Finder)
    requires c.Valid() && s.taken <= |c.input| && s.buffer + s.Avail() <= c.blockSize
  {
    if s.ended || s.failed then s else ReadLoop(c, s)
  }

  /** MatchFinder_CheckAndMoveAndRead: slide the buffer when too little room is left, then read. */
  function MoveAndRead(c: Config, s: Finder): (s': Finder)
    requires c.Valid() && s.taken <= |c.input| && s.buffer + s.Avail() <= c.blockSize && s.Avail() <= c.keepAfter
  {
    ReadBlock(c, if c.blockSize - s.buffer <= c.keepAfter then s.(buffer := c.keepBefore) else s)
  }

  // ---- Limits and normalization ----

  function SetLimits(c: Config, s: Finder): Finder
    requires s.cyc <= c.Size()
  {
    var toMax := MAX_POS - s.pos;
    var toWrap := c.Size() - s.cyc;
    var avail := s.Avail();
    var toRead := if avail <= c.keepAfter then (if avail > 0 then 1 else 0) else avail - c.keepAfter;
    s.(lenLimit := Min(avail, c.matchMaxLen), posLimit := s.pos + Min(Min(toWrap, toMax), toRead))
  }

  /** MatchFinder_Normalize3 on one entry. */
  function Lowered(v: UInt32, sub: UInt32): UInt32 {
    if v <= sub then 0 else v - sub
  }

  function LoweredAll(items: seq<UInt32>, sub: UInt32): (lowered: seq<UInt32>)
    ensures |lowered| == |items| && forall i :: 0 <= i < |items| ==> lowered[i] == Lowered(items[i], sub)
  {
    seq(|items|, i requires 0 <= i < |items| => Lowered(items[i], sub))
  }

  function SubValue(c: Config, pos: UInt32): UInt32
    requires c.Size() <= pos
  {
    var v := pos - c.historySize - 1;
    v - v % NORMALIZE_STEP
  }

  function Normalize(c: Config, s: Finder): Finder
    requires c.Size() <= s.pos
  {
    var sub := SubValue(c, s.pos);
    s.(hash := LoweredAll(s.hash, sub), son := LoweredAll(s.son, sub), pos := s.pos - sub,
       posLimit := Sub32(s.posLimit, sub), streamPos := Sub32(s.streamPos, sub))
  }

  function CheckLimits(c: Config, s: Finder): Finder
    requires c.Valid() && c.Size() <= s.pos && s.cyc <= c.Size()
    requires s.taken <= |c.input| && s.buffer + s.Avail() <= c.blockSize
  {
    var s1 := if s.pos == MAX_POS then Normalize(c, s) else s;
    assert s1.Avail() == s.Avail();
    var s2 := if !s1.ended && c.keepAfter == s1.Avail() then MoveAndRead(c, s1) else s1;
    var s3 := if s2.cyc == c.Size() then s2.(cyc := 0) else s2;
    SetLimits(c, s3)
  }

  /** MOVE_POS. */
  function MovePos(c: Config, s: Finder): Finder
    requires c.Valid() && c.Size() <= s.pos < MAX_POS && s.cyc < c.Size()
    requires s.taken <= |c.input| && 0 < s.Avail() && s.buffer + s.Avail() <= c.blockSize
  {
    var s1 := s.(cyc := s.cyc + 1, buffer := s.buffer + 1, pos := s.pos + 1);
    assert s1.Avail() == s.Avail() - 1;
    if s1.pos == s1.posLimit then CheckLimits(c, s1) else s1
  }
}
