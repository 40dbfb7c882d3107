// cromfs.cc: reading a file back, one fblock at a time.
module BlockReader {
  import opened Arithmetic
  import opened SearchSpec
  import opened Wrappers

  /** Where a block lies: an fblock and the offset in it. */
  datatype Locator = Locator(fblocknum: nat, startoffs: nat)

  datatype FileMap = FileMap(blocksize: nat, bytesize: nat, blocklist: seq<nat>)

  /** The block table and the decompressed fblocks. slot tells which bit of the request's bitset an fblock uses. */
  datatype Volume = Volume(blktab: seq<Locator>, fblocks: seq<seq<Byte>>, slot: nat -> nat) {
    /** The byte at pos belongs to a known block. */
    predicate Mapped(inode: FileMap, pos: nat)
      requires 0 < inode.blocksize
    {
      pos / inode.blocksize < |inode.blocklist| && inode.blocklist[pos / inode.blocksize] < |blktab|
    }

    function BlockAt(inode: FileMap, pos: nat): Locator
      requires 0 < inode.blocksize && Mapped(inode, pos)
    {
      blktab[inode.blocklist[pos / inode.blocksize]]
    }

    function ByteAt(inode: FileMap, pos: nat): Option<Byte>
      requires 0 < inode.blocksize && Mapped(inode, pos)
    {
      var block := BlockAt(inode, pos);
      var at := block.startoffs + pos % inode.blocksize;
      if block.fblocknum < |fblocks| && at < |fblocks[block.fblocknum]| then
        Some(fblocks[block.fblocknum][at])
      else
        None
    }

    /** The byte at pos lies in one of these fblocks. */
    predicate LiesIn(inode: FileMap, pos: nat, s: set<nat>)
      requires 0 < inode.blocksize
    {
      Mapped(inode, pos) && BlockAt(inode, pos).fblocknum in s
    }
  }

  /** Where reading [pos, endpos) stops: at endpos, or at the first block nothing is known about. */
  function Stop(v: Volume, inode: FileMap, pos: nat, endpos: nat): (stop: nat)
    requires 0 < inode.blocksize
    ensures pos <= endpos ==> pos <= stop <= endpos
    ensures forall p :: pos <= p < stop ==> v.Mapped(inode, p)
    ensures pos <= endpos && stop < endpos ==> !v.Mapped(inode, stop)
    decreases endpos - pos
  {
    if pos >= endpos || !v.Mapped(inode, pos) then pos else Stop(v, inode, pos + 1, endpos)
  }

  /** The bytes of a request that exist: from Begin to End. */
  function Begin(inode: FileMap, offset: nat): nat {
    Min(inode.bytesize, offset)
  }

  function End(v: Volume, inode: FileMap, offset: nat, size: nat): nat
    requires 0 < inode.blocksize
  {
    Stop(v, inode, Begin(inode, offset), Min(inode.bytesize, offset + size))
  }

  /** The target byte at index i after the fblocks of s have been read. */
  function Filled(v: Volume, inode: FileMap, offset: nat, end: nat, s: set<nat>, i: nat, was: Byte): Byte
    requires 0 < inode.blocksize
  {
    if offset + i < end && v.LiesIn(inode, offset + i, s) && v.ByteAt(inode, offset + i).Some? then
      v.ByteAt(inode, offset + i).value
    else was
  }

  function After(v: Volume, inode: FileMap, offset: nat, end: nat, s: set<nat>, target: seq<Byte>): (r: seq<Byte>)
    requires 0 < inode.blocksize
    ensures |r| == |target|
    ensures forall i :: 0 <= i < |r| ==> r[i] == Filled(v, inode, offset, end, s, i, target[i])
  {
    seq(|target|, i requires 0 <= i < |target| => Filled(v, inode, offset, end, s, i, target[i]))
  }

  /** How many positions of [pos, end) lie in the fblocks of s. */
  ghost function Covered(v: Volume, inode: FileMap, pos: nat, end: nat, s: set<nat>): (n: nat)
    requires 0 < inode.blocksize
    ensures pos <= end ==> n <= end - pos
    decreases end - pos
  {
    if pos >= end then 0
    else (if v.LiesIn(inode, pos, s) then 1 else 0) + Covered(v, inode, pos + 1, end, s)
  }

  /** Two batches of passes fill what one batch over both fills, in either order. */
  lemma PassesCompose(v: Volume, inode: FileMap, offset: nat, end: nat, s: set<nat>, t: set<nat>, target: seq<Byte>)
    requires 0 < inode.blocksize
    ensures After(v, inode, offset, end, t, After(v, inode, offset, end, s, target))
            == After(v, inode, offset, end, s + t, target)
  {
    forall i | 0 <= i < |target|
      ensures After(v, inode, offset, end, t, After(v, inode, offset, end, s, target))[i]
              == After(v, inode, offset, end, s + t, target)[i]
    {
    }
  }

  lemma {:induction false} CoversAdd(v: Volume, inode: FileMap, pos: nat, end: nat, s: set<nat>, t: set<nat>)
    requires 0 < inode.blocksize && s !! t
    ensures Covered(v, inode, pos, end, s + t) == Covered(v, inode, pos, end, s) + Covered(v, inode, pos, end, t)
    decreases end - pos
  {
    if pos < end {
      CoversAdd(v, inode, pos + 1, end, s, t);
    }
  }

  /** All positions are covered exactly when none lies outside s. */
  lemma {:induction false} CoversAll(v: Volume, inode: FileMap, pos: nat, end: nat, s: set<nat>)
    requires 0 < inode.blocksize && pos <= end
    ensures Covered(v, inode, pos, end, s) == end - pos <==> forall p :: pos <= p < end ==> v.LiesIn(inode, p, s)
    decreases end - pos
  {
    if pos < end {
      CoversAll(v, inode, pos + 1, end, s);
    }
  }

  // ---- One step of the loops: to the end of the block or of the request ----

  function ConsumeBytes(inode: FileMap, pos: nat, endpos: nat): (n: nat)
    requires 0 < inode.blocksize && pos < endpos
    ensures 0 < n <= endpos - pos
  {
    Min(endpos - pos, inode.blocksize - pos % inode.blocksize)
  }

  lemma SameBlock(pos: nat, p: nat, b: nat)
    requires 0 < b && pos <= p < pos + b - pos % b
    ensures p / b == pos / b && p % b == pos % b + (p - pos)
  {
    assert p == b * (pos / b) + (pos % b + (p - pos));
    DivUnique(p, b, pos / b, pos % b + (p - pos));
  }

  /** Within a step all positions share the block, so they are mapped and covered alike. */
  lemma {:induction false} StepStop(v: Volume, inode: FileMap, pos: nat, p: nat, endpos: nat)
    requires 0 < inode.blocksize && pos < endpos && v.Mapped(inode, pos)
    requires pos <= p <= pos + ConsumeBytes(inode, pos, endpos)
    ensures Stop(v, inode, p, endpos) == Stop(v, inode, pos, endpos)
    decreases p - pos
  {
    if p > pos {
      StepStop(v, inode, pos, p - 1, endpos);
      SameBlock(pos, p - 1, inode.blocksize);
    }
  }

  lemma {:induction false} StepCovered(v: Volume, inode: FileMap, pos: nat, p: nat, n: nat, end: nat, s: set<nat>)
    requires 0 < inode.blocksize && v.Mapped(inode, pos) && pos <= p <= pos + n <= end
    requires n <= inode.blocksize - pos % inode.blocksize
    ensures Covered(v, inode, p, end, s)
            == (if v.LiesIn(inode, pos, s) then pos + n - p else 0) + Covered(v, inode, pos + n, end, s)
    decreases pos + n - p
  {
    if p < pos + n {
      SameBlock(pos, p, inode.blocksize);
      StepCovered(v, inode, pos, p + 1, n, end, s);
    }
  }

  // ---- Reading ----

  /** read_block: copies what the fblock has of the block and leaves the rest of the target alone. */
  method ReadBlock(v: Volume, ind: nat, offset: nat, target: array<Byte>, at: nat, size: nat)
    requires ind < |v.blktab| && v.blktab[ind].fblocknum < |v.fblocks| && at + size <= target.Length
    modifies target
    ensures var fblock, start := v.fblocks[v.blktab[ind].fblocknum], v.blktab[ind].startoffs + offset;
            forall i :: 0 <= i < target.Length ==>
              target[i] == (if at <= i < at + size && start + (i - at) < |fblock| then fblock[start + (i - at)]
                            else old(target[i]))
  {
    var fblock, start := v.fblocks[v.blktab[ind].fblocknum], v.blktab[ind].startoffs + offset;
    if start < |fblock| {
      var bytes := Min(|fblock| - start, size);
      forall i | at <= i < at + bytes {
        target[i] := fblock[start + (i - at)];
      }
    }
  }

  /** One turn of the loop at pos: consumes up to the end of the block, or nothing where the source stops. */
  method ReadStep(v: Volume, inode: FileMap, offset: nat, target: array<Byte>, pos: nat, endpos: nat, allowed: nat,
                  ghost was: seq<Byte>)
    returns (consume: nat, read: nat)
    requires 0 < inode.blocksize && allowed < |v.fblocks| && offset <= pos < endpos <= offset + target.Length
    requires target[..] == After(v, inode, offset, pos, {allowed}, was)
    modifies target
    ensures pos + consume <= endpos && target[..] == After(v, inode, offset, pos + consume, {allowed}, was)
    ensures if consume == 0 then read == 0 && !v.Mapped(inode, pos)
            else StepTaken(v, inode, pos, consume, endpos, allowed, read)
  {
    hide After, Filled, Stop, Covered, Volume.LiesIn, Volume.ByteAt;
    consume, read := 0, 0;
    var index := pos / inode.blocksize;
    if index >= |inode.blocklist| {
      return;
    }
    var blocknum := inode.blocklist[index];
    if blocknum >= |v.blktab| {
      return;
    }
    consume := ConsumeBytes(inode, pos, endpos);
    StepTakes(v, inode, pos, consume, endpos, allowed);
    ghost var before := target[..];
    if v.blktab[blocknum].fblocknum == allowed {
      ReadBlock(v, blocknum, pos % inode.blocksize, target, pos - offset, consume);
      read := consume;
    }
    StepFills(v, inode, offset, pos, consume, allowed, was, before, target[..]);
  }

  /** The step keeps where reading stops, and reads as many bytes as it covers. */
  ghost predicate StepTaken(v: Volume, inode: FileMap, pos: nat, n: nat, endpos: nat, allowed: nat, read: nat)
    requires 0 < inode.blocksize
  {
    var end := Stop(v, inode, pos, endpos);
    && Stop(v, inode, pos + n, endpos) == end
    && Covered(v, inode, pos, end, {allowed}) == read + Covered(v, inode, pos + n, end, {allowed})
  }

  lemma StepTakes(v: Volume, inode: FileMap, pos: nat, n: nat, endpos: nat, allowed: nat)
    requires 0 < inode.blocksize && pos < endpos && v.Mapped(inode, pos) && n == ConsumeBytes(inode, pos, endpos)
    ensures StepTaken(v, inode, pos, n, endpos, allowed, if v.BlockAt(inode, pos).fblocknum == allowed then n else 0)
  {
    StepStop(v, inode, pos, pos + n, endpos);
    StepCovered(v, inode, pos, pos, n, Stop(v, inode, pos, endpos), {allowed});
  }

  /** read_file_data_from_one_fblock_only. */
  method ReadFromOneFblock(v: Volume, inode: FileMap, offset: nat, target: array<Byte>, size: nat, allowed: nat)
    returns (result: nat)
    requires 0 < inode.blocksize && allowed < |v.fblocks| && size <= target.Length
    modifies target
    ensures target[..] == After(v, inode, offset, End(v, inode, offset, size), {allowed}, old(target[..]))
    ensures result == Covered(v, inode, Begin(inode, offset), End(v, inode, offset, size), {allowed})
  {
    hide After, Filled, Stop, Covered, Volume.Mapped;
    ghost var end, was := End(v, inode, offset, size), target[..];
    var pos, endpos := Begin(inode, offset), Min(inode.bytesize, offset + size);
    result := 0;
    NothingYet(v, inode, offset, pos, {allowed}, was);
    while pos < endpos
      invariant pos <= endpos && Stop(v, inode, pos, endpos) == end && (pos < endpos ==> offset <= pos)
      invariant target[..] == After(v, inode, offset, pos, {allowed}, was)
      invariant result + Covered(v, inode, pos, end, {allowed})
                == Covered(v, inode, Begin(inode, offset), end, {allowed})
    {
      var consume, read := ReadStep(v, inode, offset, target, pos, endpos, allowed, was);
      if consume == 0 {
        break;
      }
      pos, result := pos + consume, result + read;
    }
    StopsHere(v, inode, pos, endpos);
    NoneCovered(v, inode, end, {allowed});
  }

  lemma NoneCovered(v: Volume, inode: FileMap, end: nat, s: set<nat>)
    requires 0 < inode.blocksize
    ensures Covered(v, inode, end, end, s) == 0
  {
  }

  lemma StopsHere(v: Volume, inode: FileMap, pos: nat, endpos: nat)
    requires 0 < inode.blocksize && (pos == endpos || !v.Mapped(inode, pos))
    ensures Stop(v, inode, pos, endpos) == pos
  {
  }

  lemma NothingYet(v: Volume, inode: FileMap, offset: nat, begin: nat, s: set<nat>, target: seq<Byte>)
    requires 0 < inode.blocksize && begin <= offset
    ensures After(v, inode, offset, begin, s, target) == target
  {
  }

  lemma StepFills(v: Volume, inode: FileMap, offset: nat, pos: nat, n: nat, allowed: nat,
                  was: seq<Byte>, before: seq<Byte>, now: seq<Byte>)
    requires 0 < inode.blocksize && v.Mapped(inode, pos) && n <= inode.blocksize - pos % inode.blocksize
    requires offset <= pos && before == After(v, inode, offset, pos, {allowed}, was) && |now| == |before|
    requires allowed < |v.fblocks|
    requires var block := v.BlockAt(inode, pos);
             var start := block.startoffs + pos % inode.blocksize;
             if block.fblocknum != allowed then now == before
             else forall i :: 0 <= i < |now| ==>
               now[i] == if pos - offset <= i < pos - offset + n && start + (i - (pos - offset)) < |v.fblocks[allowed]|
                         then v.fblocks[allowed][start + (i - (pos - offset))] else before[i]
    ensures now == After(v, inode, offset, pos + n, {allowed}, was)
  {
    forall i | 0 <= i < |now|
      ensures now[i] == Filled(v, inode, offset, pos + n, {allowed}, i, was[i])
    {
      if pos <= offset + i < pos + n {
        SameBlock(pos, offset + i, inode.blocksize);
      }
    }
  }

  // ---- The fblocks a request needs ----

  ghost predicate NeedsAt(v: Volume, inode: FileMap, pos: nat, f: nat)
    requires 0 < inode.blocksize
  {
    f < |v.fblocks| && v.LiesIn(inode, pos, {f})
  }

  ghost predicate Needs(v: Volume, inode: FileMap, begin: nat, end: nat, f: nat)
    requires 0 < inode.blocksize
  {
    exists p :: begin <= p < end && NeedsAt(v, inode, p, f)
  }

  predicate SlotTaken(v: Volume, s: set<nat>, slot: nat) {
    exists g :: g in s && v.slot(g) == slot
  }

  /** What the bitset loop collects: needed fblocks with different bits, and for every needed one its bit. */
  ghost predicate Collected(v: Volume, inode: FileMap, begin: nat, end: nat, s: set<nat>)
    requires 0 < inode.blocksize
  {
    && (forall f :: f in s ==> Needs(v, inode, begin, end, f))
    && (forall f, g :: f in s && g in s && f != g ==> v.slot(f) != v.slot(g))
    && forall p, f :: begin <= p < end && NeedsAt(v, inode, p, f) ==> SlotTaken(v, s, v.slot(f))
  }

  /** No two needed fblocks share a bit. */
  ghost predicate SlotsApart(v: Volume, inode: FileMap, begin: nat, end: nat)
    requires 0 < inode.blocksize
  {
    forall f, g :: Needs(v, inode, begin, end, f) && Needs(v, inode, begin, end, g) && f != g ==> v.slot(f) != v.slot(g)
  }

  /** Every block of the request lies in a known fblock, though perhaps past its end. */
  ghost predicate Present(v: Volume, inode: FileMap, begin: nat, end: nat)
    requires 0 < inode.blocksize
  {
    forall p :: begin <= p < end ==> v.Mapped(inode, p) && v.BlockAt(inode, p).fblocknum < |v.fblocks|
  }

  lemma CoveredMeansApart(v: Volume, inode: FileMap, begin: nat, end: nat, s: set<nat>)
    requires 0 < inode.blocksize && Collected(v, inode, begin, end, s)
    requires forall p :: begin <= p < end ==> v.LiesIn(inode, p, s)
    ensures Present(v, inode, begin, end) && SlotsApart(v, inode, begin, end)
  {
    forall p | begin <= p < end
      ensures v.Mapped(inode, p) && v.BlockAt(inode, p).fblocknum < |v.fblocks|
    {
      assert v.LiesIn(inode, p, s);
      assert Needs(v, inode, begin, end, v.BlockAt(inode, p).fblocknum);
    }
    forall f | Needs(v, inode, begin, end, f)
      ensures f in s
    {
      var p :| begin <= p < end && NeedsAt(v, inode, p, f);
      assert v.LiesIn(inode, p, s);
    }
  }

  lemma ApartMeansCovered(v: Volume, inode: FileMap, begin: nat, end: nat, s: set<nat>, p: nat)
    requires 0 < inode.blocksize && Collected(v, inode, begin, end, s)
    requires Present(v, inode, begin, end) && SlotsApart(v, inode, begin, end) && begin <= p < end
    ensures v.LiesIn(inode, p, s)
  {
    assert v.Mapped(inode, p);
    var f := v.BlockAt(inode, p).fblocknum;
    assert NeedsAt(v, inode, p, f);
    assert SlotTaken(v, s, v.slot(f));
    var g :| g in s && v.slot(g) == v.slot(f);
    assert Needs(v, inode, begin, end, f) && Needs(v, inode, begin, end, g);
  }

  /** All bytes are covered exactly when every block lies in a known fblock and no two needed fblocks share a bit. */
  lemma CollectedCovers(v: Volume, inode: FileMap, begin: nat, end: nat, s: set<nat>)
    requires 0 < inode.blocksize && Collected(v, inode, begin, end, s)
    ensures (forall p :: begin <= p < end ==> v.LiesIn(inode, p, s))
            <==> Present(v, inode, begin, end) && SlotsApart(v, inode, begin, end)
  {
    hide Collected, Present, SlotsApart, Volume.LiesIn;
    if forall p :: begin <= p < end ==> v.LiesIn(inode, p, s) {
      CoveredMeansApart(v, inode, begin, end, s);
    }
    if Present(v, inode, begin, end) && SlotsApart(v, inode, begin, end) {
      forall p | begin <= p < end
        ensures v.LiesIn(inode, p, s)
      {
        ApartMeansCovered(v, inode, begin, end, s, p);
      }
    }
  }

  /** One step of collecting: the whole step needs the one fblock f, which joins unless its bit is set. */
  lemma CollectStep(v: Volume, inode: FileMap, begin: nat, pos: nat, n: nat, f: nat, s: set<nat>, s': set<nat>)
    requires 0 < inode.blocksize && begin <= pos && 0 < n <= inode.blocksize - pos % inode.blocksize
    requires Collected(v, inode, begin, pos, s) && v.Mapped(inode, pos) && f == v.BlockAt(inode, pos).fblocknum
    requires s' == if f < |v.fblocks| && !SlotTaken(v, s, v.slot(f)) then s + {f} else s
    ensures Collected(v, inode, begin, pos + n, s')
  {
    forall p, g | begin <= p < pos + n && NeedsAt(v, inode, p, g)
      ensures SlotTaken(v, s', v.slot(g))
    {
      if p < pos {
        assert SlotTaken(v, s, v.slot(g));
        var h :| h in s && v.slot(h) == v.slot(g);
        assert h in s';
      } else {
        SameBlock(pos, p, inode.blocksize);
        assert f in s' ==> SlotTaken(v, s', v.slot(f));
      }
    }
    forall g | g in s'
      ensures Needs(v, inode, begin, pos + n, g)
    {
      if g in s {
        var p :| begin <= p < pos && NeedsAt(v, inode, p, g);
        assert NeedsAt(v, inode, p, g) && begin <= p < pos + n;
      } else {
        assert NeedsAt(v, inode, pos, g);
      }
    }
  }

  ghost function Elements(a: seq<nat>): (s: set<nat>)
    ensures forall f :: f in s <==> f in a
  {
    set f | f in a
  }

  /** The first loop of read_file_data: cached and uncached fblocks, each once. bits is the bitset. */
  method RequiredFblocks(v: Volume, inode: FileMap, offset: nat, size: nat, cache: set<nat>)
    returns (cached: seq<nat>, uncached: seq<nat>)
    requires 0 < inode.blocksize
    ensures Collected(v, inode, Begin(inode, offset), End(v, inode, offset, size), Elements(cached + uncached))
    ensures NoRepeats(cached + uncached) && forall f :: f in cached + uncached ==> f < |v.fblocks|
  {
    hide Stop, Needs, NeedsAt, SlotTaken, Collected, Volume.LiesIn;
    cached, uncached := [], [];
    var bits: set<nat> := {};
    ghost var begin, end, s: set<nat> := Begin(inode, offset), End(v, inode, offset, size), {};
    var pos, endpos := Begin(inode, offset), Min(inode.bytesize, offset + size);
    NothingCollected(v, inode, begin);
    while pos < endpos
      invariant begin <= pos <= endpos && Stop(v, inode, pos, endpos) == end
      invariant Collected(v, inode, begin, pos, s)
      invariant Elements(cached + uncached) == s && NoRepeats(cached + uncached)
      invariant forall f :: f in cached + uncached ==> f < |v.fblocks|
      invariant forall b :: b in bits <==> SlotTaken(v, s, b)
    {
      var index := pos / inode.blocksize;
      if index >= |inode.blocklist| || inode.blocklist[index] >= |v.blktab| {
        break;
      }
      var consume := ConsumeBytes(inode, pos, endpos);
      var fblocknum := v.blktab[inode.blocklist[index]].fblocknum;
      StepStop(v, inode, pos, pos + consume, endpos);
      ghost var s' := if fblocknum < |v.fblocks| && !SlotTaken(v, s, v.slot(fblocknum)) then s + {fblocknum} else s;
      CollectStep(v, inode, begin, pos, consume, fblocknum, s, s');
      if fblocknum < |v.fblocks| && v.slot(fblocknum) !in bits {
        SetsBit(v, s, fblocknum);
        JoinsList(v, s, fblocknum, cached, uncached);
        bits := bits + {v.slot(fblocknum)};
        if fblocknum in cache {
          cached := cached + [fblocknum];
        } else {
          uncached := uncached + [fblocknum];
        }
      }
      s, pos := s', pos + consume;
    }
    StopsHere(v, inode, pos, endpos);
  }

  lemma NothingCollected(v: Volume, inode: FileMap, begin: nat)
    requires 0 < inode.blocksize
    ensures Collected(v, inode, begin, begin, {}) && forall b: nat :: !SlotTaken(v, {}, b)
  {
  }

  lemma SetsBit(v: Volume, s: set<nat>, f: nat)
    ensures forall b: nat :: SlotTaken(v, s + {f}, b) <==> SlotTaken(v, s, b) || b == v.slot(f)
  {
    forall b: nat
      ensures SlotTaken(v, s + {f}, b) <==> SlotTaken(v, s, b) || b == v.slot(f)
    {
      if SlotTaken(v, s, b) {
        var g :| g in s && v.slot(g) == b;
        assert g in s + {f};
      }
      assert f in s + {f};
    }
  }

  lemma JoinsList(v: Volume, s: set<nat>, f: nat, cached: seq<nat>, uncached: seq<nat>)
    requires Elements(cached + uncached) == s && NoRepeats(cached + uncached) && !SlotTaken(v, s, v.slot(f))
    ensures NoRepeats((cached + [f]) + uncached) && Elements((cached + [f]) + uncached) == s + {f}
    ensures NoRepeats(cached + (uncached + [f])) && Elements(cached + (uncached + [f])) == s + {f}
  {
    assert f !in s;
    assert f !in cached + uncached;
    InsertDistinct(cached, uncached, f);
    InsertDistinct(cached + uncached, [], f);
    assert cached + (uncached + [f]) == ((cached + uncached) + [f]) + [];
    assert cached + uncached == (cached + uncached) + [];
  }

  lemma InsertDistinct(a: seq<nat>, b: seq<nat>, f: nat)
    requires NoRepeats(a + b) && f !in a + b
    ensures NoRepeats((a + [f]) + b) && Elements((a + [f]) + b) == Elements(a + b) + {f}
  {
    var c := (a + [f]) + b;
    forall i, j | 0 <= i < j < |c|
      ensures c[i] != c[j]
    {
      var i', j' := if i < |a| then i else i - 1, if j < |a| then j else j - 1;
      if i == |a| {
        assert c[j] == (a + b)[j'];
      } else if j == |a| {
        assert c[i] == (a + b)[i'];
      } else {
        assert c[i] == (a + b)[i'] && c[j] == (a + b)[j'];
      }
    }
    forall g
      ensures g in c <==> g in a + b || g == f
    {
      assert c[|a|] == f;
    }
  }

  // ---- read_file_data ----

  /** What reading the fblocks of order, one after the other, leaves in the target and counts. */
  ghost predicate PassesDone(v: Volume, inode: FileMap, offset: nat, size: nat, s: set<nat>, was: seq<Byte>,
                             now: seq<Byte>, result: nat)
    requires 0 < inode.blocksize
  {
    && now == After(v, inode, offset, End(v, inode, offset, size), s, was)
    && result == Covered(v, inode, Begin(inode, offset), End(v, inode, offset, size), s)
  }

  lemma NoPassYet(v: Volume, inode: FileMap, offset: nat, size: nat, target: seq<Byte>)
    requires 0 < inode.blocksize
    ensures PassesDone(v, inode, offset, size, {}, target, target, 0)
  {
    CoversNothing(v, inode, Begin(inode, offset), End(v, inode, offset, size));
  }

  lemma {:induction false} CoversNothing(v: Volume, inode: FileMap, pos: nat, end: nat)
    requires 0 < inode.blocksize
    ensures Covered(v, inode, pos, end, {}) == 0
    decreases end - pos
  {
    if pos < end {
      CoversNothing(v, inode, pos + 1, end);
    }
  }

  lemma OneMorePass(v: Volume, inode: FileMap, offset: nat, size: nat, s: set<nat>, f: nat, was: seq<Byte>,
                    mid: seq<Byte>, now: seq<Byte>, result: nat, read: nat)
    requires 0 < inode.blocksize && f !in s
    requires PassesDone(v, inode, offset, size, s, was, mid, result)
    requires PassesDone(v, inode, offset, size, {f}, mid, now, read)
    ensures PassesDone(v, inode, offset, size, s + {f}, was, now, result + read)
  {
    var end := End(v, inode, offset, size);
    PassesCompose(v, inode, offset, end, s, {f}, was);
    CoversAdd(v, inode, Begin(inode, offset), end, s, {f});
  }

  /** read_file_data. Whatever the cache holds, and so in whatever order the fblocks are read, the same bytes
      arrive; the count is the whole length exactly when every block lies in a known fblock and no bit is shared. */
  method ReadFileData(v: Volume, inode: FileMap, offset: nat, target: array<Byte>, size: nat, cache: set<nat>)
    returns (result: nat, ghost s: set<nat>)
    requires 0 < inode.blocksize && size <= target.Length
    modifies target
    ensures Collected(v, inode, Begin(inode, offset), End(v, inode, offset, size), s)
    ensures PassesDone(v, inode, offset, size, s, old(target[..]), target[..], result)
    ensures var begin, end := Begin(inode, offset), End(v, inode, offset, size);
            result == end - begin <==> Present(v, inode, begin, end) && SlotsApart(v, inode, begin, end)
  {
    hide After, Covered, Collected, Stop, Present, SlotsApart, PassesDone;
    var cached, uncached := RequiredFblocks(v, inode, offset, size, cache);
    var order := cached + uncached;
    ghost var was := target[..];
    result, s := 0, {};
    NoPassYet(v, inode, offset, size, was);
    for a := 0 to |order|
      invariant s == Elements(order[..a])
      invariant PassesDone(v, inode, offset, size, s, was, target[..], result)
    {
      ghost var mid := target[..];
      assert order[a] in order;
      var read := ReadFromOneFblock(v, inode, offset, target, size, order[a]);
      PassIsDone(v, inode, offset, size, order[a], mid, target[..], read);
      OneMorePass(v, inode, offset, size, s, order[a], was, mid, target[..], result, read);
      assert order[..a + 1] == order[..a] + [order[a]];
      result, s := result + read, s + {order[a]};
    }
    assert order[..|order|] == order;
    CountIsWhole(v, inode, offset, size, s, was, target[..], result);
  }

  lemma PassIsDone(v: Volume, inode: FileMap, offset: nat, size: nat, f: nat, was: seq<Byte>, now: seq<Byte>, read: nat)
    requires 0 < inode.blocksize
    requires now == After(v, inode, offset, End(v, inode, offset, size), {f}, was)
    requires read == Covered(v, inode, Begin(inode, offset), End(v, inode, offset, size), {f})
    ensures PassesDone(v, inode, offset, size, {f}, was, now, read)
  {
  }

  lemma CountIsWhole(v: Volume, inode: FileMap, offset: nat, size: nat, s: set<nat>, was: seq<Byte>, now: seq<Byte>,
                     result: nat)
    requires 0 < inode.blocksize && PassesDone(v, inode, offset, size, s, was, now, result)
    requires Collected(v, inode, Begin(inode, offset), End(v, inode, offset, size), s)
    ensures var begin, end := Begin(inode, offset), End(v, inode, offset, size);
            result == end - begin <==> Present(v, inode, begin, end) && SlotsApart(v, inode, begin, end)
  {
    hide After, Collected, Present, SlotsApart;
    var begin, end := Begin(inode, offset), End(v, inode, offset, size);
    CoversAll(v, inode, begin, end, s);
    CollectedCovers(v, inode, begin, end, s);
  }

  // ---- Any order of passes ----

  /** The target after passes over these fblocks, one at a time, in this order. */
  ghost function Passes(v: Volume, inode: FileMap, offset: nat, end: nat, order: seq<nat>, target: seq<Byte>): seq<Byte>
    requires 0 < inode.blocksize
  {
    if order == [] then target
    else After(v, inode, offset, end, {order[|order| - 1]}, Passes(v, inode, offset, end, order[..|order| - 1], target))
  }

  /** What those passes count together. */
  ghost function Counts(v: Volume, inode: FileMap, pos: nat, end: nat, order: seq<nat>): nat
    requires 0 < inode.blocksize
  {
    if order == [] then 0
    else Counts(v, inode, pos, end, order[..|order| - 1]) + Covered(v, inode, pos, end, {order[|order| - 1]})
  }

  lemma NoFblockNoChange(v: Volume, inode: FileMap, offset: nat, end: nat, target: seq<Byte>)
    requires 0 < inode.blocksize
    ensures After(v, inode, offset, end, {}, target) == target
  {
  }

  /** One pass after the other does what one batch does, and counts the same if no fblock is passed twice. */
  lemma {:induction false} PassesAreBatch(v: Volume, inode: FileMap, offset: nat, pos: nat, end: nat, order: seq<nat>,
                                          target: seq<Byte>)
    requires 0 < inode.blocksize
    ensures Passes(v, inode, offset, end, order, target) == After(v, inode, offset, end, Elements(order), target)
    ensures NoRepeats(order) ==> Counts(v, inode, pos, end, order) == Covered(v, inode, pos, end, Elements(order))
    decreases order
  {
    hide After, Covered;
    if order == [] {
      assert Elements(order) == {};
      CoversNothing(v, inode, pos, end);
      NoFblockNoChange(v, inode, offset, end, target);
    } else {
      var init, last := order[..|order| - 1], order[|order| - 1];
      assert order == init + [last];
      PassesAreBatch(v, inode, offset, pos, end, init, target);
      PassesCompose(v, inode, offset, end, Elements(init), {last}, target);
      assert Elements(order) == Elements(init) + {last};
      if NoRepeats(order) {
        CoversAdd(v, inode, pos, end, Elements(init), {last});
      }
    }
  }

  /** So the fblocks of a request may be read in any order: the same bytes arrive, and the same count. */
  lemma OrderDoesNotMatter(v: Volume, inode: FileMap, offset: nat, pos: nat, end: nat, order: seq<nat>, other: seq<nat>,
                           target: seq<Byte>)
    requires 0 < inode.blocksize && Elements(order) == Elements(other) && NoRepeats(order) && NoRepeats(other)
    ensures Passes(v, inode, offset, end, order, target) == Passes(v, inode, offset, end, other, target)
    ensures Counts(v, inode, pos, end, order) == Counts(v, inode, pos, end, other)
  {
    PassesAreBatch(v, inode, offset, pos, end, order, target);
    PassesAreBatch(v, inode, offset, pos, end, other, target);
  }

  // ---- Reading what was written ----

  /** The inode's blocks hold the bytes of source. */
  ghost predicate Describes(v: Volume, inode: FileMap, source: seq<Byte>) {
    && 0 < inode.blocksize && inode.bytesize == |source|
    && forall p :: 0 <= p < |source| ==> v.Mapped(inode, p) && v.ByteAt(inode, p) == Some(source[p])
  }

  /** Reading a described file fills the target with exactly the requested slice, and counts its length. */
  lemma ReadsSource(v: Volume, inode: FileMap, source: seq<Byte>, offset: nat, size: nat, s: set<nat>,
                    was: seq<Byte>, now: seq<Byte>, result: nat)
    requires Describes(v, inode, source) && size <= |was|
    requires var begin, end := Begin(inode, offset), End(v, inode, offset, size);
             SlotsApart(v, inode, begin, end) && Collected(v, inode, begin, end, s)
    requires PassesDone(v, inode, offset, size, s, was, now, result)
    ensures var begin, end := Min(offset, |source|), Min(offset + size, |source|);
            && result == end - begin
            && now == source[begin..end] + was[result..]
  {
    var begin, end := Begin(inode, offset), End(v, inode, offset, size);
    DescribedIsPresent(v, inode, source, offset, size);
    hide Collected, SlotsApart, Covered, Volume.Mapped, Volume.BlockAt, Volume.ByteAt, Volume.LiesIn, Stop;
    CountIsWhole(v, inode, offset, size, s, was, now, result);
    CollectedCovers(v, inode, begin, end, s);
    forall i | 0 <= i < |was|
      ensures now[i] == (source[begin..end] + was[result..])[i]
    {
      if offset + i < end {
        assert v.LiesIn(inode, offset + i, s) && v.ByteAt(inode, offset + i) == Some(source[offset + i]);
      }
    }
  }

  /** All bytes of a described file that a request asks for are there. */
  lemma DescribedIsPresent(v: Volume, inode: FileMap, source: seq<Byte>, offset: nat, size: nat)
    requires Describes(v, inode, source)
    ensures var begin, end := Begin(inode, offset), End(v, inode, offset, size);
            && Present(v, inode, begin, end) && end == Min(offset + size, |source|)
            && forall p :: begin <= p < end ==> v.Mapped(inode, p) && v.ByteAt(inode, p) == Some(source[p])
  {
  }

  // ---- The bitset of the source ----

  /** Word f / 32 and bit f % 32: what the comment of the source promises. */
  function SlotOn32(f: nat): nat {
    f
  }

  /** On 64-bit words the mask is still a 32-bit one, so bit f % 64 comes out as f % 32. */
  function SlotOn64(f: nat): nat {
    64 * (f / 64) + f % 64 % 32
  }

  /** On 64-bit words two fblocks share a bit exactly when they are 32 apart within one word. */
  lemma SharedBits(f: nat, g: nat)
    ensures SlotOn32(f) == SlotOn32(g) <==> f == g
    ensures f < g ==> (SlotOn64(f) == SlotOn64(g) <==> g == f + 32 && f / 64 == g / 64)
  {
  }

  /** With the bitset of the comment no request loses a byte. */
  lemma CommentBitsApart(v: Volume, inode: FileMap, begin: nat, end: nat)
    requires 0 < inode.blocksize && forall f: nat :: v.slot(f) == SlotOn32(f)
    ensures SlotsApart(v, inode, begin, end)
  {
    hide Needs;
  }

  /** With 64-bit words a file that needs fblocks 32 apart within one word is not read completely. */
  lemma WideBitsCollide(v: Volume, inode: FileMap, begin: nat, end: nat, p: nat, q: nat)
    requires 0 < inode.blocksize && forall f: nat :: v.slot(f) == SlotOn64(f)
    requires begin <= p < end && begin <= q < end && Present(v, inode, begin, end)
    requires v.BlockAt(inode, p).fblocknum % 64 < 32
             && v.BlockAt(inode, q).fblocknum == v.BlockAt(inode, p).fblocknum + 32
    ensures !SlotsApart(v, inode, begin, end)
  {
    var f, g := v.BlockAt(inode, p).fblocknum, v.BlockAt(inode, q).fblocknum;
    assert NeedsAt(v, inode, p, f) && NeedsAt(v, inode, q, g);
    assert Needs(v, inode, begin, end, f) && Needs(v, inode, begin, end, g);
    SharedBits(f, g);
  }

  /** On 64-bit words, as many fblocks as half a word has bits never collide. */
  lemma FewFblocksApart(v: Volume, inode: FileMap, begin: nat, end: nat)
    requires 0 < inode.blocksize && |v.fblocks| <= 32 && forall f: nat :: v.slot(f) == SlotOn64(f)
    ensures SlotsApart(v, inode, begin, end)
  {
    forall f, g | Needs(v, inode, begin, end, f) && Needs(v, inode, begin, end, g) && f != g
      ensures v.slot(f) != v.slot(g)
    {
      NeededIsKnown(v, inode, begin, end, f);
      NeededIsKnown(v, inode, begin, end, g);
      hide Needs, SlotOn64;
      SharedBits(f, g);
      SharedBits(g, f);
    }
  }

  lemma NeededIsKnown(v: Volume, inode: FileMap, begin: nat, end: nat, f: nat)
    requires 0 < inode.blocksize && Needs(v, inode, begin, end, f)
    ensures f < |v.fblocks|
  {
    hide Volume.LiesIn;
  }

  /** What is apart in a request is apart in every part of it. */
  lemma PartIsApart(v: Volume, inode: FileMap, begin: nat, end: nat, from: nat, to: nat)
    requires 0 < inode.blocksize && SlotsApart(v, inode, begin, end) && begin <= from && to <= end
    ensures SlotsApart(v, inode, from, to)
  {
    hide NeedsAt;
    forall f | Needs(v, inode, from, to, f)
      ensures Needs(v, inode, begin, end, f)
    {
      var p :| from <= p < to && NeedsAt(v, inode, p, f);
      assert begin <= p < end;
    }
  }

  /** Two blocks in fblocks 0 and 32. */
  ghost function TwoFblocks(): Volume {
    Volume([Locator(0, 0), Locator(32, 0)], seq(33, _ => [7]), SlotOn64)
  }

  /** A file of two bytes that is wholly there, and that 64-bit words do not let the reader read at once. */
  lemma WideBitsLoseBytes()
    ensures var inode := FileMap(1, 2, [0, 1]);
            && Describes(TwoFblocks(), inode, [7, 7]) && Present(TwoFblocks(), inode, 0, 2)
            && !SlotsApart(TwoFblocks(), inode, 0, 2)
  {
    WideBitsCollide(TwoFblocks(), FileMap(1, 2, [0, 1]), 0, 2, 0, 1);
  }
}
