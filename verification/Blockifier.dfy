// lib/cromfs-blockifier.cc: choosing a place for each block, and keeping every place valid.
module Blockifier {
  import opened SearchSpec
  import opened AppendSearch
  import opened Arithmetic
  import opened AutoIndexGrid
  import opened BlockStore
  import opened TurboSearch
  import BlockReader
  import opened Wrappers

  /** The best place found so far; found is 0 (none), 1 (some bytes are added) or 2 (nothing is added). */
  datatype Smallest = Smallest(found: nat, fblocknum: nat, adds: nat, appended: AppendInfo)

  datatype WritePlan = WritePlan(fblocknum: nat, appended: AppendInfo)

  /** A plan with what was tried before it was made; the first of the candidates are the tightest holes. */
  datatype Planned = Planned(needle: Needle, candidates: seq<nat>, first: nat, plan: WritePlan)

  ghost predicate GoodSmallest(o: Settings, fblocks: seq<FblockRec>, data: seq<Byte>, s: Smallest) {
    s.found != 0 ==>
      && s.fblocknum < |fblocks| && Fits(s.appended, fblocks[s.fblocknum].data, data)
      && s.appended.appendedSize <= o.fsize
      && s.adds == s.appended.appendedSize - s.appended.oldSize
      && s.found == if s.adds == 0 then 2 else 1
  }

  /** Fewer added bytes, or as many in an earlier fblock. */
  predicate NoWorse(s: Smallest, than: Smallest) {
    than.found == 0 || (s.found != 0 && (s.adds < than.adds || (s.adds == than.adds && s.fblocknum <= than.fblocknum)))
  }

  /** A plan names a place where the block fits, in an existing fblock within the limit or in a new one. */
  ghost predicate GoodPlan(o: Settings, fblocks: seq<FblockRec>, data: seq<Byte>, plan: WritePlan) {
    if plan.fblocknum < |fblocks| then
      Fits(plan.appended, fblocks[plan.fblocknum].data, data) && plan.appended.appendedSize <= o.fsize
    else plan == WritePlan(|fblocks|, AppendAt(0, 0, |data|))
  }

  class Blockifier {
    const o: Settings
    const hash: seq<Byte> -> nat
    /** The larger of the fblock limit and the largest block. */
    const cap: nat
    var blocks: seq<Locator>
    var fblocks: seq<FblockRec>
    var fblockTotalsize: nat
    var lastAutoindexLength: map<(nat, nat), nat>
    var autoindex: seq<Entry>
    /** The bytes each block number was handed out for. */
    ghost var promised: seq<seq<Byte>>
    /** The offsets AutoIndex has offered, by fblock and block size. */
    ghost var offered: map<(nat, nat), seq<nat>>

    ghost predicate Valid()
      reads this
    {
      && o.Valid() && o.fsize <= cap
      && Keeps(fblocks, blocks, promised)
      && RoomOk(o, cap, fblocks)
      && fblockTotalsize == TotalSize(fblocks)
      && IndexOk(autoindex, |fblocks|)
      && OfferedOk(o, fblocks, lastAutoindexLength, offered)
    }

    constructor (o: Settings, hash: seq<Byte> -> nat, cap: nat)
      requires o.Valid() && o.fsize <= cap
      ensures Valid() && this.o == o && this.hash == hash && this.cap == cap
      ensures blocks == [] && fblocks == [] && promised == []
    {
      this.o, this.hash, this.cap := o, hash, cap;
      blocks, fblocks, fblockTotalsize, lastAutoindexLength, autoindex := [], [], 0, map[], [];
      promised, offered := [], map[];
    }

    // ---- Reuse ----

    /** TestAutoIndexMatch: the entry may be a hash collision, or too short for this request. */
    predicate TestAutoIndexMatch(block: Locator, data: seq<Byte>)
      requires block.fblocknum < |fblocks|
      reads this
      ensures TestAutoIndexMatch(block, data) <==> Denotes(fblocks, block, data)
    {
      var file := fblocks[block.fblocknum].data;
      MatchIsOccurrence(file, block.startoffs, data);
      |file| >= block.startoffs + |data| && BlockStore.DataReadBuffer(file, block.startoffs, |data|) == data
    }

    /** Finds an indexed place that holds the block, if the index has one under its hash. */
    method CreateReusingPlan(data: seq<Byte>, crc: nat) returns (plan: Option<Locator>)
      requires IndexOk(autoindex, |fblocks|) && crc == hash(data)
      ensures plan.Some? ==> Entry(crc, plan.value) in autoindex && Denotes(fblocks, plan.value, data)
      ensures plan.Some? <==> Indexed(autoindex, fblocks, crc, data)
    {
      for i := 0 to |autoindex|
        invariant forall e :: e in autoindex[..i] && e.crc == crc ==> !Denotes(fblocks, e.block, data)
      {
        var e := autoindex[i];
        if e.crc == crc {
          if TestAutoIndexMatch(e.block, data) {
            return Some(e.block);
          }
        }
        assert autoindex[..i + 1] == autoindex[..i] + [e];
      }
      assert autoindex[..|autoindex|] == autoindex;
      return None;
    }

    /** Afterwards the index has a place for these bytes under their hash. */
    method TryAutoIndex(fblocknum: nat, data: seq<Byte>, startoffs: nat)
      requires IndexOk(autoindex, |fblocks|) && Denotes(fblocks, BlockReader.Locator(fblocknum, startoffs), data)
      modifies this`autoindex
      ensures autoindex == old(autoindex) ||
              autoindex == old(autoindex) + [Entry(hash(data), BlockReader.Locator(fblocknum, startoffs))]
      ensures IndexOk(autoindex, |fblocks|)
      ensures Indexed(autoindex, fblocks, hash(data), data)
    {
      var crc := hash(data);
      var plan := CreateReusingPlan(data, crc);
      if plan.Some? {
        assert Entry(crc, plan.value).block == plan.value;
        return;
      }
      var e := Entry(crc, BlockReader.Locator(fblocknum, startoffs));
      autoindex := autoindex + [e];
      assert e in autoindex;
    }

    /** Indexes the block after a match, or the same stretch of bytes in a later fblock. */
    method PredictiveAutoIndex(fblocknum: nat, startoffs: nat, blocksize: nat)
      requires IndexOk(autoindex, |fblocks|) && fblocknum < |fblocks|
      modifies this`autoindex
      ensures IndexOk(autoindex, |fblocks|)
      ensures var next := NextPlace(fblocks, fblocknum, startoffs, blocksize);
              && (next.Some? ==> PlaceIndexed(autoindex, fblocks, hash, next.value, blocksize))
              && (autoindex == old(autoindex)
                  || (next.Some? && autoindex == old(autoindex) + [EntryFor(fblocks, hash, next.value, blocksize)]))
      decreases |fblocks| - fblocknum
    {
      var file := fblocks[fblocknum].data;
      var afterBlock := startoffs + blocksize;
      if afterBlock <= |file| {
        SliceOccurs(file, startoffs, blocksize);
        TryAutoIndex(fblocknum, BlockStore.DataReadBuffer(file, startoffs, blocksize), startoffs);
      } else if fblocknum + 1 < |fblocks| {
        PredictiveAutoIndex(fblocknum + 1, afterBlock - |file|, blocksize);
      }
    }

    // ---- Indexing a growing fblock ----

    /** ptr is where in the file the next block is read from; offers collects the offsets. */
    method AutoIndexBetween(fblocknum: nat, minOffset: nat, maxSize: nat, bsize: nat, stepping: nat)
      returns (ghost offers: seq<nat>)
      requires IndexOk(autoindex, |fblocks|) && fblocknum < |fblocks|
      requires maxSize <= |fblocks[fblocknum].data| && 0 < stepping
      modifies this`autoindex
      ensures IndexOk(autoindex, |fblocks|) && old(autoindex) <= autoindex
      ensures Steps(offers, minOffset, stepping, bsize, maxSize)
      ensures OffersIndexed(autoindex, fblocks, hash, fblocknum, offers, bsize)
    {
      hide Nth, IndexOk, Indexed, PlaceIndexed, Denotes;
      var at := minOffset;
      offers := [];
      NthNext(minOffset, 0, stepping);
      while at + bsize <= maxSize
        invariant IndexOk(autoindex, |fblocks|)
        invariant at == Nth(minOffset, |offers|, stepping)
        invariant forall k :: 0 <= k < |offers| ==> offers[k] == Nth(minOffset, k, stepping)
        invariant offers != [] ==> offers[|offers| - 1] + bsize <= maxSize
        invariant old(autoindex) <= autoindex && OffersIndexed(autoindex, fblocks, hash, fblocknum, offers, bsize)
        decreases maxSize - at
      {
        ghost var before := autoindex;
        SliceOccurs(fblocks[fblocknum].data, at, bsize);
        TryAutoIndex(fblocknum, BlockStore.DataReadBuffer(fblocks[fblocknum].data, at, bsize), at);
        NthNext(minOffset, |offers|, stepping);
        OneMoreOffer(before, autoindex, fblocks, hash, fblocknum, offers, at, bsize);
        offers := offers + [at];
        at := at + stepping;
      }
    }

    /** Offers exactly the new multiples of the period at which a whole block fits. */
    method AutoIndex(fblocknum: nat, oldRawSize: nat, newRawSize: nat, bsize: nat) returns (ghost offers: seq<nat>)
      requires IndexOk(autoindex, |fblocks|) && fblocknum < |fblocks|
      requires oldRawSize <= newRawSize <= |fblocks[fblocknum].data|
      modifies this`autoindex
      ensures IndexOk(autoindex, |fblocks|) && old(autoindex) <= autoindex
      ensures offers == Offers(oldRawSize, newRawSize, bsize, o.autoIndexPeriod)
      ensures GridIndexed(autoindex, fblocks, hash, fblocknum, bsize, oldRawSize, newRawSize, o.autoIndexPeriod)
    {
      offers := [];
      if o.autoIndexPeriod == 0 {
        return;
      }
      var oldCount := IndexCount(oldRawSize, bsize, o.autoIndexPeriod);
      var newCount := IndexCount(newRawSize, bsize, o.autoIndexPeriod);
      if newCount > oldCount && newCount > 0 {
        offers := AutoIndexBetween(fblocknum, o.autoIndexPeriod * oldCount, newRawSize, bsize, o.autoIndexPeriod);
        StepsAreOffers(offers, oldRawSize, newRawSize, bsize, o.autoIndexPeriod);
      }
      OffersFillGrid(autoindex, fblocks, hash, fblocknum, oldRawSize, newRawSize, bsize, o.autoIndexPeriod);
    }

    // ---- Writing ----

    /** The tightest fblock with enough room by the free-space index, or -1 when none has it. */
    method FindFblockThatHasAtleastNbytesSpace(howmuch: nat) returns (r: int)
      ensures -1 <= r < |fblocks|
      ensures r < 0 ==> forall i :: 0 <= i < |fblocks| ==> fblocks[i].space < howmuch
      ensures r >= 0 ==> IsTightest(fblocks, howmuch, r)
    {
      r := -1;
      for a := 0 to |fblocks|
        invariant -1 <= r < a
        invariant r < 0 ==> forall i :: 0 <= i < a ==> fblocks[i].space < howmuch
        invariant r >= 0 ==> IsTightest(fblocks[..a], howmuch, r)
      {
        if fblocks[a].space >= howmuch && (r < 0 || fblocks[a].space < fblocks[r].space) {
          r := a;
        }
      }
    }

    /** The most bytes an fblock of this size may grow by: fewer than found before, and not past the limit. */
    function MaxMayAdd(fblockSize: nat, size: nat, smallest: Smallest): (m: nat) {
      var most: int := if smallest.found != 0 then smallest.adds else size;
      Max(0, if fblockSize + most > o.fsize then o.fsize - fblockSize else most)
    }

    /** Where the search begins; when every full overlap is indexed, only a tail can be new. */
    function MinimumPos(fblockSize: nat, size: nat, minimumTestPos: nat): nat {
      if o.autoIndexPeriod == 1 && o.bsize == size then Max(0, fblockSize - size + 1) else minimumTestPos
    }

    /** The block, put at p in an fblock, shares a tail with it and adds fewer bytes than may be added. */
    ghost predicate TailOffers(file: seq<Byte>, data: seq<Byte>, minimumTestPos: nat, smallest: Smallest, p: nat) {
      var mayAdd := MaxMayAdd(|file|, |data|, smallest);
      && minimumTestPos + |data| <= |file| + mayAdd
      && OverlapFrom(file, data, MinimumPos(|file|, |data|, minimumTestPos), Max(0, |data| - mayAdd),
                     o.overlapGranularity, p)
    }

    /** A tail that adds fewer bytes than what was found before is on offer. */
    lemma TailAtOffers(file: seq<Byte>, data: seq<Byte>, smallest: Smallest, p: nat)
      requires TailAt(o, file, data, p) && 0 < |data| && 0 <= p + |data| - |file|
      requires smallest.found == 0 || p + |data| - |file| < smallest.adds
      ensures TailOffers(file, data, 0, smallest, p)
    {
      var from := MinimumPos(|file|, |data|, 0);
      assert forall k :: 0 <= k < |file| - p ==> file[p + k] == file[p..][k];
    }

    /** Where the search is not begun nothing better could be found. */
    lemma SkippedIsSettled(file: seq<Byte>, needle: Needle, c: nat, smallest: Smallest)
      requires 0 < |needle.bytes| && (smallest.found != 0 ==> smallest.adds <= |needle.bytes|)
      requires var mayAdd := MaxMayAdd(|file|, |needle.bytes|, smallest);
               |needle.bytes| - mayAdd > |file| || |needle.bytes| > |file| + mayAdd
      ensures NoneBetter(o, file, needle, c, smallest.found != 0, smallest.adds, smallest.fblocknum)
    {
      hide TailAt, OnGrid, Overlaps, TurboResult;
      NoTail(file, needle.bytes, 0, smallest);
      forall p: nat | TailAt(o, file, needle.bytes, p)
        ensures smallest.found != 0 && smallest.adds <= p + |needle.bytes| - |file|
      {
        TailIsInside(o, file, needle.bytes, p);
        if smallest.found == 0 || p + |needle.bytes| - |file| < smallest.adds {
          TailAtOffers(file, needle.bytes, smallest, p);
        }
      }
    }

    /** What the search found, or what was found before, is no worse than anything here. */
    lemma FoundIsSettled(file: seq<Byte>, needle: Needle, c: nat, smallest: Smallest, appended: AppendInfo, r: Smallest)
      requires 0 < |needle.bytes| && Fits(appended, file, needle.bytes) && NoWorse(r, smallest)
      requires smallest.found != 0 ==> smallest.adds <= |needle.bytes|
      requires var adds := appended.appendedSize - appended.oldSize;
               appended.appendedSize + (if adds == |needle.bytes| then o.minimumFreeSpace else 0) <= o.fsize ==>
                 NoWorse(r, Smallest(if adds == 0 then 2 else 1, c, adds, appended))
      requires forall p: nat :: TailOffers(file, needle.bytes, 0, smallest, p) ==>
                 r.found != 0 && r.adds <= p + |needle.bytes| - |file|
      requires FullFound(o, file, needle) ==> appended.baseOffset + |needle.bytes| <= |file|
      ensures NoneBetter(o, file, needle, c, r.found != 0, r.adds, r.fblocknum)
    {
      hide TailAt, TailOffers, FullFound;
      assert FullFound(o, file, needle) ==> |file| <= o.fsize by { FullIsSmall(o, file, needle); }
      forall p: nat | TailAt(o, file, needle.bytes, p)
        ensures r.found != 0 && r.adds <= p + |needle.bytes| - |file|
      {
        TailIsInside(o, file, needle.bytes, p);
        if smallest.found == 0 || p + |needle.bytes| - |file| < smallest.adds {
          TailAtOffers(file, needle.bytes, smallest, p);
        }
      }
    }

    /** What follows for the fblock once a place in it has been taken or not. */
    lemma SearchSettles(file: seq<Byte>, needle: Needle, c: nat, minimumTestPos: nat, smallest: Smallest,
                        appended: AppendInfo, r: Smallest)
      requires 0 < |needle.bytes| && Fits(appended, file, needle.bytes) && NoWorse(r, smallest)
      requires smallest.found != 0 ==> smallest.adds <= |needle.bytes|
      requires r == smallest || (r.appended == appended && r.adds == appended.appendedSize - appended.oldSize)
      requires var adds := appended.appendedSize - appended.oldSize;
               appended.appendedSize + (if adds == |needle.bytes| then o.minimumFreeSpace else 0) <= o.fsize ==>
                 NoWorse(r, Smallest(if adds == 0 then 2 else 1, c, adds, appended))
      requires var at := appended.baseOffset;
               at + |needle.bytes| <= |file| || at == |file|
               || TailOffers(file, needle.bytes, minimumTestPos, smallest, at)
      requires forall p: nat :: TailOffers(file, needle.bytes, minimumTestPos, smallest, p) ==>
                 && appended.baseOffset <= p < |file| <= p + |needle.bytes|
                 && p + |needle.bytes| - |file| < MaxMayAdd(|file|, |needle.bytes|, smallest)
      requires minimumTestPos == 0 && FullFound(o, file, needle) ==>
                 appended.baseOffset + |needle.bytes| <= |file|
      ensures forall p: nat :: TailOffers(file, needle.bytes, minimumTestPos, smallest, p) ==>
                r.found != 0 && r.adds <= p + |needle.bytes| - |file|
      ensures r == smallest || r.adds == 0 || r.adds == |needle.bytes|
              || TailOffers(file, needle.bytes, minimumTestPos, smallest, r.appended.baseOffset)
      ensures minimumTestPos == 0 ==> NoneBetter(o, file, needle, c, r.found != 0, r.adds, r.fblocknum)
    {
      hide TailOffers, FullFound, NoneBetter;
      if minimumTestPos == 0 {
        FoundIsSettled(file, needle, c, smallest, appended, r);
      }
    }

    /** Where not every full overlap is indexed the search begins at the front, and finds what the turbo search does. */
    lemma FullIsTaken(file: seq<Byte>, needle: Needle, base: nat)
      requires FullFound(o, file, needle)
      requires var rest := file[0..];
               var full := TurboResult(rest, needle.occ, needle.skip, needle.bytes);
               full < |rest| ==> base == full
      ensures base + |needle.bytes| <= |file|
    {
      assert file[0..] == file;
      TurboSound(file, needle.occ, needle.skip, needle.bytes, TurboState(0, 0, |needle.bytes|));
    }

    /** What the search for an overlap has settled, in terms of the tails on offer. */
    lemma TailsSettled(file: seq<Byte>, data: seq<Byte>, minimumTestPos: nat, smallest: Smallest, minimumOverlap: nat,
                       at: nat)
      requires minimumOverlap == Max(0, |data| - MaxMayAdd(|file|, |data|, smallest))
      requires minimumTestPos + |data| <= |file| + MaxMayAdd(|file|, |data|, smallest)
      requires var from := MinimumPos(|file|, |data|, minimumTestPos);
               && (at + |data| <= |file| || at == |file|
                   || OverlapFrom(file, data, from, minimumOverlap, o.overlapGranularity, at))
               && forall p: nat :: OverlapFrom(file, data, from, minimumOverlap, o.overlapGranularity, p) ==> at <= p
      ensures at + |data| <= |file| || at == |file| || TailOffers(file, data, minimumTestPos, smallest, at)
      ensures forall p: nat :: TailOffers(file, data, minimumTestPos, smallest, p) ==>
                at <= p < |file| <= p + |data| && p + |data| - |file| < MaxMayAdd(|file|, |data|, smallest)
    {
    }

    /** No tail is on offer where the search is not even begun. */
    lemma NoTail(file: seq<Byte>, data: seq<Byte>, minimumTestPos: nat, smallest: Smallest)
      requires var mayAdd := MaxMayAdd(|file|, |data|, smallest);
               |data| - mayAdd > |file| || minimumTestPos + |data| > |file| + mayAdd
      ensures forall p: nat :: !TailOffers(file, data, minimumTestPos, smallest, p)
    {
    }

    /** Takes a place in one fblock if it fits and is better than the one found before. */
    method TakeIfBetter(data: seq<Byte>, fblocknum: nat, appended: AppendInfo, smallest: Smallest)
      returns (r: Smallest)
      requires o.Valid() && 0 < |data| && fblocknum < |fblocks| && Fits(appended, fblocks[fblocknum].data, data)
      requires GoodSmallest(o, fblocks, data, smallest)
      ensures GoodSmallest(o, fblocks, data, r) && NoWorse(r, smallest)
      ensures r == smallest || (r.found != 0 && r.fblocknum == fblocknum && r.appended == appended)
      ensures var adds := appended.appendedSize - appended.oldSize;
              appended.appendedSize + (if adds == |data| then o.minimumFreeSpace else 0) <= o.fsize ==>
                NoWorse(r, Smallest(if adds == 0 then 2 else 1, fblocknum, adds, appended))
    {
      r := smallest;
      var thisAdds := appended.appendedSize - appended.oldSize;
      var overlapSize := |data| - thisAdds;
      var good := if overlapSize != 0 then appended.appendedSize <= o.fsize
                  else appended.appendedSize <= o.fsize - o.minimumFreeSpace;
      if smallest.found != 0 && !(thisAdds < smallest.adds)
         && !(thisAdds == smallest.adds && fblocknum < smallest.fblocknum) {
        good := false;
      }
      if good {
        r := Smallest(if thisAdds == 0 then 2 else 1, fblocknum, thisAdds, appended);
      }
    }

    /** Searches one fblock for the block or a tail; when every full overlap is indexed, for a tail only. */
    method SearchFblock(needle: Needle, fblocknum: nat, minimumTestPos: nat, minimumOverlap: nat,
                        ghost smallest: Smallest)
      returns (appended: AppendInfo)
      requires needle.Valid() && 0 < |needle.bytes| && fblocknum < |fblocks|
      requires var file, data := fblocks[fblocknum].data, needle.bytes;
               && minimumOverlap == |data| - MaxMayAdd(|file|, |data|, smallest)
               && minimumTestPos + |data| <= |file| + MaxMayAdd(|file|, |data|, smallest)
      ensures Fits(appended, fblocks[fblocknum].data, needle.bytes)
      ensures var file, data, at := fblocks[fblocknum].data, needle.bytes, appended.baseOffset;
              && (at + |data| <= |file| || at == |file| || TailOffers(file, data, minimumTestPos, smallest, at))
              && (forall p: nat :: TailOffers(file, data, minimumTestPos, smallest, p) ==>
                    at <= p < |file| <= p + |data| && p + |data| - |file| < MaxMayAdd(|file|, |data|, smallest))
              && (minimumTestPos == 0 && FullFound(o, file, needle) ==> at + |data| <= |file|)
    {
      hide OnGrid, Overlaps, OverlapFrom, IsFirstOverlap, TailOffers, FullFound, TurboResult, MaxMayAdd, Fits;
      var data, file := needle.bytes, fblocks[fblocknum].data;
      var minimumPos: int := minimumTestPos;
      if o.autoIndexPeriod == 1 && o.bsize == |data| {
        minimumPos := if |file| - |data| + 1 > 0 then |file| - |data| + 1 else 0;
      }
      appended := AnalyzeAppend(needle, minimumPos, minimumOverlap, o.overlapGranularity, file);
      TailsSettled(file, data, minimumTestPos, smallest, minimumOverlap, appended.baseOffset);
      if minimumTestPos == 0 && FullFound(o, file, needle) {
        FullIsLong(o, file, needle);
        FullIsTaken(file, needle, appended.baseOffset);
      }
    }

    /** Looks for a place for the block in one fblock. What is found only gets better and always fits. A search from the
        front leaves nothing better here: no whole block that the search finds, no tail, and no room at the end. A tail
        not on offer, as one that would fill the fblock exactly, is not used. */
    method FindOverlap(needle: Needle, fblocknum: nat, minimumTestPos: nat, smallest: Smallest)
      returns (testPos: nat, r: Smallest)
      requires o.Valid() && needle.Valid() && 0 < |needle.bytes| && fblocknum < |fblocks|
      requires GoodSmallest(o, fblocks, needle.bytes, smallest)
      ensures GoodSmallest(o, fblocks, needle.bytes, r) && NoWorse(r, smallest)
      ensures r == smallest || (r.fblocknum == fblocknum && r.appended.baseOffset == testPos)
      ensures forall p: nat :: TailOffers(fblocks[fblocknum].data, needle.bytes, minimumTestPos, smallest, p) ==>
                r.found != 0 && r.adds <= p + |needle.bytes| - |fblocks[fblocknum].data|
      ensures r == smallest || r.adds == 0 || r.adds == |needle.bytes|
              || TailOffers(fblocks[fblocknum].data, needle.bytes, minimumTestPos, smallest, r.appended.baseOffset)
      ensures minimumTestPos == 0 ==>
                NoneBetter(o, fblocks[fblocknum].data, needle, fblocknum, r.found != 0, r.adds, r.fblocknum)
    {
      hide OnGrid, Overlaps, OverlapFrom, IsFirstOverlap, TailOffers, NoneBetter, FullFound, TailAt, TurboResult;
      testPos, r := minimumTestPos, smallest;
      var data, file := needle.bytes, fblocks[fblocknum].data;
      var fblockSize := |file|;
      var maxMayAdd: int := if smallest.found != 0 then smallest.adds else |data|;
      if fblockSize + maxMayAdd > o.fsize {
        maxMayAdd := o.fsize - fblockSize;
      }
      if maxMayAdd < 0 {
        maxMayAdd := 0;
      }
      assert maxMayAdd == MaxMayAdd(fblockSize, |data|, smallest);
      hide MaxMayAdd;
      var minimumPos: int, minimumOverlap := minimumTestPos, |data| - maxMayAdd;
      if minimumOverlap > fblockSize || minimumPos + |data| > fblockSize + maxMayAdd {
        NoTail(file, data, minimumTestPos, smallest);
        if minimumTestPos == 0 {
          SkippedIsSettled(file, needle, fblocknum, smallest);
        }
        return;
      }
      var appended := SearchFblock(needle, fblocknum, minimumTestPos, minimumOverlap, smallest);
      testPos := appended.baseOffset;
      r := TakeIfBetter(data, fblocknum, appended, smallest);
      SearchSettles(file, needle, fblocknum, minimumTestPos, smallest, appended, r);
    }

    /** The tightest hole with room to spare, and the tightest hole if that is another one. */
    method TightestHoles(size: nat) returns (holes: seq<nat>)
      ensures HolesOk(o, fblocks, size, holes)
    {
      hide IsTightest;
      holes := [];
      var i := FindFblockThatHasAtleastNbytesSpace(size + o.minimumFreeSpace);
      if i >= 0 {
        holes := holes + [i];
      }
      var j := FindFblockThatHasAtleastNbytesSpace(size);
      HolesAre(o, fblocks, size, i, j);
      if i != j {
        holes := holes + [j];
      }
    }

    /** The fblocks to try: the tightest holes, then the latest ones, up to the limit. */
    method Candidates(size: nat) returns (candidates: seq<nat>, ghost first: nat)
      ensures CandidatesOk(o, fblocks, size, candidates, first)
      ensures exists holes: nat :: CandidatesOk(o, fblocks, size, candidates, holes)
    {
      hide HolesOk, LatestTaken;
      candidates := TightestHoles(size);
      var k: nat := |fblocks|;
      first := |candidates|;
      ghost var holes := candidates;
      HolesInside(o, fblocks, size, holes);
      while k > 0 && |candidates| < o.maxBruteForce
        invariant 0 <= k <= |fblocks| && first <= 2 && first <= |candidates| && candidates[..first] == holes
        invariant |candidates| <= Max(first, o.maxBruteForce)
        invariant LatestTaken(fblocks, candidates, first, k)
      {
        k := k - 1;
        OneMoreLatest(fblocks, candidates, first, k);
        if (|candidates| < 1 || k != candidates[0]) && (|candidates| < 2 || k != candidates[1]) {
          candidates := candidates + [k];
        }
      }
    }

    /** Decides where new data goes; a new fblock is begun only when no fblock is known to have room and to spare. The
        plan is no worse than anything the candidates within the limit of brute force have to offer. */
    method CreateWritePlan(needle: Needle) returns (plan: WritePlan, ghost planned: Planned)
      requires o.Valid() && needle.Valid() && 0 < |needle.bytes| && RoomOk(o, cap, fblocks)
      ensures GoodPlan(o, fblocks, needle.bytes, plan)
      ensures plan.fblocknum >= |fblocks| ==> forall i :: 0 <= i < |fblocks| ==>
                fblocks[i].space < |needle.bytes| + o.minimumFreeSpace
      ensures planned.needle == needle && planned.plan == plan && PlanIsBest(o, fblocks, planned)
    {
      hide NoneBetter, TurboResult, CandidatesOk, TriedAll, PlanIsBest, RoomOk;
      ghost var first;
      var candidates;
      candidates, first := Candidates(|needle.bytes|);
      CandidatesDiffer(o, fblocks, |needle.bytes|, candidates, first);
      var smallest := Smallest(0, 0, 0, AppendInfo(0, 0, 0));
      var history: map<nat, nat> := map[];
      NoneTried(o, fblocks, needle, smallest);
      for a := 0 to |candidates|
        invariant GoodSmallest(o, fblocks, needle.bytes, smallest)
        invariant forall c :: c in history ==> c in candidates[..a]
        invariant TriedAll(o, fblocks, needle, candidates[..a], smallest)
      {
        assert candidates[..a + 1] == candidates[..a] + [candidates[a]];
        ghost var before := smallest;
        var necessarity := if a < o.maxBruteForce then 2 else 1;
        if smallest.found == 2 {
          AllTried(o, fblocks, needle, candidates, smallest);
          break;
        }
        if necessarity > smallest.found {
          var testPos := TestedSoFar(history, candidates[a]);
          testPos, smallest := FindOverlap(needle, candidates[a], testPos, smallest);
          history := history[candidates[a] := testPos];
          OneMoreTried(o, fblocks, needle, candidates[..a], candidates[a], before, smallest);
          if smallest.found >= 2 {
            AllTried(o, fblocks, needle, candidates, smallest);
            break;
          }
        } else {
          OneMoreTried(o, fblocks, needle, candidates[..a], candidates[a], before, smallest);
        }
      }
      assert TriedAll(o, fblocks, needle, candidates, smallest) by {
        assert candidates[..|candidates|] == candidates;
      }
      if smallest.found != 0 {
        plan := WritePlan(smallest.fblocknum, smallest.appended);
      } else {
        plan := WritePlan(|fblocks|, AppendAt(0, 0, |needle.bytes|));
        NowhereRoom(o, cap, fblocks, needle, candidates, first, smallest);
      }
      planned := Planned(needle, candidates, first, plan);
      PlanIsOfSmallest(o, fblocks, planned, smallest);
    }

    /** Hands out the next block number for a place that holds the bytes. */
    method CreateNewBlock(block: Locator, ghost data: seq<Byte>) returns (blocknum: nat)
      requires Valid() && Denotes(fblocks, block, data)
      modifies this`blocks, this`promised
      ensures Valid() && blocknum == |old(blocks)|
      ensures blocks == old(blocks) + [block] && promised == old(promised) + [data]
    {
      blocknum := |blocks|;
      blocks := blocks + [block];
      promised := promised + [data];
    }

    /** Execute for a reusing plan: a new number for an old place. Of the index nothing goes but one entry, the one
        used, and nothing comes but an entry for the block right after it. */
    method ExecuteReuse(block: Locator, crc: nat, data: seq<Byte>) returns (blocknum: nat)
      requires Valid() && Denotes(fblocks, block, data)
      modifies this`blocks, this`promised, this`autoindex
      ensures Valid() && blocknum == |old(blocks)|
      ensures blocks == old(blocks) + [block] && promised == old(promised) + [data]
      ensures NextIndexed(autoindex, fblocks, hash, block, |data|)
      ensures var rest := multiset(old(autoindex)) - multiset{Entry(crc, block)};
              multiset(autoindex) == rest || AddsNext(rest, multiset(autoindex), fblocks, hash, block, |data|)
    {
      hide Keeps, RoomOk, OfferedOk, TotalSize, IndexOk, Without, Denotes, NextIndexed, NextPlace, PlaceIndexed,
           EntryFor, Indexed, AddsNext;
      DenotedExists(fblocks, block, data);
      blocknum := CreateNewBlock(block, data);
      WithoutIndexOk(autoindex, Entry(crc, block), |fblocks|);
      autoindex := Without(autoindex, Entry(crc, block));
      PredictiveAutoIndex(block.fblocknum, block.startoffs + |data|, |data|);
      ReuseLeaves(old(autoindex), autoindex, fblocks, hash, block, crc, |data|);
    }

    /** fblockset's operator[]: the fblock comes into being, with those before it. */
    method EnsureFblock(fblocknum: nat)
      requires Valid()
      modifies this`fblocks
      ensures Valid() && fblocknum < |fblocks| && Grows(old(fblocks), fblocks) && old(fblocks) <= fblocks
      ensures fblocknum < |old(fblocks)| ==> fblocks == old(fblocks)
      ensures fblocknum >= |old(fblocks)| ==> |fblocks| == fblocknum + 1 && fblocks[fblocknum].data == []
    {
      hide TotalSize, Keeps, OfferedOk, IndexOk, RecOk;
      while fblocknum >= |fblocks|
        invariant Valid() && Grows(old(fblocks), fblocks) && old(fblocks) <= fblocks
        invariant fblocknum < |old(fblocks)| ==> fblocks == old(fblocks)
        invariant fblocknum >= |old(fblocks)| ==>
                    |fblocks| <= fblocknum + 1 && (|fblocks| == |old(fblocks)| || fblocks[|fblocks| - 1].data == [])
        decreases fblocknum + 1 - |fblocks|
      {
        AddFblock();
      }
    }

    method AddFblock()
      requires Valid()
      modifies this`fblocks
      ensures Valid() && fblocks == old(fblocks) + [FblockRec([], 0)]
    {
      hide TotalSize;
      ghost var before := fblocks;
      TotalAfterNew(before);
      fblocks := fblocks + [FblockRec([], 0)];
      KeepsSurvives(before, fblocks, blocks, promised);
      OfferedSurvives(o, before, fblocks, lastAutoindexLength, offered);
    }

    /** Changes one fblock's record: more data, or another free-space entry. */
    method SetFblock(fblocknum: nat, rec: FblockRec)
      requires Valid() && fblocknum < |fblocks| && fblocks[fblocknum].data <= rec.data && RecOk(o, cap, rec)
      modifies this`fblocks, this`fblockTotalsize
      ensures Valid() && Grows(old(fblocks), fblocks) && fblocks == old(fblocks)[fblocknum := rec]
    {
      hide TotalSize;
      ghost var before := fblocks;
      TotalAfterUpdate(before, fblocknum, rec);
      fblockTotalsize := fblockTotalsize - |fblocks[fblocknum].data| + |rec.data|;
      fblocks := fblocks[fblocknum := rec];
      KeepsSurvives(before, fblocks, blocks, promised);
      OfferedSurvives(o, before, fblocks, lastAutoindexLength, offered);
    }

    /** last_autoindex_length[fblocknum][bsize], which starts at 0. */
    method LastIndexed(fblocknum: nat, bsize: nat) returns (last: nat)
      requires Valid() && fblocknum < |fblocks| && 0 < bsize
      modifies this`lastAutoindexLength, this`offered
      ensures Valid() && OfferedAt(o, fblocks, lastAutoindexLength, offered, (fblocknum, bsize))
      ensures last == lastAutoindexLength[(fblocknum, bsize)]
      ensures last == LastLength(old(lastAutoindexLength), (fblocknum, bsize))
      ensures forall k :: LastLength(lastAutoindexLength, k) == LastLength(old(lastAutoindexLength), k)
    {
      var key := (fblocknum, bsize);
      hide Keeps, RoomOk, TotalSize, Grid, IndexOk;
      if key !in lastAutoindexLength {
        NothingFits(bsize, o.autoIndexPeriod);
        ghost var offered0, last0 := offered, lastAutoindexLength;
        lastAutoindexLength := lastAutoindexLength[key := 0];
        offered := offered[key := []];
        OfferedUpdate(o, fblocks, last0, offered0, lastAutoindexLength, offered, key);
      }
      last := lastAutoindexLength[key];
    }

    /** Indexes what the fblock has gained since it was last indexed for this block size, once that is worth it. */
    method IndexGrowth(fblocknum: nat, newRawSize: nat, bsize: nat)
      requires Valid() && fblocknum < |fblocks| && newRawSize == |fblocks[fblocknum].data| && 0 < bsize
      modifies this`autoindex, this`lastAutoindexLength, this`offered
      ensures Valid() && old(autoindex) <= autoindex
      ensures IndexDue(o, old(lastAutoindexLength), fblocknum, newRawSize, bsize) ==>
                GridIndexed(autoindex, fblocks, hash, fblocknum, bsize,
                            LastLength(old(lastAutoindexLength), (fblocknum, bsize)), newRawSize, o.autoIndexPeriod)
      ensures !IndexDue(o, old(lastAutoindexLength), fblocknum, newRawSize, bsize) ==> autoindex == old(autoindex)
      ensures LastLength(lastAutoindexLength, (fblocknum, bsize))
              == if IndexDue(o, old(lastAutoindexLength), fblocknum, newRawSize, bsize) then newRawSize
                 else LastLength(old(lastAutoindexLength), (fblocknum, bsize))
      ensures forall k :: k != (fblocknum, bsize) ==>
                LastLength(lastAutoindexLength, k) == LastLength(old(lastAutoindexLength), k)
    {
      hide Keeps, RoomOk, TotalSize, Grid, IndexOk, OfferedOk, Offers, GridIndexed;
      var last := LastIndexed(fblocknum, bsize);
      if newRawSize - last >= 1024 * 256
         || (o.fsize - o.minimumFreeSpace >= bsize && newRawSize >= o.fsize - o.minimumFreeSpace - bsize) {
        ghost var offers := AutoIndex(fblocknum, last, newRawSize, bsize);
        OffersCompose(last, newRawSize, bsize, o.autoIndexPeriod);
        var key := (fblocknum, bsize);
        ghost var offered0, last0 := offered, lastAutoindexLength;
        lastAutoindexLength := lastAutoindexLength[key := newRawSize];
        offered := offered[key := offered[key] + offers];
        OfferedUpdate(o, fblocks, last0, offered0, lastAutoindexLength, offered, key);
      }
    }

    /** Indexes the growth for every block size there is. */
    method IndexSizes(fblocknum: nat, newRawSize: nat)
      requires Valid() && fblocknum < |fblocks| && newRawSize == |fblocks[fblocknum].data|
      requires forall z :: z in o.bsizes ==> 0 < z
      modifies this`autoindex, this`lastAutoindexLength, this`offered
      ensures Valid() && old(autoindex) <= autoindex
      ensures DueAreIndexed(o, old(lastAutoindexLength), autoindex, fblocks, hash, fblocknum, newRawSize, o.bsizes)
    {
      hide Keeps, OfferedOk, TotalSize, IndexOk, RoomOk, GridIndexed, IndexDue, LastLength;
      for a := 0 to |o.bsizes|
        invariant Valid() && old(autoindex) <= autoindex
        invariant DueAreIndexed(o, old(lastAutoindexLength), autoindex, fblocks, hash, fblocknum, newRawSize,
                                o.bsizes[..a])
        invariant forall z :: z !in o.bsizes[..a] ==>
                    LastLength(lastAutoindexLength, (fblocknum, z))
                    == LastLength(old(lastAutoindexLength), (fblocknum, z))
        modifies this`autoindex, this`lastAutoindexLength, this`offered
      {
        assert o.bsizes[a] in o.bsizes && o.bsizes[..a + 1] == o.bsizes[..a] + [o.bsizes[a]];
        ghost var index, last := autoindex, lastAutoindexLength;
        IndexGrowth(fblocknum, newRawSize, o.bsizes[a]);
        OneMoreSize(o, old(lastAutoindexLength), last, index, autoindex, fblocks, hash, fblocknum, newRawSize,
                    o.bsizes[..a], o.bsizes[a]);
      }
      assert o.bsizes[..|o.bsizes|] == o.bsizes;
    }

    /** The block is put into its fblock, which comes into being if it is new. */
    method PutBlock(plan: WritePlan, data: seq<Byte>)
      requires Valid() && GoodPlan(o, fblocks, data, plan) && |data| <= cap
      modifies this`fblocks, this`fblockTotalsize
      ensures Valid() && Grows(old(fblocks), fblocks)
      ensures Denotes(fblocks, BlockReader.Locator(plan.fblocknum, plan.appended.baseOffset), data)
      ensures plan.fblocknum < |fblocks| && |fblocks[plan.fblocknum].data| == plan.appended.appendedSize
      ensures OnlyOneGrows(o, old(fblocks), fblocks, plan)
      ensures plan.fblocknum < |old(fblocks)| ==> |fblocks| == |old(fblocks)|
      ensures plan.fblocknum < |old(fblocks)| && plan.appended.baseOffset + |data| <= plan.appended.oldSize ==>
                SameFiles(old(fblocks), fblocks)
    {
      hide Keeps, OfferedOk, TotalSize, IndexOk, SameFiles, Grows, OccursAt;
      ghost var before := fblocks;
      EnsureFblock(plan.fblocknum);
      ghost var mid := fblocks;
      var f, appended := plan.fblocknum, plan.appended;
      assert Fits(appended, fblocks[f].data, data);
      AppendStores(fblocks[f].data, appended, data);
      assert RecOk(o, cap, fblocks[f]);
      var file := PutAppendedRaw(fblocks[f].data, appended.baseOffset, data);
      var newRemainingRoom := o.fsize - appended.appendedSize;
      var room := if newRemainingRoom >= o.minimumFreeSpace then newRemainingRoom else 0;
      RecordChanged(mid, f, FblockRec(file, room));
      SetFblock(f, FblockRec(file, room));
      GrowsTransitive(before, mid, fblocks);
    }

    /** Execute for a write plan: the block is stored where planned, and every older promise still holds. The index
        loses nothing. It gains the block right after this one, if this one was there already, and where indexing is due
        every multiple of the period at which a block fits that has not been indexed before. */
    method ExecuteWrite(plan: WritePlan, data: seq<Byte>) returns (blocknum: nat)
      requires Valid() && GoodPlan(o, fblocks, data, plan) && |data| <= cap
      requires forall b :: b in o.bsizes ==> 0 < b
      modifies this
      ensures Valid() && Grows(old(fblocks), fblocks) && blocknum == |old(blocks)|
      ensures blocks == old(blocks) + [BlockReader.Locator(plan.fblocknum, plan.appended.baseOffset)]
      ensures promised == old(promised) + [data]
      ensures plan.fblocknum < |old(fblocks)| ==> |fblocks| == |old(fblocks)|
      ensures plan.fblocknum < |fblocks| && old(autoindex) <= autoindex && OnlyOneGrows(o, old(fblocks), fblocks, plan)
      ensures DueAreIndexed(o, old(lastAutoindexLength), autoindex, fblocks, hash, plan.fblocknum,
                            plan.appended.appendedSize, o.bsizes)
      ensures Denotes(old(fblocks), blocks[blocknum], data) ==>
                NextIndexed(autoindex, fblocks, hash, blocks[blocknum], |data|)
    {
      hide Keeps, OfferedOk, TotalSize, IndexOk, RoomOk, NextIndexed, NextPlace, PlaceIndexed, EntryFor, DueAreIndexed,
           SameFiles, Grows, OnlyOneGrows;
      var f, appended := plan.fblocknum, plan.appended;
      ghost var block := BlockReader.Locator(f, appended.baseOffset);
      if f < |fblocks| && appended.baseOffset + |data| <= appended.oldSize {
        PredictiveAutoIndex(f, appended.baseOffset + |data|, |data|);
        NextIsIndexed(autoindex, fblocks, hash, block, |data|);
      }
      ghost var files, index := fblocks, autoindex;
      PutBlock(plan, data);
      IndexSizes(f, appended.appendedSize);
      if f < |files| && appended.baseOffset + |data| <= appended.oldSize {
        NextStaysIndexed(index, autoindex, files, fblocks, hash, block, |data|);
      }
      OldBlockIsInside(o, files, plan, data);
      blocknum := CreateNewBlock(BlockReader.Locator(f, appended.baseOffset), data);
    }

    /** One block, from its bytes to its number: an indexed copy if there is one, else a written one, by a plan that is
        no worse than what the candidates have to offer. The index loses one entry that was used, or none; and when the
        block was there already it has the block right after it. */
    method StoreBlock(data: seq<Byte>) returns (blocknum: nat, ghost planned: Option<Planned>)
      requires Valid() && 0 < |data| <= cap
      requires forall b :: b in o.bsizes ==> 0 < b
      modifies this
      ensures Valid() && Grows(old(fblocks), fblocks) && blocknum == |old(blocks)|
      ensures |blocks| == |old(blocks)| + 1 && old(blocks) <= blocks && promised == old(promised) + [data]
      ensures planned.None? <==> Indexed(old(autoindex), old(fblocks), hash(data), data)
      ensures planned.None? ==>
                && fblocks == old(fblocks) && Entry(hash(data), blocks[blocknum]) in old(autoindex)
                && LosesOnly(old(autoindex), autoindex, Entry(hash(data), blocks[blocknum]))
      ensures planned.Some? ==>
                && planned.value.needle.bytes == data && PlanIsBest(o, old(fblocks), planned.value)
                && blocks[blocknum] == BlockReader.Locator(planned.value.plan.fblocknum,
                                                           planned.value.plan.appended.baseOffset)
                && OnlyOneGrows(o, old(fblocks), fblocks, planned.value.plan) && old(autoindex) <= autoindex
      ensures Denotes(old(fblocks), blocks[blocknum], data) ==>
                NextIndexed(autoindex, fblocks, hash, blocks[blocknum], |data|)
      ensures |fblocks| > |old(fblocks)| ==>
                forall i :: 0 <= i < |old(fblocks)| ==> old(fblocks)[i].space < |data| + o.minimumFreeSpace
    {
      hide Keeps, OfferedOk, TotalSize, IndexOk, RoomOk, NextIndexed, AddsNext, PlanIsBest, DueAreIndexed, OnlyOneGrows,
           Fits;
      var crc := hash(data);
      var reuse := CreateReusingPlan(data, crc);
      if reuse.Some? {
        ghost var before := autoindex;
        blocknum := ExecuteReuse(reuse.value, crc, data);
        LosesThatOne(before, autoindex, fblocks, hash, reuse.value, crc, |data|);
        planned := None;
      } else {
        var needle := MakeNeedle(data);
        var plan;
        ghost var p;
        plan, p := CreateWritePlan(needle);
        blocknum := ExecuteWrite(plan, data);
        planned := Some(p);
      }
    }
  }

  // ---- What a plan is measured by ----

  /** The first fblock of those with the least room that is enough. */
  ghost predicate IsTightest(fblocks: seq<FblockRec>, howmuch: nat, r: int) {
    && 0 <= r < |fblocks| && fblocks[r].space >= howmuch
    && forall i :: 0 <= i < |fblocks| && fblocks[i].space >= howmuch ==>
         fblocks[r].space <= fblocks[i].space && (i < r ==> fblocks[r].space < fblocks[i].space)
  }

  ghost predicate SomeHasRoom(fblocks: seq<FblockRec>, howmuch: nat) {
    exists i :: 0 <= i < |fblocks| && fblocks[i].space >= howmuch
  }

  /** The tightest hole with room to spare, and the tightest hole if that is another one. */
  ghost predicate HolesOk(o: Settings, fblocks: seq<FblockRec>, size: nat, holes: seq<nat>) {
    if SomeHasRoom(fblocks, size + o.minimumFreeSpace) then
      && 1 <= |holes| && IsTightest(fblocks, size + o.minimumFreeSpace, holes[0])
      && if IsTightest(fblocks, size, holes[0]) then |holes| == 1
         else |holes| == 2 && IsTightest(fblocks, size, holes[1])
    else if SomeHasRoom(fblocks, size) then |holes| == 1 && IsTightest(fblocks, size, holes[0])
    else holes == []
  }

  /** After the holes come all fblocks from k on that are not among them, the last of all first. */
  ghost predicate LatestTaken(fblocks: seq<FblockRec>, candidates: seq<nat>, first: nat, k: nat) {
    && first <= |candidates|
    && (forall a :: 0 <= a < |candidates| ==> candidates[a] < |fblocks|)
    && (forall x, y :: 0 <= x < y < |candidates| ==> candidates[x] != candidates[y])
    && (forall x, y :: first <= x < y < |candidates| ==> candidates[y] < candidates[x])
    && (forall x :: first <= x < |candidates| ==> k <= candidates[x])
    && forall d :: k <= d < |fblocks| ==> d in candidates
  }

  /** First the tightest holes, after these the latest fblocks, until there are as many as the limit or no more. */
  ghost predicate CandidatesOk(o: Settings, fblocks: seq<FblockRec>, size: nat, candidates: seq<nat>, first: nat) {
    && first <= |candidates| <= Max(first, o.maxBruteForce) && HolesOk(o, fblocks, size, candidates[..first])
    && exists k: nat :: LatestTaken(fblocks, candidates, first, k) && (|candidates| < o.maxBruteForce ==> k == 0)
  }

  lemma OneMoreLatest(fblocks: seq<FblockRec>, candidates: seq<nat>, first: nat, k: nat)
    requires LatestTaken(fblocks, candidates, first, k + 1) && first <= 2 && k < |fblocks|
    ensures k in candidates <==> (0 < |candidates| && k == candidates[0]) || (1 < |candidates| && k == candidates[1])
    ensures LatestTaken(fblocks, if k in candidates then candidates else candidates + [k], first, k)
  {
    var candidates' := if k in candidates then candidates else candidates + [k];
    forall d | k <= d < |fblocks|
      ensures d in candidates'
    {
      if d != k {
        assert d in candidates;
      }
    }
  }

  lemma HolesAre(o: Settings, fblocks: seq<FblockRec>, size: nat, i: int, j: int)
    requires if i < 0 then forall x :: 0 <= x < |fblocks| ==> fblocks[x].space < size + o.minimumFreeSpace
             else IsTightest(fblocks, size + o.minimumFreeSpace, i)
    requires if j < 0 then forall x :: 0 <= x < |fblocks| ==> fblocks[x].space < size
             else IsTightest(fblocks, size, j)
    requires -1 <= i && -1 <= j
    ensures i >= 0 ==> SomeHasRoom(fblocks, size + o.minimumFreeSpace) && j >= 0
    ensures i < 0 ==> !SomeHasRoom(fblocks, size + o.minimumFreeSpace)
    ensures SomeHasRoom(fblocks, size) <==> j >= 0
    ensures i >= 0 ==> (IsTightest(fblocks, size, i) <==> i == j)
  {
  }

  lemma HolesInside(o: Settings, fblocks: seq<FblockRec>, size: nat, holes: seq<nat>)
    requires HolesOk(o, fblocks, size, holes)
    ensures |holes| <= 2 && LatestTaken(fblocks, holes, |holes|, |fblocks|)
  {
  }

  /** The turbo search finds the whole block in this file. It is not asked when every full overlap is indexed. */
  ghost predicate FullFound(o: Settings, file: seq<Byte>, needle: Needle) {
    && !(o.autoIndexPeriod == 1 && o.bsize == |needle.bytes|) && needle.Valid()
    && 0 < |needle.bytes| <= |file| <= o.fsize
    && TurboResult(file, needle.occ, needle.skip, needle.bytes) < |file|
  }

  /** From p on the file ends in a beginning of the block, on the grid, and the block would not fill the fblock. */
  ghost predicate TailAt(o: Settings, file: seq<Byte>, data: seq<Byte>, p: nat) {
    var longest: nat := if o.autoIndexPeriod == 1 && o.bsize == |data| then Max(0, |data| - 1) else |data|;
    var start := |file| - Min(|file|, longest);
    && 0 < o.overlapGranularity && start <= p < |file| && Multiple(p - start, o.overlapGranularity)
    && |file| - p <= |data| && file[p..] == data[..|file| - p] && p + |data| < o.fsize
  }

  /** What has been found adds no more bytes than the whole block found in fblock c, any tail there, or an append there;
      of two appends that in the earlier fblock is taken. */
  ghost predicate NoneBetter(o: Settings, file: seq<Byte>, needle: Needle, c: nat, found: bool, adds: nat,
                             fblocknum: nat)
  {
    var data := needle.bytes;
    && (FullFound(o, file, needle) ==> found && adds == 0)
    && (forall p: nat :: TailAt(o, file, data, p) ==> found && adds <= p + |data| - |file|)
    && (|file| + |data| + o.minimumFreeSpace <= o.fsize ==>
          found && (adds < |data| || (adds == |data| && fblocknum <= c)))
  }

  lemma TailIsInside(o: Settings, file: seq<Byte>, data: seq<Byte>, p: nat)
    requires TailAt(o, file, data, p)
    ensures p < |file| <= p + |data|
  {
  }

  lemma FullIsSmall(o: Settings, file: seq<Byte>, needle: Needle)
    ensures FullFound(o, file, needle) ==> |file| <= o.fsize
  {
  }

  lemma FullIsLong(o: Settings, file: seq<Byte>, needle: Needle)
    requires FullFound(o, file, needle)
    ensures 0 < |needle.bytes| <= |file| && !(o.autoIndexPeriod == 1 && o.bsize == |needle.bytes|)
  {
  }

  /** What has been found is no worse than what any of these fblocks has, those past the limit only if nothing has. */
  ghost predicate TriedAll(o: Settings, fblocks: seq<FblockRec>, needle: Needle, tried: seq<nat>, s: Smallest) {
    forall a :: 0 <= a < |tried| && (a < o.maxBruteForce || s.found == 0) ==>
      && tried[a] < |fblocks|
      && NoneBetter(o, fblocks[tried[a]].data, needle, tried[a], s.found != 0, s.adds, s.fblocknum)
  }

  /** minimum_tested_positions[fblocknum], which starts at 0. */
  function TestedSoFar(history: map<nat, nat>, fblocknum: nat): (testPos: nat)
    ensures fblocknum !in history ==> testPos == 0
  {
    if fblocknum in history then history[fblocknum] else 0
  }

  lemma CandidatesDiffer(o: Settings, fblocks: seq<FblockRec>, size: nat, candidates: seq<nat>, first: nat)
    requires CandidatesOk(o, fblocks, size, candidates, first)
    ensures forall a :: 0 <= a < |candidates| ==> candidates[a] < |fblocks| && candidates[a] !in candidates[..a]
  {
  }

  lemma NoneTried(o: Settings, fblocks: seq<FblockRec>, needle: Needle, s: Smallest)
    ensures TriedAll(o, fblocks, needle, [], s)
  {
  }

  /** What is found only gets better, so what has been settled stays so. */
  lemma NoneBetterStays(o: Settings, file: seq<Byte>, needle: Needle, c: nat, s: Smallest, s': Smallest)
    requires NoWorse(s', s) && NoneBetter(o, file, needle, c, s.found != 0, s.adds, s.fblocknum)
    ensures NoneBetter(o, file, needle, c, s'.found != 0, s'.adds, s'.fblocknum)
  {
    hide FullFound, TailAt;
  }

  lemma OneMoreTried(o: Settings, fblocks: seq<FblockRec>, needle: Needle, tried: seq<nat>, c: nat, s: Smallest,
                     s': Smallest)
    requires TriedAll(o, fblocks, needle, tried, s) && NoWorse(s', s) && c < |fblocks|
    requires || NoneBetter(o, fblocks[c].data, needle, c, s'.found != 0, s'.adds, s'.fblocknum)
             || (o.maxBruteForce <= |tried| && s'.found != 0)
    ensures TriedAll(o, fblocks, needle, tried + [c], s')
  {
    hide NoneBetter;
    forall a | 0 <= a < |tried| && (a < o.maxBruteForce || s'.found == 0)
      ensures tried[a] < |fblocks|
      ensures NoneBetter(o, fblocks[tried[a]].data, needle, tried[a], s'.found != 0, s'.adds, s'.fblocknum)
    {
      NoneBetterStays(o, fblocks[tried[a]].data, needle, tried[a], s, s');
    }
  }

  /** Nothing is better than adding nothing. */
  lemma AllTried(o: Settings, fblocks: seq<FblockRec>, needle: Needle, candidates: seq<nat>, s: Smallest)
    requires s.found == 2 && s.adds == 0 && 0 < |needle.bytes|
    requires forall a :: 0 <= a < |candidates| ==> candidates[a] < |fblocks|
    ensures TriedAll(o, fblocks, needle, candidates, s)
  {
    forall a | 0 <= a < |candidates|
      ensures NoneBetter(o, fblocks[candidates[a]].data, needle, candidates[a], true, 0, s.fblocknum)
    {
      AddsNothing(o, fblocks[candidates[a]].data, needle, candidates[a], s.fblocknum);
    }
    hide NoneBetter;
  }

  lemma AddsNothing(o: Settings, file: seq<Byte>, needle: Needle, c: nat, fblocknum: nat)
    requires 0 < |needle.bytes|
    ensures NoneBetter(o, file, needle, c, true, 0, fblocknum)
  {
    hide TailAt, FullFound;
    forall p: nat | TailAt(o, file, needle.bytes, p)
      ensures 0 <= p + |needle.bytes| - |file|
    {
      TailIsInside(o, file, needle.bytes, p);
    }
  }

  /** When nothing has been found, no fblock has room to spare: the tightest that has would have been taken. */
  lemma NowhereRoom(o: Settings, cap: nat, fblocks: seq<FblockRec>, needle: Needle, candidates: seq<nat>, first: nat,
                    s: Smallest)
    requires CandidatesOk(o, fblocks, |needle.bytes|, candidates, first) && RoomOk(o, cap, fblocks)
    requires TriedAll(o, fblocks, needle, candidates, s) && s.found == 0 && 0 < |needle.bytes|
    ensures forall i :: 0 <= i < |fblocks| ==> fblocks[i].space < |needle.bytes| + o.minimumFreeSpace
  {
    if candidates != [] {
      NoRoomThere(o, cap, fblocks[candidates[0]], needle, candidates[0], s.adds, s.fblocknum);
    }
    hide NoneBetter, RecOk;
  }

  lemma NoRoomThere(o: Settings, cap: nat, rec: FblockRec, needle: Needle, c: nat, adds: nat, fblocknum: nat)
    requires RecOk(o, cap, rec) && NoneBetter(o, rec.data, needle, c, false, adds, fblocknum) && 0 < |needle.bytes|
    ensures rec.space < |needle.bytes| + o.minimumFreeSpace
  {
    hide TailAt, FullFound;
  }

  lemma PlanIsOfSmallest(o: Settings, fblocks: seq<FblockRec>, p: Planned, s: Smallest)
    requires CandidatesOk(o, fblocks, |p.needle.bytes|, p.candidates, p.first)
    requires TriedAll(o, fblocks, p.needle, p.candidates, s) && p.plan.appended.oldSize <= p.plan.appended.appendedSize
    requires if s.found == 0 then p.plan.fblocknum == |fblocks|
             else p.plan.fblocknum == s.fblocknum < |fblocks|
                  && s.adds == p.plan.appended.appendedSize - p.plan.appended.oldSize
    ensures PlanIsBest(o, fblocks, p)
  {
    hide NoneBetter;
    forall a | 0 <= a < |p.candidates| && (a < o.maxBruteForce || p.plan.fblocknum >= |fblocks|)
      ensures NoneBetter(o, fblocks[p.candidates[a]].data, p.needle, p.candidates[a], p.plan.fblocknum < |fblocks|,
                         p.plan.appended.appendedSize - p.plan.appended.oldSize, p.plan.fblocknum)
    {
      if s.found == 0 {
        NothingThere(o, fblocks[p.candidates[a]].data, p.needle, p.candidates[a], s.adds, s.fblocknum,
                     p.plan.appended.appendedSize - p.plan.appended.oldSize, p.plan.fblocknum);
      }
    }
  }

  lemma NothingThere(o: Settings, file: seq<Byte>, needle: Needle, c: nat, adds: nat, fblocknum: nat, adds': nat,
                     fblocknum': nat)
    requires NoneBetter(o, file, needle, c, false, adds, fblocknum)
    ensures NoneBetter(o, file, needle, c, false, adds', fblocknum')
  {
  }

  /** The candidates are the right ones, and the plan is no worse than what any of them has within the limit of brute
      force; past it they are only looked at as long as nothing fits. */
  ghost predicate PlanIsBest(o: Settings, fblocks: seq<FblockRec>, p: Planned) {
    && CandidatesOk(o, fblocks, |p.needle.bytes|, p.candidates, p.first)
    && p.plan.appended.oldSize <= p.plan.appended.appendedSize
    && forall a :: 0 <= a < |p.candidates| && (a < o.maxBruteForce || p.plan.fblocknum >= |fblocks|) ==>
         NoneBetter(o, fblocks[p.candidates[a]].data, p.needle, p.candidates[a], p.plan.fblocknum < |fblocks|,
                    p.plan.appended.appendedSize - p.plan.appended.oldSize, p.plan.fblocknum)
  }

  /** The index has a place under this hash that holds these bytes. */
  ghost predicate Indexed(autoindex: seq<Entry>, fblocks: seq<FblockRec>, crc: nat, data: seq<Byte>) {
    exists e :: e in autoindex && e.crc == crc && Denotes(fblocks, e.block, data)
  }

  /** The block that begins here has a place in the index. */
  ghost predicate PlaceIndexed(autoindex: seq<Entry>, fblocks: seq<FblockRec>, hash: seq<Byte> -> nat, place: Locator,
                               size: nat)
  {
    && place.fblocknum < |fblocks| && place.startoffs + size <= |fblocks[place.fblocknum].data|
    && var bytes := fblocks[place.fblocknum].data[place.startoffs..place.startoffs + size];
       Indexed(autoindex, fblocks, hash(bytes), bytes)
  }

  /** The entry a block here would have. */
  ghost function EntryFor(fblocks: seq<FblockRec>, hash: seq<Byte> -> nat, place: Locator, size: nat): Entry
    requires place.fblocknum < |fblocks| && place.startoffs + size <= |fblocks[place.fblocknum].data|
  {
    Entry(hash(fblocks[place.fblocknum].data[place.startoffs..place.startoffs + size]), place)
  }

  /** Where a block that is to begin here lies, if not past the end, then as many bytes into the next fblock as it
      would end past this one. */
  ghost function NextPlace(fblocks: seq<FblockRec>, fblocknum: nat, startoffs: nat, size: nat): (next: Option<Locator>)
    requires fblocknum < |fblocks|
    ensures next.Some? ==>
              && next.value.fblocknum < |fblocks|
              && next.value.startoffs + size <= |fblocks[next.value.fblocknum].data|
    ensures startoffs + size <= |fblocks[fblocknum].data| ==>
              next == Some(BlockReader.Locator(fblocknum, startoffs))
    decreases |fblocks| - fblocknum
  {
    var room := |fblocks[fblocknum].data|;
    if startoffs + size <= room then Some(BlockReader.Locator(fblocknum, startoffs))
    else if fblocknum + 1 < |fblocks| then NextPlace(fblocks, fblocknum + 1, startoffs + size - room, size)
    else None
  }

  lemma IndexedMore(autoindex: seq<Entry>, autoindex': seq<Entry>, fblocks: seq<FblockRec>, hash: seq<Byte> -> nat,
                    place: Locator, size: nat)
    requires autoindex <= autoindex' && PlaceIndexed(autoindex, fblocks, hash, place, size)
    ensures PlaceIndexed(autoindex', fblocks, hash, place, size)
  {
    hide Denotes;
    var bytes := fblocks[place.fblocknum].data[place.startoffs..place.startoffs + size];
    var e :| e in autoindex && e.crc == hash(bytes) && Denotes(fblocks, e.block, bytes);
    assert e in autoindex';
  }

  ghost predicate OffersIndexed(autoindex: seq<Entry>, fblocks: seq<FblockRec>, hash: seq<Byte> -> nat, fblocknum: nat,
                                offers: seq<nat>, size: nat)
  {
    forall k :: 0 <= k < |offers| ==>
      PlaceIndexed(autoindex, fblocks, hash, BlockReader.Locator(fblocknum, offers[k]), size)
  }

  lemma OneMoreOffer(autoindex: seq<Entry>, autoindex': seq<Entry>, fblocks: seq<FblockRec>, hash: seq<Byte> -> nat,
                     fblocknum: nat, offers: seq<nat>, at: nat, size: nat)
    requires autoindex <= autoindex' && OffersIndexed(autoindex, fblocks, hash, fblocknum, offers, size)
    requires fblocknum < |fblocks| && at + size <= |fblocks[fblocknum].data|
    requires var bytes := DataReadBuffer(fblocks[fblocknum].data, at, size);
             Indexed(autoindex', fblocks, hash(bytes), bytes)
    ensures OffersIndexed(autoindex', fblocks, hash, fblocknum, offers + [at], size)
  {
    hide Indexed, PlaceIndexed;
    var offers' := offers + [at];
    forall k | 0 <= k < |offers'|
      ensures PlaceIndexed(autoindex', fblocks, hash, BlockReader.Locator(fblocknum, offers'[k]), size)
    {
      if k < |offers| {
        IndexedMore(autoindex, autoindex', fblocks, hash, BlockReader.Locator(fblocknum, offers[k]), size);
      } else {
        ReadIsIndexed(autoindex', fblocks, hash, fblocknum, at, size);
      }
    }
  }

  lemma ReadIsIndexed(autoindex: seq<Entry>, fblocks: seq<FblockRec>, hash: seq<Byte> -> nat, fblocknum: nat, at: nat,
                      size: nat)
    requires fblocknum < |fblocks| && at + size <= |fblocks[fblocknum].data|
    requires var bytes := DataReadBuffer(fblocks[fblocknum].data, at, size);
             Indexed(autoindex, fblocks, hash(bytes), bytes)
    ensures PlaceIndexed(autoindex, fblocks, hash, BlockReader.Locator(fblocknum, at), size)
  {
    hide Indexed;
  }

  /** The block right after this one is in the index, if there is one. */
  ghost predicate NextIndexed(autoindex: seq<Entry>, fblocks: seq<FblockRec>, hash: seq<Byte> -> nat, block: Locator,
                              size: nat)
    requires block.fblocknum < |fblocks|
  {
    var next := NextPlace(fblocks, block.fblocknum, block.startoffs + size, size);
    next.Some? ==> PlaceIndexed(autoindex, fblocks, hash, next.value, size)
  }

  /** An entry for that block has been added. */
  ghost predicate AddsNext(before: multiset<Entry>, after: multiset<Entry>, fblocks: seq<FblockRec>,
                           hash: seq<Byte> -> nat, block: Locator, size: nat)
    requires block.fblocknum < |fblocks|
  {
    var next := NextPlace(fblocks, block.fblocknum, block.startoffs + size, size);
    next.Some? && after == before + multiset{EntryFor(fblocks, hash, next.value, size)}
  }

  lemma ReuseLeaves(before: seq<Entry>, after: seq<Entry>, fblocks: seq<FblockRec>, hash: seq<Byte> -> nat,
                    block: Locator, crc: nat, size: nat)
    requires block.fblocknum < |fblocks|
    requires var next, left := NextPlace(fblocks, block.fblocknum, block.startoffs + size, size),
                               Without(before, Entry(crc, block));
             && (next.Some? ==> PlaceIndexed(after, fblocks, hash, next.value, size))
             && (after == left || (next.Some? && after == left + [EntryFor(fblocks, hash, next.value, size)]))
    ensures NextIndexed(after, fblocks, hash, block, size)
    ensures var rest := multiset(before) - multiset{Entry(crc, block)};
            multiset(after) == rest || AddsNext(rest, multiset(after), fblocks, hash, block, size)
  {
    hide NextPlace, PlaceIndexed, EntryFor, Without;
    WithoutTakesOne(before, Entry(crc, block));
  }

  lemma NextIsIndexed(autoindex: seq<Entry>, fblocks: seq<FblockRec>, hash: seq<Byte> -> nat, block: Locator, size: nat)
    requires block.fblocknum < |fblocks|
    requires var next := NextPlace(fblocks, block.fblocknum, block.startoffs + size, size);
             next.Some? ==> PlaceIndexed(autoindex, fblocks, hash, next.value, size)
    ensures NextIndexed(autoindex, fblocks, hash, block, size)
  {
  }

  /** The fblock of the plan has the size that was planned, with the room this leaves if it is enough to be worth
      knowing of, and every other one is as it was. */
  ghost predicate OnlyOneGrows(o: Settings, fblocks: seq<FblockRec>, fblocks': seq<FblockRec>, plan: WritePlan) {
    && plan.fblocknum < |fblocks'| && |fblocks'[plan.fblocknum].data| == plan.appended.appendedSize
    && fblocks'[plan.fblocknum].space == (if plan.appended.appendedSize + o.minimumFreeSpace <= o.fsize then
                                            o.fsize - plan.appended.appendedSize
                                          else 0)
    && |fblocks'| == Max(|fblocks|, plan.fblocknum + 1)
    && forall i :: 0 <= i < |fblocks| && i != plan.fblocknum ==> fblocks'[i] == fblocks[i]
  }

  lemma DenotedExists(fblocks: seq<FblockRec>, block: Locator, data: seq<Byte>)
    requires Denotes(fblocks, block, data)
    ensures block.fblocknum < |fblocks|
  {
  }

  /** A place that was indexed once is not there for ever: its entry goes when it is used. */
  lemma UsedEntryIsGone(fblocks: seq<FblockRec>, hash: seq<Byte> -> nat, place: Locator, size: nat)
    requires place.fblocknum < |fblocks| && place.startoffs + size <= |fblocks[place.fblocknum].data|
    ensures var e := EntryFor(fblocks, hash, place, size);
            PlaceIndexed([e], fblocks, hash, place, size) && !PlaceIndexed(Without([e], e), fblocks, hash, place, size)
  {
    var e := EntryFor(fblocks, hash, place, size);
    assert e in [e];
  }

  /** For a needle the turbo search is safe for, a whole block that occurs is one that it finds. */
  lemma SafeIsFound(o: Settings, file: seq<Byte>, needle: Needle, p: nat)
    requires needle.Valid() && 0 < |needle.bytes| && TurboSafe(needle.occ, needle.skip, needle.bytes)
    requires OccursAt(file, needle.bytes, p) && |file| <= o.fsize
    requires !(o.autoIndexPeriod == 1 && o.bsize == |needle.bytes|)
    ensures FullFound(o, file, needle)
  {
    hide TurboSafe, TurboRun;
    TurboExact(file, needle.occ, needle.skip, needle.bytes, TurboState(0, 0, |needle.bytes|));
  }

  /** All entries are still there but one occurrence of this one, and at most one has come. */
  ghost predicate LosesOnly(before: seq<Entry>, after: seq<Entry>, e: Entry) {
    multiset(before) - multiset{e} <= multiset(after) && |after| <= |before|
  }

  lemma LosesThatOne(before: seq<Entry>, after: seq<Entry>, fblocks: seq<FblockRec>, hash: seq<Byte> -> nat,
                     block: Locator, crc: nat, size: nat)
    requires block.fblocknum < |fblocks| && Entry(crc, block) in before
    requires var rest := multiset(before) - multiset{Entry(crc, block)};
             multiset(after) == rest || AddsNext(rest, multiset(after), fblocks, hash, block, size)
    ensures LosesOnly(before, after, Entry(crc, block))
  {
    hide NextPlace, EntryFor;
    assert |multiset(before)| == |before| && |multiset(after)| == |after|;
    assert multiset{Entry(crc, block)} <= multiset(before);
  }

  /** The same fblocks with the same bytes. */
  ghost predicate SameFiles(fblocks: seq<FblockRec>, fblocks': seq<FblockRec>) {
    |fblocks| == |fblocks'| && forall i :: 0 <= i < |fblocks| ==> fblocks[i].data == fblocks'[i].data
  }

  lemma RecordChanged(fblocks: seq<FblockRec>, f: nat, rec: FblockRec)
    requires f < |fblocks|
    ensures rec.data == fblocks[f].data ==> SameFiles(fblocks, fblocks[f := rec])
  {
  }

  lemma SameNextPlace(fblocks: seq<FblockRec>, fblocks': seq<FblockRec>, fblocknum: nat, startoffs: nat, size: nat)
    requires SameFiles(fblocks, fblocks') && fblocknum < |fblocks|
    ensures NextPlace(fblocks, fblocknum, startoffs, size) == NextPlace(fblocks', fblocknum, startoffs, size)
    decreases |fblocks| - fblocknum
  {
    if |fblocks[fblocknum].data| < startoffs + size && fblocknum + 1 < |fblocks| {
      SameNextPlace(fblocks, fblocks', fblocknum + 1, startoffs + size - |fblocks[fblocknum].data|, size);
    }
  }

  lemma NextStaysIndexed(autoindex: seq<Entry>, autoindex': seq<Entry>, fblocks: seq<FblockRec>,
                         fblocks': seq<FblockRec>, hash: seq<Byte> -> nat, block: Locator, size: nat)
    requires autoindex <= autoindex' && SameFiles(fblocks, fblocks') && block.fblocknum < |fblocks|
    requires NextIndexed(autoindex, fblocks, hash, block, size)
    ensures NextIndexed(autoindex', fblocks', hash, block, size)
  {
    hide PlaceIndexed;
    SameNextPlace(fblocks, fblocks', block.fblocknum, block.startoffs + size, size);
    var next := NextPlace(fblocks, block.fblocknum, block.startoffs + size, size);
    if next.Some? {
      SamePlaceIndexed(autoindex, fblocks, fblocks', hash, next.value, size);
      IndexedMore(autoindex, autoindex', fblocks', hash, next.value, size);
    }
  }

  lemma SamePlaceIndexed(autoindex: seq<Entry>, fblocks: seq<FblockRec>, fblocks': seq<FblockRec>,
                         hash: seq<Byte> -> nat, place: Locator, size: nat)
    requires SameFiles(fblocks, fblocks') && PlaceIndexed(autoindex, fblocks, hash, place, size)
    ensures PlaceIndexed(autoindex, fblocks', hash, place, size)
  {
    var bytes := fblocks[place.fblocknum].data[place.startoffs..place.startoffs + size];
    var e :| e in autoindex && e.crc == hash(bytes) && Denotes(fblocks, e.block, bytes);
    assert Denotes(fblocks', e.block, bytes);
  }

  /** A plan whose block is there already adds nothing. */
  lemma OldBlockIsInside(o: Settings, fblocks: seq<FblockRec>, plan: WritePlan, data: seq<Byte>)
    requires GoodPlan(o, fblocks, data, plan)
    ensures Denotes(fblocks, BlockReader.Locator(plan.fblocknum, plan.appended.baseOffset), data) ==>
              plan.fblocknum < |fblocks| && plan.appended.baseOffset + |data| <= plan.appended.oldSize
  {
  }

  /** For each of these block sizes for which indexing is due, the multiples not indexed before are in the index. */
  ghost predicate DueAreIndexed(o: Settings, last: map<(nat, nat), nat>, autoindex: seq<Entry>, fblocks: seq<FblockRec>,
                                hash: seq<Byte> -> nat, fblocknum: nat, newSize: nat, sizes: seq<nat>)
  {
    forall z :: z in sizes && IndexDue(o, last, fblocknum, newSize, z) ==>
      GridIndexed(autoindex, fblocks, hash, fblocknum, z, LastLength(last, (fblocknum, z)), newSize, o.autoIndexPeriod)
  }

  lemma OneMoreSize(o: Settings, last0: map<(nat, nat), nat>, last: map<(nat, nat), nat>, before: seq<Entry>,
                    after: seq<Entry>, fblocks: seq<FblockRec>, hash: seq<Byte> -> nat, fblocknum: nat, newSize: nat,
                    sizes: seq<nat>, z: nat)
    requires before <= after && DueAreIndexed(o, last0, before, fblocks, hash, fblocknum, newSize, sizes)
    requires z !in sizes ==> LastLength(last, (fblocknum, z)) == LastLength(last0, (fblocknum, z))
    requires IndexDue(o, last, fblocknum, newSize, z) ==>
               GridIndexed(after, fblocks, hash, fblocknum, z, LastLength(last, (fblocknum, z)), newSize,
                           o.autoIndexPeriod)
    ensures DueAreIndexed(o, last0, after, fblocks, hash, fblocknum, newSize, sizes + [z])
  {
    hide GridIndexed, LastLength;
    forall y | y in sizes + [z] && IndexDue(o, last0, fblocknum, newSize, y)
      ensures GridIndexed(after, fblocks, hash, fblocknum, y, LastLength(last0, (fblocknum, y)), newSize,
                          o.autoIndexPeriod)
    {
      if y in sizes {
        GridStaysIndexed(before, after, fblocks, hash, fblocknum, y, LastLength(last0, (fblocknum, y)), newSize,
                         o.autoIndexPeriod);
      }
    }
  }

  lemma GridStaysIndexed(before: seq<Entry>, after: seq<Entry>, fblocks: seq<FblockRec>, hash: seq<Byte> -> nat,
                         fblocknum: nat, size: nat, from: nat, to: nat, period: nat)
    requires before <= after && GridIndexed(before, fblocks, hash, fblocknum, size, from, to, period)
    ensures GridIndexed(after, fblocks, hash, fblocknum, size, from, to, period)
  {
    hide PlaceIndexed;
    if 0 < period {
      forall x: nat | x % period == 0 && from < x + size <= to
        ensures PlaceIndexed(after, fblocks, hash, BlockReader.Locator(fblocknum, x), size)
      {
        IndexedMore(before, after, fblocks, hash, BlockReader.Locator(fblocknum, x), size);
      }
    }
  }

  /** How much of the fblock has been indexed for this block size. */
  function LastLength(last: map<(nat, nat), nat>, key: (nat, nat)): nat {
    if key in last then last[key] else 0
  }

  /** Indexing again is worth it: 256 kB have come, or the fblock is nearly full. */
  predicate IndexDue(o: Settings, last: map<(nat, nat), nat>, fblocknum: nat, newSize: nat, bsize: nat) {
    || newSize >= LastLength(last, (fblocknum, bsize)) + 1024 * 256
    || (bsize + o.minimumFreeSpace <= o.fsize <= newSize + bsize + o.minimumFreeSpace)
  }

  lemma {:induction false} WithoutTakesOne(entries: seq<Entry>, e: Entry)
    ensures multiset(Without(entries, e)) == multiset(entries) - multiset{e}
  {
    if entries != [] {
      assert entries == [entries[0]] + entries[1..];
      if entries[0] != e {
        WithoutTakesOne(entries[1..], e);
      }
    }
  }

  /** Every multiple of the period at which a block fits in `to` bytes, but not in `from`, is indexed. */
  ghost predicate GridIndexed(autoindex: seq<Entry>, fblocks: seq<FblockRec>, hash: seq<Byte> -> nat, fblocknum: nat,
                              size: nat, from: nat, to: nat, period: nat)
  {
    0 < period ==> forall x: nat :: x % period == 0 && from < x + size <= to ==>
                     PlaceIndexed(autoindex, fblocks, hash, BlockReader.Locator(fblocknum, x), size)
  }

  /** The offers of one call are those multiples. */
  lemma OffersFillGrid(autoindex: seq<Entry>, fblocks: seq<FblockRec>, hash: seq<Byte> -> nat, fblocknum: nat,
                       oldSize: nat, newSize: nat, size: nat, period: nat)
    requires oldSize <= newSize
    requires OffersIndexed(autoindex, fblocks, hash, fblocknum, Offers(oldSize, newSize, size, period), size)
    ensures GridIndexed(autoindex, fblocks, hash, fblocknum, size, oldSize, newSize, period)
  {
    hide Offers, PlaceIndexed;
    if 0 < period {
      var offers := Offers(oldSize, newSize, size, period);
      forall x: nat | x % period == 0 && oldSize < x + size <= newSize
        ensures PlaceIndexed(autoindex, fblocks, hash, BlockReader.Locator(fblocknum, x), size)
      {
        OffersAreNew(oldSize, newSize, size, period, x);
        var k :| 0 <= k < |offers| && offers[k] == x;
      }
    }
  }

  ghost predicate IndexOk(autoindex: seq<Entry>, n: nat) {
    forall e :: e in autoindex ==> e.block.fblocknum < n
  }

  ghost predicate OfferedAt(o: Settings, fblocks: seq<FblockRec>, last: map<(nat, nat), nat>,
                            offered: map<(nat, nat), seq<nat>>, k: (nat, nat))
  {
    && k in last && k in offered && k.0 < |fblocks| && last[k] <= |fblocks[k.0].data|
    && offered[k] == Grid(last[k], k.1, o.autoIndexPeriod)
  }

  /** For every fblock and block size, the offsets offered so far are the whole grid of the last indexed size. */
  ghost predicate OfferedOk(o: Settings, fblocks: seq<FblockRec>, last: map<(nat, nat), nat>,
                            offered: map<(nat, nat), seq<nat>>) {
    forall k :: k in last ==> OfferedAt(o, fblocks, last, offered, k)
  }

  lemma OfferedSurvives(o: Settings, fblocks: seq<FblockRec>, fblocks': seq<FblockRec>, last: map<(nat, nat), nat>,
                        offered: map<(nat, nat), seq<nat>>)
    requires OfferedOk(o, fblocks, last, offered) && Grows(fblocks, fblocks')
    ensures OfferedOk(o, fblocks', last, offered)
  {
    hide Grid;
    forall k | k in last
      ensures OfferedAt(o, fblocks', last, offered, k)
    {
      assert OfferedAt(o, fblocks, last, offered, k);
      assert fblocks[k.0].data <= fblocks'[k.0].data;
    }
  }

  lemma OfferedUpdate(o: Settings, fblocks: seq<FblockRec>, last: map<(nat, nat), nat>,
                      offered: map<(nat, nat), seq<nat>>, last': map<(nat, nat), nat>,
                      offered': map<(nat, nat), seq<nat>>, key: (nat, nat))
    requires OfferedOk(o, fblocks, last, offered) && OfferedAt(o, fblocks, last', offered', key)
    requires key in last' && last' == last[key := last'[key]] && key in offered'
             && offered' == offered[key := offered'[key]]
    ensures OfferedOk(o, fblocks, last', offered')
  {
    hide Grid;
    forall k | k in last'
      ensures OfferedAt(o, fblocks, last', offered', k)
    {
      if k != key {
        assert OfferedAt(o, fblocks, last, offered, k);
      }
    }
  }

  lemma MatchIsOccurrence(file: seq<Byte>, startoffs: nat, data: seq<Byte>)
    ensures |file| >= startoffs + |data| && DataReadBuffer(file, startoffs, |data|) == data <==>
            OccursAt(file, data, startoffs)
  {
    if |file| >= startoffs + |data| {
      var slice := file[startoffs..startoffs + |data|];
      assert DataReadBuffer(file, startoffs, |data|) == slice;
      if OccursAt(file, data, startoffs) {
        assert slice == data;
      }
      if slice == data {
        forall k | 0 <= k < |data|
          ensures data[k] == file[startoffs + k]
        {
          assert slice[k] == file[startoffs + k];
        }
      }
    }
  }

  lemma SliceOccurs(file: seq<Byte>, startoffs: nat, size: nat)
    requires startoffs + size <= |file|
    ensures |DataReadBuffer(file, startoffs, size)| == size
    ensures OccursAt(file, DataReadBuffer(file, startoffs, size), startoffs)
  {
  }

  /** offers is minOffset, minOffset + stepping, ... as long as a block fits. */
  ghost predicate Steps(offers: seq<nat>, minOffset: nat, stepping: nat, bsize: nat, maxSize: nat) {
    && (forall k :: 0 <= k < |offers| ==> offers[k] == Nth(minOffset, k, stepping))
    && (offers != [] ==> offers[|offers| - 1] + bsize <= maxSize)
    && Nth(minOffset, |offers|, stepping) + bsize > maxSize
  }

  function Nth(minOffset: nat, k: nat, stepping: nat): nat {
    MulNonNegative(k, stepping);
    minOffset + k * stepping
  }

  lemma NthNext(minOffset: nat, k: nat, stepping: nat)
    ensures Nth(minOffset, k + 1, stepping) == Nth(minOffset, k, stepping) + stepping
    ensures Nth(minOffset, 0, stepping) == minOffset
  {
    OneMoreMultiple(k, stepping);
  }

  lemma StepsAreOffers(offers: seq<nat>, oldSize: nat, newSize: nat, bsize: nat, period: nat)
    requires 0 < period && IndexCount(oldSize, bsize, period) < IndexCount(newSize, bsize, period)
    requires Steps(offers, period * IndexCount(oldSize, bsize, period), period, bsize, newSize)
    ensures offers == Offers(oldSize, newSize, bsize, period)
  {
    hide IndexCount;
    var n, m, c := IndexCount(oldSize, bsize, period), IndexCount(newSize, bsize, period), |offers|;
    DistributeMultiples(n, c, period);
    CountsWhatFits(newSize, bsize, period, n + c);
    if c > 0 {
      DistributeMultiples(n, c - 1, period);
      CountsWhatFits(newSize, bsize, period, n + c - 1);
    }
    forall k | 0 <= k < c
      ensures offers[k] == Offers(oldSize, newSize, bsize, period)[k]
    {
      DistributeMultiples(n, k, period);
    }
  }

  lemma DistributeMultiples(n: nat, k: nat, p: nat)
    ensures p * n + k * p == (n + k) * p
  {
  }

  lemma WithoutIndexOk(entries: seq<Entry>, e: Entry, n: nat)
    requires IndexOk(entries, n)
    ensures IndexOk(Without(entries, e), n)
  {
  }

  /** Del: removes one occurrence. */
  function Without(entries: seq<Entry>, e: Entry): (r: seq<Entry>)
    ensures forall x :: x in r ==> x in entries
    ensures forall x :: x in entries ==> x in r || x == e
    ensures |r| == if e in entries then |entries| - 1 else |entries|
  {
    if entries == [] then []
    else if entries[0] == e then entries[1..]
    else [entries[0]] + Without(entries[1..], e)
  }
}
