// lib/cromfs-blockifier.cc and lib/cromfs-fblockfun.cc: fblocks, blocks and what block numbers promise.
module BlockStore {
  import opened SearchSpec
  import opened AppendSearch
  import BlockReader

  type Locator = BlockReader.Locator

  datatype Settings = Settings(fsize: nat, minimumFreeSpace: nat, autoIndexPeriod: nat, maxBruteForce: nat,
                               overlapGranularity: nat, bsize: nat, bsizes: seq<nat>) {
    /** What the option checks of mkcromfs guarantee. */
    predicate Valid() {
      minimumFreeSpace < fsize
    }
  }

  /** An fblock's raw bytes, and the room the free-space index gives it. */
  datatype FblockRec = FblockRec(data: seq<Byte>, space: nat)

  /** An autoindex entry: where a block with this hash lies. */
  datatype Entry = Entry(crc: nat, block: Locator)

  // ---- Promises ----

  /** The locator's fblock holds these bytes at its offset. */
  ghost predicate Denotes(fblocks: seq<FblockRec>, block: Locator, bytes: seq<Byte>) {
    block.fblocknum < |fblocks| && OccursAt(fblocks[block.fblocknum].data, bytes, block.startoffs)
  }

  /** Every block number stored so far denotes the bytes it was promised to. */
  ghost predicate Keeps(fblocks: seq<FblockRec>, blocks: seq<Locator>, promised: seq<seq<Byte>>) {
    |promised| == |blocks| && forall n :: 0 <= n < |blocks| ==> Denotes(fblocks, blocks[n], promised[n])
  }

  /** fblocks only grow, each by a suffix, and new ones only come at the end. */
  ghost predicate Grows(fblocks: seq<FblockRec>, fblocks': seq<FblockRec>) {
    |fblocks| <= |fblocks'| && forall i :: 0 <= i < |fblocks| ==> fblocks[i].data <= fblocks'[i].data
  }

  lemma DenotesSurvives(fblocks: seq<FblockRec>, fblocks': seq<FblockRec>, block: Locator, bytes: seq<Byte>)
    requires Denotes(fblocks, block, bytes) && Grows(fblocks, fblocks')
    ensures Denotes(fblocks', block, bytes)
  {
    var data, data' := fblocks[block.fblocknum].data, fblocks'[block.fblocknum].data;
    assert data <= data';
    forall k | 0 <= k < |bytes|
      ensures bytes[k] == data'[block.startoffs + k]
    {
      assert data[block.startoffs + k] == data'[block.startoffs + k];
    }
  }

  /** No growth breaks a promise. */
  lemma KeepsSurvives(fblocks: seq<FblockRec>, fblocks': seq<FblockRec>, blocks: seq<Locator>, promised: seq<seq<Byte>>)
    requires Keeps(fblocks, blocks, promised) && Grows(fblocks, fblocks')
    ensures Keeps(fblocks', blocks, promised)
  {
    forall n | 0 <= n < |blocks|
      ensures Denotes(fblocks', blocks[n], promised[n])
    {
      DenotesSurvives(fblocks, fblocks', blocks[n], promised[n]);
    }
  }

  lemma GrowsTransitive(a: seq<FblockRec>, b: seq<FblockRec>, c: seq<FblockRec>)
    requires Grows(a, b) && Grows(b, c)
    ensures Grows(a, c)
  {
    forall i | 0 <= i < |a|
      ensures a[i].data <= c[i].data
    {
      assert a[i].data <= b[i].data && b[i].data <= c[i].data;
    }
  }

  // ---- Sizes ----

  function TotalSize(fblocks: seq<FblockRec>): nat {
    if fblocks == [] then 0 else TotalSize(fblocks[..|fblocks| - 1]) + |fblocks[|fblocks| - 1].data|
  }

  lemma {:induction false} TotalAfterUpdate(fblocks: seq<FblockRec>, f: nat, rec: FblockRec)
    requires f < |fblocks|
    ensures TotalSize(fblocks[f := rec]) == TotalSize(fblocks) - |fblocks[f].data| + |rec.data|
    ensures |fblocks[f].data| <= TotalSize(fblocks)
    decreases |fblocks|
  {
    var last := |fblocks| - 1;
    if f == last {
      assert fblocks[f := rec][..last] == fblocks[..last];
    } else {
      assert fblocks[f := rec][..last] == fblocks[..last][f := rec];
      TotalAfterUpdate(fblocks[..last], f, rec);
    }
  }

  lemma TotalAfterNew(fblocks: seq<FblockRec>)
    ensures TotalSize(fblocks + [FblockRec([], 0)]) == TotalSize(fblocks)
  {
    assert (fblocks + [FblockRec([], 0)])[..|fblocks|] == fblocks;
  }

  /** No fblock exceeds cap, and the free-space index is either 0 or the true room. */
  ghost predicate RoomOk(o: Settings, cap: nat, fblocks: seq<FblockRec>) {
    forall i :: 0 <= i < |fblocks| ==> RecOk(o, cap, fblocks[i])
  }

  ghost predicate RecOk(o: Settings, cap: nat, rec: FblockRec) {
    |rec.data| <= cap && (rec.space == 0 || rec.space == o.fsize - |rec.data|)
  }

  // ---- Reading and appending ----

  /** InitDataReadBuffer of an uncompressed fblock: the request, clamped to the file. */
  function DataReadBuffer(file: seq<Byte>, reqOffset: nat, reqSize: nat): seq<Byte> {
    var offset := if reqOffset > |file| then |file| else reqOffset;
    if offset + reqSize > |file| || reqSize > |file| then
      var size := |file| - offset;
      if size == 0 then [] else file[offset..offset + size]
    else file[offset..offset + reqSize]
  }

  /** put_appended_raw: only the bytes the file does not have yet are written, at its end. */
  function PutAppendedRaw(file: seq<Byte>, base: nat, data: seq<Byte>): (file': seq<Byte>)
    requires base <= |file|
    ensures file <= file'
  {
    if base + |data| <= |file| then file
    else
      var added := base + |data| - |file|;
      file + data[|data| - added..]
  }

  /** Where the block agreed with the file's tail, the whole block is in the file afterwards. */
  lemma AppendStores(file: seq<Byte>, info: AppendInfo, data: seq<Byte>)
    requires Fits(info, file, data)
    ensures var file' := PutAppendedRaw(file, info.baseOffset, data);
            OccursAt(file', data, info.baseOffset) && |file'| == info.appendedSize && info.oldSize == |file|
  {
    var file' := PutAppendedRaw(file, info.baseOffset, data);
    forall k | 0 <= k < |data|
      ensures data[k] == file'[info.baseOffset + k]
    {
    }
  }
}
