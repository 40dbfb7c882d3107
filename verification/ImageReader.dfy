// cromfs.cc: inodes and files read from an image by number.
module ImageReader {
  import opened Arithmetic
  import opened BlockSchedule
  import BlockReader
  import opened Endian
  import opened Filesystem
  import opened InodeFormat
  import opened InodeNumbers
  import opened InodeTable
  import opened SearchSpec

  /** A read inside a described file is whole when the fblocks it needs have bits of their own. */
  method ReadWhole(v: BlockReader.Volume, inode: BlockReader.FileMap, ghost source: seq<Byte>, offset: nat, size: nat,
                   cache: set<nat>)
    returns (bytes: seq<Byte>)
    requires BlockReader.Describes(v, inode, source) && offset + size <= |source|
    requires BlockReader.SlotsApart(v, inode, offset, offset + size)
    ensures bytes == source[offset..offset + size]
  {
    hide BlockReader.Describes, BlockReader.SlotsApart;
    var target := new Byte[size](_ => 0);
    assert 0 < inode.blocksize by { DescribedHasBlocksize(v, inode, source); }
    var count := ReadDescribed(v, inode, source, offset, size, target, cache);
    bytes := target[..];
  }

  lemma DescribedHasBlocksize(v: BlockReader.Volume, inode: BlockReader.FileMap, source: seq<Byte>)
    requires BlockReader.Describes(v, inode, source)
    ensures 0 < inode.blocksize && inode.bytesize == |source|
  {
  }

  /** The header of this inode, and its n block numbers, can be read from the inode table: neither of the two reads
      needs two fblocks with the same bit. */
  ghost predicate InodeReadable(v: BlockReader.Volume, inotab: BlockReader.FileMap, inonum: nat, opts: Options, n: nat)
    requires 0 < inotab.blocksize && 2 <= inonum
  {
    var at, h := GetInodeOffset(inonum), opts.HeaderSize();
    && BlockReader.SlotsApart(v, inotab, at, at + h)
    && BlockReader.SlotsApart(v, inotab, at + h, at + h + opts.TableSize(n))
  }

  /** With one bit for each fblock every inode can be read, and so it can on 64-bit words while there are no more
      fblocks than half a word has bits. */
  lemma InodesReadable(v: BlockReader.Volume, inotab: BlockReader.FileMap, inonum: nat, opts: Options, n: nat)
    requires 0 < inotab.blocksize && 2 <= inonum
    requires || (forall f: nat :: v.slot(f) == BlockReader.SlotOn32(f))
             || (|v.fblocks| <= 32 && forall f: nat :: v.slot(f) == BlockReader.SlotOn64(f))
    ensures InodeReadable(v, inotab, inonum, opts, n)
  {
    var at, h := GetInodeOffset(inonum), opts.HeaderSize();
    if forall f: nat :: v.slot(f) == BlockReader.SlotOn32(f) {
      BlockReader.CommentBitsApart(v, inotab, at, at + h);
      BlockReader.CommentBitsApart(v, inotab, at + h, at + h + opts.TableSize(n));
    } else {
      BlockReader.FewFblocksApart(v, inotab, at, at + h);
      BlockReader.FewFblocksApart(v, inotab, at + h, at + h + opts.TableSize(n));
    }
  }

  lemma SliceReads(data: seq<Byte>, p: nat, size: nat, at: nat, bytes: nat)
    requires 1 <= bytes <= 8 && at + bytes <= size && p + size <= |data|
    ensures GetN(data[p..p + size], at, bytes) == GetN(data, p + at, bytes)
  {
  }

  /** A header read from its own bytes is read the same in place. */
  lemma HeaderIsLocal(data: seq<Byte>, opts: Options, bsize: nat)
    requires opts.HeaderSize() <= |data|
    ensures ReadHeader(data[..opts.HeaderSize()], opts, bsize, []) == ReadHeader(data, opts, bsize, [])
  {
    var h := opts.HeaderSize();
    assert data[..h] == data[0..0 + h];
    SliceReads(data, 0, h, 0, 4);
    SliceReads(data, 0, h, 4, 4);
    SliceReads(data, 0, h, 8, 4);
    SliceReads(data, 0, h, 12, 2);
    SliceReads(data, 0, h, 14, 2);
    SliceReads(data, 0, h, 16, 8);
    if opts.variableBlocksizes {
      SliceReads(data, 0, h, 24, 4);
    }
    hide Get16, Get32, Get64, IsDevice;
  }

  /** read_inode: the header, read from the inode table as from any file. */
  method ReadInode(v: BlockReader.Volume, inotab: BlockReader.FileMap, ghost table: seq<Byte>, inonum: nat,
                   opts: Options, bsize: nat, cache: set<nat>)
    returns (inode: Inode)
    requires BlockReader.Describes(v, inotab, table)
    requires 2 <= inonum && GetInodeOffset(inonum) + opts.HeaderSize() <= |table|
             && InodeReadable(v, inotab, inonum, opts, 0)
    ensures inode == ReadHeader(table[GetInodeOffset(inonum)..], opts, bsize, [])
  {
    var offset, h := GetInodeOffset(inonum), opts.HeaderSize();
    hide BlockReader.Describes, BlockReader.SlotsApart, Get16, Get32, Get64, IsDevice;
    var buf := ReadWhole(v, inotab, table, offset, h, cache);
    assert table[offset..][..h] == table[offset..offset + h];
    HeaderIsLocal(table[offset..], opts, bsize);
    var r := GetInode(buf, h, [], opts, bsize, false);
    inode := r.value;
  }

  /** read_inode_and_blocks: then the block numbers, unless there are more than a hundred million. */
  method ReadInodeAndBlocks(v: BlockReader.Volume, inotab: BlockReader.FileMap, ghost table: seq<Byte>, inonum: nat,
                            opts: Options, bsize: nat, cache: set<nat>)
    returns (result: Inode)
    requires BlockReader.Describes(v, inotab, table)
    requires 2 <= inonum && GetInodeOffset(inonum) + opts.HeaderSize() <= |table|
    requires var header := ReadHeader(table[GetInodeOffset(inonum)..], opts, bsize, []);
             && 0 < header.blocksize && GetInodeOffset(inonum) + opts.InodeSize(BlocksOf(header)) <= |table|
             && InodeReadable(v, inotab, inonum, opts, NumbersRead(header))
    ensures var data := table[GetInodeOffset(inonum)..];
            var header := ReadHeader(data, opts, bsize, []);
            result == if BlocksOf(header) > 100_000_000 then header
                      else header.(blocklist := ReadNumbers(data, opts, BlocksOf(header)))
  {
    FewerReadable(v, inotab, table, inonum, opts, bsize);
    hide BlockReader.Describes, BlockReader.SlotsApart, ReadHeader, CalcSizeInBlocks;
    result := ReadInode(v, inotab, table, inonum, opts, bsize, cache);
    var nblocks := CalcSizeInBlocks(result.bytesize, result.blocksize);
    if nblocks <= 100_000_000 {
      var list := ReadBlocklist(v, inotab, table, inonum, opts, nblocks, cache);
      result := result.(blocklist := list);
    }
  }

  /** How many block numbers the reader reads for this header. */
  function NumbersRead(header: Inode): nat
    requires 0 < header.blocksize
  {
    if BlocksOf(header) > 100_000_000 then 0 else BlocksOf(header)
  }

  lemma FewerReadable(v: BlockReader.Volume, inotab: BlockReader.FileMap, table: seq<Byte>, inonum: nat, opts: Options,
                      bsize: nat)
    requires 0 < inotab.blocksize && 2 <= inonum && GetInodeOffset(inonum) + opts.HeaderSize() <= |table|
    requires var header := ReadHeader(table[GetInodeOffset(inonum)..], opts, bsize, []);
             0 < header.blocksize && InodeReadable(v, inotab, inonum, opts, NumbersRead(header))
    ensures InodeReadable(v, inotab, inonum, opts, 0)
  {
    hide ReadHeader, NumbersRead, BlockReader.NeedsAt;
  }

  /** The block numbers that follow a header. */
  method ReadBlocklist(v: BlockReader.Volume, inotab: BlockReader.FileMap, ghost table: seq<Byte>, inonum: nat,
                       opts: Options, nblocks: nat, cache: set<nat>)
    returns (list: seq<nat>)
    requires BlockReader.Describes(v, inotab, table)
    requires 2 <= inonum && GetInodeOffset(inonum) + opts.InodeSize(nblocks) <= |table|
             && InodeReadable(v, inotab, inonum, opts, nblocks)
    ensures list == ReadNumbers(table[GetInodeOffset(inonum)..], opts, nblocks)
  {
    var at := GetInodeOffset(inonum) + opts.HeaderSize();
    hide BlockReader.Describes, BlockReader.SlotsApart;
    var blocklist := ReadWhole(v, inotab, table, at, opts.TableSize(nblocks), cache);
    ghost var data := table[GetInodeOffset(inonum)..];
    assert blocklist == data[opts.HeaderSize()..opts.HeaderSize() + opts.TableSize(nblocks)];
    list := DecodeNumbers(blocklist, data, opts, nblocks);
  }

  method DecodeNumbers(blocklist: seq<Byte>, ghost data: seq<Byte>, opts: Options, nblocks: nat)
    returns (list: seq<nat>)
    requires opts.HeaderSize() + opts.TableSize(nblocks) <= |data|
    requires blocklist == data[opts.HeaderSize()..opts.HeaderSize() + opts.TableSize(nblocks)]
    ensures list == ReadNumbers(data, opts, nblocks)
  {
    var b := opts.BlocknumSize();
    list := [];
    for n := 0 to nblocks
      invariant list == ReadNumbers(data, opts, n)
    {
      hide GetN;
      SliceReads(data, opts.HeaderSize(), opts.TableSize(nblocks), opts.TableSize(n), b);
      list := list + [GetN(blocklist, opts.TableSize(n), b)];
    }
  }

  /** The number of entry i leads to the inode of its file in the table, header and block numbers. */
  lemma TableGivesInode(im: Image, i: nat, bsize: nat)
    requires im.Valid() && i < |im.collection|
    requires HeaderFits(im.Made(FirstName(im.collection, i)), im.opts, bsize)
    ensures 2 <= im.marks[i].inonum && GetInodeOffset(im.marks[i].inonum) <= |im.table|
    ensures var data := im.table[GetInodeOffset(im.marks[i].inonum)..];
            var inode := im.Made(FirstName(im.collection, i));
            && 0 < inode.blocksize && |inode.blocklist| == BlocksOf(inode)
            && im.opts.InodeSize(|inode.blocklist|) <= |data|
            && ReadHeader(data, im.opts, bsize, []) == Restored(inode).(blocklist := [])
            && (ReadNumbers(data, im.opts, |inode.blocklist|) == inode.blocklist
                <==> NumbersFit(inode.blocklist, im.opts))
  {
    var f := FirstName(im.collection, i);
    var inode := im.Made(f);
    StartIsShared(im.collection, i, |im.before|, im.opts);
    assert MarkOk(im.collection, i, |im.before|, im.opts, im.marks[i]);
    MadeBlocks(im, f);
    hide SizeAfter, SlotSize, FirstName, Holds, InodeOf, Linked, Start, GetInodeOffset, OrderOk, RowOf, Encode,
         FinalInode, FurtherNames, Image.Made;
    assert Holds(im.table, Start(im.collection, f, |im.before|, im.opts), Encode(inode, im.opts)) by {
      TableHoldsMade(im, f);
    }
    var more := SliceOfTable(im.table, Start(im.collection, f, |im.before|, im.opts), Encode(inode, im.opts));
    InodeRoundTrip(inode, im.opts, bsize, more);
    hide Header, Numbers, Get16, Get32, Get64, IsDevice, ReadNumbers, NumbersFit;
    WithoutBlocks(Encode(inode, im.opts) + more, im.opts, bsize, inode);
  }

  lemma TableHoldsMade(im: Image, f: nat)
    requires im.Valid() && f < |im.collection| && IsNew(im.collection, f)
    ensures Holds(im.table, Start(im.collection, f, |im.before|, im.opts), Encode(im.Made(f), im.opts))
  {
    hide Holds, Encode, FinalInode;
  }

  lemma MadeBlocks(im: Image, f: nat)
    requires im.Valid() && f < |im.collection|
    ensures var inode := im.Made(f); 0 < inode.blocksize && |inode.blocklist| == BlocksOf(inode)
  {
    FinalInodeSize(im.collection, im.order, im.targets, |im.order|, f, im.opts);
    MadeHeader(im, f);
    hide CalcSizeInBlocks, FurtherNames, FinalInode;
  }

  /** Only the block numbers differ from the inode first written. */
  lemma MadeHeader(im: Image, f: nat)
    requires im.Valid() && f < |im.collection|
    ensures im.Made(f) == Linked(im.collection, f, |im.collection|).(blocklist := im.Made(f).blocklist)
  {
    hide Linked;
  }

  /** The inode in the table describes the bytes of its file. */
  lemma MadeDescribes(v: BlockReader.Volume, inotab: BlockReader.FileMap, im: Image, f: nat)
    requires ImageOk(v, inotab, im) && f < |im.collection| && IsNew(im.collection, f)
    ensures |im.contents| == |im.collection| && im.Made(f).bytesize == |im.Bytes(f)|
    ensures BlockReader.Describes(v, MapOf(im.Made(f)), im.Bytes(f))
  {
    MadeHeader(im, f);
    if HasData(im.collection[f].mode) {
      var x :| 0 <= x < |im.order| && im.order[x] == f;
      RowIs(im.order, im.targets, |im.order|, x);
      assert FileDescribed(v, im, x);
    }
    hide FurtherNames, CalcSizeInBlocks, TableDone;
  }

  lemma WithoutBlocks(data: seq<Byte>, opts: Options, bsize: nat, inode: Inode)
    requires opts.HeaderSize() <= |data| && ReadHeader(data, opts, bsize, inode.blocklist) == Restored(inode)
    ensures ReadHeader(data, opts, bsize, []) == Restored(inode).(blocklist := [])
  {
  }

  /** What the reader needs of an inode to find the bytes of its file. */
  function MapOf(inode: Inode): BlockReader.FileMap {
    BlockReader.FileMap(inode.blocksize, inode.bytesize, inode.blocklist)
  }

  /** The inode of entry i fits the format, and the reader can get at it. */
  ghost predicate CanRead(v: BlockReader.Volume, inotab: BlockReader.FileMap, im: Image, i: nat, bsize: nat)
    requires 0 < inotab.blocksize && im.Valid() && i < |im.collection|
  {
    var inode := im.Made(FirstName(im.collection, i));
    && HeaderFits(inode, im.opts, bsize) && NumbersFit(inode.blocklist, im.opts) && |inode.blocklist| <= 100_000_000
    && 2 <= im.marks[i].inonum && InodeReadable(v, inotab, im.marks[i].inonum, im.opts, |inode.blocklist|)
  }

  /** What stands in the table under the number of entry i, and that it can be read. */
  lemma WholeInTable(v: BlockReader.Volume, inotab: BlockReader.FileMap, im: Image, i: nat, bsize: nat)
    requires ImageOk(v, inotab, im) && i < |im.collection| && CanRead(v, inotab, im, i, bsize)
    ensures BlockReader.Describes(v, inotab, im.table)
    ensures i < |im.marks| && 2 <= im.marks[i].inonum
            && GetInodeOffset(im.marks[i].inonum) + im.opts.HeaderSize() <= |im.table|
    ensures var data := im.table[GetInodeOffset(im.marks[i].inonum)..];
            var header := ReadHeader(data, im.opts, bsize, []);
            && 0 < header.blocksize && BlocksOf(header) <= 100_000_000
            && GetInodeOffset(im.marks[i].inonum) + im.opts.InodeSize(BlocksOf(header)) <= |im.table|
            && InodeReadable(v, inotab, im.marks[i].inonum, im.opts, NumbersRead(header))
            && header.(blocklist := ReadNumbers(data, im.opts, BlocksOf(header)))
               == Restored(im.Made(FirstName(im.collection, i)))
  {
    TableGivesInode(im, i, bsize);
    hide FirstName, InodeReadable, ReadNumbers, CalcSizeInBlocks, ReadHeader, Image.Valid, Image.Made, HeaderFits,
         NumbersFit, BlockReader.Describes, GetInodeOffset, FileDescribed, OtherDescribed;
  }

  /** read_inode_and_blocks gives the inode made for the file of entry i, with all its block numbers. */
  method ReadMade(v: BlockReader.Volume, inotab: BlockReader.FileMap, inonum: nat, opts: Options, bsize: nat,
                  cache: set<nat>, ghost im: Image, ghost i: nat)
    returns (inode: Inode)
    requires ImageOk(v, inotab, im) && opts == im.opts && i < |im.collection| && inonum == im.marks[i].inonum
    requires CanRead(v, inotab, im, i, bsize)
    ensures inode == Restored(im.Made(FirstName(im.collection, i)))
  {
    WholeInTable(v, inotab, im, i, bsize);
    hide *;
    inode := ReadInodeAndBlocks(v, inotab, im.table, inonum, opts, bsize, cache);
  }

  /** By the number of any entry the reader finds the inode made for its file, which says what the entry does, with
      the links of all its names. Any read of its bytes is whole exactly when no two fblocks it needs share a bit. */
  method ReadByNumber(v: BlockReader.Volume, inotab: BlockReader.FileMap, inonum: nat, opts: Options, bsize: nat,
                      offset: nat, size: nat, target: array<Byte>, cache: set<nat>, ghost im: Image, ghost i: nat)
    returns (count: nat, inode: Inode)
    requires ImageOk(v, inotab, im) && opts == im.opts && i < |im.collection| && inonum == im.marks[i].inonum
    requires CanRead(v, inotab, im, i, bsize) && size <= target.Length
    modifies target
    ensures inode == Restored(im.Made(FirstName(im.collection, i))) && 0 < inode.blocksize
    ensures |im.contents| == |im.collection|
    ensures var f := FirstName(im.collection, i);
            Tells(inode, im.collection[f], |Names(im.collection, f, |im.collection|)|, |im.Bytes(f)|)
    ensures ReadAnswer(v, MapOf(inode), im.Bytes(FirstName(im.collection, i)), offset, size, old(target[..]),
                       target[..], count)
  {
    ghost var f := FirstName(im.collection, i);
    NewExactly(im.collection, i);
    MadeDescribes(v, inotab, im, f);
    MadeBlocks(im, f);
    MadeTells(im, f);
    hide Tells, FirstName, CanRead, CalcSizeInBlocks, Image.Valid, Image.Made, Image.Bytes, BlockReader.Describes,
         Names, ReadAnswer, FileDescribed, OtherDescribed;
    inode := ReadMade(v, inotab, inonum, opts, bsize, cache, im, i);
    count := ReadDescribed(v, MapOf(inode), im.Bytes(f), offset, size, target, cache);
  }

  /** The inode in the table says of the file what its entry does. */
  lemma MadeTells(im: Image, f: nat)
    requires im.Valid() && f < |im.collection| && IsNew(im.collection, f)
    ensures |im.contents| == |im.collection|
    ensures Tells(Restored(im.Made(f)), im.collection[f], |Names(im.collection, f, |im.collection|)|, |im.Bytes(f)|)
  {
    hide Names, FinalInode, IsDevice, Linked;
    LinkedTells(im.collection, f);
    MadeHeader(im, f);
  }
}
