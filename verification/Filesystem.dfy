// util/mkcromfs.cc with the blockifier: from the files of a tree to a volume that holds them and their inodes.
module Filesystem {
  import opened Arithmetic
  import opened BlockNumbering
  import opened Blockifier
  import opened BlockSchedule
  import opened BlockStore
  import BlockReader
  import opened Endian
  import opened IdenticalBlocks
  import opened InodeFormat
  import opened InodeNumbers
  import opened InodeTable
  import opened SearchSpec
  import opened Wrappers

  // ---- The schedule ----

  /** The entries that step 4 makes a data source for. */
  predicate HasData(mode: nat) {
    IsDir(mode) || IsSymlink(mode) || IsRegular(mode)
  }

  /** What the sources of the new entries read: directories their encoding, all others as many bytes as lstat said. */
  ghost predicate ContentsOk(collection: seq<DirEntry>, contents: seq<seq<Byte>>) {
    && |contents| == |collection|
    && forall i :: 0 <= i < |collection| && HasData(collection[i].mode) ==> |contents[i]| == PlannedSize(collection[i])
  }

  /** order names every new entry with data once: the order in which the sources were scheduled. */
  ghost predicate OrderOk(collection: seq<DirEntry>, order: seq<nat>) {
    && NoRepeats(order)
    && (forall i :: i in order ==> i < |collection| && IsNew(collection, i) && HasData(collection[i].mode))
    && forall i :: 0 <= i < |collection| && IsNew(collection, i) && HasData(collection[i].mode) ==> i in order
  }

  /** The sources of the tree in that order, and what else is scheduled, as the root directory is. */
  function Sources(collection: seq<DirEntry>, contents: seq<seq<Byte>>, order: seq<nat>,
                   others: seq<Item>): (s: seq<Item>)
    requires |contents| == |collection| && forall x :: 0 <= x < |order| ==> order[x] < |collection|
    ensures |s| == |order| + |others|
    ensures forall x :: 0 <= x < |order| ==> s[x] == Item(contents[order[x]], collection[order[x]].blocksize)
  {
    seq(|order|, x requires 0 <= x < |order| => Item(contents[order[x]], collection[order[x]].blocksize)) + others
  }

  // ---- Block numbers in the inode table ----

  /** The row of block numbers that entry i has got among the first n of order, if any. */
  function RowOf(order: seq<nat>, targets: seq<seq<nat>>, n: nat, i: nat): Option<seq<nat>>
    requires n <= |order| && n <= |targets|
  {
    if n == 0 then None else if order[n - 1] == i then Some(targets[n - 1]) else RowOf(order, targets, n - 1, i)
  }

  lemma {:induction false} RowIs(order: seq<nat>, targets: seq<seq<nat>>, n: nat, x: nat)
    requires n <= |order| && n <= |targets| && NoRepeats(order) && x < |order|
    ensures RowOf(order, targets, n, order[x]) == if x < n then Some(targets[x]) else None
  {
    if n > 0 {
      RowIs(order, targets, n - 1, x);
    }
  }

  /** The inode of the file first named at i, with its links and as many block numbers as have been written. */
  function FinalInode(collection: seq<DirEntry>, order: seq<nat>, targets: seq<seq<nat>>, n: nat, i: nat): Inode
    requires EntriesOk(collection) && i < |collection| && n <= |order| && n <= |targets|
  {
    var inode := Linked(collection, i, |collection|);
    match RowOf(order, targets, n, i)
    case None => inode
    case Some(row) => inode.(blocklist := row)
  }

  /** Every row is as long as the inode it belongs to demands. */
  ghost predicate RowsFit(collection: seq<DirEntry>, order: seq<nat>, targets: seq<seq<nat>>)
    requires EntriesOk(collection)
  {
    && |order| <= |targets|
    && forall x :: 0 <= x < |order| ==>
      order[x] < |collection| && |targets[x]| == |InodeOf(collection[order[x]]).blocklist|
  }

  ghost predicate TableDone(table: seq<Byte>, collection: seq<DirEntry>, before: seq<Byte>, opts: Options,
                            order: seq<nat>, targets: seq<seq<nat>>, n: nat)
    requires EntriesOk(collection) && n <= |order| && n <= |targets|
  {
    && |table| == SizeAfter(collection, |collection|, |before|, opts)
    && Holds(table, 0, before)
    && forall i :: 0 <= i < |collection| && IsNew(collection, i) ==>
         Holds(table, Start(collection, i, |before|, opts), Encode(FinalInode(collection, order, targets, n, i), opts))
  }

  lemma FinalInodeSize(collection: seq<DirEntry>, order: seq<nat>, targets: seq<seq<nat>>, n: nat, i: nat,
                       opts: Options)
    requires EntriesOk(collection) && RowsFit(collection, order, targets) && n <= |order| && i < |collection|
    ensures |FinalInode(collection, order, targets, n, i).blocklist| == |Linked(collection, i, |collection|).blocklist|
    ensures |Encode(FinalInode(collection, order, targets, n, i), opts)|
            == |Encode(Linked(collection, i, |collection|), opts)|
    decreases n
  {
    hide InodeOf, FurtherNames;
    if n > 0 && order[n - 1] != i {
      FinalInodeSize(collection, order, targets, n - 1, i, opts);
    }
  }

  /** Numbers written into the room of a held inode complete it. */
  lemma NumbersHeld(table: seq<Byte>, at: nat, inode: Inode, opts: Options, list: seq<nat>)
    requires Holds(table, at, Encode(inode, opts)) && |list| == |inode.blocklist|
    ensures at + opts.HeaderSize() + opts.TableSize(|list|) <= |table|
    ensures Holds(Over(table, at + opts.HeaderSize(), Numbers(list, opts)), at, Encode(inode.(blocklist := list), opts))
  {
    var header, numbers := Header(inode, opts), Numbers(list, opts);
    NumbersFillSlot(inode, opts, list);
    hide Header, Numbers, Over;
    var more := SliceOfTable(table, at, Encode(inode, opts));
    OverInSlice(table, at, opts.HeaderSize(), numbers);
    OverFront(Encode(inode, opts), more, opts.HeaderSize(), numbers);
    PrefixHolds(Over(table, at + opts.HeaderSize(), numbers), at, Encode(inode.(blocklist := list), opts), more);
  }

  lemma OverFront(a: seq<Byte>, b: seq<Byte>, p: nat, bytes: seq<Byte>)
    requires p + |bytes| <= |a|
    ensures Over(a + b, p, bytes) == Over(a, p, bytes) + b
  {
  }

  lemma OrderedEntry(collection: seq<DirEntry>, order: seq<nat>, targets: seq<seq<nat>>, x: nat)
    requires EntriesOk(collection) && OrderOk(collection, order) && RowsFit(collection, order, targets) && x < |order|
    ensures |order| <= |targets| && order[x] < |collection| && IsNew(collection, order[x]) && NoRepeats(order)
  {
    assert order[x] in order;
  }

  lemma RowCompletes(collection: seq<DirEntry>, order: seq<nat>, targets: seq<seq<nat>>, x: nat)
    requires EntriesOk(collection) && RowsFit(collection, order, targets) && NoRepeats(order) && x < |order|
    ensures order[x] < |collection| && |order| <= |targets|
    ensures var inode := FinalInode(collection, order, targets, x, order[x]);
            && |targets[x]| == |inode.blocklist|
            && FinalInode(collection, order, targets, x + 1, order[x]) == inode.(blocklist := targets[x])
  {
    hide InodeOf, FurtherNames;
    RowIs(order, targets, x, x);
  }

  lemma OtherRowsStay(collection: seq<DirEntry>, order: seq<nat>, targets: seq<seq<nat>>, x: nat, i: nat)
    requires EntriesOk(collection) && x < |order| <= |targets| && i < |collection|
    ensures i != order[x] ==>
              FinalInode(collection, order, targets, x + 1, i) == FinalInode(collection, order, targets, x, i)
  {
    hide InodeOf, FurtherNames;
  }

  /** One file's numbers complete its inode and change no other. */
  lemma RowStored(table: seq<Byte>, collection: seq<DirEntry>, before: seq<Byte>, opts: Options, order: seq<nat>,
                  targets: seq<seq<nat>>, x: nat)
    requires EntriesOk(collection) && Sound(collection, |before|, opts) && OrderOk(collection, order)
    requires RowsFit(collection, order, targets) && x < |order|
    requires TableDone(table, collection, before, opts, order, targets, x)
    ensures order[x] < |collection|
    ensures var p := Start(collection, order[x], |before|, opts) + opts.HeaderSize();
            && p + opts.TableSize(|targets[x]|) <= |table|
            && TableDone(Over(table, p, Numbers(targets[x], opts)), collection, before, opts, order, targets, x + 1)
  {
    hide SizeAfter, SlotSize, FirstName, Over, Holds, Encode, InodeOf, Linked, Start, End, Sound, Numbers, OrderOk,
         EntriesOk, IsNew, FinalInode, RowOf, RowsFit;
    var f := order[x];
    OrderedEntry(collection, order, targets, x);
    var at, numbers := Start(collection, f, |before|, opts), Numbers(targets[x], opts);
    InodeInSlot(collection, f, |before|, opts, |collection|);
    RowCompletes(collection, order, targets, x);
    NumbersHeld(table, at, FinalInode(collection, order, targets, x, f), opts, targets[x]);
    var table' := Over(table, at + opts.HeaderSize(), numbers);
    OverKeeps(table, at + opts.HeaderSize(), numbers, 0, before);
    forall i | 0 <= i < |collection| && IsNew(collection, i)
      ensures Holds(table', Start(collection, i, |before|, opts),
                    Encode(FinalInode(collection, order, targets, x + 1, i), opts))
    {
      OtherRowsStay(collection, order, targets, x, i);
      if i != f {
        RowApart(collection, f, i, |before|, opts, order, targets, x);
        OverKeeps(table, at + opts.HeaderSize(), numbers, Start(collection, i, |before|, opts),
                  Encode(FinalInode(collection, order, targets, x, i), opts));
      }
    }
  }

  /** The numbers of file f lie outside the inode of file i. */
  lemma RowApart(collection: seq<DirEntry>, f: nat, i: nat, initial: nat, opts: Options, order: seq<nat>,
                 targets: seq<seq<nat>>, x: nat)
    requires EntriesOk(collection) && Sound(collection, initial, opts) && RowsFit(collection, order, targets)
    requires f < |collection| && i < |collection| && f != i && IsNew(collection, f) && IsNew(collection, i)
    requires x < |order| && order[x] == f
    ensures var p, other := Start(collection, f, initial, opts) + opts.HeaderSize(),
            Start(collection, i, initial, opts);
            other + |Encode(FinalInode(collection, order, targets, x, i), opts)| <= p
            || p + opts.TableSize(|targets[x]|) <= other
  {
    hide SizeAfter, SlotSize, FirstName, InodeOf, Linked;
    FirstIsCommon(collection, f, i);
    InodeInSlot(collection, f, initial, opts, |collection|);
    InodeInSlot(collection, i, initial, opts, |collection|);
    FinalInodeSize(collection, order, targets, x, i, opts);
    assert Apart(collection, f, i, initial, opts);
  }

  /** Writes the rows of numbers into the slots of the files they belong to. */
  method StoreNumbers(inotab: array<Byte>, collection: seq<DirEntry>, marks: seq<Mark>, opts: Options,
                      ghost before: seq<Byte>, order: seq<nat>, targets: seq<seq<nat>>)
    requires EntriesOk(collection) && Sound(collection, |before|, opts) && OrderOk(collection, order)
    requires |marks| == |collection| && AllMarked(collection, |before|, opts, marks)
             && RowsFit(collection, order, targets)
    requires TableOk(inotab[..], collection, before, opts, |collection|, |collection|)
    modifies inotab
    ensures TableDone(inotab[..], collection, before, opts, order, targets, |order|)
  {
    hide SizeAfter, SlotSize, FirstName, Over, Holds, Encode, InodeOf, Linked, Start, Sound, Numbers, GetInodeOffset,
         OrderOk, RowOf, EntriesOk;
    NoRowsYet(inotab[..], collection, before, opts, order, targets);
    hide TableOk, TableDone;
    for x := 0 to |order|
      invariant TableDone(inotab[..], collection, before, opts, order, targets, x)
    {
      RowStored(inotab[..], collection, before, opts, order, targets, x);
      assert MarkOk(collection, order[x], |before|, opts, marks[order[x]]);
      PutNumbers(inotab, GetInodeOffset(marks[order[x]].inonum) + opts.HeaderSize(), targets[x], opts);
    }
  }

  lemma NoRowsYet(table: seq<Byte>, collection: seq<DirEntry>, before: seq<Byte>, opts: Options, order: seq<nat>,
                  targets: seq<seq<nat>>)
    requires EntriesOk(collection) && TableOk(table, collection, before, opts, |collection|, |collection|)
    ensures TableDone(table, collection, before, opts, order, targets, 0)
  {
    hide SizeAfter, FirstName, Holds, Encode, Linked, Start;
  }

  // ---- The image ----

  /** A tree as it was given, and what making its image makes of it. */
  datatype Image = Image(collection: seq<DirEntry>, contents: seq<seq<Byte>>, others: seq<Item>, before: seq<Byte>,
                         opts: Options, order: seq<nat>, marks: seq<Mark>, targets: seq<seq<nat>>, table: seq<Byte>) {
    ghost predicate Valid() {
      && EntriesOk(collection) && OrderOk(collection, order) && ContentsOk(collection, contents)
      && |marks| == |collection| && AllMarked(collection, |before|, opts, marks)
      && RowsFit(collection, order, targets) && TableDone(table, collection, before, opts, order, targets, |order|)
    }

    /** The inode of the file first named at f, as it stands in the table. */
    function Made(f: nat): Inode
      requires EntriesOk(collection) && |order| <= |targets| && f < |collection|
    {
      FinalInode(collection, order, targets, |order|, f)
    }

    /** The bytes a reader should get of it. */
    function Bytes(f: nat): seq<Byte>
      requires f < |collection| == |contents|
    {
      if HasData(collection[f].mode) then contents[f] else []
    }
  }

  /** Everything the reader needs is in the volume: the inode table, and every file under the numbers in the table. */
  ghost predicate ImageOk(v: BlockReader.Volume, inotab: BlockReader.FileMap, im: Image) {
    && im.Valid() && BlockReader.Describes(v, inotab, im.table)
    && (forall x :: 0 <= x < |im.order| ==> FileDescribed(v, im, x))
    && forall a :: 0 <= a < |im.others| ==> OtherDescribed(v, im, a)
  }

  ghost predicate FileDescribed(v: BlockReader.Volume, im: Image, x: nat) {
    && x < |im.order| && x < |im.targets| && im.order[x] < |im.collection| && im.order[x] < |im.contents|
    && var i := im.order[x];
       var bytes := im.contents[i];
       BlockReader.Describes(v, BlockReader.FileMap(im.collection[i].blocksize, |bytes|, im.targets[x]), bytes)
  }

  ghost predicate OtherDescribed(v: BlockReader.Volume, im: Image, a: nat) {
    a < |im.others| && |im.order| + a < |im.targets| && BlockReader.Describes(v, OtherMap(im, a), im.others[a].source)
  }

  /** What the reader of another source goes by, as the inode of the root directory has it. */
  function OtherMap(im: Image, a: nat): BlockReader.FileMap
    requires a < |im.others| && |im.order| + a < |im.targets|
  {
    BlockReader.FileMap(im.others[a].blocksize, |im.others[a].source|, im.targets[|im.order| + a])
  }

  /** What the blockifier is given is in order. */
  ghost predicate SourcesOk(b: Blockifier, collection: seq<DirEntry>, contents: seq<seq<Byte>>, order: seq<nat>,
                            others: seq<Item>)
    reads b
  {
    && OrderOk(collection, order) && ContentsOk(collection, contents)
    && ItemsOk(others) && (forall a :: 0 <= a < |others| ==> others[a].blocksize <= b.cap)
    && forall i :: 0 <= i < |collection| ==> collection[i].blocksize <= b.cap
  }

  lemma SourcesAreItems(b: Blockifier, collection: seq<DirEntry>, contents: seq<seq<Byte>>, order: seq<nat>,
                        others: seq<Item>)
    requires EntriesOk(collection) && SourcesOk(b, collection, contents, order, others)
    ensures |contents| == |collection| && forall x :: 0 <= x < |order| ==> order[x] < |collection|
    ensures var schedule := Sources(collection, contents, order, others);
            ItemsOk(schedule) && forall a :: 0 <= a < |schedule| ==> schedule[a].blocksize <= b.cap
  {
    forall x | 0 <= x < |order|
      ensures order[x] < |collection|
    {
      assert order[x] in order;
    }
    var schedule := Sources(collection, contents, order, others);
    forall a | 0 <= a < |schedule|
      ensures 0 < schedule[a].blocksize <= b.cap
    {
      if a >= |order| {
        assert schedule[a] == others[a - |order|];
      } else {
        assert schedule[a].blocksize == collection[order[a]].blocksize;
      }
    }
  }

  /** The rows that the flush wrote are as long as the inodes demand. */
  lemma RowsAreFit(promised: seq<seq<Byte>>, collection: seq<DirEntry>, contents: seq<seq<Byte>>, order: seq<nat>,
                   others: seq<Item>, targets: seq<seq<nat>>)
    requires EntriesOk(collection) && OrderOk(collection, order) && ContentsOk(collection, contents) && ItemsOk(others)
    requires forall x :: 0 <= x < |order| ==> order[x] < |collection|
    requires ItemsOk(Sources(collection, contents, order, others))
    requires |targets| == |order| + |others|
             && TargetsWritten(promised, Sources(collection, contents, order, others), targets)
    ensures RowsFit(collection, order, targets)
  {
    var schedule := Sources(collection, contents, order, others);
    hide RowWritten, PlannedSize;
    forall x | 0 <= x < |order|
      ensures order[x] < |collection| && |targets[x]| == |InodeOf(collection[order[x]]).blocklist|
    {
      assert order[x] in order;
      assert |targets[x]| == Count(schedule[x]);
    }
  }

  /** What the reader of source k goes by. */
  function Mapped(schedule: seq<Item>, targets: seq<seq<nat>>, k: nat): BlockReader.FileMap
    requires k < |schedule| && k < |targets|
  {
    BlockReader.FileMap(schedule[k].blocksize, |schedule[k].source|, targets[k])
  }

  /** The numbers of every scheduled source describe it. */
  lemma AllDescribed(b: Blockifier, slot: nat -> nat, schedule: seq<Item>, targets: seq<seq<nat>>)
    requires b.Valid() && ItemsOk(schedule) && |targets| == |schedule|
    requires TargetsWritten(b.promised, schedule, targets)
    ensures forall k :: 0 <= k < |schedule| ==>
              BlockReader.Describes(BlockReader.Volume(b.blocks, Contents(b.fblocks), slot),
                                    Mapped(schedule, targets, k), schedule[k].source)
  {
    assert Keeps(b.fblocks, b.blocks, b.promised);
    hide RowWritten, Keeps, Count, BlockReader.Describes, RoomOk, OfferedOk, TotalSize;
    forall k | 0 <= k < |schedule|
      ensures BlockReader.Describes(BlockReader.Volume(b.blocks, Contents(b.fblocks), slot),
                                    Mapped(schedule, targets, k), schedule[k].source)
    {
      NumbersDescribe(b.fblocks, b.blocks, b.promised, schedule[k], targets[k], slot);
    }
  }

  /** In terms of the tree. */
  lemma SourcesDescribed(v: BlockReader.Volume, im: Image)
    requires |im.contents| == |im.collection| && forall x :: 0 <= x < |im.order| ==> im.order[x] < |im.collection|
    requires var schedule := Sources(im.collection, im.contents, im.order, im.others);
             && |im.targets| == |schedule|
             && forall k :: 0 <= k < |schedule| ==>
                  BlockReader.Describes(v, Mapped(schedule, im.targets, k), schedule[k].source)
    ensures forall x :: 0 <= x < |im.order| ==> FileDescribed(v, im, x)
    ensures forall a :: 0 <= a < |im.others| ==> OtherDescribed(v, im, a)
  {
    hide BlockReader.Describes;
    var schedule := Sources(im.collection, im.contents, im.order, im.others);
    forall x | 0 <= x < |im.order|
      ensures FileDescribed(v, im, x)
    {
      assert BlockReader.Describes(v, Mapped(schedule, im.targets, x), schedule[x].source);
    }
    forall a | 0 <= a < |im.others|
      ensures OtherDescribed(v, im, a)
    {
      assert BlockReader.Describes(v, Mapped(schedule, im.targets, |im.order| + a), schedule[|im.order| + a].source);
    }
  }

  /** The numbers of all files, and of the table, describe them to the reader. */
  lemma ImageIsOk(b: Blockifier, slot: nat -> nat, im: Image, item: Item, row: seq<nat>)
    requires im.Valid() && |im.contents| == |im.collection| && b.Valid()
    requires forall x :: 0 <= x < |im.order| ==> im.order[x] < |im.collection|
    requires var schedule := Sources(im.collection, im.contents, im.order, im.others);
             ItemsOk(schedule) && |im.targets| == |schedule| && TargetsWritten(b.promised, schedule, im.targets)
    requires 0 < item.blocksize && item.source == im.table && |row| == Count(item) && RowWritten(b.promised, item, row)
    ensures ImageOk(BlockReader.Volume(b.blocks, Contents(b.fblocks), slot),
                    BlockReader.FileMap(item.blocksize, |im.table|, row), im)
  {
    AllDescribed(b, slot, Sources(im.collection, im.contents, im.order, im.others), im.targets);
    assert Keeps(b.fblocks, b.blocks, b.promised);
    hide RowWritten, Keeps, Count, Image.Valid, BlockReader.Describes, RoomOk, OfferedOk, TotalSize, TargetsWritten,
         Blockifier.Valid, FileDescribed, OtherDescribed, Sources;
    NumbersDescribe(b.fblocks, b.blocks, b.promised, item, row, slot);
    SourcesDescribed(BlockReader.Volume(b.blocks, Contents(b.fblocks), slot), im);
  }

  /** Makes the image of a tree: inodes, then the data of all files, then their numbers, then the inode table itself. */
  method Build(before: seq<Byte>, collection: seq<DirEntry>, contents: seq<seq<Byte>>, order: seq<nat>,
               others: seq<Item>, b: Blockifier, hashing: HashMethod, isBlank: seq<Byte> -> bool, slot: nat -> nat,
               opts: Options, tableBlocksize: nat)
    returns (v: BlockReader.Volume, inotab: BlockReader.FileMap, im: Image)
    requires EntriesOk(collection) && SourcesOk(b, collection, contents, order, others) && 0 < tableBlocksize <= b.cap
    requires collection == [] || FirstFits(|before|, SlotSize(collection[0], opts))
    requires b.Valid() && forall z :: z in b.o.bsizes ==> 0 < z
    modifies b
    ensures b.Valid() && v.slot == slot && ImageOk(v, inotab, im)
    ensures im == Image(collection, contents, others, before, opts, order, im.marks, im.targets, im.table)
  {
    SourcesAreItems(b, collection, contents, order, others);
    LayoutIsSound(collection, |before|, opts);
    var schedule := Sources(collection, contents, order, others);
    hide FirstFits, SlotSize, EntriesOk, AllMarked, Sound, TableOk, TableDone, OrderOk, ContentsOk, RowsFit, RowWritten,
         TargetsWritten, ImageOk, Blockifier.Valid, Keeps, Count, Sources, IdenticalExact, SharesNumbers, Firsts, Total;
    var bytes, marks := WalkRootDir(before, collection, opts);
    var rows;
    ghost var copies;
    rows, copies := FlushBlockifyRequests(b, schedule, hashing, isBlank);
    ghost var promised := b.promised;
    RowsAreFit(promised, collection, contents, order, others, rows);
    StoreNumbers(bytes, collection, marks, opts, before, order, rows);
    var item := Item(bytes[..], tableBlocksize);
    var rows2;
    rows2, copies := FlushBlockifyRequests(b, [item], hashing, isBlank);
    FirstRow(promised, b.promised, schedule, rows, item, rows2);
    im := Image(collection, contents, others, before, opts, order, marks, rows, bytes[..]);
    v := BlockReader.Volume(b.blocks, Contents(b.fblocks), slot);
    inotab := BlockReader.FileMap(tableBlocksize, |item.source|, rows2[0]);
    ImageIsOk(b, slot, im, item, rows2[0]);
  }

  lemma FirstRow(promised: seq<seq<Byte>>, promised': seq<seq<Byte>>, schedule: seq<Item>, rows: seq<seq<nat>>,
                 item: Item, rows2: seq<seq<nat>>)
    requires ItemsOk(schedule) && 0 < item.blocksize && promised <= promised'
             && TargetsWritten(promised, schedule, rows)
    requires |rows2| == 1 && TargetsWritten(promised', [item], rows2)
    ensures TargetsWritten(promised', schedule, rows) && |rows2[0]| == Count(item)
            && RowWritten(promised', item, rows2[0])
  {
    hide Count, Written;
    EmptyRow(promised, item);
    WrittenSurvives(promised, promised', schedule, rows, item, []);
  }
}
