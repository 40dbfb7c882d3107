// util/mkcromfs.cc, WalkRootDir steps 4 and 5: writing the inodes and counting their links.
module InodeTable {
  import opened Endian
  import opened InodeFormat
  import opened InodeNumbers
  import DirectoryFormat
  import opened SearchSpec

  /** piece lies at position at. */
  ghost predicate Holds(table: seq<Byte>, at: nat, piece: seq<Byte>) {
    at + |piece| <= |table| && table[at..at + |piece|] == piece
  }

  lemma OverHolds(table: seq<Byte>, p: nat, bytes: seq<Byte>)
    requires p + |bytes| <= |table|
    ensures Holds(Over(table, p, bytes), p, bytes)
  {
  }

  lemma OverKeeps(table: seq<Byte>, p: nat, bytes: seq<Byte>, at: nat, piece: seq<Byte>)
    requires p + |bytes| <= |table| && Holds(table, at, piece) && (at + |piece| <= p || p + |bytes| <= at)
    ensures Holds(Over(table, p, bytes), at, piece)
  {
    var table' := Over(table, p, bytes);
    forall k | at <= k < at + |piece|
      ensures table'[k] == piece[k - at]
    {
      assert table[k] == table[at..at + |piece|][k - at];
    }
    assert table'[at..at + |piece|] == piece;
  }

  /** The table holds what each of the first n files should have, and begins as it did. */
  ghost predicate TableOk(table: seq<Byte>, collection: seq<DirEntry>, before: seq<Byte>, opts: Options, n: nat,
                          linked: nat)
    requires EntriesOk(collection) && n <= |collection| && linked <= |collection|
  {
    && |table| == SizeAfter(collection, |collection|, |before|, opts)
    && Holds(table, 0, before)
    && forall i :: 0 <= i < n && IsNew(collection, i) ==>
                     Holds(table, Start(collection, i, |before|, opts), Encode(Linked(collection, i, linked), opts))
  }

  /** How many of the first n entries are further names of the file first named at f. */
  function FurtherNames(collection: seq<DirEntry>, f: nat, n: nat): nat
    requires f < |collection| && n <= |collection|
  {
    if n == 0 then 0
    else
      FurtherNames(collection, f, n - 1)
      + (if !IsNew(collection, n - 1) && FirstName(collection, n - 1) == f then 1 else 0)
  }

  /** The inode of a file when n entries have had their link counted. */
  function Linked(collection: seq<DirEntry>, f: nat, n: nat): (inode: Inode)
    requires f < |collection| && n <= |collection| && EntriesOk(collection)
    ensures |inode.blocklist| == |InodeOf(collection[f]).blocklist|
  {
    var inode := InodeOf(collection[f]);
    inode.(links := inode.links + FurtherNames(collection, f, n))
  }

  /** All names of the file first named at f. */
  ghost function Names(collection: seq<DirEntry>, f: nat, n: nat): set<nat>
    requires f < |collection| && n <= |collection|
  {
    set k: nat | k < n && SameFile(collection[k], collection[f])
  }

  lemma OneMoreName(collection: seq<DirEntry>, f: nat, n: nat)
    requires f < |collection| && 0 < n <= |collection|
    ensures |Names(collection, f, n)|
            == |Names(collection, f, n - 1)| + (if SameFile(collection[n - 1], collection[f]) then 1 else 0)
  {
    var names := Names(collection, f, n - 1);
    assert Names(collection, f, n) == if SameFile(collection[n - 1], collection[f]) then names + {n - 1} else names;
  }

  /** Counting the repeats counts the names but the first. */
  lemma {:induction false} RepeatsCountNames(collection: seq<DirEntry>, f: nat, n: nat)
    requires f < |collection| && n <= |collection| && IsNew(collection, f)
    ensures |Names(collection, f, n)| == FurtherNames(collection, f, n) + if f < n then 1 else 0
  {
    if n > 0 {
      RepeatsCountNames(collection, f, n - 1);
      FirstIsCommon(collection, f, n - 1);
      OneMoreName(collection, f, n);
      hide FirstName, Names;
    } else {
      assert Names(collection, f, n) == {};
    }
  }

  // ---- Step 4 ----

  /** Writing the inode of a new file leaves what was written before. */
  lemma InodeWritten(table: seq<Byte>, collection: seq<DirEntry>, before: seq<Byte>, opts: Options, p: nat)
    requires EntriesOk(collection) && p < |collection| && IsNew(collection, p) && Sound(collection, |before|, opts)
    requires TableOk(table, collection, before, opts, p, 0)
    ensures var at, bytes := Start(collection, p, |before|, opts), Encode(InodeOf(collection[p]), opts);
            at + |bytes| <= |table| && TableOk(Over(table, at, bytes), collection, before, opts, p + 1, 0)
  {
    hide SizeAfter, SlotSize, FirstName, Over, Holds, Encode;
    var at, inode := Start(collection, p, |before|, opts), InodeOf(collection[p]);
    var bytes := Encode(inode, opts);
    assert Linked(collection, p, 0) == inode;
    InodeInSlot(collection, p, |before|, opts, 0);
    var table' := Over(table, at, bytes);
    OverKeeps(table, at, bytes, 0, before);
    OverHolds(table, at, bytes);
    forall i | 0 <= i < p && IsNew(collection, i)
      ensures Holds(table', Start(collection, i, |before|, opts), Encode(Linked(collection, i, 0), opts))
    {
      OtherInodeStays(table, collection, before, opts, p, i);
    }
  }

  /** Writing entry p's inode leaves that of an earlier entry. */
  lemma OtherInodeStays(table: seq<Byte>, collection: seq<DirEntry>, before: seq<Byte>, opts: Options, p: nat, i: nat)
    requires EntriesOk(collection) && i < p < |collection| && IsNew(collection, p) && Sound(collection, |before|, opts)
    requires TableOk(table, collection, before, opts, p, 0) && IsNew(collection, i)
    ensures var at, bytes := Start(collection, p, |before|, opts), Encode(InodeOf(collection[p]), opts);
            at + |bytes| <= |table|
            && Holds(Over(table, at, bytes), Start(collection, i, |before|, opts),
                     Encode(Linked(collection, i, 0), opts))
  {
    hide SizeAfter, SlotSize, FirstName, Over, Holds, Encode;
    var at, inode := Start(collection, p, |before|, opts), InodeOf(collection[p]);
    assert Linked(collection, p, 0) == inode;
    InodeInSlot(collection, p, |before|, opts, 0);
    InodeInSlot(collection, i, |before|, opts, 0);
    FirstIsCommon(collection, i, p);
    assert Apart(collection, i, p, |before|, opts);
    OverKeeps(table, at, Encode(inode, opts), Start(collection, i, |before|, opts),
              Encode(Linked(collection, i, 0), opts));
  }

  /** Every inode lies in the slot planned for it, whatever its link count. */
  lemma InodeInSlot(collection: seq<DirEntry>, i: nat, initial: nat, opts: Options, linked: nat)
    requires EntriesOk(collection) && i < |collection| && IsNew(collection, i) && linked <= |collection|
    requires Sound(collection, initial, opts)
    ensures initial <= Start(collection, i, initial, opts)
    ensures Start(collection, i, initial, opts) + |Encode(Linked(collection, i, linked), opts)|
            <= End(collection, i, initial, opts)
    ensures End(collection, i, initial, opts) <= SizeAfter(collection, |collection|, initial, opts)
  {
    hide SlotSize, SizeAfter, FirstName;
    SlotInPlace(collection, i, initial, opts);
    InodeFitsSlot(collection[i], opts);
  }

  method WriteInodes(inotab: array<Byte>, collection: seq<DirEntry>, marks: seq<Mark>, opts: Options,
                     ghost before: seq<Byte>)
    requires EntriesOk(collection) && Sound(collection, |before|, opts)
    requires |marks| == |collection| && AllMarked(collection, |before|, opts, marks)
    requires TableOk(inotab[..], collection, before, opts, 0, 0)
    modifies inotab
    ensures TableOk(inotab[..], collection, before, opts, |collection|, 0)
  {
    hide TableOk, SizeAfter, Start, InodeOf, Encode, Header, Over, Sound, SlotSize, GetInodeOffset, FirstName,
         EntriesOk;
    for p := 0 to |collection|
      invariant TableOk(inotab[..], collection, before, opts, p, 0)
    {
      assert MarkOk(collection, p, |before|, opts, marks[p]);
      if marks[p].needsBlockify {
        SlotSizeOf(collection, p, opts);
        InodeWritten(inotab[..], collection, before, opts, p);
        PutInode(inotab, GetInodeOffset(marks[p].inonum), InodeOf(collection[p]), opts, true);
      } else {
        NotNew(inotab[..], collection, before, opts, p);
      }
    }
  }

  lemma NotNew(table: seq<Byte>, collection: seq<DirEntry>, before: seq<Byte>, opts: Options, p: nat)
    requires EntriesOk(collection) && p < |collection| && !IsNew(collection, p)
             && TableOk(table, collection, before, opts, p, 0)
    ensures TableOk(table, collection, before, opts, p + 1, 0)
  {
  }

  // ---- Step 5 ----

  lemma SliceOfTable(table: seq<Byte>, at: nat, piece: seq<Byte>) returns (rest: seq<Byte>)
    requires Holds(table, at, piece)
    ensures at <= |table| && table[at..] == piece + rest
  {
    rest := table[at + |piece|..];
    assert table[at..] == table[at..at + |piece|] + rest;
  }

  lemma Get32InSlice(table: seq<Byte>, at: nat, k: nat)
    requires at + k + 4 <= |table|
    ensures Get32(table, at + k) == Get32(table[at..], k)
  {
  }

  lemma OverInSlice(table: seq<Byte>, at: nat, k: nat, bytes: seq<Byte>)
    requires at + k + |bytes| <= |table|
    ensures Over(table, at + k, bytes)[at..] == Over(table[at..], k, bytes)
  {
  }

  /** In a table that holds an inode, its first word is the mode, and raising its third word adds a link. */
  lemma LinkInTable(table: seq<Byte>, at: nat, inode: Inode, opts: Options)
    requires Holds(table, at, Encode(inode, opts)) && inode.mode < 0x1_0000_0000
    ensures at + 12 <= |table| && Get32(table, at) == inode.mode
    ensures !IsDevice(inode.mode) ==>
              Holds(Over(table, at + 8, LittleEndian(Get32(table, at + 8) + 1, 4)), at,
                    Encode(inode.(links := inode.links + 1), opts))
  {
    hide LittleEndian, Get32, Header, IsDevice, Over, Numbers;
    var numbers := Numbers(inode.blocklist, opts);
    var more := SliceOfTable(table, at, Encode(inode, opts));
    var rest := numbers + more;
    var header := Header(inode, opts);
    assert table[at..] == header + rest;
    Get32InSlice(table, at, 0);
    Get32InSlice(table, at, 8);
    ModeWord(inode, opts, rest);
    if !IsDevice(inode.mode) {
      OneMoreLink(inode, opts, rest);
      var w := LittleEndian(Get32(table, at + 8) + 1, 4);
      OverInSlice(table, at, 8, w);
      var header' := Header(inode.(links := inode.links + 1), opts);
      assert Over(table, at + 8, w)[at..] == (header' + numbers) + more by {
        assert header' + rest == (header' + numbers) + more;
      }
      PrefixHolds(Over(table, at + 8, w), at, header' + numbers, more);
    }
  }

  lemma PrefixHolds(table: seq<Byte>, at: nat, piece: seq<Byte>, more: seq<Byte>)
    requires at <= |table| && table[at..] == piece + more
    ensures Holds(table, at, piece)
  {
    assert table[at..at + |piece|] == table[at..][..|piece|];
  }

  /** A device's link count is not stored. */
  lemma DeviceLinks(inode: Inode, links: nat, opts: Options)
    requires IsDevice(inode.mode)
    ensures Encode(inode.(links := links), opts) == Encode(inode, opts)
  {
    hide LittleEndian, IsDevice;
  }

  /** The inode of another name's file, after entry p. */
  lemma LinkedNext(collection: seq<DirEntry>, i: nat, p: nat)
    requires EntriesOk(collection) && i < |collection| && p < |collection| && IsNew(collection, i)
    ensures var inode := Linked(collection, i, p);
            Linked(collection, i, p + 1) == if !IsNew(collection, p) && FirstName(collection, p) == i then
            inode.(links := inode.links + 1)
                                            else inode
  {
    hide FirstName, InodeOf;
  }

  /** Counting entry p's link gives its file one more and changes no other inode. */
  lemma LinkCounted(table: seq<Byte>, collection: seq<DirEntry>, before: seq<Byte>, opts: Options, p: nat)
    requires EntriesOk(collection) && p < |collection| && !IsNew(collection, p) && Sound(collection, |before|, opts)
    requires TableOk(table, collection, before, opts, |collection|, p)
    ensures var at := Start(collection, p, |before|, opts);
            && at + 12 <= |table|
            && (if IsDevice(Get32(table, at)) then TableOk(table, collection, before, opts, |collection|, p + 1)
                else TableOk(Over(table, at + 8, LittleEndian(Get32(table, at + 8) + 1, 4)), collection, before, opts,
                             |collection|, p + 1))
  {
    hide SizeAfter, SlotSize, FirstName, Over, Holds, Encode, Get32, LittleEndian, IsDevice, InodeOf, Linked, Start,
         Sound, FurtherNames;
    var f, at := FirstName(collection, p), Start(collection, p, |before|, opts);
    StartIsShared(collection, p, |before|, opts);
    LinkedMode(collection, f, p);
    var inode := Linked(collection, f, p);
    LinkInTable(table, at, inode, opts);
    InodeInSlot(collection, f, |before|, opts, p);
    var w := LittleEndian(Get32(table, at + 8) + 1, 4);
    var device := IsDevice(Get32(table, at));
    var table' := if device then table else Over(table, at + 8, w);
    if !device {
      OverKeeps(table, at + 8, w, 0, before);
    }
    forall i | 0 <= i < |collection| && IsNew(collection, i)
      ensures Holds(table', Start(collection, i, |before|, opts), Encode(Linked(collection, i, p + 1), opts))
    {
      LinkedNext(collection, i, p);
      if i == f {
        if device {
          DeviceLinks(inode, inode.links + 1, opts);
        }
      } else if !device {
        OthersApart(collection, f, i, |before|, opts, p);
        OverKeeps(table, at + 8, w, Start(collection, i, |before|, opts), Encode(Linked(collection, i, p), opts));
      }
    }
  }

  lemma LinkedMode(collection: seq<DirEntry>, f: nat, n: nat)
    requires EntriesOk(collection) && f < |collection| && n <= |collection|
    ensures Linked(collection, f, n).mode == collection[f].mode < 0x1_0000_0000
  {
  }

  /** The link count of file f lies outside the inode of file i. */
  lemma OthersApart(collection: seq<DirEntry>, f: nat, i: nat, initial: nat, opts: Options, linked: nat)
    requires EntriesOk(collection) && f < |collection| && i < |collection| && f != i && linked <= |collection|
    requires IsNew(collection, f) && IsNew(collection, i) && Sound(collection, initial, opts)
    ensures var at, other := Start(collection, f, initial, opts), Start(collection, i, initial, opts);
            other + |Encode(Linked(collection, i, linked), opts)| <= at + 8 || at + 12 <= other
  {
    hide SizeAfter, SlotSize, FirstName, Encode, Linked;
    FirstIsCommon(collection, f, i);
    InodeInSlot(collection, i, initial, opts, linked);
    Longer(collection, f, initial, opts);
    assert Apart(collection, f, i, initial, opts);
  }

  /** A first name is not counted again. */
  lemma FirstNameCounts(table: seq<Byte>, collection: seq<DirEntry>, before: seq<Byte>, opts: Options, p: nat)
    requires EntriesOk(collection) && p < |collection| && IsNew(collection, p)
    requires TableOk(table, collection, before, opts, |collection|, p)
    ensures TableOk(table, collection, before, opts, |collection|, p + 1)
  {
    hide SizeAfter, FirstName, Holds, Encode, Start;
    forall i | 0 <= i < |collection| && IsNew(collection, i)
      ensures Linked(collection, i, p + 1) == Linked(collection, i, p)
    {
      LinkedNext(collection, i, p);
    }
  }

  method CountLinks(inotab: array<Byte>, collection: seq<DirEntry>, marks: seq<Mark>, opts: Options,
                    ghost before: seq<Byte>)
    requires EntriesOk(collection) && Sound(collection, |before|, opts)
    requires |marks| == |collection| && AllMarked(collection, |before|, opts, marks)
    requires TableOk(inotab[..], collection, before, opts, |collection|, 0)
    modifies inotab
    ensures TableOk(inotab[..], collection, before, opts, |collection|, |collection|)
  {
    hide TableOk, SizeAfter, Start, Over, Sound, SlotSize, GetInodeOffset, FirstName, EntriesOk, Get32, IsDevice,
         LittleEndian;
    for p := 0 to |collection|
      invariant TableOk(inotab[..], collection, before, opts, |collection|, p)
    {
      assert MarkOk(collection, p, |before|, opts, marks[p]);
      if !marks[p].needsBlockify {
        var pos := GetInodeOffset(marks[p].inonum);
        LinkCounted(inotab[..], collection, before, opts, p);
        IncrementInodeLinkcount(inotab, pos);
      } else {
        FirstNameCounts(inotab[..], collection, before, opts, p);
      }
    }
  }

  // ---- The whole walk ----

  /** Appends the inodes of the collected entries to an inode table, and tells every entry its number. */
  method WalkRootDir(before: seq<Byte>, collection: seq<DirEntry>, opts: Options)
    returns (inotab: array<Byte>, marks: seq<Mark>)
    requires EntriesOk(collection) && (collection == [] || FirstFits(|before|, SlotSize(collection[0], opts)))
    ensures fresh(inotab) && |marks| == |collection| && AllMarked(collection, |before|, opts, marks)
    ensures TableOk(inotab[..], collection, before, opts, |collection|, |collection|)
  {
    hide TableOk, Start, Sound, SlotSize, FirstName, AllMarked, EntriesOk, FirstFits;
    var inotabSize;
    marks, inotabSize := AssignNumbers(collection, |before|, opts);
    LayoutIsSound(collection, |before|, opts);
    SizesGrow(collection, 0, |collection|, |before|, opts);
    inotab := new Byte[inotabSize](i requires 0 <= i => if i < |before| then before[i] else 0);
    EmptyTable(inotab[..], collection, before, opts);
    WriteInodes(inotab, collection, marks, opts, before);
    CountLinks(inotab, collection, marks, opts, before);
  }

  lemma EmptyTable(table: seq<Byte>, collection: seq<DirEntry>, before: seq<Byte>, opts: Options)
    requires EntriesOk(collection) && |table| == SizeAfter(collection, |collection|, |before|, opts) >= |before|
    requires forall i :: 0 <= i < |before| ==> table[i] == before[i]
    ensures TableOk(table, collection, before, opts, 0, 0)
  {
    assert table[0..0 + |before|] == before;
  }

  // ---- What a reader finds ----

  /** Block numbers put into the room after the header make the inode's encoding that of a file with those blocks. */
  lemma NumbersFillSlot(inode: Inode, opts: Options, list: seq<nat>)
    requires |list| == |inode.blocklist|
    ensures Over(Encode(inode, opts), opts.HeaderSize(), Numbers(list, opts)) == Encode(inode.(blocklist := list), opts)
  {
    assert Header(inode.(blocklist := list), opts) == Header(inode, opts);
    hide LittleEndian, Header, Numbers;
  }

  /** The entry's numbers fit the fields of an inode. */
  ghost predicate EntryFits(e: DirEntry, names: nat, opts: Options, bsize: nat) {
    && e.mode < 0x1_0000_0000 && e.time < 0x1_0000_0000 && e.uid < 0x1_0000 && e.gid < 0x1_0000
    && (if IsDevice(e.mode) then e.rdev else if IsDir(e.mode) then |e.dirinfo| + names - 1 else names) < 0x1_0000_0000
    && PlannedSize(e) < 0x1_0000_0000_0000_0000
    && if opts.variableBlocksizes then e.blocksize < 0x1_0000_0000 else e.blocksize == bsize
  }

  /** What the inode of a file, its links counted, gives back. */
  lemma LinkedTells(collection: seq<DirEntry>, f: nat)
    requires EntriesOk(collection) && f < |collection| && IsNew(collection, f)
    ensures var e, names := collection[f], |Names(collection, f, |collection|)|;
            Tells(Restored(Linked(collection, f, |collection|)), e, names,
                  if IsDir(e.mode) then |DirectoryFormat.Encode(e.dirinfo)|
                  else if IsSymlink(e.mode) || IsRegular(e.mode) then e.size
                  else 0)
  {
    hide FirstName, Names, FurtherNames, IsDevice, IsDir, IsSymlink, IsRegular, DirectoryFormat.Encode;
    RepeatsCountNames(collection, f, |collection|);
    TypesApart(collection[f].mode);
  }

  lemma TypesApart(mode: nat)
    ensures IsDir(mode) ==> !IsDevice(mode)
  {
  }

  /** Whatever name leads to a file, the header that the table gives back says of the file what its first entry does,
      with the links of all its names. */
  lemma EveryNameFindsItsInode(table: seq<Byte>, collection: seq<DirEntry>, before: seq<Byte>, opts: Options,
                               marks: seq<Mark>, i: nat, bsize: nat)
    requires EntriesOk(collection) && |marks| == |collection| && AllMarked(collection, |before|, opts, marks)
    requires TableOk(table, collection, before, opts, |collection|, |collection|) && i < |collection|
    requires var f := FirstName(collection, i);
             EntryFits(collection[f], |Names(collection, f, |collection|)|, opts, bsize)
    ensures 2 <= marks[i].inonum && GetInodeOffset(marks[i].inonum) <= |table|
    ensures var e, data := collection[FirstName(collection, i)], table[GetInodeOffset(marks[i].inonum)..];
            && opts.HeaderSize() <= |data|
            && Tells(ReadHeader(data, opts, bsize, []), e, |Names(collection, FirstName(collection, i), |collection|)|,
                     if IsDir(e.mode) then |DirectoryFormat.Encode(e.dirinfo)|
                     else if IsSymlink(e.mode) || IsRegular(e.mode) then e.size
                     else 0)
  {
    hide SizeAfter, LittleEndian, Get16, Get32, Get64, Encode, Start, IsDevice, IsDir, IsSymlink, IsRegular,
         DirectoryFormat.Encode, Names;
    var f := FirstName(collection, i);
    assert MarkOk(collection, i, |before|, opts, marks[i]);
    StartIsShared(collection, i, |before|, opts);
    RepeatsCountNames(collection, f, |collection|);
    LinkedTells(collection, f);
    var inode := Linked(collection, f, |collection|);
    var at := Start(collection, f, |before|, opts);
    var more := SliceOfTable(table, at, Encode(inode, opts));
    HeaderAlone(inode, opts, more);
    HeaderRoundTrip(inode, opts, bsize, Numbers(inode.blocklist, opts) + more);
  }

  lemma HeaderAlone(inode: Inode, opts: Options, more: seq<Byte>)
    ensures Encode(inode, opts) + more == Header(inode, opts) + (Numbers(inode.blocklist, opts) + more)
  {
    hide Header, Numbers;
  }
}
