// util/mkcromfs.cc, WalkRootDir step 2: numbering the inodes and laying them out in the inode table.
module InodeNumbers {
  import opened Arithmetic
  import opened InodeFormat
  import DirectoryFormat

  /** A name found in the tree, with what lstat said of it; blocksize is what its path name gets. */
  datatype DirEntry = DirEntry(dev: nat, ino: nat, mode: nat, time: nat, uid: nat, gid: nat, rdev: nat, size: nat,
                               dirinfo: seq<DirectoryFormat.Entry>, blocksize: nat)

  datatype Mark = Mark(inonum: nat, needsBlockify: bool)

  predicate IsDir(mode: nat) {
    mode / 0x1000 % 16 == 4
  }

  predicate IsRegular(mode: nat) {
    mode / 0x1000 % 16 == 8
  }

  predicate IsSymlink(mode: nat) {
    mode / 0x1000 % 16 == 10
  }

  ghost predicate EntriesOk(collection: seq<DirEntry>) {
    forall i :: 0 <= i < |collection| ==> 0 < collection[i].blocksize && collection[i].mode < 0x1_0000_0000
  }

  /** The size step 2 goes by; a directory's is that of its encoding. */
  function PlannedSize(e: DirEntry): nat {
    if IsDir(e.mode) then |DirectoryFormat.Encode(e.dirinfo)| else e.size
  }

  function SlotSize(e: DirEntry, opts: Options): nat
    requires 0 < e.blocksize
  {
    opts.InodeSize(CalcSizeInBlocks(PlannedSize(e), e.blocksize))
  }

  /** An inode says of a file what its entry in the tree does. It has a link for each name; a directory begins with one
      for each entry instead, a device number takes the place of a device's, and only data has a size. */
  ghost predicate Tells(inode: Inode, e: DirEntry, names: nat, bytesize: nat) {
    && inode.mode == e.mode && inode.time == e.time && inode.uid == e.uid && inode.gid == e.gid
    && inode.blocksize == e.blocksize && inode.bytesize == bytesize
    && inode.rdev == (if IsDevice(e.mode) then e.rdev else 0)
    && inode.links == if IsDevice(e.mode) then 1
                      else if IsDir(e.mode) then |e.dirinfo| + names - 1
                      else names
  }

  /** The types of sys/stat.h: each is seen as what it is, whatever its permissions are. */
  lemma FileTypes(permissions: nat)
    requires permissions < 0x1000
    ensures TypeOf(0x1000 + permissions) == Other && TypeOf(0x2000 + permissions) == Device
    ensures TypeOf(0x4000 + permissions) == Directory && TypeOf(0x6000 + permissions) == Device
    ensures TypeOf(0x8000 + permissions) == Regular && TypeOf(0xA000 + permissions) == Symlink
    ensures TypeOf(0xC000 + permissions) == Other
  {
  }

  datatype FileType = Regular | Directory | Symlink | Device | Other

  function TypeOf(mode: nat): (t: FileType)
    ensures IsRegular(mode) <==> t == Regular
    ensures IsDir(mode) <==> t == Directory
    ensures IsSymlink(mode) <==> t == Symlink
    ensures IsDevice(mode) <==> t == Device
  {
    if IsRegular(mode) then Regular
    else if IsDir(mode) then Directory
    else if IsSymlink(mode) then Symlink
    else if IsDevice(mode) then Device
    else Other
  }

  /** The inode step 4 makes: link counts start from 1, or from a directory's entries; only data has blocks. */
  function InodeOf(e: DirEntry): (inode: Inode)
    requires 0 < e.blocksize
    ensures inode.blocksize == e.blocksize && |inode.blocklist| == BlocksOf(inode)
  {
    var bytesize := if IsDir(e.mode) || IsSymlink(e.mode) || IsRegular(e.mode) then PlannedSize(e) else 0;
    Inode(e.mode, e.time, if IsDir(e.mode) then |e.dirinfo| else 1, if IsDevice(e.mode) then e.rdev else 0,
          e.uid, e.gid, bytesize, e.blocksize, seq(CalcSizeInBlocks(bytesize, e.blocksize), _ => 0))
  }

  /** An inode never outgrows the room planned for it, and fills it unless the entry holds no data of its own. */
  lemma InodeFitsSlot(e: DirEntry, opts: Options)
    requires 0 < e.blocksize
    ensures |Encode(InodeOf(e), opts)| <= SlotSize(e, opts)
    ensures IsDir(e.mode) || IsSymlink(e.mode) || IsRegular(e.mode) ==> |Encode(InodeOf(e), opts)| == SlotSize(e, opts)
  {
    DivUnique(e.blocksize - 1, e.blocksize, 0, e.blocksize - 1);
  }

  // ---- Numbers and offsets ----

  /** The next multiple of 4. */
  function RoundUp4(n: nat): nat {
    (n + 3) / 4 * 4
  }

  function GetInodeOffset(inonum: nat): nat
    requires 2 <= inonum
  {
    (inonum - 2) * 4
  }

  /** Number 2 is at the beginning of the table, and every next number 4 bytes further. */
  lemma InodeOffsets(inonum: nat)
    requires 2 <= inonum
    ensures GetInodeOffset(2) == 0 && GetInodeOffset(inonum + 1) == GetInodeOffset(inonum) + 4
  {
  }

  function GetFirstFreeInodeNumber(inotabSize: nat): (inonum: nat)
    ensures 2 <= inonum && GetInodeOffset(inonum) == RoundUp4(inotabSize)
  {
    (inotabSize + 3) / 4 + 2
  }

  predicate SameFile(a: DirEntry, b: DirEntry) {
    a.dev == b.dev && a.ino == b.ino
  }

  /** The first entry that names the same file as entry i. */
  function FirstName(collection: seq<DirEntry>, i: nat, from: nat := 0): (f: nat)
    requires from <= i < |collection|
    ensures from <= f <= i && SameFile(collection[f], collection[i])
    ensures forall k :: from <= k < f ==> !SameFile(collection[k], collection[i])
    decreases i - from
  {
    if SameFile(collection[from], collection[i]) then from else FirstName(collection, i, from + 1)
  }

  predicate IsNew(collection: seq<DirEntry>, i: nat)
    requires i < |collection|
  {
    FirstName(collection, i) == i
  }

  lemma NewExactly(collection: seq<DirEntry>, i: nat)
    requires i < |collection|
    ensures IsNew(collection, i) <==> forall k :: 0 <= k < i ==> !SameFile(collection[k], collection[i])
    ensures IsNew(collection, FirstName(collection, i))
  {
  }

  /** Two entries have the same first entry exactly when they name the same file. */
  lemma FirstIsCommon(collection: seq<DirEntry>, i: nat, j: nat)
    requires i < |collection| && j < |collection|
    ensures FirstName(collection, i) == FirstName(collection, j) <==> SameFile(collection[i], collection[j])
  {
  }

  /** How far the table reaches after k entries, beginning with a table of size initial. */
  function SizeAfter(collection: seq<DirEntry>, k: nat, initial: nat, opts: Options): nat
    requires k <= |collection| && EntriesOk(collection)
  {
    if k == 0 then initial
    else
      var before := SizeAfter(collection, k - 1, initial, opts);
      if IsNew(collection, k - 1) then RoundUp4(before + SlotSize(collection[k - 1], opts)) else before
  }

  /** Where the inode of entry i begins. */
  function Start(collection: seq<DirEntry>, i: nat, initial: nat, opts: Options): nat
    requires i < |collection| && EntriesOk(collection)
  {
    RoundUp4(SizeAfter(collection, FirstName(collection, i), initial, opts))
  }

  /** Where the room planned for it ends. */
  function End(collection: seq<DirEntry>, i: nat, initial: nat, opts: Options): nat
    requires i < |collection| && EntriesOk(collection)
  {
    Start(collection, i, initial, opts) + SlotSize(collection[FirstName(collection, i)], opts)
  }

  // ---- Step 2 ----

  ghost predicate AllMarked(collection: seq<DirEntry>, initial: nat, opts: Options, marks: seq<Mark>)
    requires EntriesOk(collection)
  {
    && |marks| <= |collection|
    && forall i :: 0 <= i < |marks| ==> MarkOk(collection, i, initial, opts, marks[i])
  }

  /** The number leads to the slot of the file's first entry, which alone needs its data stored. */
  ghost predicate MarkOk(collection: seq<DirEntry>, i: nat, initial: nat, opts: Options, m: Mark)
    requires i < |collection| && EntriesOk(collection)
  {
    && m.needsBlockify == IsNew(collection, i)
    && 2 <= m.inonum && GetInodeOffset(m.inonum) == Start(collection, i, initial, opts)
  }

  function Key(e: DirEntry): (nat, nat) {
    (e.dev, e.ino)
  }

  /** hardlinks knows the files named so far, and their numbers. */
  ghost predicate LinksKnown(collection: seq<DirEntry>, marks: seq<Mark>, hardlinks: map<(nat, nat), nat>) {
    && |marks| <= |collection|
    && (forall i :: 0 <= i < |marks| ==>
        Key(collection[i]) in hardlinks && hardlinks[Key(collection[i])] == marks[i].inonum)
    && forall key :: key in hardlinks ==> exists i :: 0 <= i < |marks| && Key(collection[i]) == key
  }

  /** Numbers every entry; entries of the same file share a number, and the first of them gets the blocks. */
  method AssignNumbers(collection: seq<DirEntry>, initial: nat, opts: Options)
    returns (marks: seq<Mark>, inotabSize: nat)
    requires EntriesOk(collection)
    ensures |marks| == |collection| && AllMarked(collection, initial, opts, marks)
    ensures inotabSize == SizeAfter(collection, |collection|, initial, opts)
  {
    hide SlotSize, RoundUp4, GetInodeOffset, FirstName, EntriesOk, MarkOk, PlannedSize, LinksKnown;
    NothingKnown(collection);
    inotabSize := initial;
    marks := [];
    var hardlinks: map<(nat, nat), nat> := map[];
    for p := 0 to |collection|
      invariant |marks| == p && inotabSize == SizeAfter(collection, p, initial, opts)
      invariant AllMarked(collection, initial, opts, marks) && LinksKnown(collection, marks, hardlinks)
    {
      var ent := collection[p];
      var hardlink := (ent.dev, ent.ino);
      if hardlink in hardlinks {
        ghost var i := KnownFrom(collection, marks, hardlinks, hardlink);
        Repeat(collection, i, p, initial, opts, marks[i]);
        LinksGrow(collection, marks, hardlinks, Mark(hardlinks[hardlink], false));
        assert hardlinks[hardlink := hardlinks[hardlink]] == hardlinks;
        marks := marks + [Mark(hardlinks[hardlink], false)];
      } else {
        Unknown(collection, marks, hardlinks, ent);
        var inonum := GetFirstFreeInodeNumber(inotabSize);
        Newcomer(collection, p, initial, opts);
        LinksGrow(collection, marks, hardlinks, Mark(inonum, true));
        hardlinks := hardlinks[hardlink := inonum];
        marks := marks + [Mark(inonum, true)];
        SlotSizeOf(collection, p, opts);
        var numBlocks := CalcSizeInBlocks(PlannedSize(ent), ent.blocksize);
        inotabSize := RoundUp4(inotabSize + opts.InodeSize(numBlocks));
      }
    }
  }

  lemma NothingKnown(collection: seq<DirEntry>)
    ensures LinksKnown(collection, [], map[])
  {
  }

  lemma KnownFrom(collection: seq<DirEntry>, marks: seq<Mark>, hardlinks: map<(nat, nat), nat>, key: (nat, nat))
    returns (i: nat)
    requires LinksKnown(collection, marks, hardlinks) && key in hardlinks
    ensures i < |marks| && Key(collection[i]) == key && marks[i].inonum == hardlinks[key]
  {
    i :| 0 <= i < |marks| && Key(collection[i]) == key;
  }

  lemma Unknown(collection: seq<DirEntry>, marks: seq<Mark>, hardlinks: map<(nat, nat), nat>, e: DirEntry)
    requires LinksKnown(collection, marks, hardlinks) && Key(e) !in hardlinks
    ensures forall k :: 0 <= k < |marks| ==> !SameFile(collection[k], e)
  {
    forall k | 0 <= k < |marks|
      ensures !SameFile(collection[k], e)
    {
      assert Key(collection[k]) in hardlinks;
    }
  }

  lemma LinksGrow(collection: seq<DirEntry>, marks: seq<Mark>, hardlinks: map<(nat, nat), nat>, m: Mark)
    requires LinksKnown(collection, marks, hardlinks) && |marks| < |collection|
    requires var key := Key(collection[|marks|]); key in hardlinks ==> hardlinks[key] == m.inonum
    ensures LinksKnown(collection, marks + [m], hardlinks[Key(collection[|marks|]) := m.inonum])
  {
    var p, marks' := |marks|, marks + [m];
    var hardlinks' := hardlinks[Key(collection[p]) := m.inonum];
    forall i | 0 <= i < |marks'|
      ensures Key(collection[i]) in hardlinks' && hardlinks'[Key(collection[i])] == marks'[i].inonum
    {
      if i < p {
        assert Key(collection[i]) in hardlinks && hardlinks[Key(collection[i])] == marks[i].inonum;
      }
    }
    forall key | key in hardlinks'
      ensures exists i :: 0 <= i < |marks'| && Key(collection[i]) == key
    {
      if key == Key(collection[p]) {
        assert 0 <= p < |marks'|;
      } else {
        var i := KnownFrom(collection, marks, hardlinks, key);
      }
    }
  }

  lemma SlotSizeOf(collection: seq<DirEntry>, p: nat, opts: Options)
    requires EntriesOk(collection) && p < |collection|
    ensures 0 < collection[p].blocksize
    ensures SlotSize(collection[p], opts)
            == opts.InodeSize(CalcSizeInBlocks(PlannedSize(collection[p]), collection[p].blocksize))
  {
  }

  lemma Repeat(collection: seq<DirEntry>, i: nat, p: nat, initial: nat, opts: Options, m: Mark)
    requires i < p < |collection| && EntriesOk(collection) && SameFile(collection[i], collection[p])
    requires MarkOk(collection, i, initial, opts, m)
    ensures !IsNew(collection, p) && MarkOk(collection, p, initial, opts, Mark(m.inonum, false))
  {
    FirstIsCommon(collection, i, p);
    NewExactly(collection, p);
    hide SizeAfter, RoundUp4, FirstName;
  }

  lemma Newcomer(collection: seq<DirEntry>, p: nat, initial: nat, opts: Options)
    requires p < |collection| && EntriesOk(collection) && forall k :: 0 <= k < p ==>
               !SameFile(collection[k], collection[p])
    ensures IsNew(collection, p)
    ensures MarkOk(collection, p, initial, opts,
                   Mark(GetFirstFreeInodeNumber(SizeAfter(collection, p, initial, opts)), true))
  {
    NewExactly(collection, p);
    hide SizeAfter, RoundUp4, FirstName;
  }

  // ---- The layout ----

  lemma RoundsUp(n: nat)
    ensures n <= RoundUp4(n) < n + 4 && RoundUp4(n) % 4 == 0 && (n % 4 == 0 ==> RoundUp4(n) == n)
  {
  }

  /** The table grows by what is added to its unrounded end, but the first inode begins at the rounded one. */
  predicate FirstFits(initial: nat, slotSize: nat) {
    slotSize % 4 == 0 || slotSize % 4 > (4 - initial % 4) % 4
  }

  lemma RoundUp4Of(q: nat, i: nat)
    requires i < 4
    ensures RoundUp4(4 * q + i) == 4 * q + if i == 0 then 0 else 4
  {
  }

  lemma RoundsTogether(s: nat, n: nat)
    ensures RoundUp4(s) + n <= RoundUp4(s + n) <==> FirstFits(s, n)
  {
    var q, i, p, j := s / 4, s % 4, n / 4, n % 4;
    RoundUp4Of(q, i);
    if i + j < 4 {
      RoundUp4Of(q + p, i + j);
    } else {
      RoundUp4Of(q + p + 1, i + j - 4);
    }
    hide RoundUp4;
  }

  lemma {:induction false} SizesGrow(collection: seq<DirEntry>, k: nat, l: nat, initial: nat, opts: Options)
    requires k <= l <= |collection| && EntriesOk(collection)
    ensures SizeAfter(collection, k, initial, opts) <= SizeAfter(collection, l, initial, opts)
    decreases l - k
  {
    hide SlotSize, RoundUp4, FirstName;
    if k < l {
      SizesGrow(collection, k, l - 1, initial, opts);
      RoundsUp(SizeAfter(collection, l - 1, initial, opts) + SlotSize(collection[l - 1], opts));
    }
  }

  /** From the first entry on, the table ends on a multiple of 4. */
  lemma {:induction false} EndsAligned(collection: seq<DirEntry>, k: nat, initial: nat, opts: Options)
    requires 0 < k <= |collection| && EntriesOk(collection)
    ensures SizeAfter(collection, k, initial, opts) % 4 == 0
  {
    hide SlotSize, RoundUp4, FirstName;
    RoundsUp(SizeAfter(collection, k - 1, initial, opts) + SlotSize(collection[k - 1], opts));
    if k > 1 {
      EndsAligned(collection, k - 1, initial, opts);
    }
  }

  lemma StartIsShared(collection: seq<DirEntry>, i: nat, initial: nat, opts: Options)
    requires i < |collection| && EntriesOk(collection)
    ensures var f := FirstName(collection, i);
            && IsNew(collection, f) && Start(collection, i, initial, opts) == Start(collection, f, initial, opts)
            && End(collection, i, initial, opts) == End(collection, f, initial, opts)
  {
    hide SlotSize, RoundUp4, SizeAfter;
  }

  /** A slot begins aligned, after all earlier ones, and ends before all later ones if the first one does. */
  lemma SlotInPlace(collection: seq<DirEntry>, i: nat, initial: nat, opts: Options)
    requires i < |collection| && EntriesOk(collection) && IsNew(collection, i)
    ensures Start(collection, i, initial, opts) % 4 == 0
    ensures initial <= SizeAfter(collection, i, initial, opts) <= Start(collection, i, initial, opts)
    ensures Start(collection, i, initial, opts) <= SizeAfter(collection, i + 1, initial, opts)
    ensures End(collection, i, initial, opts) <= SizeAfter(collection, i + 1, initial, opts)
            <==> i > 0 || FirstFits(initial, SlotSize(collection[0], opts))
  {
    var before, n := SizeAfter(collection, i, initial, opts), SlotSize(collection[i], opts);
    SizesGrow(collection, 0, i, initial, opts);
    RoundsUp(before);
    RoundsTogether(before, n);
    assert SizeAfter(collection, i + 1, initial, opts) == RoundUp4(before + n) >= RoundUp4(before);
    if i > 0 {
      EndsAligned(collection, i, initial, opts);
    }
    hide SlotSize, RoundUp4, FirstName, SizeAfter;
  }

  /** Every slot lies inside the table, and slots of different files share no byte. */
  ghost predicate Sound(collection: seq<DirEntry>, initial: nat, opts: Options)
    requires EntriesOk(collection)
  {
    && (forall i :: 0 <= i < |collection| ==>
          End(collection, i, initial, opts) <= SizeAfter(collection, |collection|, initial, opts))
    && forall i, j :: 0 <= i < |collection| && 0 <= j < |collection| && !SameFile(collection[i], collection[j]) ==>
                        Apart(collection, i, j, initial, opts)
  }

  ghost predicate Apart(collection: seq<DirEntry>, i: nat, j: nat, initial: nat, opts: Options)
    requires i < |collection| && j < |collection| && EntriesOk(collection)
  {
    || End(collection, i, initial, opts) <= Start(collection, j, initial, opts)
    || End(collection, j, initial, opts) <= Start(collection, i, initial, opts)
  }

  lemma NewSlotsInOrder(collection: seq<DirEntry>, f: nat, g: nat, initial: nat, opts: Options)
    requires f < g < |collection| && EntriesOk(collection) && IsNew(collection, f) && IsNew(collection, g)
    requires FirstFits(initial, SlotSize(collection[0], opts))
    ensures End(collection, f, initial, opts) <= Start(collection, g, initial, opts)
  {
    hide SlotSize, FirstFits, FirstName, SizeAfter, Start, End;
    SlotInPlace(collection, f, initial, opts);
    SlotInPlace(collection, g, initial, opts);
    SizesGrow(collection, f + 1, g, initial, opts);
  }

  lemma FittingIsSound(collection: seq<DirEntry>, initial: nat, opts: Options)
    requires EntriesOk(collection) && (collection == [] || FirstFits(initial, SlotSize(collection[0], opts)))
    ensures Sound(collection, initial, opts)
  {
    hide SlotSize, FirstFits, SizeAfter, Start, End, EntriesOk;
    forall i | 0 <= i < |collection|
      ensures End(collection, i, initial, opts) <= SizeAfter(collection, |collection|, initial, opts)
    {
      StartIsShared(collection, i, initial, opts);
      var f := FirstName(collection, i);
      SlotInPlace(collection, f, initial, opts);
      SizesGrow(collection, f + 1, |collection|, initial, opts);
    }
    forall i, j | 0 <= i < |collection| && 0 <= j < |collection| && !SameFile(collection[i], collection[j])
      ensures Apart(collection, i, j, initial, opts)
    {
      StartIsShared(collection, i, initial, opts);
      StartIsShared(collection, j, initial, opts);
      FirstIsCommon(collection, i, j);
      var f, g := FirstName(collection, i), FirstName(collection, j);
      if f < g {
        NewSlotsInOrder(collection, f, g, initial, opts);
      } else {
        NewSlotsInOrder(collection, g, f, initial, opts);
      }
    }
  }

  /** Further names of the first file leave the table alone. */
  lemma {:induction false} NoGrowth(collection: seq<DirEntry>, l: nat, initial: nat, opts: Options)
    requires 0 < l <= |collection| && EntriesOk(collection)
    requires forall k :: 0 < k < l ==> SameFile(collection[0], collection[k])
    ensures SizeAfter(collection, l, initial, opts) == SizeAfter(collection, 1, initial, opts)
  {
    if l > 1 {
      NoGrowth(collection, l - 1, initial, opts);
      NewExactly(collection, l - 1);
      hide SlotSize, RoundUp4, FirstName;
    }
  }

  lemma MisfitIsUnsound(collection: seq<DirEntry>, initial: nat, opts: Options)
    requires EntriesOk(collection) && collection != [] && !FirstFits(initial, SlotSize(collection[0], opts))
    ensures !Sound(collection, initial, opts)
  {
    hide SlotSize, FirstFits, EntriesOk, RoundUp4, SizeAfter;
    SlotInPlace(collection, 0, initial, opts);
    var j := 1;
    while j < |collection| && SameFile(collection[0], collection[j])
      invariant 1 <= j <= |collection| && forall k :: 0 < k < j ==> SameFile(collection[0], collection[k])
    {
      j := j + 1;
    }
    NoGrowth(collection, j, initial, opts);
    if j < |collection| {
      NewExactly(collection, j);
      SlotInPlace(collection, j, initial, opts);
      EndsAligned(collection, j, initial, opts);
      RoundsUp(SizeAfter(collection, j, initial, opts));
      assert !Apart(collection, 0, j, initial, opts) by {
        Longer(collection, j, initial, opts);
      }
    }
  }

  lemma Longer(collection: seq<DirEntry>, i: nat, initial: nat, opts: Options)
    requires i < |collection| && EntriesOk(collection)
    ensures End(collection, i, initial, opts) >= Start(collection, i, initial, opts) + 0x18
  {
  }

  /** The slots are sound exactly when the first one is, which any table that ends on a multiple of 4 grants. */
  lemma LayoutIsSound(collection: seq<DirEntry>, initial: nat, opts: Options)
    requires EntriesOk(collection)
    ensures Sound(collection, initial, opts) <==> collection == [] || FirstFits(initial, SlotSize(collection[0], opts))
    ensures initial % 4 == 0 ==> Sound(collection, initial, opts)
  {
    hide SlotSize, Sound;
    if collection != [] && !FirstFits(initial, SlotSize(collection[0], opts)) {
      MisfitIsUnsound(collection, initial, opts);
    } else {
      FittingIsSound(collection, initial, opts);
    }
  }

  /** Two entries share an inode number exactly when they name the same file. */
  lemma NumbersAreUnique(collection: seq<DirEntry>, initial: nat, opts: Options, marks: seq<Mark>, i: nat, j: nat)
    requires EntriesOk(collection) && Sound(collection, initial, opts) && AllMarked(collection, initial, opts, marks)
    requires i < |marks| && j < |marks|
    ensures marks[i].inonum == marks[j].inonum <==>
              collection[i].dev == collection[j].dev && collection[i].ino == collection[j].ino
  {
    assert MarkOk(collection, i, initial, opts, marks[i]) && MarkOk(collection, j, initial, opts, marks[j]);
    FirstIsCommon(collection, i, j);
    Longer(collection, i, initial, opts);
    Longer(collection, j, initial, opts);
    hide SlotSize, SizeAfter, RoundUp4, FirstName, End;
    if !SameFile(collection[i], collection[j]) {
      assert Apart(collection, i, j, initial, opts);
    }
  }
}
