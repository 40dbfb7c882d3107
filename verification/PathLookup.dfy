// util/mkcromfs.cc, cromfs.cc and fuse-ops.cc: the names of a tree, and the way from a path to the bytes of a file.
module PathLookup {
  import opened Arithmetic
  import opened BlockNumbering
  import opened Blockifier
  import opened BlockSchedule
  import BlockReader
  import opened DirectoryFormat
  import opened DirectoryReader
  import opened Endian
  import opened Filesystem
  import opened IdenticalBlocks
  import opened ImageReader
  import opened InodeFormat
  import opened InodeNumbers
  import opened InodeTable
  import opened SearchSpec
  import opened Wrappers

  // ---- Names ----

  /** The names of a tree: each directory's names, with the entry of the collection that each one got. */
  datatype Tree = Tree(root: seq<Entry>, rootKids: seq<nat>, kids: seq<seq<nat>>)

  /** A directory as it is stored: the numbers filled in through the pointers that the entries have to them. */
  function Listing(names: seq<Entry>, kids: seq<nat>, marks: seq<Mark>): (dir: seq<Entry>)
    requires |kids| == |names| && forall k :: 0 <= k < |kids| ==> kids[k] < |marks|
    ensures |dir| == |names|
    ensures forall k :: 0 <= k < |dir| ==> dir[k] == Entry(names[k].name, marks[kids[k]].inonum)
  {
    seq(|names|, k requires 0 <= k < |names| => Entry(names[k].name, marks[kids[k]].inonum))
  }

  ghost predicate KidsOk(names: seq<Entry>, kids: seq<nat>, n: nat) {
    |kids| == |names| && forall k :: 0 <= k < |kids| ==> kids[k] < n
  }

  /** Every directory of the tree has a place in the collection for each of its names. */
  ghost predicate TreeOk(t: Tree, collection: seq<DirEntry>) {
    && |t.kids| == |collection| && KidsOk(t.root, t.rootKids, |collection|)
    && forall i :: 0 <= i < |collection| && IsDir(collection[i].mode) ==>
         KidsOk(collection[i].dirinfo, t.kids[i], |collection|)
  }

  /** The entry that a name leads to. */
  function Child(names: seq<Entry>, kids: seq<nat>, name: seq<Byte>): (c: Option<nat>)
    requires |kids| == |names|
    ensures c.Some? ==> c.value in kids
  {
    if names == [] then None
    else if names[0].name == name then Some(kids[0])
    else Child(names[1..], kids[1..], name)
  }

  /** Looking a name up in the stored directory gives the number of that entry, and 0 when there is none. */
  lemma {:induction false} LookupIsChild(names: seq<Entry>, kids: seq<nat>, marks: seq<Mark>, name: seq<Byte>)
    requires KidsOk(names, kids, |marks|)
    ensures var c := Child(names, kids, name);
            Lookup(Listing(names, kids, marks), name) == if c.Some? then marks[c.value].inonum else 0
    decreases names
  {
    if names != [] {
      var dir := Listing(names, kids, marks);
      assert dir[1..] == Listing(names[1..], kids[1..], marks);
      LookupIsChild(names[1..], kids[1..], marks, name);
    }
  }

  // ---- Paths ----

  /** Where a path leads: to the root, to an entry of the collection, or nowhere. */
  datatype Place = Root | At(entry: nat) | Nowhere

  /** One name further. A directory met twice has the names of the entry that was met first. */
  function Step(t: Tree, collection: seq<DirEntry>, w: Place, name: seq<Byte>): (r: Place)
    requires TreeOk(t, collection) && (w.At? ==> w.entry < |collection|)
    ensures r.At? ==> r.entry < |collection|
  {
    match w
    case Root => PlaceOf(Child(t.root, t.rootKids, name))
    case At(i) =>
      var f := FirstName(collection, i);
      if IsDir(collection[f].mode) then PlaceOf(Child(collection[f].dirinfo, t.kids[f], name)) else Nowhere
    case Nowhere => Nowhere
  }

  function PlaceOf(c: Option<nat>): Place {
    if c.Some? then At(c.value) else Nowhere
  }

  function Resolve(t: Tree, collection: seq<DirEntry>, path: seq<seq<Byte>>): (r: Place)
    requires TreeOk(t, collection)
    ensures r.At? ==> r.entry < |collection|
  {
    if path == [] then Root else Step(t, collection, Resolve(t, collection, path[..|path| - 1]), path[|path| - 1])
  }

  lemma ResolveNext(t: Tree, collection: seq<DirEntry>, path: seq<seq<Byte>>, n: nat)
    requires TreeOk(t, collection) && n < |path|
    ensures Resolve(t, collection, path[..n + 1]) == Step(t, collection, Resolve(t, collection, path[..n]), path[n])
  {
    assert path[..n + 1][..n] == path[..n];
  }

  /** From nowhere there is no way on. */
  lemma {:induction false} NowhereStays(t: Tree, collection: seq<DirEntry>, path: seq<seq<Byte>>, n: nat)
    requires TreeOk(t, collection) && n <= |path| && Resolve(t, collection, path[..n]) == Nowhere
    ensures Resolve(t, collection, path) == Nowhere
    decreases |path| - n
  {
    if n < |path| {
      ResolveNext(t, collection, path, n);
      NowhereStays(t, collection, path, n + 1);
    } else {
      assert path[..n] == path;
    }
  }

  /** The inode number of a place; the root has number 1, and 0 stands for nothing. */
  function NumberOf(w: Place, marks: seq<Mark>): nat
    requires w.At? ==> w.entry < |marks|
  {
    match w
    case Root => 1
    case At(i) => marks[i].inonum
    case Nowhere => 0
  }

  // ---- What is stored ----

  ghost predicate Stored(file: seq<Byte>, names: seq<Entry>, kids: seq<nat>, marks: seq<Mark>)
    requires KidsOk(names, kids, |marks|)
  {
    IsDirectory(file, Listing(names, kids, marks))
  }

  /** The directories of the image are those of the tree, with the numbers that its entries got; the root directory is
      the first of the other sources. */
  ghost predicate NamesOk(t: Tree, im: Image)
    requires im.Valid()
  {
    && TreeOk(t, im.collection) && 0 < |im.others| && Stored(im.others[0].source, t.root, t.rootKids, im.marks)
    && forall i :: 0 <= i < |im.collection| && IsNew(im.collection, i) && IsDir(im.collection[i].mode) ==>
         i < |im.contents| && Stored(im.contents[i], im.collection[i].dirinfo, t.kids[i], im.marks)
  }

  // ---- Looking up a name ----

  /** An inode number, or the error ENOTDIR, or EIO. */
  datatype Found = Number(ino: nat) | NotADirectory | IoError

  /** The inode of this place can be read, and its bytes if it is a directory. */
  ghost predicate PlaceReadable(v: BlockReader.Volume, inotab: BlockReader.FileMap, im: Image, w: Place, bsize: nat)
    requires ImageOk(v, inotab, im) && 0 < |im.others| && (w.At? ==> w.entry < |im.collection|)
  {
    assert OtherDescribed(v, im, 0);
    match w
    case Root => BlockReader.SlotsApart(v, OtherMap(im, 0), 0, |im.others[0].source|)
    case At(i) =>
      var inode := im.Made(FirstName(im.collection, i));
      && CanRead(v, inotab, im, i, bsize)
      && (IsDir(inode.mode) ==> BlockReader.SlotsApart(v, MapOf(inode), 0, inode.bytesize))
    case Nowhere => true
  }

  lemma RootIsStored(v: BlockReader.Volume, inotab: BlockReader.FileMap, t: Tree, im: Image)
    requires ImageOk(v, inotab, im) && NamesOk(t, im)
    ensures OtherDescribed(v, im, 0) && |im.marks| == |im.collection|
    ensures Stored(im.others[0].source, t.root, t.rootKids, im.marks)
  {
  }

  /** What the inode of entry i says of a directory, and where that leads. */
  lemma DirectoryIsStored(v: BlockReader.Volume, inotab: BlockReader.FileMap, t: Tree, im: Image, i: nat)
    requires ImageOk(v, inotab, im) && NamesOk(t, im) && i < |im.collection|
    ensures var f := FirstName(im.collection, i);
            var inode := Restored(im.Made(f));
            && inode.mode == im.collection[f].mode && MapOf(inode) == MapOf(im.Made(f))
            && (IsDir(inode.mode) ==>
                  && f < |im.contents| && |t.kids| == |im.collection| == |im.marks|
                  && inode.bytesize == |im.contents[f]|
                  && BlockReader.Describes(v, MapOf(inode), im.contents[f])
                  && KidsOk(im.collection[f].dirinfo, t.kids[f], |im.marks|)
                  && Stored(im.contents[f], im.collection[f].dirinfo, t.kids[f], im.marks))
  {
    var f := FirstName(im.collection, i);
    NewExactly(im.collection, i);
    MadeDescribes(v, inotab, im, f);
    MadeHeader(im, f);
    hide FinalInode, FirstName, BlockReader.Describes, Stored, FurtherNames, TableDone, CalcSizeInBlocks,
         FileDescribed, OtherDescribed, KidsOk;
  }

  /** dir_lookup: reads the directory, unless it is the root, by its number, and looks the name up in its bytes. */
  method DirLookup(v: BlockReader.Volume, inotab: BlockReader.FileMap, rootdir: BlockReader.FileMap, inonum: nat,
                   name: seq<Byte>, opts: Options, bsize: nat, cache: set<nat>, ghost t: Tree, ghost im: Image,
                   ghost w: Place)
    returns (r: Found)
    requires ImageOk(v, inotab, im) && NamesOk(t, im) && opts == im.opts && !w.Nowhere?
    requires |im.order| < |im.targets| && rootdir == OtherMap(im, 0)
    requires (w.At? ==> w.entry < |im.collection|) && inonum == NumberOf(w, im.marks)
    requires PlaceReadable(v, inotab, im, w, bsize)
    ensures if w.At? && !IsDir(im.collection[FirstName(im.collection, w.entry)].mode) then r == NotADirectory
            else r == Number(NumberOf(Step(t, im.collection, w, name), im.marks))
    ensures r.NotADirectory? ==> Step(t, im.collection, w, name).Nowhere?
  {
    hide NamesOk, Stored, BlockReader.Describes, BlockReader.SlotsApart, FirstName, Child, CanRead, InodeReadable;
    RootIsStored(v, inotab, t, im);
    NumbersTell(v, inotab, t, im);
    hide ImageOk, Image.Valid;
    if inonum == 1 {
      r := LookupIn(v, rootdir, name, cache, t.root, t.rootKids, im.marks, im.others[0].source);
    } else {
      r := DirLookupAt(v, inotab, inonum, name, opts, bsize, cache, t, im, w.entry);
    }
  }

  method DirLookupAt(v: BlockReader.Volume, inotab: BlockReader.FileMap, inonum: nat, name: seq<Byte>, opts: Options,
                     bsize: nat, cache: set<nat>, ghost t: Tree, ghost im: Image, ghost i: nat)
    returns (r: Found)
    requires ImageOk(v, inotab, im) && NamesOk(t, im) && opts == im.opts
    requires i < |im.collection| && inonum == im.marks[i].inonum && PlaceReadable(v, inotab, im, At(i), bsize)
    ensures if !IsDir(im.collection[FirstName(im.collection, i)].mode) then r == NotADirectory
            else r == Number(NumberOf(Step(t, im.collection, At(i), name), im.marks))
  {
    DirectoryIsStored(v, inotab, t, im, i);
    hide ImageOk, NamesOk, Stored, BlockReader.Describes, BlockReader.SlotsApart, FirstName, Image.Valid, Image.Made,
         Child, CanRead;
    var inode := ReadMade(v, inotab, inonum, opts, bsize, cache, im, i);
    if !IsDir(inode.mode) {
      return NotADirectory;
    }
    ghost var f := FirstName(im.collection, i);
    r := LookupIn(v, MapOf(inode), name, cache, im.collection[f].dirinfo, t.kids[f], im.marks, im.contents[f]);
  }

  /** The lookup in the bytes of a directory. It reads them piece by piece; PieceIsRead says that each piece is what it
      would be in the whole. */
  method LookupIn(v: BlockReader.Volume, file: BlockReader.FileMap, name: seq<Byte>, cache: set<nat>,
                  ghost names: seq<Entry>, ghost kids: seq<nat>, ghost marks: seq<Mark>, ghost source: seq<Byte>)
    returns (r: Found)
    requires KidsOk(names, kids, |marks|) && Stored(source, names, kids, marks)
    requires BlockReader.Describes(v, file, source) && BlockReader.SlotsApart(v, file, 0, |source|)
    ensures var c := Child(names, kids, name); r == Number(if c.Some? then marks[c.value].inonum else 0)
  {
    ghost var dir := Listing(names, kids, marks);
    DirectorySize(source, dir);
    LookupIsChild(names, kids, marks, name);
    var bytes := ReadWhole(v, file, source, 0, file.bytesize, cache);
    var found := LookupInFile(bytes, name, dir);
    r := if found.Ok? then Number(found.value) else IoError;
  }

  /** Each piece of a directory that is read comes out as in the whole, with zeros past the end. */
  lemma PieceIsRead(v: BlockReader.Volume, file: BlockReader.FileMap, source: seq<Byte>, offset: nat, size: nat,
                    was: seq<Byte>, now: seq<Byte>, count: nat)
    requires BlockReader.Describes(v, file, source) && BlockReader.SlotsApart(v, file, 0, |source|)
    requires |was| == size && forall k :: 0 <= k < size ==> was[k] == 0
    requires ReadAnswer(v, file, source, offset, size, was, now, count)
    ensures now == ReadFile(source, offset, size)
  {
    BlockReader.PartIsApart(v, file, 0, |source|, Min(offset, |source|), Min(offset + size, |source|));
    hide BlockReader.SlotsApart, BlockReader.Describes;
  }

  // ---- Following a path ----

  /** Every place that the path passes through can be read. */
  ghost predicate PathReadable(v: BlockReader.Volume, inotab: BlockReader.FileMap, t: Tree, im: Image,
                               path: seq<seq<Byte>>, bsize: nat)
    requires ImageOk(v, inotab, im) && NamesOk(t, im)
  {
    forall n :: 0 <= n < |path| ==> PlaceReadable(v, inotab, im, Resolve(t, im.collection, path[..n]), bsize)
  }

  /** One lookup for each name of the path, as the requests come in: the number of the place the path leads to, and 0
      when it leads nowhere. */
  method FollowPath(v: BlockReader.Volume, inotab: BlockReader.FileMap, rootdir: BlockReader.FileMap,
                    path: seq<seq<Byte>>, opts: Options, bsize: nat, cache: set<nat>, ghost t: Tree, ghost im: Image)
    returns (inonum: nat)
    requires ImageOk(v, inotab, im) && NamesOk(t, im) && opts == im.opts
    requires |im.order| < |im.targets| && rootdir == OtherMap(im, 0)
    requires PathReadable(v, inotab, t, im, path, bsize)
    ensures |im.marks| == |im.collection| && inonum == NumberOf(Resolve(t, im.collection, path), im.marks)
    ensures inonum == 0 <==> Resolve(t, im.collection, path).Nowhere?
  {
    hide *;
    AtTheStart(v, inotab, t, im, path);
    inonum := 1;
    for n := 0 to |path|
      invariant inonum == NumberOf(Resolve(t, im.collection, path[..n]), im.marks) && inonum != 0
    {
      var next := FollowName(v, inotab, rootdir, inonum, path, n, opts, bsize, cache, t, im);
      if next == 0 {
        return 0;
      }
      inonum := next;
    }
  }

  lemma AtTheStart(v: BlockReader.Volume, inotab: BlockReader.FileMap, t: Tree, im: Image, path: seq<seq<Byte>>)
    requires ImageOk(v, inotab, im) && NamesOk(t, im)
    ensures TreeOk(t, im.collection) && |im.marks| == |im.collection|
    ensures NumberOf(Resolve(t, im.collection, path[..0]), im.marks) == 1
    ensures path[..|path|] == path
    ensures NumberOf(Resolve(t, im.collection, path), im.marks) == 0 <==> Resolve(t, im.collection, path).Nowhere?
  {
    hide ImageOk, NamesOk, Image.Valid, TreeOk, Step;
    NumbersTell(v, inotab, t, im);
    assert path[..0] == [];
    ZeroIsNowhere(Resolve(t, im.collection, path), im.marks);
  }

  /** One name of the path. */
  method FollowName(v: BlockReader.Volume, inotab: BlockReader.FileMap, rootdir: BlockReader.FileMap, inonum: nat,
                    path: seq<seq<Byte>>, n: nat, opts: Options, bsize: nat, cache: set<nat>, ghost t: Tree,
                    ghost im: Image)
    returns (next: nat)
    requires ImageOk(v, inotab, im) && NamesOk(t, im) && opts == im.opts && n < |path|
    requires |im.order| < |im.targets| && rootdir == OtherMap(im, 0) && |im.marks| == |im.collection|
    requires PathReadable(v, inotab, t, im, path, bsize)
    requires inonum == NumberOf(Resolve(t, im.collection, path[..n]), im.marks) && inonum != 0
    ensures next == NumberOf(Resolve(t, im.collection, path[..n + 1]), im.marks)
    ensures next == 0 ==> Resolve(t, im.collection, path).Nowhere?
  {
    hide *;
    OnTheWay(v, inotab, t, im, path, n, bsize);
    ghost var w := Resolve(t, im.collection, path[..n]);
    var r := DirLookup(v, inotab, rootdir, inonum, path[n], opts, bsize, cache, t, im, w);
    next := if r.Number? then r.ino else 0;
    if next == 0 {
      NowhereStays(t, im.collection, path, n + 1);
    }
  }

  /** Where the path has come to can be read, and what its next name does. */
  lemma OnTheWay(v: BlockReader.Volume, inotab: BlockReader.FileMap, t: Tree, im: Image, path: seq<seq<Byte>>, n: nat,
                 bsize: nat)
    requires ImageOk(v, inotab, im) && NamesOk(t, im) && n < |path| && |im.marks| == |im.collection|
    requires PathReadable(v, inotab, t, im, path, bsize)
    ensures TreeOk(t, im.collection)
    ensures var w, w' := Resolve(t, im.collection, path[..n]), Resolve(t, im.collection, path[..n + 1]);
            && PlaceReadable(v, inotab, im, w, bsize) && w' == Step(t, im.collection, w, path[n])
            && (NumberOf(w, im.marks) == 0 <==> w.Nowhere?) && (NumberOf(w', im.marks) == 0 <==> w'.Nowhere?)
  {
    hide ImageOk, NamesOk, PlaceReadable, Image.Valid, TreeOk, NumberOf, Resolve, Step;
    NumbersTell(v, inotab, t, im);
    ResolveNext(t, im.collection, path, n);
    ZeroIsNowhere(Resolve(t, im.collection, path[..n]), im.marks);
    ZeroIsNowhere(Resolve(t, im.collection, path[..n + 1]), im.marks);
  }

  lemma ZeroIsNowhere(w: Place, marks: seq<Mark>)
    requires (w.At? ==> w.entry < |marks|) && forall i :: 0 <= i < |marks| ==> 2 <= marks[i].inonum
    ensures NumberOf(w, marks) == 0 <==> w.Nowhere?
  {
  }

  /** No entry has number 0 or the number of the root. */
  lemma NumbersTell(v: BlockReader.Volume, inotab: BlockReader.FileMap, t: Tree, im: Image)
    requires ImageOk(v, inotab, im) && NamesOk(t, im)
    ensures TreeOk(t, im.collection) && |im.marks| == |im.collection| == |im.contents|
    ensures forall i :: 0 <= i < |im.marks| ==> 2 <= im.marks[i].inonum
  {
    hide TableDone, RowsFit, OrderOk, FileDescribed, OtherDescribed, BlockReader.Describes, Stored, KidsOk;
    forall i | 0 <= i < |im.marks|
      ensures 2 <= im.marks[i].inonum
    {
      assert MarkOk(im.collection, i, |im.before|, im.opts, im.marks[i]);
    }
  }

  /** From a path to the inode of its file and any part of its bytes: the inode is the one made for the entry the path
      leads to, and a read is whole exactly when no two fblocks it needs share a bit. */
  method ReadByPath(v: BlockReader.Volume, inotab: BlockReader.FileMap, rootdir: BlockReader.FileMap,
                    path: seq<seq<Byte>>, opts: Options, bsize: nat, offset: nat, size: nat, target: array<Byte>,
                    cache: set<nat>, ghost t: Tree, ghost im: Image)
    returns (inonum: nat, count: nat, inode: Option<Inode>)
    requires ImageOk(v, inotab, im) && NamesOk(t, im) && opts == im.opts && size <= target.Length
    requires |im.order| < |im.targets| && rootdir == OtherMap(im, 0)
    requires PathReadable(v, inotab, t, im, path, bsize)
    requires var w := Resolve(t, im.collection, path); w.At? ==> CanRead(v, inotab, im, w.entry, bsize)
    modifies target
    ensures |im.marks| == |im.collection| == |im.contents|
    ensures inonum == NumberOf(Resolve(t, im.collection, path), im.marks)
    ensures inode.Some? <==> Resolve(t, im.collection, path).At?
    ensures inode.Some? ==>
              var f := FirstName(im.collection, Resolve(t, im.collection, path).entry);
              && inode.value == Restored(im.Made(f)) && 0 < inode.value.blocksize
              && Tells(inode.value, im.collection[f], |Names(im.collection, f, |im.collection|)|, |im.Bytes(f)|)
              && ReadAnswer(v, MapOf(inode.value), im.Bytes(f), offset, size, old(target[..]), target[..], count)
  {
    NumbersTell(v, inotab, t, im);
    hide NamesOk, FirstName, PathReadable, Resolve, Names, Tells, ReadAnswer, CanRead, FileDescribed, OtherDescribed,
         Image.Made, Image.Bytes;
    inonum := FollowPath(v, inotab, rootdir, path, opts, bsize, cache, t, im);
    count, inode := 0, None;
    if inonum >= 2 {
      var i;
      count, i := ReadByNumber(v, inotab, inonum, opts, bsize, offset, size, target, cache, im,
                               Resolve(t, im.collection, path).entry);
      inode := Some(i);
    }
  }

  /** Every inode fits its format, and none has more blocks than the reader believes. */
  ghost predicate InodesFit(im: Image, bsize: nat)
    requires im.Valid()
  {
    forall i :: 0 <= i < |im.collection| ==>
      var inode := im.Made(i);
      HeaderFits(inode, im.opts, bsize) && NumbersFit(inode.blocklist, im.opts) && |inode.blocklist| <= 100_000_000
  }

  /** Then every place can be read: always when each fblock has a bit of its own, and on 64-bit words while there are
      no more fblocks than half a word has bits. */
  lemma PlacesReadable(v: BlockReader.Volume, inotab: BlockReader.FileMap, t: Tree, im: Image, w: Place, bsize: nat)
    requires ImageOk(v, inotab, im) && NamesOk(t, im) && InodesFit(im, bsize)
    requires w.At? ==> w.entry < |im.collection|
    requires || (forall f: nat :: v.slot(f) == BlockReader.SlotOn32(f))
             || (|v.fblocks| <= 32 && forall f: nat :: v.slot(f) == BlockReader.SlotOn64(f))
    ensures PlaceReadable(v, inotab, im, w, bsize)
  {
    RootIsStored(v, inotab, t, im);
    if w.At? {
      NumbersTell(v, inotab, t, im);
      var f := FirstName(im.collection, w.entry);
      MadeBlocks(im, f);
      var inode := im.Made(f);
      hide ImageOk, NamesOk, Image.Valid, Image.Made, HeaderFits, NumbersFit, FirstName, BlockReader.SlotsApart;
      InodesReadable(v, inotab, im.marks[w.entry].inonum, im.opts, |inode.blocklist|);
      AllApart(v, MapOf(inode), inode.bytesize);
    } else {
      AllApart(v, OtherMap(im, 0), |im.others[0].source|);
    }
  }

  lemma AllApart(v: BlockReader.Volume, file: BlockReader.FileMap, end: nat)
    requires 0 < file.blocksize
    requires || (forall f: nat :: v.slot(f) == BlockReader.SlotOn32(f))
             || (|v.fblocks| <= 32 && forall f: nat :: v.slot(f) == BlockReader.SlotOn64(f))
    ensures BlockReader.SlotsApart(v, file, 0, end)
  {
    if forall f: nat :: v.slot(f) == BlockReader.SlotOn32(f) {
      BlockReader.CommentBitsApart(v, file, 0, end);
    } else {
      BlockReader.FewFblocksApart(v, file, 0, end);
    }
  }

  // ---- Making the image of a tree with its names ----

  /** What the data sources of the tree give: the encoded directories, with their numbers, and the files' own bytes. */
  method FillDirectories(collection: seq<DirEntry>, t: Tree, data: seq<seq<Byte>>, marks: seq<Mark>)
    returns (contents: seq<seq<Byte>>)
    requires TreeOk(t, collection) && |data| == |collection| == |marks|
    ensures |contents| == |collection|
    ensures forall i :: 0 <= i < |collection| ==>
              contents[i] == if IsDir(collection[i].mode) then
                               DirectoryFormat.Encode(Listing(collection[i].dirinfo, t.kids[i], marks)) else data[i]
  {
    hide DirectoryFormat.Encode;
    contents := [];
    for i := 0 to |collection|
      invariant |contents| == i
      invariant forall k :: 0 <= k < i ==>
                  contents[k] == if IsDir(collection[k].mode) then
                                   DirectoryFormat.Encode(Listing(collection[k].dirinfo, t.kids[k], marks)) else data[k]
    {
      var bytes := data[i];
      if IsDir(collection[i].mode) {
        bytes := EncodeDirectory(Listing(collection[i].dirinfo, t.kids[i], marks));
      }
      contents := contents + [bytes];
    }
  }

  /** Filling in the numbers changes neither the names nor the size. */
  lemma ListingEncodes(names: seq<Entry>, kids: seq<nat>, marks: seq<Mark>)
    requires KidsOk(names, kids, |marks|) && Encodable(names)
    requires forall k :: 0 <= k < |marks| ==> marks[k].inonum < Pow256(8)
    ensures var dir := Listing(names, kids, marks);
            Encodable(dir) && |DirectoryFormat.Encode(dir)| == |DirectoryFormat.Encode(names)|
  {
    var dir := Listing(names, kids, marks);
    hide DirectoryFormat.Encode, Pow256;
    SameOffsets(names, dir, |names|);
    SizeOfEncoding(names);
    SizeOfEncoding(dir);
    forall k | 0 <= k < |dir|
      ensures EntryOk(dir[k])
    {
      assert EntryOk(names[k]);
    }
  }

  lemma {:induction false} SameOffsets(a: seq<Entry>, b: seq<Entry>, k: nat)
    requires |a| == |b| && k <= |a| && forall j :: 0 <= j < |a| ==> |a[j].name| == |b[j].name|
    ensures Offset(a, k) == Offset(b, k)
  {
    if k > 0 {
      SameOffsets(a, b, k - 1);
      assert a[..k][..k - 1] == a[..k - 1] && b[..k][..k - 1] == b[..k - 1];
    }
  }

  /** What the maker of the image is given: names that can be encoded, and for every other source as many bytes as the
      entry says. */
  ghost predicate GivenOk(t: Tree, collection: seq<DirEntry>, data: seq<seq<Byte>>, order: seq<nat>) {
    && EntriesOk(collection) && TreeOk(t, collection) && OrderOk(collection, order) && |data| == |collection|
    && Encodable(t.root)
    && forall i :: 0 <= i < |collection| ==>
         if IsDir(collection[i].mode) then Encodable(collection[i].dirinfo)
         else HasData(collection[i].mode) ==> |data[i]| == collection[i].size
  }

  /** Numbers of entries stay within 64 bits when the table does. */
  lemma NumbersAreSmall(collection: seq<DirEntry>, initial: nat, opts: Options, marks: seq<Mark>)
    requires EntriesOk(collection) && |marks| == |collection| && AllMarked(collection, initial, opts, marks)
    requires SizeAfter(collection, |collection|, initial, opts) < Pow256(8) - 8
    ensures forall i :: 0 <= i < |marks| ==> marks[i].inonum < Pow256(8)
  {
    hide Pow256, SizeAfter, SlotSize;
    forall i | 0 <= i < |marks|
      ensures marks[i].inonum < Pow256(8)
    {
      assert MarkOk(collection, i, initial, opts, marks[i]);
      SizesGrow(collection, FirstName(collection, i), |collection|, initial, opts);
    }
  }

  /** Two ways to number the same tree give the same numbers. */
  lemma SameMarks(collection: seq<DirEntry>, initial: nat, opts: Options, a: seq<Mark>, b: seq<Mark>)
    requires EntriesOk(collection) && |a| == |b| == |collection|
    requires AllMarked(collection, initial, opts, a) && AllMarked(collection, initial, opts, b)
    ensures a == b
  {
    hide Start;
    forall i | 0 <= i < |a|
      ensures a[i] == b[i]
    {
      assert MarkOk(collection, i, initial, opts, a[i]) && MarkOk(collection, i, initial, opts, b[i]);
    }
  }

  /** The directories as they are filled in are what the image needs. */
  lemma FilledIsStored(t: Tree, collection: seq<DirEntry>, data: seq<seq<Byte>>, order: seq<nat>, marks: seq<Mark>,
                       contents: seq<seq<Byte>>, root: seq<Byte>)
    requires GivenOk(t, collection, data, order) && |marks| == |collection|
    requires forall i :: 0 <= i < |marks| ==> marks[i].inonum < Pow256(8)
    requires root == DirectoryFormat.Encode(Listing(t.root, t.rootKids, marks)) && |contents| == |collection|
    requires forall i :: 0 <= i < |collection| ==>
               contents[i] == if IsDir(collection[i].mode) then
                                DirectoryFormat.Encode(Listing(collection[i].dirinfo, t.kids[i], marks)) else data[i]
    ensures ContentsOk(collection, contents) && Stored(root, t.root, t.rootKids, marks)
    ensures forall i :: 0 <= i < |collection| && IsDir(collection[i].mode) ==>
              Stored(contents[i], collection[i].dirinfo, t.kids[i], marks)
  {
    hide DirectoryFormat.Encode, Encodable, Pow256, OrderOk;
    ListingEncodes(t.root, t.rootKids, marks);
    forall i | 0 <= i < |collection| && IsDir(collection[i].mode)
      ensures Stored(contents[i], collection[i].dirinfo, t.kids[i], marks)
      ensures |contents[i]| == PlannedSize(collection[i])
    {
      ListingEncodes(collection[i].dirinfo, t.kids[i], marks);
    }
  }

  /** Makes the image of a tree with all its names: the numbers first, then the directories that hold them, and then
      everything else. */
  method BuildTree(before: seq<Byte>, collection: seq<DirEntry>, t: Tree, data: seq<seq<Byte>>, order: seq<nat>,
                   rootBlocksize: nat, b: Blockifier, hashing: HashMethod, isBlank: seq<Byte> -> bool,
                   slot: nat -> nat, opts: Options, tableBlocksize: nat)
    returns (v: BlockReader.Volume, inotab: BlockReader.FileMap, rootdir: BlockReader.FileMap, im: Image)
    requires GivenOk(t, collection, data, order) && 0 < tableBlocksize <= b.cap && 0 < rootBlocksize <= b.cap
    requires forall i :: 0 <= i < |collection| ==> collection[i].blocksize <= b.cap
    requires collection == [] || FirstFits(|before|, SlotSize(collection[0], opts))
    requires SizeAfter(collection, |collection|, |before|, opts) < Pow256(8) - 8
    requires b.Valid() && forall z :: z in b.o.bsizes ==> 0 < z
    modifies b
    ensures b.Valid() && v.slot == slot && ImageOk(v, inotab, im) && NamesOk(t, im)
    ensures im.collection == collection && im.opts == opts
    ensures |im.order| < |im.targets| && rootdir == OtherMap(im, 0)
    ensures |im.contents| == |collection| && forall i :: 0 <= i < |collection| && !IsDir(collection[i].mode) ==>
              im.Bytes(i) == if HasData(collection[i].mode) then data[i] else []
  {
    hide GivenOk, FirstFits, SlotSize, AllMarked, OrderOk, ContentsOk, Stored, Blockifier.Valid, DirectoryFormat.Encode,
         Listing, SizeAfter, Pow256, TableDone, RowsFit, BlockReader.Describes, FileDescribed, KidsOk;
    GivenParts(t, collection, data, order);
    var marks, inotabSize := AssignNumbers(collection, |before|, opts);
    NumbersAreSmall(collection, |before|, opts, marks);
    var contents := FillDirectories(collection, t, data, marks);
    var root := EncodeDirectory(Listing(t.root, t.rootKids, marks));
    FilledIsStored(t, collection, data, order, marks, contents, root);
    var others := [Item(root, rootBlocksize)];
    v, inotab, im := Build(before, collection, contents, order, others, b, hashing, isBlank, slot, opts,
                           tableBlocksize);
    SameMarks(collection, |before|, opts, marks, im.marks);
    assert OtherDescribed(v, im, 0);
    rootdir := OtherMap(im, 0);
  }

  lemma GivenParts(t: Tree, collection: seq<DirEntry>, data: seq<seq<Byte>>, order: seq<nat>)
    requires GivenOk(t, collection, data, order)
    ensures EntriesOk(collection) && TreeOk(t, collection) && OrderOk(collection, order) && |data| == |collection|
    ensures KidsOk(t.root, t.rootKids, |collection|)
  {
  }
}
