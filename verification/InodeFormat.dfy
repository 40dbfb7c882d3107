// lib/cromfs-inodefun.cc: the bytes of an inode.
module InodeFormat {
  import opened Arithmetic
  import opened Endian
  import opened SearchSpec
  import opened Wrappers

  /** The storage options that shape an inode. */
  datatype Options = Options(blocknums24bit: bool, blocknums16bit: bool, variableBlocksizes: bool) {
    /** BLOCKNUM_SIZE_BYTES. */
    function BlocknumSize(): (b: nat)
      ensures 1 <= b <= 4
    {
      4 - (if blocknums24bit then 1 else 0) - (if blocknums16bit then 2 else 0)
    }

    /** INODE_HEADER_SIZE. */
    function HeaderSize(): nat {
      0x18 + if variableBlocksizes then 4 else 0
    }

    /** BLOCKNUM_SIZE_BYTES times n, with a literal factor for each size. */
    function TableSize(n: nat): nat {
      if BlocknumSize() == 1 then n
      else if BlocknumSize() == 2 then 2 * n
      else if BlocknumSize() == 3 then 3 * n
      else 4 * n
    }

    /** INODE_SIZE_BYTES. */
    function InodeSize(n: nat): nat {
      HeaderSize() + TableSize(n)
    }
  }

  /** The sizes by case are the product the source computes. */
  lemma TableSizeIsProduct(opts: Options, n: nat)
    ensures opts.TableSize(n) == opts.BlocknumSize() * n
  {
  }

  /** Block numbers are 32-bit, 24-bit or 16-bit as the options say; both options together leave 8 bits. */
  lemma BlocknumSizes(variable: bool)
    ensures Options(false, false, variable).BlocknumSize() == 4 && Options(true, false, variable).BlocknumSize() == 3
    ensures Options(false, true, variable).BlocknumSize() == 2 && Options(true, true, variable).BlocknumSize() == 1
  {
  }

  datatype Inode = Inode(mode: nat, time: nat, links: nat, rdev: nat, uid: nat, gid: nat, bytesize: nat, blocksize: nat,
                         blocklist: seq<nat>)

  /** S_ISCHR or S_ISBLK. */
  predicate IsDevice(mode: nat) {
    mode / 0x1000 % 16 == 2 || mode / 0x1000 % 16 == 6
  }

  // ---- The bytes ----

  function Header(inode: Inode, opts: Options): (s: seq<Byte>)
    ensures |s| == opts.HeaderSize()
  {
    LittleEndian(inode.mode, 4) + LittleEndian(inode.time, 4)
    + LittleEndian(if IsDevice(inode.mode) then inode.rdev else inode.links, 4)
    + LittleEndian(inode.uid, 2) + LittleEndian(inode.gid, 2) + LittleEndian(inode.bytesize, 8)
    + if opts.variableBlocksizes then LittleEndian(inode.blocksize, 4) else []
  }

  function Numbers(list: seq<nat>, opts: Options): (s: seq<Byte>)
    ensures |s| == opts.TableSize(|list|)
  {
    if list == [] then [] else Numbers(list[..|list| - 1], opts) + LittleEndian(list[|list| - 1], opts.BlocknumSize())
  }

  function Encode(inode: Inode, opts: Options): (s: seq<Byte>)
    ensures |s| == opts.InodeSize(|inode.blocklist|)
  {
    Header(inode, opts) + Numbers(inode.blocklist, opts)
  }

  /** Two pieces written one after the other. */
  lemma OverAppend(data: seq<Byte>, p: nat, a: seq<Byte>, b: seq<Byte>)
    requires p + |a| + |b| <= |data|
    ensures Over(Over(data, p, a), p + |a|, b) == Over(data, p, a + b)
  {
  }

  lemma OverNothing(data: seq<Byte>, p: nat)
    requires p <= |data|
    ensures Over(data, p, []) == data
  {
  }

  // ---- Writing ----

  method PutHeader(inodata: array<Byte>, p: nat, inode: Inode, opts: Options)
    requires p + opts.HeaderSize() <= inodata.Length
    modifies inodata
    ensures inodata[..] == Over(old(inodata[..]), p, Header(inode, opts))
  {
    hide LittleEndian, Over, IsDevice;
    ghost var before := inodata[..];
    var rdevLinks := if IsDevice(inode.mode) then inode.rdev else inode.links;
    ghost var a := LittleEndian(inode.mode, 4);
    ghost var b := a + LittleEndian(inode.time, 4);
    ghost var c := b + LittleEndian(rdevLinks, 4);
    ghost var d := c + LittleEndian(inode.uid, 2);
    ghost var e := d + LittleEndian(inode.gid, 2);
    ghost var f := e + LittleEndian(inode.bytesize, 8);
    Put32(inodata, p, inode.mode);
    OverAppend(before, p, a, LittleEndian(inode.time, 4));
    Put32(inodata, p + 0x04, inode.time);
    OverAppend(before, p, b, LittleEndian(rdevLinks, 4));
    Put32(inodata, p + 0x08, rdevLinks);
    OverAppend(before, p, c, LittleEndian(inode.uid, 2));
    Put16(inodata, p + 0x0C, inode.uid);
    OverAppend(before, p, d, LittleEndian(inode.gid, 2));
    Put16(inodata, p + 0x0E, inode.gid);
    OverAppend(before, p, e, LittleEndian(inode.bytesize, 8));
    Put64(inodata, p + 0x10, inode.bytesize);
    if opts.variableBlocksizes {
      OverAppend(before, p, f, LittleEndian(inode.blocksize, 4));
      Put32(inodata, p + 0x18, inode.blocksize);
    } else {
      assert f + [] == f;
    }
  }

  /** The block numbers of a list, one after the other. */
  method PutNumbers(inodata: array<Byte>, p: nat, list: seq<nat>, opts: Options)
    requires p + opts.TableSize(|list|) <= inodata.Length
    modifies inodata
    ensures inodata[..] == Over(old(inodata[..]), p, Numbers(list, opts))
  {
    hide LittleEndian, Over;
    ghost var before := inodata[..];
    var b := opts.BlocknumSize();
    OverNothing(before, p);
    for a := 0 to |list|
      invariant inodata[..] == Over(before, p, Numbers(list[..a], opts))
    {
      assert list[..a + 1][..a] == list[..a];
      OverAppend(before, p, Numbers(list[..a], opts), LittleEndian(list[a], b));
      PutN(inodata, p + opts.TableSize(a), list[a], b);
    }
    assert list[..|list|] == list;
  }

  method PutInode(inodata: array<Byte>, p: nat, inode: Inode, opts: Options, andBlocks: bool)
    requires p + opts.InodeSize(if andBlocks then |inode.blocklist| else 0) <= inodata.Length
    modifies inodata
    ensures inodata[..] == Over(old(inodata[..]), p, if andBlocks then Encode(inode, opts) else Header(inode, opts))
  {
    hide LittleEndian, Over, Header, Numbers;
    ghost var before := inodata[..];
    PutHeader(inodata, p, inode, opts);
    if andBlocks {
      OverAppend(before, p, Header(inode, opts), Numbers(inode.blocklist, opts));
      PutNumbers(inodata, p + opts.HeaderSize(), inode.blocklist, opts);
    }
  }

  // ---- Reading ----

  /** What the header says; blocks are not looked at. */
  function ReadHeader(data: seq<Byte>, opts: Options, bsize: nat, blocklist: seq<nat>): Inode
    requires opts.HeaderSize() <= |data|
  {
    var mode, word := Get32(data, 0), Get32(data, 8);
    Inode(mode, Get32(data, 4), if IsDevice(mode) then 1 else word, if IsDevice(mode) then word else 0,
          Get16(data, 0x0C), Get16(data, 0x0E), Get64(data, 0x10),
          if opts.variableBlocksizes then Get32(data, 0x18) else bsize, blocklist)
  }

  /** The n block numbers after the header. */
  function ReadNumbers(data: seq<Byte>, opts: Options, n: nat): (list: seq<nat>)
    requires opts.InodeSize(n) <= |data|
    ensures |list| == n
  {
    if n == 0 then [] else ReadNumbers(data, opts, n - 1) + [GetN(data, opts.InodeSize(n - 1), opts.BlocknumSize())]
  }

  function BlocksOf(inode: Inode): nat
    requires 0 < inode.blocksize
  {
    CalcSizeInBlocks(inode.bytesize, inode.blocksize)
  }

  /** What the caller of get_inode owes: a known size is not past the data, and with no size, the inode is whole. */
  ghost predicate Readable(data: seq<Byte>, size: nat, opts: Options, bsize: nat, andBlocks: bool) {
    && size <= |data|
    && (size == 0 ==> opts.HeaderSize() <= |data|)
    && ((size == 0 || opts.HeaderSize() <= size) && andBlocks ==>
          var inode := ReadHeader(data, opts, bsize, []);
          0 < inode.blocksize && (size == 0 ==> opts.InodeSize(BlocksOf(inode)) <= |data|))
  }

  lemma Regroup(front: seq<nat>, number: nat, rest: seq<nat>)
    ensures front + [number] + rest == front + ([number] + rest)
  {
  }

  /** The numbers after the header, read from the last to the first. */
  method GetNumbers(data: seq<Byte>, opts: Options, nblocks: nat) returns (numbers: seq<nat>)
    requires opts.HeaderSize() + opts.TableSize(nblocks) <= |data|
    ensures numbers == ReadNumbers(data, opts, nblocks)
  {
    hide GetN;
    var list := new nat[nblocks];
    var n := nblocks;
    while n > 0
      invariant n <= nblocks
      invariant ReadNumbers(data, opts, n) + list[n..] == ReadNumbers(data, opts, nblocks)
    {
      n := n - 1;
      ghost var rest := list[n + 1..];
      list[n] := GetN(data, opts.HeaderSize() + opts.TableSize(n), opts.BlocknumSize());
      assert list[n..] == [list[n]] + rest;
      Regroup(ReadNumbers(data, opts, n), list[n], rest);
    }
    assert [] + list[0..] == list[..];
    numbers := list[..];
  }

  /** data begins at the inode; a size of 0 means unknown. Blocks are filled in from the last to the first. */
  method GetInode(data: seq<Byte>, size: nat, blocklist: seq<nat>, opts: Options, bsize: nat, andBlocks: bool)
    returns (r: Result<Inode>)
    requires Readable(data, size, opts, bsize, andBlocks)
    ensures size > 0 && size < opts.HeaderSize() ==> r == Eio
    ensures size == 0 || opts.HeaderSize() <= size ==>
              var inode := ReadHeader(data, opts, bsize, blocklist);
              if !andBlocks then r == Ok(inode)
              else if size > 0 && size < opts.InodeSize(BlocksOf(inode)) then r == Eio
              else r == Ok(inode.(blocklist := ReadNumbers(data, opts, BlocksOf(inode))))
  {
    hide Get16, Get32, Get64, GetN, CalcSizeInBlocks, IsDevice;
    if size > 0 && size < opts.HeaderSize() {
      return Eio;
    }
    var inode := ReadHeader(data, opts, bsize, blocklist);
    if andBlocks {
      var nblocks := CalcSizeInBlocks(inode.bytesize, inode.blocksize);
      if size > 0 && size < opts.HeaderSize() + opts.TableSize(nblocks) {
        return Eio;
      }
      var list := GetNumbers(data, opts, nblocks);
      inode := inode.(blocklist := list);
    }
    r := Ok(inode);
  }

  // ---- What survives ----

  /** Everything the header stores fits its field. */
  ghost predicate HeaderFits(inode: Inode, opts: Options, bsize: nat) {
    && inode.mode < 0x1_0000_0000 && inode.time < 0x1_0000_0000
    && (if IsDevice(inode.mode) then inode.rdev else inode.links) < 0x1_0000_0000
    && inode.uid < 0x1_0000 && inode.gid < 0x1_0000 && inode.bytesize < 0x1_0000_0000_0000_0000
    && if opts.variableBlocksizes then inode.blocksize < 0x1_0000_0000 else inode.blocksize == bsize
  }

  /** A device has no link count of its own, and nothing else has a device number. */
  function Restored(inode: Inode): Inode {
    if IsDevice(inode.mode) then inode.(links := 1) else inode.(rdev := 0)
  }

  /** A field of the header, read back. */
  lemma Field(data: seq<Byte>, p: nat, v: nat, n: nat)
    requires 1 <= n <= 8 && p + n <= |data| && data[p..p + n] == LittleEndian(v, n)
    ensures GetN(data, p, n) == v <==> v < Pow256(n)
  {
    GetNReads(data, p, n);
    RoundTrip(v, n);
  }

  lemma Powers()
    ensures Pow256(2) == 0x1_0000 && Pow256(4) == 0x1_0000_0000 && Pow256(8) == 0x1_0000_0000_0000_0000
  {
    assert Pow256(6) == 0x1_0000_0000_0000;
  }

  /** Where each field lies. */
  lemma HeaderLayout(inode: Inode, opts: Options, rest: seq<Byte>)
    ensures var data := Header(inode, opts) + rest;
            && data[0..4] == LittleEndian(inode.mode, 4) && data[4..8] == LittleEndian(inode.time, 4)
            && data[8..12] == LittleEndian(if IsDevice(inode.mode) then inode.rdev else inode.links, 4)
            && data[12..14] == LittleEndian(inode.uid, 2) && data[14..16] == LittleEndian(inode.gid, 2)
            && data[16..24] == LittleEndian(inode.bytesize, 8)
            && (opts.variableBlocksizes ==> data[24..28] == LittleEndian(inode.blocksize, 4))
  {
    hide LittleEndian, IsDevice;
  }

  lemma {:induction false} NumberIn(list: seq<nat>, opts: Options, k: nat)
    requires k < |list|
    ensures opts.TableSize(k) + opts.BlocknumSize() <= |Numbers(list, opts)|
    ensures Numbers(list, opts)[opts.TableSize(k)..opts.TableSize(k) + opts.BlocknumSize()]
            == LittleEndian(list[k], opts.BlocknumSize())
    decreases list
  {
    hide LittleEndian;
    var n, b := |list| - 1, opts.BlocknumSize();
    var init, last := Numbers(list[..n], opts), LittleEndian(list[n], b);
    assert Numbers(list, opts) == init + last;
    if k < n {
      NumberIn(list[..n], opts, k);
      assert (init + last)[opts.TableSize(k)..opts.TableSize(k) + b] == init[opts.TableSize(k)..opts.TableSize(k) + b];
    } else {
      EndsIn(init, last);
    }
  }

  /** Where each block number lies: after 0x18 bytes, or 0x1C if the inode has a block size of its own. */
  lemma NumberLayout(inode: Inode, opts: Options, k: nat)
    requires k < |inode.blocklist|
    ensures var b := opts.BlocknumSize();
            var at := (if opts.variableBlocksizes then 0x1C else 0x18) + b * k;
            && 0 <= at && at + b <= |Encode(inode, opts)|
            && Encode(inode, opts)[at..at + b] == LittleEndian(inode.blocklist[k], b)
  {
    hide LittleEndian, Header, Numbers;
    NumberIn(inode.blocklist, opts, k);
    TableSizeIsProduct(opts, k);
    InSecond(Header(inode, opts), Numbers(inode.blocklist, opts), opts.TableSize(k), opts.BlocknumSize());
  }

  lemma InSecond(a: seq<Byte>, b: seq<Byte>, at: nat, n: nat)
    requires at + n <= |b|
    ensures (a + b)[|a| + at..|a| + at + n] == b[at..at + n]
  {
  }

  /** The header comes back exactly when every field fits, device nodes trading links for rdev. */
  lemma HeaderRoundTrip(inode: Inode, opts: Options, bsize: nat, rest: seq<Byte>)
    ensures ReadHeader(Header(inode, opts) + rest, opts, bsize, inode.blocklist) == Restored(inode)
            <==> HeaderFits(inode, opts, bsize)
  {
    var data := Header(inode, opts) + rest;
    HeaderLayout(inode, opts, rest);
    var word := if IsDevice(inode.mode) then inode.rdev else inode.links;
    Powers();
    Field(data, 0, inode.mode, 4);
    Field(data, 4, inode.time, 4);
    Field(data, 8, word, 4);
    Field(data, 12, inode.uid, 2);
    Field(data, 14, inode.gid, 2);
    Field(data, 16, inode.bytesize, 8);
    if opts.variableBlocksizes {
      Field(data, 24, inode.blocksize, 4);
    }
    hide LittleEndian, Get16, Get32, Get64, Pow256, Header;
  }

  ghost predicate NumbersFit(list: seq<nat>, opts: Options) {
    forall i :: 0 <= i < |list| ==> list[i] < Pow256(opts.BlocknumSize())
  }

  /** Reading n numbers looks at no byte after them. */
  lemma {:induction false} ReadNumbersLocal(data: seq<Byte>, more: seq<Byte>, opts: Options, n: nat)
    requires opts.InodeSize(n) <= |data|
    ensures ReadNumbers(data + more, opts, n) == ReadNumbers(data, opts, n)
  {
    hide GetN, LittleEndian, FromLittleEndian;
    if n > 0 {
      ReadNumbersLocal(data, more, opts, n - 1);
      var at, b := opts.InodeSize(n - 1), opts.BlocknumSize();
      GetNReads(data, at, b);
      GetNReads(data + more, at, b);
      assert (data + more)[at..at + b] == data[at..at + b];
    }
  }

  /** The numbers come back, at any width, exactly when they fit it. */
  lemma {:induction false} NumbersRoundTrip(header: seq<Byte>, list: seq<nat>, opts: Options)
    requires |header| == opts.HeaderSize()
    ensures ReadNumbers(header + Numbers(list, opts), opts, |list|) == list <==> NumbersFit(list, opts)
    decreases list
  {
    hide GetN, LittleEndian, Pow256;
    if list != [] {
      var n, b := |list| - 1, opts.BlocknumSize();
      var init, last := list[..n], LittleEndian(list[n], b);
      NumbersRoundTrip(header, init, opts);
      var data, data' := header + Numbers(init, opts), header + Numbers(list, opts);
      Regrouped(header, Numbers(init, opts), last);
      ReadNumbersLocal(data, last, opts, n);
      var at := opts.InodeSize(n);
      EndsIn(data, last);
      Field(data', at, list[n], b);
      LastApart(ReadNumbers(data, opts, n), GetN(data', at, b), list);
      LastFits(list, opts);
      hide NumbersFit;
    }
  }

  lemma Regrouped(a: seq<Byte>, b: seq<Byte>, c: seq<Byte>)
    ensures a + (b + c) == a + b + c
  {
  }

  lemma EndsIn(front: seq<Byte>, last: seq<Byte>)
    ensures (front + last)[|front|..|front| + |last|] == last
  {
  }

  lemma LastFits(list: seq<nat>, opts: Options)
    requires list != []
    ensures NumbersFit(list, opts) <==>
            NumbersFit(list[..|list| - 1], opts) && list[|list| - 1] < Pow256(opts.BlocknumSize())
  {
    hide Pow256;
    var n := |list| - 1;
    if NumbersFit(list[..n], opts) {
      assert forall i :: 0 <= i < n ==> list[i] == list[..n][i];
    }
  }

  lemma LastApart(init: seq<nat>, last: nat, list: seq<nat>)
    requires |list| == |init| + 1
    ensures init + [last] == list <==> init == list[..|init|] && last == list[|init|]
  {
    if init + [last] == list {
      assert list[..|init|] == init;
    } else if init == list[..|init|] {
      assert list == list[..|init|] + [list[|init|]];
    }
  }

  /** A whole inode written and read back with its blocks: PutInodeSize keeps the list as long as the size demands. */
  lemma InodeRoundTrip(inode: Inode, opts: Options, bsize: nat, rest: seq<Byte>)
    requires HeaderFits(inode, opts, bsize) && 0 < inode.blocksize && |inode.blocklist| == BlocksOf(inode)
    ensures Readable(Encode(inode, opts) + rest, 0, opts, bsize, true)
    ensures Readable(Encode(inode, opts) + rest, opts.InodeSize(|inode.blocklist|), opts, bsize, true)
    ensures ReadHeader(Encode(inode, opts) + rest, opts, bsize, inode.blocklist) == Restored(inode)
    ensures ReadNumbers(Encode(inode, opts) + rest, opts, |inode.blocklist|) == inode.blocklist <==>
            NumbersFit(inode.blocklist, opts)
  {
    hide Get16, Get32, Get64, Header, CalcSizeInBlocks, Pow256;
    var header, table := Header(inode, opts), Numbers(inode.blocklist, opts);
    assert Encode(inode, opts) + rest == header + (table + rest);
    HeaderRoundTrip(inode, opts, bsize, table + rest);
    NumbersRoundTrip(header, inode.blocklist, opts);
    ReadNumbersLocal(header + table, rest, opts, |inode.blocklist|);
    assert ReadHeader(Encode(inode, opts) + rest, opts, bsize, []) == Restored(inode).(blocklist := []);
  }

  // ---- Link counts ----

  /** Adds one link, unless the inode is a device's. */
  method IncrementInodeLinkcount(inodata: array<Byte>, p: nat)
    requires p + 0x0C <= inodata.Length
    modifies inodata
    ensures IsDevice(Get32(old(inodata[..]), p)) ==> inodata[..] == old(inodata[..])
    ensures !IsDevice(Get32(old(inodata[..]), p)) ==>
              inodata[..] == Over(old(inodata[..]), p + 8, LittleEndian(Get32(old(inodata[..]), p + 8) + 1, 4))
  {
    var mode := Get32(inodata[..], p);
    if IsDevice(mode) {
      return;
    }
    var links := Get32(inodata[..], p + 8);
    links := links + 1;
    Put32(inodata, p + 8, links);
  }

  /** What a field of n bytes loses of a number is a multiple of 256 to the n. */
  lemma {:induction false} Lost(v: nat, n: nat) returns (t: nat)
    ensures v == FromLittleEndian(LittleEndian(v, n)) + Pow256(n) * t
  {
    if n == 0 {
      t := v;
    } else {
      t := Lost(v / 256, n - 1);
      assert LittleEndian(v, n)[1..] == LittleEndian(v / 256, n - 1);
      assert Pow256(n) * t == 256 * (Pow256(n - 1) * t);
    }
  }

  lemma Carry(v: nat, k: nat)
    ensures (v + 256 * k) / 256 == v / 256 + k && (v + 256 * k) % 256 == v % 256
  {
  }

  lemma {:induction false} LostAnyway(v: nat, t: nat, n: nat)
    ensures 0 <= Pow256(n) * t
    ensures LittleEndian(v + Pow256(n) * t, n) == LittleEndian(v, n)
  {
    MulNonNegative(Pow256(n), t);
    if n != 0 {
      LostAnyway(v / 256, t, n - 1);
      var k := Pow256(n - 1) * t;
      assert Pow256(n) * t == 256 * k;
      Carry(v, k);
    }
  }

  /** Adding to a stored number and storing the sum again comes to storing the true sum. */
  lemma AddedInPlace(v: nat, d: nat, n: nat)
    ensures LittleEndian(FromLittleEndian(LittleEndian(v, n)) + d, n) == LittleEndian(v + d, n)
  {
    var w := FromLittleEndian(LittleEndian(v, n));
    var t := Lost(v, n);
    LostAnyway(w + d, t, n);
  }

  lemma OverMiddle(a: seq<Byte>, w: seq<Byte>, b: seq<Byte>, w': seq<Byte>)
    requires |w| == |w'|
    ensures Over(a + w + b, |a|, w') == a + w' + b
  {
  }

  /** The header around its third word. */
  lemma HeaderSplit(inode: Inode, opts: Options) returns (a: seq<Byte>, b: seq<Byte>)
    requires !IsDevice(inode.mode)
    ensures |a| == 8 && Header(inode, opts) == a + LittleEndian(inode.links, 4) + b
    ensures Header(inode.(links := inode.links + 1), opts) == a + LittleEndian(inode.links + 1, 4) + b
  {
    hide LittleEndian, IsDevice;
    a := LittleEndian(inode.mode, 4) + LittleEndian(inode.time, 4);
    b := LittleEndian(inode.uid, 2) + LittleEndian(inode.gid, 2) + LittleEndian(inode.bytesize, 8)
         + if opts.variableBlocksizes then LittleEndian(inode.blocksize, 4) else [];
  }

  lemma ModeWord(inode: Inode, opts: Options, rest: seq<Byte>)
    requires inode.mode < 0x1_0000_0000
    ensures Get32(Header(inode, opts) + rest, 0) == inode.mode
  {
    hide LittleEndian, IsDevice, Header, FromLittleEndian, Get16;
    HeaderLayout(inode, opts, rest);
    Powers();
    Field(Header(inode, opts) + rest, 0, inode.mode, 4);
  }

  lemma LinksWord(inode: Inode, opts: Options, rest: seq<Byte>)
    requires !IsDevice(inode.mode)
    ensures var data := Header(inode, opts) + rest;
            LittleEndian(Get32(data, 8) + 1, 4) == LittleEndian(inode.links + 1, 4)
  {
    hide LittleEndian, IsDevice, Header, FromLittleEndian, Get16;
    var data := Header(inode, opts) + rest;
    HeaderLayout(inode, opts, rest);
    GetNReads(data, 8, 4);
    AddedInPlace(inode.links, 1, 4);
  }

  /** One more link turns the encoding into that of an inode with one more link. */
  lemma OneMoreLink(inode: Inode, opts: Options, rest: seq<Byte>)
    requires !IsDevice(inode.mode)
    ensures var data := Header(inode, opts) + rest;
            Over(data, 8, LittleEndian(Get32(data, 8) + 1, 4)) == Header(inode.(links := inode.links + 1), opts) + rest
  {
    hide LittleEndian, IsDevice, Get32, Header, Over;
    LinksWord(inode, opts, rest);
    var a, b := HeaderSplit(inode, opts);
    var w, w' := LittleEndian(inode.links, 4), LittleEndian(inode.links + 1, 4);
    assert a + w + b + rest == a + w + (b + rest) && a + w' + b + rest == a + w' + (b + rest);
    OverMiddle(a, w, b + rest, w');
  }
}
