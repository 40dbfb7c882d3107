// cromfs.cc: listing a directory and looking up a name in it, from its bytes or from the cache.
module DirectoryReader {
  import opened DirectoryFormat
  import opened Endian
  import opened SearchSpec
  import opened Wrappers

  /** read_file_data into a zeroed buffer: what lies past the end stays zero. */
  function ReadFile(file: seq<Byte>, offset: nat, size: nat): (s: seq<Byte>)
    ensures |s| == size
    ensures offset + size <= |file| ==> s == file[offset..offset + size]
  {
    seq(size, i requires 0 <= i < size => if offset + i < |file| then file[offset + i] else 0)
  }

  /** Index of the first NUL, or the length. */
  function NulAt(s: seq<Byte>): (n: nat)
    ensures n <= |s| && 0 !in s[..n] && (n < |s| ==> s[n] == 0)
  {
    if s == [] || s[0] == 0 then 0
    else
      assert s[..1 + NulAt(s[1..])] == [s[0]] + s[1..][..NulAt(s[1..])];
      1 + NulAt(s[1..])
  }

  // ---- The answers a directory should give ----

  /** The inode number of a name, 0 when it is not there. */
  function Lookup(dir: seq<Entry>, name: seq<Byte>): nat {
    if dir == [] then 0 else if dir[0].name == name then dir[0].ino else Lookup(dir[1..], name)
  }

  lemma {:induction false} LookupFinds(dir: seq<Entry>, name: seq<Byte>, k: nat)
    requires Sorted(dir) && k < |dir| && dir[k].name == name
    ensures Lookup(dir, name) == dir[k].ino
  {
    if k > 0 {
      LessIrreflexive(name);
      assert Less(dir[0].name, dir[k].name);
      assert Sorted(dir[1..]);
      LookupFinds(dir[1..], name, k - 1);
    }
  }

  lemma {:induction false} LookupMisses(dir: seq<Entry>, name: seq<Byte>)
    requires forall k :: 0 <= k < |dir| ==> dir[k].name != name
    ensures Lookup(dir, name) == 0
  {
    if dir != [] {
      LookupMisses(dir[1..], name);
    }
  }

  /** The count entries from offset on, as far as there are any. */
  function Portion(dir: seq<Entry>, offset: nat, count: nat): seq<Entry> {
    if offset >= |dir| then []
    else if offset + count >= |dir| then dir[offset..]
    else dir[offset..offset + count]
  }

  // ---- Looking up ----

  ghost predicate IsDirectory(file: seq<Byte>, dir: seq<Entry>) {
    file == Encode(dir) && Encodable(dir)
  }

  /** Slot k of the offset table, once read, is where entry k begins. */
  ghost predicate OffsetsOk(dir: seq<Entry>, offsets: seq<nat>, read: seq<bool>, fileSize: nat) {
    && |offsets| == |dir| + 1 && |read| == |dir| && offsets[|dir|] == fileSize == Offset(dir, |dir|)
    && forall k :: 0 <= k < |dir| && read[k] ==> offsets[k] == Offset(dir, k)
  }

  /** Reads pointer middle and, when it is not the last, the one after it, unless they are there already. */
  method LoadOffsets(file: seq<Byte>, offsets: array<nat>, offsRead: array<bool>, middle: nat, last: nat,
                     ghost dir: seq<Entry>)
    requires offsets.Length == last + 1 && offsRead.Length == last && middle < last
    modifies offsets, offsRead
    ensures IsDirectory(file, dir) && old(OffsetsOk(dir, offsets[..], offsRead[..], |file|)) ==>
              && OffsetsOk(dir, offsets[..], offsRead[..], |file|)
              && offsets[middle] == Offset(dir, middle) && offsets[middle + 1] == Offset(dir, middle + 1)
  {
    hide IsDirectory, Offset, ReadFile, Get32;
    var readOffs, nRead := 0, 0;
    if !offsRead[middle] {
      nRead := nRead + 4;
    } else {
      readOffs := readOffs + 4;
    }
    if middle + 1 < last && !offsRead[middle + 1] {
      nRead := nRead + 4;
    }
    if nRead != 0 {
      var raw := ReadFile(file, 4 + readOffs + middle * 4, nRead);
      if IsDirectory(file, dir) && OffsetsOk(dir, offsets[..], offsRead[..], |file|) {
        PointersRead(file, dir, middle, readOffs, nRead);
      }
      if readOffs == 0 {
        offsets[middle] := Get32(raw, 0);
        offsRead[middle] := true;
      }
      if nRead == 8 || readOffs == 4 {
        offsets[middle + 1] := Get32(raw, nRead - 4);
        offsRead[middle + 1] := true;
      }
    }
  }

  lemma WordOfSlice(file: seq<Byte>, p: nat, n: nat, j: nat)
    requires p + n <= |file| && j + 4 <= n
    ensures Get32(ReadFile(file, p, n), j) == Get32(file, p + j)
  {
  }

  lemma PointersRead(file: seq<Byte>, dir: seq<Entry>, middle: nat, readOffs: nat, nRead: nat)
    requires IsDirectory(file, dir) && middle < |dir|
    requires (readOffs == 0 && nRead == 4) || ((readOffs == 4 || nRead == 8) && readOffs + nRead == 8
                                               && middle + 1 < |dir|)
    ensures readOffs == 0 ==> Get32(ReadFile(file, 4 + middle * 4, nRead), 0) == Offset(dir, middle)
    ensures readOffs + nRead == 8 ==>
              Get32(ReadFile(file, 4 + readOffs + middle * 4, nRead), nRead - 4) == Offset(dir, middle + 1)
  {
    hide Encode, Encodable, ReadFile, Get32;
    PointerAt(dir, middle);
    if readOffs + nRead == 8 {
      PointerAt(dir, middle + 1);
      WordOfSlice(file, 4 + readOffs + middle * 4, nRead, nRead - 4);
    }
    if readOffs == 0 {
      WordOfSlice(file, 4 + middle * 4, nRead, 0);
    }
  }

  /** An entry's bytes give back its inode number and its name. */
  lemma EntrySays(e: Entry)
    requires EntryOk(e)
    ensures Get64(EntryBytes(e), 0) == e.ino
    ensures NulAt(EntryBytes(e)[8..]) == |e.name| && EntryBytes(e)[8..][..|e.name|] == e.name
  {
    var bytes := EntryBytes(e);
    assert bytes[0..8] == LittleEndian(e.ino, 8);
    GetNReads(bytes, 0, 8);
    RoundTrip(e.ino, 8);
    assert bytes[8..] == e.name + [0];
    NulAfterName(e.name);
  }

  lemma {:induction false} NulAfterName(name: seq<Byte>)
    requires 0 !in name
    ensures NulAt(name + [0]) == |name|
  {
    if name != [] {
      NulAfterName(name[1..]);
      assert (name + [0])[1..] == name[1..] + [0];
      assert name[0] in name;
    }
  }

  /** The name can only be among the len entries from first on. */
  ghost predicate Narrowed(dir: seq<Entry>, name: seq<Byte>, first: nat, len: nat) {
    && first + len <= |dir|
    && (forall k :: 0 <= k < first ==> Less(dir[k].name, name))
    && forall k :: first + len <= k < |dir| ==> Less(name, dir[k].name)
  }

  lemma NarrowedFurther(dir: seq<Entry>, name: seq<Byte>, first: nat, len: nat, middle: nat)
    requires Sorted(dir) && Narrowed(dir, name, first, len) && first <= middle < first + len
    ensures Less(dir[middle].name, name) ==> Narrowed(dir, name, middle + 1, first + len - middle - 1)
    ensures Less(name, dir[middle].name) ==> Narrowed(dir, name, first, middle - first)
  {
    forall k | 0 <= k < |dir|
      ensures k < middle && Less(dir[middle].name, name) ==> Less(dir[k].name, name)
      ensures middle < k && Less(name, dir[middle].name) ==> Less(name, dir[k].name)
    {
      if k < middle && Less(dir[middle].name, name) {
        LessTransitive(dir[k].name, dir[middle].name, name);
      }
      if middle < k && Less(name, dir[middle].name) {
        LessTransitive(name, dir[middle].name, dir[k].name);
      }
    }
  }

  lemma NarrowedToNothing(dir: seq<Entry>, name: seq<Byte>, first: nat)
    requires Narrowed(dir, name, first, 0)
    ensures Lookup(dir, name) == 0
  {
    LessIrreflexive(name);
    LookupMisses(dir, name);
  }

  /** Reads entry middle through its offsets. */
  lemma EntryRead(file: seq<Byte>, dir: seq<Entry>, k: nat)
    requires IsDirectory(file, dir) && k < |dir|
    ensures Offset(dir, k) + 9 < Offset(dir, k + 1) <= |file|
    ensures ReadFile(file, Offset(dir, k), Offset(dir, k + 1) - Offset(dir, k)) == EntryBytes(dir[k]) && EntryOk(dir[k])
  {
    OffsetsStep(dir, k);
    EntryAt(dir, k);
  }

  /** How the searched name compares with an entry: the entry is broken, has the name, or lies before or after it. */
  datatype Probe = Broken | Hit(ino: nat) | Before | After

  /** Reads the entry between two offsets and compares its name with the searched one. */
  method ProbeEntry(file: seq<Byte>, offsThis: nat, offsNext: nat, name: seq<Byte>, ghost dir: seq<Entry>, ghost k: nat)
    returns (p: Probe)
    requires |file| < 0xFFFF_FFF0
    ensures IsDirectory(file, dir) && k < |dir| && offsThis == Offset(dir, k) && offsNext == Offset(dir, k + 1) ==>
              p == if name == dir[k].name then Hit(dir[k].ino) else if Less(dir[k].name, name) then Before else After
  {
    if IsDirectory(file, dir) && k < |dir| && offsThis == Offset(dir, k) && offsNext == Offset(dir, k + 1) {
      EntryRead(file, dir, k);
      EntrySays(dir[k]);
    }
    hide Encode, Encodable, Offset, Get64, ReadFile;
    if offsThis + 9 >= offsNext || offsThis >= |file| || offsNext > |file| {
      return Broken;
    }
    var entryBuf := ReadFile(file, offsThis, offsNext - offsThis);
    var inonumber := Get64(entryBuf, 0);
    var filename := entryBuf[8..];
    var nul := NulAt(filename);
    if nul == |filename| {
      return Broken;
    }
    if name == filename[..nul] {
      return Hit(inonumber);
    }
    return if Less(filename[..nul], name) then Before else After;
  }

  /** dir_lookup without a cached listing: a binary search that reads offsets only as it needs them. */
  method LookupInFile(file: seq<Byte>, name: seq<Byte>, ghost dir: seq<Entry>) returns (r: Result<nat>)
    requires |file| < 0xFFFF_FFF0
    ensures IsDirectory(file, dir) ==> r == Ok(Lookup(dir, name))
  {
    hide Encode, Encodable, Offset, Lookup, Get32, Narrowed, Sorted;
    if IsDirectory(file, dir) {
      HeaderAt(dir);
      SizeOfEncoding(dir);
      NarrowedAtFirst(dir, name);
    }
    if |file| < 4 {
      return Eio;
    }
    var numFiles := Get32(file, 0);
    var offsets := new nat[numFiles + 1](_ => 0);
    var offsRead := new bool[numFiles](_ => false);
    offsets[numFiles] := |file|;
    var len, first := numFiles, 0;
    while len > 0
      invariant first + len <= numFiles
      invariant IsDirectory(file, dir) ==>
                  OffsetsOk(dir, offsets[..], offsRead[..], |file|) && Narrowed(dir, name, first, len)
      decreases len
    {
      var half := len / 2;
      var middle := first + half;
      LoadOffsets(file, offsets, offsRead, middle, numFiles, dir);
      var p := ProbeEntry(file, offsets[middle], offsets[middle + 1], name, dir, middle);
      if IsDirectory(file, dir) {
        MiddleDecides(file, dir, name, first, len, middle);
      }
      match p {
        case Broken => return Eio;
        case Hit(ino) => return Ok(ino);
        case Before => first, len := middle + 1, len - half - 1;
        case After => len := half;
      }
    }
    if IsDirectory(file, dir) {
      NarrowedToNothing(dir, name, first);
    }
    return Ok(0);
  }

  lemma NarrowedAtFirst(dir: seq<Entry>, name: seq<Byte>)
    ensures Narrowed(dir, name, 0, |dir|)
  {
  }

  /** What the comparison with the middle name settles. */
  lemma MiddleDecides(file: seq<Byte>, dir: seq<Entry>, name: seq<Byte>, first: nat, len: nat, middle: nat)
    requires IsDirectory(file, dir) && Narrowed(dir, name, first, len) && first <= middle < first + len
    ensures middle < |dir|
    ensures name == dir[middle].name ==> Lookup(dir, name) == dir[middle].ino
    ensures name != dir[middle].name && Less(dir[middle].name, name) ==>
              Narrowed(dir, name, middle + 1, first + len - middle - 1)
    ensures name != dir[middle].name && !Less(dir[middle].name, name) ==> Narrowed(dir, name, first, middle - first)
  {
    NarrowedFurther(dir, name, first, len, middle);
    LessIsStrict(name, dir[middle].name);
    if name == dir[middle].name {
      LookupFinds(dir, name, middle);
    }
  }

  // ---- Listing ----

  /** std::map's operator[] followed by an assignment, on the map as its sorted list. */
  function Insert(dir: seq<Entry>, e: Entry): seq<Entry> {
    if dir == [] || Less(e.name, dir[0].name) then [e] + dir
    else if e.name == dir[0].name then [e] + dir[1..]
    else [dir[0]] + Insert(dir[1..], e)
  }

  lemma {:induction false} InsertLast(dir: seq<Entry>, e: Entry)
    requires forall k :: 0 <= k < |dir| ==> Less(dir[k].name, e.name)
    ensures Insert(dir, e) == dir + [e]
  {
    if dir != [] {
      LessIsStrict(dir[0].name, e.name);
      LessIrreflexive(e.name);
      InsertLast(dir[1..], e);
      assert dir + [e] == [dir[0]] + (dir[1..] + [e]);
    }
  }

  /** The range of entries a request wants. */
  function Wanted(numFiles: nat, offset: nat, count: nat): (n: nat)
    ensures offset < numFiles ==> offset + n <= numFiles
  {
    if offset >= numFiles then 0 else if numFiles - offset < count then numFiles - offset else count
  }

  /** The listing computes distances between entries in a signed 32-bit number. */
  predicate Reachable(dir: seq<Entry>, offset: nat, count: nat) {
    var n := Wanted(|dir|, offset, count);
    n == 0 || Offset(dir, offset + n - 1) - Offset(dir, offset) < 0x8000_0000
  }

  function Diff32(a: nat, b: nat): nat {
    (a - b) % 0x1_0000_0000
  }

  lemma {:induction false} NulBeforeRest(name: seq<Byte>, rest: seq<Byte>)
    requires 0 !in name
    ensures NulAt(name + [0] + rest) == |name|
  {
    if name != [] {
      NulBeforeRest(name[1..], rest);
      assert (name + [0] + rest)[1..] == name[1..] + [0] + rest;
      assert name[0] in name;
    }
  }

  lemma SliceOfSlice(file: seq<Byte>, lo: nat, hi: nat, from: nat, to: nat)
    requires lo <= from <= to <= hi <= |file|
    ensures file[lo..hi][from - lo..] == file[from..to] + file[to..hi]
  {
  }

  /** The entry at a distance into the name buffer. */
  function NameAt(nameBuf: seq<Byte>, nameOffs: nat): Result<Entry> {
    if nameOffs >= 0x8000_0000 || nameOffs + 9 >= |nameBuf| then Eio
    else
      var filename := nameBuf[nameOffs + 8..];
      var nul := NulAt(filename);
      if nul == |filename| then Eio else Ok(Entry(filename[..nul], Get64(nameBuf, nameOffs)))
  }

  lemma NameInFront(e: Entry, rest: seq<Byte>)
    requires EntryOk(e)
    ensures NameAt(EntryBytes(e) + rest, 0) == Ok(e)
  {
    EntrySays(e);
    var buf, bytes := EntryBytes(e) + rest, EntryBytes(e);
    assert Get64(buf, 0) == Get64(bytes, 0);
    assert buf[8..] == e.name + [0] + rest;
    NulBeforeRest(e.name, rest);
    assert (e.name + [0] + rest)[..|e.name|] == e.name;
  }

  lemma NameFurtherOn(buf: seq<Byte>, at: nat)
    requires at <= |buf|
    ensures NameAt(buf, at) == if at >= 0x8000_0000 then Eio else NameAt(buf[at..], 0)
  {
    if at + 9 < |buf| {
      assert buf[at..][8..] == buf[at + 8..];
    }
  }

  /** One entry inside the name buffer, which holds the bytes of entries first up to last. */
  lemma EntryInBuffer(file: seq<Byte>, dir: seq<Entry>, first: nat, last: nat, k: nat)
    requires IsDirectory(file, dir) && first <= k < last <= |dir|
    ensures Offset(dir, first) <= Offset(dir, k) <= Offset(dir, last)
    ensures var buf := ReadFile(file, Offset(dir, first), Offset(dir, last) - Offset(dir, first));
            var at := Offset(dir, k) - Offset(dir, first);
            NameAt(buf, at) == if at >= 0x8000_0000 then Eio else Ok(dir[k])
  {
    hide *;
    OffsetsInOrder(file, dir, first, last, k);
    EntryRead(file, dir, k);
    NameInBuffer(file, dir[k], Offset(dir, first), Offset(dir, last), Offset(dir, k), Offset(dir, k + 1));
  }

  lemma OffsetsInOrder(file: seq<Byte>, dir: seq<Entry>, first: nat, last: nat, k: nat)
    requires IsDirectory(file, dir) && first <= k < last <= |dir|
    ensures Offset(dir, first) <= Offset(dir, k) <= Offset(dir, k + 1) <= Offset(dir, last) <= |file|
  {
    SizeOfEncoding(dir);
    hide Encode, Encodable, Offset;
    OffsetsGrow(dir, first, k);
    OffsetsGrow(dir, k, k + 1);
    OffsetsGrow(dir, k + 1, last);
    OffsetsGrow(dir, last, |dir|);
  }

  lemma NameInBuffer(file: seq<Byte>, e: Entry, lo: nat, hi: nat, from: nat, to: nat)
    requires lo <= from <= to <= hi <= |file| && EntryOk(e) && ReadFile(file, from, to - from) == EntryBytes(e)
    ensures NameAt(ReadFile(file, lo, hi - lo), from - lo) == if from - lo >= 0x8000_0000 then Eio else Ok(e)
  {
    hide *;
    SliceOfSlice(file, lo, hi, from, to);
    NameFurtherOn(ReadFile(file, lo, hi - lo), from - lo);
    NameInFront(e, file[to..hi]);
  }

  /** The offsets of the wanted entries, and of what follows them. */
  method ReadOffsets(file: seq<Byte>, numFiles: nat, dirOffset: nat, numToRead: nat, ghost dir: seq<Entry>)
    returns (entryOffsets: seq<nat>)
    requires 0 < numToRead && dirOffset + numToRead <= numFiles
    ensures |entryOffsets| == numToRead + 1
    ensures IsDirectory(file, dir) && numFiles == |dir| ==>
              forall n :: 0 <= n <= numToRead ==> entryOffsets[n] == Offset(dir, dirOffset + n)
  {
    hide *;
    var table := new nat[numToRead + 1](_ => 0);
    var numAddrsToRead := numToRead;
    if dirOffset + numToRead == numFiles {
      table[numToRead] := |file|;
    } else {
      numAddrsToRead := numAddrsToRead + 1;
    }
    var raw := ReadFile(file, 4 + dirOffset * 4, 4 * numAddrsToRead);
    for n := 0 to numAddrsToRead
      invariant forall m :: 0 <= m < n ==> table[m] == Get32(raw, 4 * m)
      invariant numAddrsToRead == numToRead ==> table[numToRead] == |file|
    {
      table[n] := Get32(raw, 4 * n);
    }
    entryOffsets := table[..];
    if IsDirectory(file, dir) && numFiles == |dir| {
      OffsetsInRaw(file, dir, dirOffset, numAddrsToRead);
      DirectorySize(file, dir);
    }
  }

  lemma DirectorySize(file: seq<Byte>, dir: seq<Entry>)
    requires IsDirectory(file, dir)
    ensures |file| == Offset(dir, |dir|)
  {
    SizeOfEncoding(dir);
  }

  lemma OffsetsInRaw(file: seq<Byte>, dir: seq<Entry>, first: nat, n: nat)
    requires IsDirectory(file, dir) && 0 < n && first + n <= |dir|
    ensures file == Encode(dir)
    ensures forall m :: 0 <= m < n ==> Get32(ReadFile(file, 4 + first * 4, 4 * n), 4 * m) == Offset(dir, first + m)
  {
    hide Encode, Encodable, Offset, ReadFile, Get32;
    PointerAt(dir, first + n - 1);
    forall m | 0 <= m < n
      ensures Get32(ReadFile(file, 4 + first * 4, 4 * n), 4 * m) == Offset(dir, first + m)
    {
      PointerAt(dir, first + m);
      WordOfSlice(file, 4 + first * 4, 4 * n, 4 * m);
    }
  }

  lemma PortionIs(dir: seq<Entry>, offset: nat, count: nat)
    ensures Portion(dir, offset, count) == if offset >= |dir| then []
            else dir[offset..offset + Wanted(|dir|, offset, count)]
  {
  }

  /** read_dir without a cached listing. */
  method ListFile(file: seq<Byte>, dirOffset: nat, dirCount: nat, ghost dir: seq<Entry>) returns (r: Result<seq<Entry>>)
    requires |file| < 0xFFFF_FFF0
    ensures IsDirectory(file, dir) ==>
              r == if Reachable(dir, dirOffset, dirCount) then Ok(Portion(dir, dirOffset, dirCount)) else Eio
  {
    hide Encode, Encodable, Offset, ReadFile, Get64, Get32, LittleEndian;
    if IsDirectory(file, dir) {
      HeaderAt(dir);
    }
    if |file| < 4 {
      return Eio;
    }
    PortionIs(dir, dirOffset, dirCount);
    var numFiles := Get32(file, 0);
    var result: seq<Entry> := [];
    if dirOffset < numFiles {
      var numToRead := Wanted(numFiles, dirOffset, dirCount);
      if numToRead > 0 {
        var entryOffsets := ReadOffsets(file, numFiles, dirOffset, numToRead, dir);
        r := ReadNames(file, entryOffsets, dirOffset, numToRead, dir);
        return;
      }
    }
    return Ok(result);
  }

  /** Reads the names between the first and the last of the offsets. */
  method ReadNames(file: seq<Byte>, entryOffsets: seq<nat>, dirOffset: nat, numToRead: nat, ghost dir: seq<Entry>)
    returns (r: Result<seq<Entry>>)
    requires 0 < numToRead && |entryOffsets| == numToRead + 1
    ensures OffsetsOf(file, entryOffsets, dirOffset, numToRead, dir) ==>
              dirOffset + numToRead <= |dir| &&
              r == if Offset(dir, dirOffset + numToRead - 1) - Offset(dir, dirOffset) < 0x8000_0000
                   then Ok(dir[dirOffset..dirOffset + numToRead]) else Eio
  {
    hide *;
    var nameBuf := ReadFile(file, entryOffsets[0], Diff32(entryOffsets[numToRead], entryOffsets[0]));
    var result: seq<Entry> := [];
    NothingListed(file, entryOffsets, dirOffset, numToRead, dir);
    for a := 0 to numToRead
      invariant Listed(file, entryOffsets, dirOffset, numToRead, dir, a, result)
    {
      ListedNext(file, entryOffsets, dirOffset, numToRead, dir, a, result, nameBuf);
      var e := if a > 0 && entryOffsets[a] < entryOffsets[a - 1] then Eio
               else NameAt(nameBuf, Diff32(entryOffsets[a], entryOffsets[0]));
      if e.Eio? {
        return Eio;
      }
      result := Insert(result, e.value);
    }
    AllListed(file, entryOffsets, dirOffset, numToRead, dir, result);
    return Ok(result);
  }

  /** The offsets are those of a directory's entries from first on. */
  ghost predicate OffsetsOf(file: seq<Byte>, offsets: seq<nat>, first: nat, n: nat, dir: seq<Entry>)
    requires |offsets| == n + 1
  {
    && IsDirectory(file, dir) && first + n <= |dir|
    && forall k :: 0 <= k <= n ==> offsets[k] == Offset(dir, first + k)
  }

  /** The first a entries are listed, all of them within signed reach of the first. */
  ghost predicate Listed(file: seq<Byte>, offsets: seq<nat>, first: nat, n: nat, dir: seq<Entry>, a: nat,
                         result: seq<Entry>)
    requires |offsets| == n + 1 && a <= n
  {
    OffsetsOf(file, offsets, first, n, dir) ==>
      result == dir[first..first + a] && (a > 0 ==> Offset(dir, first + a - 1) - Offset(dir, first) < 0x8000_0000)
  }

  lemma NothingListed(file: seq<Byte>, offsets: seq<nat>, first: nat, n: nat, dir: seq<Entry>)
    requires |offsets| == n + 1
    ensures Listed(file, offsets, first, n, dir, 0, [])
  {
  }

  lemma AllListed(file: seq<Byte>, offsets: seq<nat>, first: nat, n: nat, dir: seq<Entry>, result: seq<Entry>)
    requires |offsets| == n + 1 && 0 < n && Listed(file, offsets, first, n, dir, n, result)
    ensures OffsetsOf(file, offsets, first, n, dir) ==>
              first + n <= |dir| && result == dir[first..first + n]
              && Offset(dir, first + n - 1) - Offset(dir, first) < 0x8000_0000
  {
  }

  /** One more entry: listed if it is within reach, and otherwise the last one is out of reach as well. */
  lemma ListedNext(file: seq<Byte>, offsets: seq<nat>, first: nat, n: nat, dir: seq<Entry>, a: nat,
                   result: seq<Entry>, buf: seq<Byte>)
    requires |offsets| == n + 1 && a < n && Listed(file, offsets, first, n, dir, a, result)
    requires buf == ReadFile(file, offsets[0], Diff32(offsets[n], offsets[0]))
    ensures var e := if a > 0 && offsets[a] < offsets[a - 1] then Eio else NameAt(buf, Diff32(offsets[a], offsets[0]));
            if e.Ok? then Listed(file, offsets, first, n, dir, a + 1, Insert(result, e.value))
            else OffsetsOf(file, offsets, first, n, dir) ==>
              first + n <= |dir| && !(Offset(dir, first + n - 1) - Offset(dir, first) < 0x8000_0000)
  {
    hide Offset, ReadFile, NameAt, Insert, IsDirectory;
    if OffsetsOf(file, offsets, first, n, dir) {
      EntryInBuffer(file, dir, first, first + n, first + a);
      DistancesFit(file, dir, first, n, a);
      NextInOrder(file, dir, first, a);
    }
  }

  lemma DistancesFit(file: seq<Byte>, dir: seq<Entry>, first: nat, n: nat, a: nat)
    requires IsDirectory(file, dir) && first + n <= |dir| && a < n
    ensures Diff32(Offset(dir, first + n), Offset(dir, first)) == Offset(dir, first + n) - Offset(dir, first)
    ensures Diff32(Offset(dir, first + a), Offset(dir, first)) == Offset(dir, first + a) - Offset(dir, first)
    ensures Offset(dir, first + a) <= Offset(dir, first + n - 1)
    ensures a > 0 ==> Offset(dir, first + a - 1) <= Offset(dir, first + a)
  {
    hide Encode, Offset, EntryOk;
    OffsetsGrow(dir, first, first + a);
    OffsetsGrow(dir, first + a, first + n - 1);
    OffsetsGrow(dir, first + n - 1, first + n);
    OffsetsGrow(dir, first + n, |dir|);
    if a > 0 {
      OffsetsGrow(dir, first + a - 1, first + a);
    }
  }

  lemma NextInOrder(file: seq<Byte>, dir: seq<Entry>, first: nat, a: nat)
    requires IsDirectory(file, dir) && first + a < |dir|
    ensures Insert(dir[first..first + a], dir[first + a]) == dir[first..first + a + 1]
  {
    InsertLast(dir[first..first + a], dir[first + a]);
  }

  // ---- The reader and its cache ----

  /** The directories of a volume by inode number, with the listings read so far. */
  class DirectoryTree {
    const files: map<nat, seq<Byte>>
    /** What each file was encoded from. */
    ghost const dirs: map<nat, seq<Entry>>
    var readdirCache: map<nat, seq<Entry>>

    ghost predicate Valid()
      reads this
    {
      && (forall ino :: ino in files ==> ino in dirs && IsDirectory(files[ino], dirs[ino]))
      && forall ino :: ino in readdirCache ==> ino in files && readdirCache[ino] == dirs[ino]
    }

    constructor (files: map<nat, seq<Byte>>, ghost dirs: map<nat, seq<Entry>>)
      requires forall ino :: ino in files ==> ino in dirs && IsDirectory(files[ino], dirs[ino])
      ensures Valid() && this.files == files && this.dirs == dirs
    {
      this.files, this.dirs, this.readdirCache := files, dirs, map[];
    }

    /** read_dir: the same slice of the sorted directory, cached or not; a whole listing is kept. */
    method ReadDir(ino: nat, dirOffset: nat, dirCount: nat) returns (r: Result<seq<Entry>>)
      requires Valid() && ino in files
      modifies this`readdirCache
      ensures Valid()
      ensures r == if ino in old(readdirCache) || Reachable(dirs[ino], dirOffset, dirCount)
                   then Ok(Portion(dirs[ino], dirOffset, dirCount)) else Eio
    {
      DirectorySize(files[ino], dirs[ino]);
      assert Encodable(dirs[ino]);
      hide IsDirectory, Offset;
      if ino in readdirCache {
        var cached := readdirCache[ino];
        if dirOffset == 0 && dirCount >= |cached| {
          return Ok(cached);
        }
        var portion := GetDirinfoPortion(cached, dirOffset, dirCount);
        return Ok(portion);
      }
      r := ListFile(files[ino], dirOffset, dirCount, dirs[ino]);
      var numFiles := NumFiles(files[ino], dirs[ino]);
      if r.Ok? && dirOffset == 0 && dirCount >= numFiles {
        readdirCache := readdirCache[ino := r.value];
      }
    }

    /** dir_lookup: the inode number of a name that is there, 0 of one that is not, cached or not. */
    method DirLookup(ino: nat, name: seq<Byte>) returns (r: Result<nat>)
      requires Valid() && ino in files
      ensures r == Ok(Lookup(dirs[ino], name))
    {
      DirectorySize(files[ino], dirs[ino]);
      assert Encodable(dirs[ino]);
      if ino in readdirCache {
        return Ok(Lookup(readdirCache[ino], name));
      }
      r := LookupInFile(files[ino], name, dirs[ino]);
    }
  }

  function NumFiles(file: seq<Byte>, ghost dir: seq<Entry>): (n: nat)
    requires IsDirectory(file, dir)
    ensures n == |dir|
  {
    HeaderAt(dir);
    Get32(file, 0)
  }

  /** get_dirinfo_portion: steps over the entries before, then takes those that follow. */
  method GetDirinfoPortion(full: seq<Entry>, dirOffset: nat, dirCount: nat) returns (portion: seq<Entry>)
    ensures portion == Portion(full, dirOffset, dirCount)
  {
    var j, skip := 0, dirOffset;
    while skip > 0 && j < |full|
      invariant j <= |full| && 0 <= skip && skip + j == dirOffset
    {
      j, skip := j + 1, skip - 1;
    }
    var first, left := j, dirCount;
    while left > 0 && j < |full|
      invariant first <= j <= |full| && 0 <= left && left + (j - first) == dirCount
    {
      j, left := j + 1, left - 1;
    }
    portion := full[first..j];
    PortionIs(full, dirOffset, dirCount);
  }

  /** A name looked up in the bytes of an encoded directory is found exactly when an entry has it. */
  lemma LookupIsMembership(dir: seq<Entry>, name: seq<Byte>)
    requires Sorted(dir)
    ensures (exists k :: 0 <= k < |dir| && dir[k].name == name && dir[k].ino == Lookup(dir, name))
            || ((forall k :: 0 <= k < |dir| ==> dir[k].name != name) && Lookup(dir, name) == 0)
  {
    if k :| 0 <= k < |dir| && dir[k].name == name {
      LookupFinds(dir, name, k);
    } else {
      LookupMisses(dir, name);
    }
  }

  // ---- The failure of the listing ----

  /** Two entries, the first with a name of 2 GiB: a directory the format can hold. */
  ghost function LongNameFirst(): seq<Entry> {
    [Entry(seq(0x8000_0000, _ => 97), 1), Entry([98], 2)]
  }

  /** Listing both names of that directory, without a cached listing, gives EIO, although either one can be
      listed alone. */
  lemma LongListingFails()
    ensures Encodable(LongNameFirst())
    ensures !Reachable(LongNameFirst(), 0, 2) && Reachable(LongNameFirst(), 0, 1) && Reachable(LongNameFirst(), 1, 1)
  {
    var dir := LongNameFirst();
    OffsetsStep(dir, 0);
    OffsetsStep(dir, 1);
    assert dir[..0] == [];
    assert Pow256(8) >= 0x100 by {
      assert Pow256(8) == 256 * Pow256(7);
    }
  }
}
