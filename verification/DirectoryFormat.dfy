// lib/cromfs-directoryfun.cc: the bytes of a directory, and what can be read from them.
module DirectoryFormat {
  import opened Endian
  import opened SearchSpec

  datatype Entry = Entry(name: seq<Byte>, ino: nat)

  // ---- Names in order ----

  /** The order of std::string: by unsigned bytes, a prefix first. */
  predicate Less(a: seq<Byte>, b: seq<Byte>) {
    b != [] && (a == [] || a[0] < b[0] || (a[0] == b[0] && Less(a[1..], b[1..])))
  }

  /** The names agree before place n, and there a ends or has the smaller byte. */
  ghost predicate DecidesAt(a: seq<Byte>, b: seq<Byte>, n: nat) {
    n <= |a| && n < |b| && a[..n] == b[..n] && (n == |a| || a[n] < b[n])
  }

  lemma DecidesFurther(a: seq<Byte>, b: seq<Byte>, n: nat)
    requires a != [] && b != [] && a[0] == b[0]
    ensures DecidesAt(a, b, n + 1) <==> DecidesAt(a[1..], b[1..], n)
  {
    if n < |a| && n + 1 < |b| {
      assert a[..n + 1] == [a[0]] + a[1..][..n] && b[..n + 1] == [b[0]] + b[1..][..n];
      assert a[1..][..n] == a[..n + 1][1..] && b[1..][..n] == b[..n + 1][1..];
    }
  }

  /** The first place where the names differ decides; a name that ends there comes first. */
  lemma {:induction false} LessAtFirstDifference(a: seq<Byte>, b: seq<Byte>)
    ensures Less(a, b) <==> exists n: nat :: DecidesAt(a, b, n)
  {
    if a == [] || b == [] || a[0] < b[0] {
      assert Less(a, b) ==> DecidesAt(a, b, 0);
    } else if a[0] == b[0] {
      LessAtFirstDifference(a[1..], b[1..]);
      if Less(a, b) {
        var n: nat :| DecidesAt(a[1..], b[1..], n);
        DecidesFurther(a, b, n);
      } else if n: nat :| DecidesAt(a, b, n) {
        DecidesFurther(a, b, n - 1);
      }
    } else {
      forall n: nat
        ensures !DecidesAt(a, b, n)
      {
        assert n > 0 && n <= |a| && n < |b| ==> a[..n][0] != b[..n][0];
      }
    }
  }

  lemma {:induction false} LessTransitive(a: seq<Byte>, b: seq<Byte>, c: seq<Byte>)
    requires Less(a, b) && Less(b, c)
    ensures Less(a, c)
  {
    if a != [] && a[0] == b[0] && b[0] == c[0] {
      LessTransitive(a[1..], b[1..], c[1..]);
    }
  }

  lemma {:induction false} LessIrreflexive(a: seq<Byte>)
    ensures !Less(a, a)
  {
    if a != [] {
      LessIrreflexive(a[1..]);
    }
  }

  /** Any two names are ordered one way or equal, and never both ways. */
  lemma {:induction false} LessIsStrict(a: seq<Byte>, b: seq<Byte>)
    ensures !(Less(a, b) && Less(b, a))
    ensures Less(a, b) || Less(b, a) || a == b
  {
    if a != [] && b != [] && a[0] == b[0] {
      LessIsStrict(a[1..], b[1..]);
      if a[1..] == b[1..] {
        assert a == [a[0]] + a[1..] && b == [b[0]] + b[1..];
      }
    }
  }

  /** A directory as its std::map lists it: by ascending name. */
  ghost predicate Sorted(dir: seq<Entry>) {
    forall i, j :: 0 <= i < j < |dir| ==> Less(dir[i].name, dir[j].name)
  }

  /** What the format can hold: nonempty names without NUL, 64-bit inode numbers, 32-bit offsets. */
  ghost predicate Encodable(dir: seq<Entry>) {
    && Sorted(dir) && Offset(dir, |dir|) < 0xFFFF_FFF0
    && forall k :: 0 <= k < |dir| ==> EntryOk(dir[k])
  }

  ghost predicate EntryOk(e: Entry) {
    e.name != [] && 0 !in e.name && e.ino < Pow256(8)
  }

  // ---- The bytes ----

  function EntryBytes(e: Entry): (s: seq<Byte>)
    ensures |s| == 8 + |e.name| + 1
  {
    LittleEndian(e.ino, 8) + e.name + [0]
  }

  /** An entry: the inode number, the name, and a byte that ends it. */
  lemma EntryLayout(e: Entry)
    ensures var s, n := EntryBytes(e), |e.name|;
            |s| == 9 + n && s[..8] == LittleEndian(e.ino, 8) && s[8..8 + n] == e.name && s[8 + n] == 0
  {
    hide LittleEndian;
  }

  function Entries(dir: seq<Entry>): seq<Byte> {
    if dir == [] then [] else Entries(dir[..|dir| - 1]) + EntryBytes(dir[|dir| - 1])
  }

  /** Where entry k begins. */
  function Offset(dir: seq<Entry>, k: nat): nat
    requires k <= |dir|
  {
    4 + 4 * |dir| + |Entries(dir[..k])|
  }

  /** The count and the first k pointers. */
  function Head(dir: seq<Entry>, k: nat): (s: seq<Byte>)
    requires k <= |dir|
    ensures |s| == 4 + 4 * k
  {
    if k == 0 then LittleEndian(|dir|, 4) else Head(dir, k - 1) + LittleEndian(Offset(dir, k - 1), 4)
  }

  function Encode(dir: seq<Entry>): seq<Byte> {
    Head(dir, |dir|) + Entries(dir)
  }

  // ---- The encoder ----

  /** calc_encoded_directory_size: the size is known without encoding. */
  method CalcEncodedDirectorySize(dir: seq<Entry>) returns (result: nat)
    ensures result == |Encode(dir)|
  {
    result := 4;
    for i := 0 to |dir|
      invariant result == 4 + 4 * i + |Entries(dir[..i])|
    {
      assert dir[..i + 1][..i] == dir[..i];
      result := result + (4 + 8 + 1 + |dir[i].name|);
    }
    assert dir[..|dir|] == dir;
  }

  lemma NoHead(dir: seq<Entry>)
    ensures Head(dir, 0) == LittleEndian(|dir|, 4) && Entries([]) == []
  {
  }

  lemma NextHead(dir: seq<Entry>, k: nat)
    requires k < |dir|
    ensures Head(dir, k + 1) == Head(dir, k) + LittleEndian(4 + 4 * |dir| + |Entries(dir[..k])|, 4)
  {
  }

  method EncodeDirectory(dir: seq<Entry>) returns (bytes: seq<Byte>)
    ensures bytes == Encode(dir)
  {
    hide LittleEndian, Over, EntryBytes, Head, Entries;
    NoHead(dir);
    var result := new Byte[4 + 4 * |dir|];
    var entries: seq<Byte> := [];
    OverPrefix(result[..], 0, LittleEndian(|dir|, 4));
    assert result[..][..0] + LittleEndian(|dir|, 4) == LittleEndian(|dir|, 4);
    Put32(result, 0, |dir|);
    var entryTableOffs := 4 + 4 * |dir|;
    var diroffset := 0;
    while diroffset < |dir|
      invariant diroffset <= |dir| && entries == Entries(dir[..diroffset])
      invariant result[..][..4 + 4 * diroffset] == Head(dir, diroffset)
    {
      OverPrefix(result[..], 4 + diroffset * 4, LittleEndian(entryTableOffs + |entries|, 4));
      Put32(result, 4 + diroffset * 4, entryTableOffs + |entries|);
      LastEntry(dir, diroffset);
      NextHead(dir, diroffset);
      entries := entries + EntryBytes(dir[diroffset]);
      diroffset := diroffset + 1;
    }
    assert dir[..|dir|] == dir;
    assert result[..][..4 + 4 * |dir|] == result[..];
    bytes := result[..] + entries;
  }

  lemma OverPrefix(data: seq<Byte>, p: nat, bytes: seq<Byte>)
    requires p + |bytes| <= |data|
    ensures Over(data, p, bytes)[..p + |bytes|] == data[..p] + bytes
  {
  }

  // ---- What the bytes say ----

  lemma {:induction false} EntriesPrefix(dir: seq<Entry>, k: nat)
    requires k <= |dir|
    ensures Entries(dir[..k]) <= Entries(dir)
    decreases |dir|
  {
    if k < |dir| {
      EntriesPrefix(dir[..|dir| - 1], k);
      assert dir[..|dir| - 1][..k] == dir[..k];
    } else {
      assert dir[..k] == dir;
    }
  }

  lemma OffsetsStep(dir: seq<Entry>, k: nat)
    requires k < |dir|
    ensures Offset(dir, k + 1) == Offset(dir, k) + 9 + |dir[k].name|
  {
    assert dir[..k + 1][..k] == dir[..k];
  }

  lemma {:induction false} OffsetsGrow(dir: seq<Entry>, k: nat, l: nat)
    requires k <= l <= |dir|
    ensures Offset(dir, k) + 9 * (l - k) <= Offset(dir, l)
    decreases l - k
  {
    if k < l {
      OffsetsGrow(dir, k, l - 1);
      OffsetsStep(dir, l - 1);
    }
  }

  lemma SizeOfEncoding(dir: seq<Entry>)
    ensures |Encode(dir)| == Offset(dir, |dir|)
  {
    assert dir[..|dir|] == dir;
  }

  /** The bytes between two offsets are the entry's. */
  lemma EntryAt(dir: seq<Entry>, k: nat)
    requires k < |dir|
    ensures Offset(dir, k) <= Offset(dir, k + 1) <= |Encode(dir)|
    ensures Encode(dir)[Offset(dir, k)..Offset(dir, k + 1)] == EntryBytes(dir[k])
  {
    hide Entries, EntryBytes, Head;
    SizeOfEncoding(dir);
    OffsetsGrow(dir, k + 1, |dir|);
    OffsetsStep(dir, k);
    EntriesPrefix(dir, k + 1);
    LastEntry(dir, k);
    Inside(Head(dir, |dir|), Entries(dir), Entries(dir[..k + 1]), Entries(dir[..k]), EntryBytes(dir[k]));
  }

  lemma LastEntry(dir: seq<Entry>, k: nat)
    requires k < |dir|
    ensures Entries(dir[..k + 1]) == Entries(dir[..k]) + EntryBytes(dir[k])
  {
    hide EntryBytes;
    assert dir[..k + 1][..k] == dir[..k];
  }

  /** Where the last part of a beginning of the rest lies in the whole. */
  lemma Inside(head: seq<Byte>, rest: seq<Byte>, front: seq<Byte>, init: seq<Byte>, last: seq<Byte>)
    requires front <= rest && front == init + last
    ensures (head + rest)[|head| + |init|..|head| + |front|] == last
  {
    assert rest[|init|..|front|] == front[|init|..];
  }

  lemma {:induction false} HeadBytes(dir: seq<Entry>, n: nat, k: nat)
    requires k <= n <= |dir|
    ensures Head(dir, n)[4 * k..4 * k + 4] == LittleEndian(if k == 0 then |dir| else Offset(dir, k - 1), 4)
    decreases n
  {
    hide LittleEndian, Offset;
    if n > 0 {
      var front, last := Head(dir, n - 1), LittleEndian(Offset(dir, n - 1), 4);
      assert Head(dir, n) == front + last;
      if k < n {
        HeadBytes(dir, n - 1, k);
        InFront(front, last, 4 * k, 4 * k + 4);
      } else {
        AtTheEnd(front, last);
      }
    }
  }

  lemma InFront(front: seq<Byte>, last: seq<Byte>, i: nat, j: nat)
    requires i <= j <= |front|
    ensures (front + last)[i..j] == front[i..j]
  {
  }

  lemma AtTheEnd(front: seq<Byte>, last: seq<Byte>)
    ensures (front + last)[|front|..|front| + |last|] == last
  {
  }

  lemma HeadOfEncoding(dir: seq<Entry>, p: nat)
    requires p + 4 <= 4 + 4 * |dir|
    ensures p + 4 <= |Encode(dir)| && Encode(dir)[p..p + 4] == Head(dir, |dir|)[p..p + 4]
  {
    hide Head, Entries;
  }

  /** Word k of the encoding: the count, then the offsets. */
  lemma WordAt(dir: seq<Entry>, k: nat)
    requires k <= |dir| && (if k == 0 then |dir| else Offset(dir, k - 1)) < 0x1_0000_0000
    ensures 4 * k + 4 <= |Encode(dir)| && Get32(Encode(dir), 4 * k) == if k == 0 then |dir| else Offset(dir, k - 1)
  {
    hide Offset, LittleEndian, FromLittleEndian, Head, Entries, Pow256, Get32;
    HeadBytes(dir, |dir|, k);
    var word := if k == 0 then |dir| else Offset(dir, k - 1);
    HeadOfEncoding(dir, 4 * k);
    GetNReads(Encode(dir), 4 * k, 4);
    RoundTrip(word, 4);
    FourBytes();
  }

  lemma HeaderAt(dir: seq<Entry>)
    requires Encodable(dir)
    ensures |Encode(dir)| >= 4 && Get32(Encode(dir), 0) == |dir|
  {
    WordAt(dir, 0);
  }

  lemma FourBytes()
    ensures Pow256(4) == 0x1_0000_0000
  {
    assert Pow256(2) == 0x1_0000;
  }

  lemma PointerAt(dir: seq<Entry>, k: nat)
    requires Encodable(dir) && k < |dir|
    ensures 4 + 4 * k + 4 <= |Encode(dir)| && Get32(Encode(dir), 4 + 4 * k) == Offset(dir, k)
  {
    OffsetsGrow(dir, k, |dir|);
    WordAt(dir, k + 1);
  }
}
