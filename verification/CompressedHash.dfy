// lib/cromfs-hashmap_lzo.cc: an array of values in compressed buckets behind a write-back cache of
// one bucket, with a set of live indices.
module CompressedHash {

  /** The compressor pair, taken as given; the packed form of anything is never empty. */
  datatype Codec = Codec(compress: seq<nat> -> seq<nat>, decompress: seq<nat> -> seq<nat>) {
    ghost predicate Valid() {
      forall items :: decompress(compress(items)) == items && compress(items) != []
    }
  }

  datatype DirtyState = Nothing | ReadOnly | ReadWrite

  function CalcBuckets(extent: nat): nat {
    (extent + 0x1000 - 1) / 0x1000
  }

  /** The value of an item in a bucket that stores no trailing zeros it does not have to. */
  function ItemAt(items: seq<nat>, at: nat): nat {
    if at < |items| then items[at] else 0
  }

  /** std::vector::resize. */
  function Resized(items: seq<nat>, size: nat): (r: seq<nat>)
    ensures |r| == size && forall k :: 0 <= k < size ==> r[k] == ItemAt(items, k)
  {
    seq(size, k requires 0 <= k < size => ItemAt(items, k))
  }

  /** How far unset shrinks a bucket: to the last item before `upto` that is not zero. */
  function Trimmed(items: seq<nat>, upto: nat): (t: nat)
    requires upto <= |items|
    ensures t <= upto && forall k :: t <= k < upto ==> items[k] == 0
    ensures t > 0 ==> items[t - 1] != 0
  {
    if upto > 0 && items[upto - 1] == 0 then Trimmed(items, upto - 1) else upto
  }

  function Unpacked(lzo: Codec, packed: seq<nat>): seq<nat> {
    if packed == [] then [] else lzo.decompress(packed)
  }

  ghost function CurrentBuckets(lzo: Codec, buckets: seq<seq<nat>>, state: DirtyState, dirtyno: nat,
                                dirty: seq<nat>): (items: seq<seq<nat>>)
    ensures |items| == |buckets|
    ensures forall b :: 0 <= b < |items| ==>
              items[b] == if state != Nothing && dirtyno == b then dirty else Unpacked(lzo, buckets[b])
  {
    seq(|buckets|, b requires 0 <= b < |buckets| =>
      if state != Nothing && dirtyno == b then dirty else Unpacked(lzo, buckets[b]))
  }

  /** Every item of every bucket, 0x1000 to each. */
  function TableOf(items: seq<seq<nat>>): (t: seq<nat>)
    ensures |t| == |items| * 0x1000
    ensures forall i :: 0 <= i < |t| ==> t[i] == ItemAt(items[i / 0x1000], i % 0x1000)
  {
    seq(|items| * 0x1000, i requires 0 <= i < |items| * 0x1000 => ItemAt(items[i / 0x1000], i % 0x1000))
  }

  ghost predicate Fit(items: seq<seq<nat>>) {
    forall b :: 0 <= b < |items| ==> |items[b]| <= 0x1000
  }

  /** Changing one bucket in all items but one changes one place of the table. */
  lemma OneItemChanged(items: seq<seq<nat>>, b: nat, bucket: seq<nat>, index: nat, value: nat)
    requires b < |items| && b == index / 0x1000
    requires forall k :: 0 <= k < 0x1000 ==>
               ItemAt(bucket, k) == if k == index % 0x1000 then value else ItemAt(items[b], k)
    ensures index < |items| * 0x1000 && TableOf(items[b := bucket]) == TableOf(items)[index := value]
  {
    var t, t' := TableOf(items), TableOf(items[b := bucket]);
    assert |t| == |t'|;
    forall i | 0 <= i < |t|
      ensures t'[i] == t[index := value][i]
    {
      if i / 0x1000 == b && i % 0x1000 == index % 0x1000 {
        assert i == index;
      }
    }
  }

  /** The live items of a table. */
  ghost function MapOf(bits: set<nat>, t: seq<nat>): (m: map<nat, nat>)
    requires forall i :: i in bits ==> i < |t|
    ensures forall i :: i in m <==> i in bits
    ensures forall i :: i in m ==> m[i] == t[i]
  {
    map i | i in bits :: t[i]
  }

  lemma OneMoreLive(bits: set<nat>, t: seq<nat>, index: nat, value: nat)
    requires (forall i :: i in bits ==> i < |t|) && index < |t|
    ensures MapOf(bits + {index}, t[index := value]) == MapOf(bits, t)[index := value]
  {
  }

  lemma OneLessLive(bits: set<nat>, t: seq<nat>, index: nat, value: nat)
    requires (forall i :: i in bits ==> i < |t|) && index < |t|
    ensures MapOf(bits - {index}, t[index := value]) == MapOf(bits, t) - {index}
  {
  }

  class CompressedHashLayer {
    const lzo: Codec
    var nBuckets: nat
    var hashbits: set<nat>
    var buckets: seq<seq<nat>>
    var dirtybucket: seq<nat>
    var dirtybucketno: nat
    var dirtystate: DirtyState

    ghost predicate Valid()
      reads this
    {
      && lzo.Valid() && |buckets| == nBuckets
      && (dirtystate != Nothing ==> dirtybucketno < nBuckets)
      && (dirtystate == ReadOnly ==> dirtybucket == Unpacked(lzo, buckets[dirtybucketno]))
      && Fit(Current())
      && (forall i :: i in hashbits ==> i < nBuckets * 0x1000)
    }

    /** What bucket b holds: the cached copy is the newer one. */
    ghost function Bucket(b: nat): seq<nat>
      requires b < |buckets|
      reads this`buckets, this`dirtystate, this`dirtybucket, this`dirtybucketno
    {
      if dirtystate != Nothing && dirtybucketno == b then dirtybucket else Unpacked(lzo, buckets[b])
    }

    ghost function Current(): (items: seq<seq<nat>>)
      reads this`buckets, this`dirtystate, this`dirtybucket, this`dirtybucketno
      ensures |items| == |buckets| && forall b :: 0 <= b < |items| ==> items[b] == Bucket(b)
    {
      CurrentBuckets(lzo, buckets, dirtystate, dirtybucketno, dirtybucket)
    }

    /** The whole array as it reads. */
    ghost function Table(): seq<nat>
      reads this`buckets, this`dirtystate, this`dirtybucket, this`dirtybucketno
    {
      TableOf(Current())
    }

    /** The finite map this object stands for. */
    ghost function Contents(): map<nat, nat>
      requires Valid()
      reads this
    {
      MapOf(hashbits, Table())
    }

    constructor (lzo: Codec, max: nat)
      requires lzo.Valid()
      ensures Valid() && this.lzo == lzo && nBuckets == CalcBuckets(max) && Contents() == map[]
    {
      this.lzo := lzo;
      nBuckets, hashbits, buckets := CalcBuckets(max), {}, seq(CalcBuckets(max), i => []);
      dirtybucket, dirtybucketno, dirtystate := [], CalcBuckets(max), Nothing;
    }

    /** Writes the cached bucket back; the array reads as before. */
    method FlushDirty()
      requires Valid()
      modifies this`buckets, this`dirtystate
      ensures Valid() && dirtystate != ReadWrite && (dirtystate == Nothing <==> old(dirtystate) == Nothing)
      ensures Current() == old(Current()) && forall b :: 0 <= b < nBuckets ==> Unpacked(lzo, buckets[b]) == Bucket(b)
    {
      if dirtystate == ReadWrite {
        ghost var before := Current();
        buckets := buckets[dirtybucketno := lzo.compress(dirtybucket)];
        dirtystate := ReadOnly;
        assert Current() == before;
      }
    }

    /** Makes a bucket the cached one, losing no write. */
    method Load(bucketno: nat)
      requires Valid() && bucketno < nBuckets
      modifies this`buckets, this`dirtystate, this`dirtybucket, this`dirtybucketno
      ensures Valid() && dirtystate != Nothing && dirtybucketno == bucketno
      ensures Current() == old(Current())
    {
      if dirtystate == Nothing || dirtybucketno != bucketno {
        FlushDirty();
        dirtybucket := Unpacked(lzo, buckets[bucketno]);
        dirtybucketno := bucketno;
        dirtystate := ReadOnly;
      }
    }

    method Extract(index: nat) returns (result: nat)
      requires Valid() && index < nBuckets * 0x1000
      modifies this`buckets, this`dirtystate, this`dirtybucket, this`dirtybucketno
      ensures Valid() && Table() == old(Table()) && result == Table()[index]
      ensures Contents() == old(Contents()) && (index in Contents() ==> result == Contents()[index])
    {
      Load(index / 0x1000);
      result := ItemAt(dirtybucket, index % 0x1000);
    }

    /** Changes one item by rewriting the cached bucket. */
    method Rewrite(items: seq<nat>, ghost index: nat, ghost value: nat)
      requires Valid() && dirtystate != Nothing && dirtybucketno == index / 0x1000 && |items| <= 0x1000
      requires forall k :: 0 <= k < 0x1000 ==>
                 ItemAt(items, k) == if k == index % 0x1000 then value else ItemAt(dirtybucket, k)
      modifies this`dirtybucket, this`dirtystate
      ensures Valid() && index < |old(Table())| && Table() == old(Table())[index := value]
      ensures dirtybucket == items && dirtystate == ReadWrite
    {
      OneItemChanged(Current(), dirtybucketno, items, index, value);
      ghost var after := Current()[dirtybucketno := items];
      dirtybucket := items;
      dirtystate := ReadWrite;
      assert Current() == after;
    }

    method SetNoUpdateHashbits(index: nat, value: nat)
      requires Valid() && index < nBuckets * 0x1000
      modifies this`buckets, this`dirtystate, this`dirtybucket, this`dirtybucketno
      ensures Valid() && Table() == old(Table())[index := value]
    {
      var at := index % 0x1000;
      Load(index / 0x1000);
      hide TableOf, Codec.Valid;
      assert |Current()[dirtybucketno]| <= 0x1000;
      var items := if |dirtybucket| < at + 1 then Resized(dirtybucket, at + 1) else dirtybucket;
      Rewrite(items[at := value], index, value);
    }

    method Set(index: nat, value: nat)
      requires Valid() && index < nBuckets * 0x1000
      modifies this
      ensures Valid() && nBuckets == old(nBuckets) && Table() == old(Table())[index := value]
      ensures hashbits == old(hashbits) + {index} && Contents() == old(Contents())[index := value]
    {
      OneMoreLive(hashbits, Table(), index, value);
      hide Fit, Codec.Valid, TableOf, CurrentBuckets, MapOf;
      SetNoUpdateHashbits(index, value);
      hashbits := hashbits + {index};
    }

    /** Shrinks the cached bucket if the index is at its end, else blots it out. */
    method Blot(index: nat)
      requires Valid() && index < nBuckets * 0x1000
      modifies this`buckets, this`dirtystate, this`dirtybucket, this`dirtybucketno
      ensures Valid() && Table() == old(Table())[index := 0]
      ensures var b := index / 0x1000;
              index % 0x1000 + 1 >= |old(Bucket(b))| ==> Bucket(b) == [] || Bucket(b)[|Bucket(b)| - 1] != 0
    {
      var at := index % 0x1000;
      Load(index / 0x1000);
      hide TableOf, Codec.Valid, Trimmed;
      assert |Current()[dirtybucketno]| <= 0x1000 && Table()[index] == ItemAt(dirtybucket, at);
      assert dirtybucket == Current()[index / 0x1000] == old(Current())[index / 0x1000] == old(Bucket(index / 0x1000));
      var size := |dirtybucket|;
      if at + 1 >= size {
        var t := Trimmed(dirtybucket, if at > size then size else at);
        if t != size {
          Rewrite(dirtybucket[..t], index, 0);
          return;
        }
      }
      if at + 1 <= size {
        Rewrite(dirtybucket[at := 0], index, 0);
      }
    }

    /** Forgets an index. Shrinking the bucket changes no other item, live or not, zero or not. */
    method Unset(index: nat)
      requires Valid() && index < nBuckets * 0x1000
      modifies this
      ensures Valid() && nBuckets == old(nBuckets) && Table() == old(Table())[index := 0]
      ensures hashbits == old(hashbits) - {index} && Contents() == old(Contents()) - {index}
      ensures var b := index / 0x1000;
              index % 0x1000 + 1 >= |old(Bucket(b))| ==> Bucket(b) == [] || Bucket(b)[|Bucket(b)| - 1] != 0
    {
      OneLessLive(hashbits, Table(), index, 0);
      hide Fit, Codec.Valid, TableOf, CurrentBuckets, MapOf;
      Blot(index);
      hashbits := hashbits - {index};
    }

    function Has(index: nat): bool
      reads this
    {
      index in hashbits
    }

    /** The set of live indices is the domain of the map. */
    lemma HasIsLive(index: nat)
      requires Valid()
      ensures Has(index) <==> index in Contents()
    {
      hide Table;
    }

    function GetLength(): nat
      reads this
    {
      nBuckets * 0x1000
    }

    /** Only ever grows. */
    method Resize(length: nat)
      requires Valid()
      modifies this
      ensures Valid() && hashbits == old(hashbits) && Contents() == old(Contents())
      ensures nBuckets == if CalcBuckets(length) > old(nBuckets) then CalcBuckets(length) else old(nBuckets)
    {
      hide Codec.Valid, TableOf, CurrentBuckets, Fit;
      var newBuckets := CalcBuckets(length);
      if newBuckets > nBuckets {
        var more: seq<seq<nat>> := seq(newBuckets - nBuckets, i => []);
        CurrentGrows(lzo, buckets, dirtystate, dirtybucketno, dirtybucket, more);
        TableGrows(Current(), more);
        buckets := buckets + more;
        nBuckets := newBuckets;
      }
    }

    lemma LiveIsInside(pos: nat)
      requires Valid() && pos in hashbits
      ensures pos < nBuckets * 0x1000 && pos in Contents()
    {
    }

    /** Both maps are sound, and this one holds mine and those items of theirs that are not in rest. */
    ghost predicate Merging(b: CompressedHashLayer, mine: map<nat, nat>, theirs: map<nat, nat>, rest: set<nat>,
                            offset: nat)
      reads this, b
    {
      && Valid() && b.Valid() && b.Contents() == theirs && rest <= b.hashbits
      && IsOverlay(Contents(), mine, Without(theirs, rest), offset)
      && nBuckets * 0x1000 >= offset + b.nBuckets * 0x1000
    }

    lemma ItemToCopy(b: CompressedHashLayer, pos: nat, offset: nat, mine: map<nat, nat>, theirs: map<nat, nat>,
                     rest: set<nat>)
      requires Merging(b, mine, theirs, rest, offset) && pos in rest
      ensures Valid() && b.Valid() && b.Contents() == theirs && pos in theirs && pos in b.hashbits && rest <= b.hashbits
      ensures IsOverlay(Contents(), mine, Without(theirs, rest), offset)
      ensures offset + pos < nBuckets * 0x1000 && nBuckets * 0x1000 >= offset + b.nBuckets * 0x1000
    {
      b.LiveIsInside(pos);
    }

    lemma ItemCopied(b: CompressedHashLayer, pos: nat, offset: nat, mine: map<nat, nat>, theirs: map<nat, nat>,
                     rest: set<nat>)
      requires Valid() && b.Valid() && b.Contents() == theirs && rest <= b.hashbits
      requires IsOverlay(Contents(), mine, Without(theirs, rest - {pos}), offset)
      requires nBuckets * 0x1000 >= offset + b.nBuckets * 0x1000
      ensures Merging(b, mine, theirs, rest - {pos}, offset)
    {
    }

    /** Copies one live item of b. */
    method CopyItem(b: CompressedHashLayer, pos: nat, offset: nat, ghost mine: map<nat, nat>,
                    ghost theirs: map<nat, nat>, ghost rest: set<nat>)
      requires b != this && Merging(b, mine, theirs, rest, offset) && pos in rest
      modifies this, b
      ensures Merging(b, mine, theirs, rest - {pos}, offset) && nBuckets == old(nBuckets)
              && b.nBuckets == old(b.nBuckets)
    {
      ItemToCopy(b, pos, offset, mine, theirs, rest);
      hide *;
      ghost var before := Contents();
      OneMoreShifted(before, mine, theirs, rest, pos, offset);
      ghost var after := before[offset + pos := theirs[pos]];
      var tmp := ReadFrom(b, pos);
      Store(offset + pos, tmp);
      assert Contents() == after;
      ItemCopied(b, pos, offset, mine, theirs, rest);
    }

    /** Writes an item that Merge has marked live. */
    method Store(index: nat, value: nat)
      requires Valid() && index < nBuckets * 0x1000
      modifies this
      ensures Valid() && Contents() == old(Contents())[index := value] && nBuckets == old(nBuckets)
    {
      OneMoreLive(hashbits, Table(), index, value);
      hide Fit, Codec.Valid, TableOf, CurrentBuckets, MapOf;
      SetNoUpdateHashbits(index, value);
      hashbits := hashbits + {index};
    }

    /** b.extract, through a const reference. */
    method ReadFrom(b: CompressedHashLayer, pos: nat) returns (tmp: nat)
      requires b != this && b.Valid() && pos in b.hashbits
      modifies b
      ensures b.Valid() && b.Contents() == old(b.Contents()) && tmp == old(b.Contents())[pos]
      ensures b.hashbits == old(b.hashbits) && b.nBuckets == old(b.nBuckets)
    {
      tmp := b.Extract(pos);
    }

    /** Merge: this map overlaid with b's, shifted. Reading b disturbs only its cache. */
    method Merge(b: CompressedHashLayer, targetOffset: nat)
      requires Valid() && b.Valid() && b != this
      modifies this, b
      ensures Valid() && b.Valid() && b.Contents() == old(b.Contents()) && b.nBuckets == old(b.nBuckets)
      ensures IsOverlay(Contents(), old(Contents()), old(b.Contents()), targetOffset)
      ensures nBuckets == if CalcBuckets(targetOffset + b.GetLength()) > old(nBuckets) then
              CalcBuckets(targetOffset + b.GetLength())
                          else old(nBuckets)
    {
      Resize(targetOffset + b.GetLength());
      hide Codec.Valid, Fit, TableOf, IsOverlay, Without, CurrentBuckets;
      ghost var mine, theirs, newBuckets := Contents(), b.Contents(), nBuckets;
      var rest := b.hashbits;
      NothingShifted(mine, theirs, targetOffset);
      KeysAreLive(b);
      while rest != {}
        invariant Merging(b, mine, theirs, rest, targetOffset) && nBuckets == newBuckets
                  && b.nBuckets == old(b.nBuckets)
        decreases rest
      {
        var pos :| pos in rest;
        CopyItem(b, pos, targetOffset, mine, theirs, rest);
        rest := rest - {pos};
      }
      WithoutNothing(theirs);
    }
  }

  lemma CurrentGrows(lzo: Codec, buckets: seq<seq<nat>>, state: DirtyState, dirtyno: nat, dirty: seq<nat>,
                     more: seq<seq<nat>>)
    requires (state != Nothing ==> dirtyno < |buckets|) && forall k :: 0 <= k < |more| ==> more[k] == []
    ensures CurrentBuckets(lzo, buckets + more, state, dirtyno, dirty)
            == CurrentBuckets(lzo, buckets, state, dirtyno, dirty) + more
  {
    hide CurrentBuckets;
  }

  lemma TableGrows(items: seq<seq<nat>>, more: seq<seq<nat>>)
    requires Fit(items) && forall k :: 0 <= k < |more| ==> more[k] == []
    ensures Fit(items + more)
    ensures |TableOf(items)| <= |TableOf(items + more)|
    ensures forall i :: 0 <= i < |TableOf(items)| ==> TableOf(items + more)[i] == TableOf(items)[i]
  {
  }

  // ---- Maps ----

  /** m is mine overlaid with theirs, moved up by offset. */
  ghost predicate IsOverlay(m: map<nat, nat>, mine: map<nat, nat>, theirs: map<nat, nat>, offset: nat) {
    && (forall i :: i in m <==> i in mine || (offset <= i && i - offset in theirs))
    && forall i :: i in m ==> m[i] == if offset <= i && i - offset in theirs then theirs[i - offset] else mine[i]
  }

  ghost function Without(m: map<nat, nat>, keys: set<nat>): map<nat, nat> {
    map i | i in m && i !in keys :: m[i]
  }

  lemma WithoutNothing(m: map<nat, nat>)
    ensures Without(m, {}) == m
  {
  }

  lemma KeysAreLive(b: CompressedHashLayer)
    requires b.Valid()
    ensures b.Contents().Keys == b.hashbits
  {
  }

  lemma NothingShifted(mine: map<nat, nat>, theirs: map<nat, nat>, offset: nat)
    ensures IsOverlay(mine, mine, Without(theirs, theirs.Keys), offset)
  {
  }

  lemma OneMoreShifted(m: map<nat, nat>, mine: map<nat, nat>, theirs: map<nat, nat>, rest: set<nat>, pos: nat,
                       offset: nat)
    requires IsOverlay(m, mine, Without(theirs, rest), offset) && pos in rest && pos in theirs
    ensures IsOverlay(m[offset + pos := theirs[pos]], mine, Without(theirs, rest - {pos}), offset)
  {
    var m', old_, new_ := m[offset + pos := theirs[pos]], Without(theirs, rest), Without(theirs, rest - {pos});
    forall i: nat
      ensures i in m' <==> i in mine || (offset <= i && i - offset in new_)
      ensures i in m' ==> m'[i] == if offset <= i && i - offset in new_ then new_[i - offset] else mine[i]
    {
      assert i in m <==> i in mine || (offset <= i && i - offset in old_);
    }
  }
}
