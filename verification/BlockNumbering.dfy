// lib/cromfs-blockifier.cc, BlockWhereList: the numbers of the blocks of all scheduled sources.
module BlockNumbering {
  import opened Arithmetic
  import opened SearchSpec

  /** A data source and the block size it is cut into. */
  datatype Item = Item(source: seq<Byte>, blocksize: nat)

  ghost predicate ItemsOk(schedule: seq<Item>) {
    forall a :: 0 <= a < |schedule| ==> 0 < schedule[a].blocksize
  }

  function Count(item: Item): nat
    requires 0 < item.blocksize
  {
    CalcSizeInBlocks(|item.source|, item.blocksize)
  }

  /** The bytes eaten at an offset: a whole block, or what is left. */
  function Eat(item: Item, offset: nat): (n: nat)
    requires offset < |item.source| && 0 < item.blocksize
    ensures 0 < n <= item.blocksize && offset + n <= |item.source|
  {
    if offset + item.blocksize > |item.source| then |item.source| - offset else item.blocksize
  }

  function BytesAt(item: Item, offset: nat): (bytes: seq<Byte>)
    requires offset < |item.source| && 0 < item.blocksize
    ensures |bytes| == Eat(item, offset)
  {
    item.source[offset..offset + Eat(item, offset)]
  }

  // ---- Numbering ----

  /** How many blocks the items before a have together. */
  function First(schedule: seq<Item>, a: nat): nat
    requires ItemsOk(schedule) && a <= |schedule|
  {
    if a == 0 then 0 else First(schedule, a - 1) + Count(schedule[a - 1])
  }

  lemma {:induction false} FirstMonotone(schedule: seq<Item>, a: nat, b: nat)
    requires ItemsOk(schedule) && a <= b <= |schedule|
    ensures First(schedule, a) <= First(schedule, b)
    ensures a < b ==> First(schedule, a) + Count(schedule[a]) <= First(schedule, b)
    decreases b - a
  {
    if a < b {
      FirstMonotone(schedule, a, b - 1);
    }
  }

  /** Block i of item a is block n of the whole run. */
  ghost predicate IsBlock(schedule: seq<Item>, a: nat, i: nat, n: nat)
    requires ItemsOk(schedule)
  {
    a < |schedule| && i < Count(schedule[a]) && n == First(schedule, a) + i
  }

  lemma NumbersDiffer(schedule: seq<Item>, a: nat, i: nat, b: nat, j: nat, n: nat)
    requires ItemsOk(schedule) && IsBlock(schedule, a, i, n) && IsBlock(schedule, b, j, n)
    ensures a == b && i == j
  {
    if a < b {
      FirstMonotone(schedule, a, b);
    } else if b < a {
      FirstMonotone(schedule, b, a);
    }
  }

  /** std::lower_bound over the first block numbers. */
  function LowerBound(list: seq<nat>, want: nat): (i: nat)
    ensures i <= |list|
    ensures forall k :: 0 <= k < i ==> list[k] < want
    ensures i < |list| ==> list[i] >= want
  {
    if list == [] || list[0] >= want then 0 else LowerBoundNext(list, want, 1)
  }

  function LowerBoundNext(list: seq<nat>, want: nat, i: nat): (r: nat)
    requires i <= |list| && forall k :: 0 <= k < i ==> list[k] < want
    ensures i <= r <= |list|
    ensures forall k :: 0 <= k < r ==> list[k] < want
    ensures r < |list| ==> list[r] >= want
    decreases |list| - i
  {
    if i < |list| && list[i] < want then LowerBoundNext(list, want, i + 1) else i
  }

  datatype Where = Where(schedno: nat, filepos: nat)

  /** BlockWhereList::Find. With empty sources it may name one of them, which owns no block. */
  function Find(list: seq<nat>, schedule: seq<Item>, want: nat): (w: Where)
    requires |list| <= |schedule| && 0 < |list| && list[0] <= want
    ensures w.schedno < |list|
  {
    var i := LowerBound(list, want);
    if i < |list| && list[i] == want then Where(i, 0)
    else Where(i - 1, (want - list[i - 1]) * schedule[i - 1].blocksize)
  }

  /** The list the first pass builds: where each item's blocks begin. */
  ghost predicate IsWhereList(list: seq<nat>, schedule: seq<Item>)
    requires ItemsOk(schedule)
  {
    |list| <= |schedule| && forall a :: 0 <= a < |list| ==> list[a] == First(schedule, a)
  }

  /** Entries past the wanted block do not change what is found. */
  lemma FindStable(list: seq<nat>, more: seq<nat>, schedule: seq<Item>, want: nat)
    requires |list| + |more| <= |schedule| && 0 < |list| && list[0] <= want
    requires forall k :: 0 <= k < |more| ==> want < more[k]
    ensures Find(list + more, schedule, want) == Find(list, schedule, want)
  {
    var i, whole := LowerBound(list, want), list + more;
    assert forall k :: 0 <= k < |list| ==> whole[k] == list[k];
    assert more != [] ==> whole[|list|] == more[0];
    LowerBoundIs(whole, want, i);
  }

  lemma LowerBoundIs(list: seq<nat>, want: nat, i: nat)
    requires i <= |list| && forall k :: 0 <= k < i ==> list[k] < want
    requires i < |list| ==> list[i] >= want
    ensures LowerBound(list, want) == i
  {
    var j := LowerBound(list, want);
    var atI, atJ := if i < |list| then list[i] else want, if j < |list| then list[j] else want;
  }

  /** When the found position leaves room for the block, the item really owns the wanted block there. */
  lemma FoundOwns(list: seq<nat>, schedule: seq<Item>, want: nat, eat: nat)
    requires ItemsOk(schedule) && IsWhereList(list, schedule) && 0 < |list| && 0 < eat
    requires First(schedule, 0) <= want
    requires var w := Find(list, schedule, want); w.filepos + eat <= |schedule[w.schedno].source|
    ensures var w := Find(list, schedule, want);
            var j := want - First(schedule, w.schedno);
            0 <= j && IsBlock(schedule, w.schedno, j, want) && w.filepos == j * schedule[w.schedno].blocksize
  {
    var w := Find(list, schedule, want);
    var j := want - First(schedule, w.schedno);
    CountExists(schedule[w.schedno], j);
  }

  ghost function Firsts(schedule: seq<Item>): (list: seq<nat>)
    requires ItemsOk(schedule)
    ensures |list| == |schedule| && forall a :: 0 <= a < |list| ==> list[a] == First(schedule, a)
  {
    seq(|schedule|, a requires 0 <= a < |schedule| => First(schedule, a))
  }

  lemma CountExists(item: Item, i: nat)
    requires 0 < item.blocksize
    ensures i < Count(item) <==> i * item.blocksize < |item.source|
  {
    BlockExists(|item.source|, item.blocksize, i);
  }

  lemma FirstIsZero(schedule: seq<Item>)
    requires ItemsOk(schedule)
    ensures First(schedule, 0) == 0
  {
  }

  // ---- From a number back to its block ----

  function Total(schedule: seq<Item>): nat
    requires ItemsOk(schedule)
  {
    First(schedule, |schedule|)
  }

  datatype Place = Place(item: nat, index: nat)

  /** The item and the index in it of block n. */
  ghost function PlaceOf(schedule: seq<Item>, n: nat, from: nat := 0): (p: Place)
    requires ItemsOk(schedule) && from < |schedule| && First(schedule, from) <= n < Total(schedule)
    ensures IsBlock(schedule, p.item, p.index, n)
    decreases |schedule| - from
  {
    if n < First(schedule, from + 1) then Place(from, n - First(schedule, from)) else PlaceOf(schedule, n, from + 1)
  }

  ghost predicate Exists(schedule: seq<Item>, n: nat) {
    ItemsOk(schedule) && n < Total(schedule)
  }

  lemma ExistsHasItem(schedule: seq<Item>, n: nat)
    requires Exists(schedule, n)
    ensures 0 < |schedule| && First(schedule, 0) == 0
  {
  }

  ghost function ItemOf(schedule: seq<Item>, n: nat): (item: Item)
    requires Exists(schedule, n)
    ensures 0 < item.blocksize
  {
    ExistsHasItem(schedule, n);
    schedule[PlaceOf(schedule, n).item]
  }

  /** Where in its source block n begins. */
  ghost function OffsetOf(schedule: seq<Item>, n: nat): (offset: nat)
    requires Exists(schedule, n)
    ensures offset < |ItemOf(schedule, n).source|
  {
    ExistsHasItem(schedule, n);
    var p := PlaceOf(schedule, n);
    CountExists(schedule[p.item], p.index);
    MulNonNegative(p.index, schedule[p.item].blocksize);
    p.index * schedule[p.item].blocksize
  }

  ghost function BlockBytes(schedule: seq<Item>, n: nat): seq<Byte>
    requires Exists(schedule, n)
  {
    BytesAt(ItemOf(schedule, n), OffsetOf(schedule, n))
  }

  lemma BlockIs(schedule: seq<Item>, a: nat, i: nat, n: nat)
    requires ItemsOk(schedule) && IsBlock(schedule, a, i, n)
    ensures Exists(schedule, n) && ItemOf(schedule, n) == schedule[a]
            && OffsetOf(schedule, n) == i * schedule[a].blocksize
    ensures PlaceOf(schedule, n) == Place(a, i)
  {
    FirstMonotone(schedule, a, |schedule|);
    ExistsHasItem(schedule, n);
    var p := PlaceOf(schedule, n);
    NumbersDiffer(schedule, a, i, p.item, p.index, n);
  }
}
