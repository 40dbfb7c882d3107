// lib/fsballocator.hh, FSBAllocator_ElemAllocator: equal units handed out of blocks of 512, each block
// with a free list threaded through its freed units.
module PoolAllocator {
  import opened Arithmetic

  const NIL: nat := 0xFFFF_FFFF_FFFF_FFFF

  /** An address: a block's memory and an offset in words. */
  datatype Ptr = Null | Ptr(mem: array<nat>, offset: nat)

  lemma UnitsApart(a: nat, b: nat, unit: nat)
    requires 0 < unit && a % unit == 0 && b % unit == 0
    ensures a < b ==> a + unit <= b
  {
    var qa, qb := a / unit, b / unit;
    MulOrder(qa, qb, unit);
    if a < b {
      MulLess(qa, qb, unit);
    }
  }

  lemma NextUnit(a: nat, unit: nat)
    requires 0 < unit && a % unit == 0
    ensures (a + unit) % unit == 0
  {
    var q := a / unit;
    OneMoreMultiple(q, unit);
    DivUnique(a + unit, unit, q + 1, 0);
  }

  /** The links of a free list: each unit's first word names the next. */
  ghost predicate Threads(words: seq<nat>, head: nat, free: seq<nat>)
    decreases free
  {
    if free == [] then head == NIL
    else head == free[0] && head < |words| && Threads(words, words[head], free[1..])
  }

  /** Words outside the list do not matter to it. */
  lemma {:induction false} ThreadsFrame(words: seq<nat>, head: nat, free: seq<nat>, o: nat, x: nat)
    requires Threads(words, head, free) && o !in free && o < |words|
    ensures Threads(words[o := x], head, free)
    decreases free
  {
    if free != [] {
      assert free[0] in free;
      ThreadsFrame(words, words[head], free[1..], o, x);
    }
  }

  /** o is the beginning of one of the units handed out so far. */
  ghost predicate IsUnit(o: nat, endIndex: nat, unit: nat)
    requires 0 < unit
  {
    o < endIndex && o % unit == 0
  }

  /** The units below endIndex are live or free, never both, and each names its block. */
  ghost predicate Partition(words: seq<nat>, elemWords: nat, index: nat, endIndex: nat, live: set<nat>,
                            free: seq<nat>) {
    var unit := elemWords + 1;
    && endIndex % unit == 0 && endIndex <= |words|
    && (forall o: nat :: o in live || o in free <==> IsUnit(o, endIndex, unit))
    && (forall o :: o in live ==> o !in free)
    && NoRepeats(free)
    && forall o: nat :: IsUnit(o, endIndex, unit) ==> o + elemWords < endIndex && words[o + elemWords] == index
  }

  /** What the owner of a unit keeps in it. */
  function UserWords(words: seq<nat>, o: nat, elemWords: nat): seq<nat> {
    if o + elemWords <= |words| then words[o..o + elemWords] else []
  }

  // ---- One step on a block's words ----

  /** A fresh unit at the end, named and made live. */
  lemma FreshUnit(words: seq<nat>, elemWords: nat, index: nat, endIndex: nat, live: set<nat>)
    requires 0 < elemWords && Partition(words, elemWords, index, endIndex, live, []) && endIndex + elemWords < |words|
    ensures Partition(words[endIndex + elemWords := index], elemWords, index, endIndex + elemWords + 1,
                      live + {endIndex}, [])
    ensures endIndex !in live
    ensures forall o :: o in live ==>
              UserWords(words[endIndex + elemWords := index], o, elemWords) == UserWords(words, o, elemWords)
  {
    NextUnit(endIndex, elemWords + 1);
    var unit, end, words' := elemWords + 1, endIndex + elemWords + 1, words[endIndex + elemWords := index];
    forall o: nat
      ensures IsUnit(o, end, unit) <==> IsUnit(o, endIndex, unit) || o == endIndex
    {
      if o % unit == 0 {
        UnitsApart(endIndex, o, unit);
      }
    }
    forall o | o in live
      ensures UserWords(words', o, elemWords) == UserWords(words, o, elemWords)
    {
      assert IsUnit(o, endIndex, unit);
    }
  }

  /** The first free unit becomes live; nothing is written. */
  lemma ReusedUnit(words: seq<nat>, elemWords: nat, index: nat, endIndex: nat, live: set<nat>, free: seq<nat>,
                   head: nat)
    requires 0 < elemWords && Partition(words, elemWords, index, endIndex, live, free) && Threads(words, head, free)
             && free != []
    ensures head == free[0] && head < |words| && head !in live
    ensures Partition(words, elemWords, index, endIndex, live + {head}, free[1..])
            && Threads(words, words[head], free[1..])
  {
    var rest := free[1..];
    assert free == [free[0]] + rest;
    assert head in free && head !in rest;
  }

  /** A live unit goes to the front of the free list; only its first word is written. */
  lemma FreedUnit(words: seq<nat>, elemWords: nat, index: nat, endIndex: nat, live: set<nat>, free: seq<nat>,
                  head: nat, o: nat)
    requires 0 < elemWords && Partition(words, elemWords, index, endIndex, live, free) && Threads(words, head, free)
             && o in live
    ensures o < |words| && o !in free
    ensures Partition(words[o := head], elemWords, index, endIndex, live - {o}, [o] + free)
            && Threads(words[o := head], o, [o] + free)
    ensures forall p :: p in live && p != o ==>
              UserWords(words[o := head], p, elemWords) == UserWords(words, p, elemWords)
  {
    var words', free', unit := words[o := head], [o] + free, elemWords + 1;
    assert IsUnit(o, endIndex, unit);
    ThreadsFrame(words, head, free, o, head);
    assert free'[1..] == free;
    forall p: nat
      ensures p in live - {o} || p in free' <==> IsUnit(p, endIndex, unit)
    {
      assert p in free' <==> p == o || p in free;
    }
    forall p: nat | IsUnit(p, endIndex, unit)
      ensures p + elemWords < endIndex && words'[p + elemWords] == index
    {
      UnitsApart(p, o, unit);
    }
    forall p | p in live && p != o
      ensures UserWords(words', p, elemWords) == UserWords(words, p, elemWords)
    {
      assert IsUnit(p, endIndex, unit);
      UnitsApart(p, o, unit);
      UnitsApart(o, p, unit);
    }
  }

  /** The owner of a live unit writes one of its words: no list and no other unit notices. */
  lemma OwnerWrites(words: seq<nat>, elemWords: nat, index: nat, endIndex: nat, live: set<nat>, free: seq<nat>,
                    head: nat, o: nat, k: nat, x: nat)
    requires Partition(words, elemWords, index, endIndex, live, free) && Threads(words, head, free)
    requires o in live && k < elemWords
    ensures o + k < |words|
    ensures Partition(words[o + k := x], elemWords, index, endIndex, live, free)
            && Threads(words[o + k := x], head, free)
    ensures k < |UserWords(words, o, elemWords)|
            && UserWords(words[o + k := x], o, elemWords) == UserWords(words, o, elemWords)[k := x]
    ensures forall p :: p in live && p != o ==>
              UserWords(words[o + k := x], p, elemWords) == UserWords(words, p, elemWords)
  {
    var words', unit := words[o + k := x], elemWords + 1;
    assert IsUnit(o, endIndex, unit);
    if o + k in free {
      assert IsUnit(o + k, endIndex, unit);
      UnitsApart(o, o + k, unit);
    }
    ThreadsFrame(words, head, free, o + k, x);
    forall p: nat | IsUnit(p, endIndex, unit)
      ensures words'[p + elemWords] == index
      ensures p != o ==> UserWords(words', p, elemWords) == UserWords(words, p, elemWords)
    {
      UnitsApart(p, o, unit);
      UnitsApart(o, p, unit);
    }
  }

  /** The words n units take. */
  function Words(n: nat, elemWords: nat): nat {
    MulNonNegative(n, elemWords + 1);
    n * (elemWords + 1)
  }

  /** While fewer than 512 units are in use, another one fits. */
  lemma FreshFits(amount: nat, elemWords: nat)
    requires amount < 512
    ensures Words(amount, elemWords) + elemWords + 1 == Words(amount + 1, elemWords) <= Words(512, elemWords)
  {
    MulOrder(amount + 1, 512, elemWords + 1);
    OneMoreMultiple(amount, elemWords + 1);
  }

  lemma NoWords(elemWords: nat)
    ensures Words(0, elemWords) == 0
  {
  }

  // ---- A block ----

  class MemBlock {
    const elemWords: nat
    var block: array?<nat>
    var firstFreeUnitIndex: nat
    var allocatedElementsAmount: nat
    var endIndex: nat
    ghost var live: set<nat>
    ghost var free: seq<nat>

    /** index is the block's place in the allocator, which every unit carries. */
    ghost predicate Valid(index: nat)
      reads this, block
    {
      && 0 < elemWords && allocatedElementsAmount == |live| <= 512
      && if block == null then live == {} && free == [] && firstFreeUnitIndex == NIL
         else
           && block.Length == Words(512, elemWords) <= NIL
           && endIndex == Words(allocatedElementsAmount + |free|, elemWords)
           && Partition(block[..], elemWords, index, endIndex, live, free)
           && Threads(block[..], firstFreeUnitIndex, free)
    }

    predicate IsFull()
      reads this`allocatedElementsAmount
    {
      allocatedElementsAmount == 512
    }

    /** What the owner keeps in a unit. */
    ghost function Kept(o: nat): seq<nat>
      reads this`block, block
    {
      if block == null then [] else UserWords(block[..], o, elemWords)
    }

    constructor (elemWords: nat)
      requires 0 < elemWords && Words(512, elemWords) <= NIL
      ensures this.elemWords == elemWords && block == null && live == {} && allocatedElementsAmount == 0
      ensures forall index :: Valid(index)
    {
      this.elemWords := elemWords;
      block, firstFreeUnitIndex, allocatedElementsAmount, endIndex := null, NIL, 0, 0;
      live, free := {}, [];
    }

    /** Hands out a unit that is not live, and disturbs none that is. */
    method Allocate(index: nat) returns (offset: nat)
      requires Valid(index) && !IsFull() && Words(512, elemWords) <= NIL
      modifies this, block
      ensures Valid(index) && block != null && (block == old(block) || (fresh(block) && old(block) == null))
      ensures offset !in old(live) && live == old(live) + {offset} && offset + elemWords < block.Length
      ensures forall o :: o in old(live) ==> Kept(o) == old(Kept(o))
    {
      hide Words, Partition, UserWords;
      if firstFreeUnitIndex == NIL {
        if block == null {
          block := new nat[Words(512, elemWords)];
          endIndex := 0;
          NothingYet(block[..], elemWords, index);
          NoWords(elemWords);
        } else {
          HeadOfEmpty(block[..], free);
        }
        offset := TakeFresh(index);
      } else {
        offset := TakeFree(index);
      }
    }

    /** The unit after the last one used so far. */
    method TakeFresh(index: nat) returns (offset: nat)
      requires Valid(index) && !IsFull() && block != null && free == []
      modifies this`endIndex, this`live, this`allocatedElementsAmount, block
      ensures Valid(index) && offset !in old(live) && live == old(live) + {offset} && offset + elemWords < block.Length
      ensures forall o :: o in old(live) ==> Kept(o) == old(Kept(o))
    {
      hide Words, Partition, UserWords;
      FreshFits(allocatedElementsAmount, elemWords);
      FreshUnit(block[..], elemWords, index, endIndex, live);
      ghost var words := block[..][endIndex + elemWords := index];
      offset := endIndex;
      endIndex := endIndex + (elemWords + 1);
      block[offset + elemWords] := index;
      assert block[..] == words;
      allocatedElementsAmount := allocatedElementsAmount + 1;
      live := live + {offset};
    }

    /** The first unit of the free list. */
    method TakeFree(index: nat) returns (offset: nat)
      requires Valid(index) && !IsFull() && firstFreeUnitIndex != NIL
      modifies this`firstFreeUnitIndex, this`live, this`free, this`allocatedElementsAmount
      ensures Valid(index) && block != null && offset !in old(live) && live == old(live) + {offset}
      ensures offset + elemWords < block.Length
    {
      ReusedUnit(block[..], elemWords, index, endIndex, live, free, firstFreeUnitIndex);
      UnitInside(block[..], elemWords, index, endIndex, live + {free[0]}, free[1..], free[0]);
      hide Words, Partition, UserWords;
      offset := firstFreeUnitIndex;
      firstFreeUnitIndex := block[offset];
      allocatedElementsAmount := allocatedElementsAmount + 1;
      live, free := live + {offset}, free[1..];
    }

    /** What the owner of a unit does with it. */
    method Store(index: nat, offset: nat, k: nat, x: nat)
      requires Valid(index) && offset in live && k < elemWords
      modifies block
      ensures Valid(index) && k < |old(Kept(offset))| && Kept(offset) == old(Kept(offset))[k := x]
      ensures forall o :: o in live && o != offset ==> Kept(o) == old(Kept(o))
    {
      hide Words, Partition, UserWords, Threads;
      OwnerWrites(block[..], elemWords, index, endIndex, live, free, firstFreeUnitIndex, offset, k, x);
      ghost var words := block[..][offset + k := x];
      block[offset + k] := x;
      assert block[..] == words;
    }

    /** Takes a live unit back; the block's memory goes when the last unit has come back. */
    method Deallocate(index: nat, offset: nat)
      requires Valid(index) && offset in live
      modifies this, block
      ensures Valid(index) && live == old(live) - {offset}
      ensures block == (if live == {} then null else old(block)) && !IsFull()
      ensures forall o :: o in live ==> Kept(o) == old(Kept(o))
    {
      hide Words, Partition, UserWords, Threads;
      FreedUnit(block[..], elemWords, index, endIndex, live, free, firstFreeUnitIndex, offset);
      ghost var words := block[..][offset := firstFreeUnitIndex];
      block[offset] := firstFreeUnitIndex;
      assert block[..] == words;
      firstFreeUnitIndex := offset;
      live, free := live - {offset}, [offset] + free;
      allocatedElementsAmount := allocatedElementsAmount - 1;
      assert |live| == allocatedElementsAmount
             && allocatedElementsAmount + |free| == old(allocatedElementsAmount + |free|);
      assert Threads(block[..], firstFreeUnitIndex, free)
             && Partition(block[..], elemWords, index, endIndex, live, free);
      if allocatedElementsAmount == 0 {
        block, firstFreeUnitIndex := null, NIL;
        free := [];
      }
    }
  }

  lemma UnitInside(words: seq<nat>, elemWords: nat, index: nat, endIndex: nat, live: set<nat>, free: seq<nat>, o: nat)
    requires Partition(words, elemWords, index, endIndex, live, free) && o in live
    ensures o + elemWords < |words| && words[o + elemWords] == index
  {
    assert IsUnit(o, endIndex, elemWords + 1);
  }

  lemma NothingYet(words: seq<nat>, elemWords: nat, index: nat)
    ensures Partition(words, elemWords, index, 0, {}, [])
  {
  }

  /** The list's head is NIL only when it is empty. */
  lemma HeadOfEmpty(words: seq<nat>, free: seq<nat>)
    requires Threads(words, NIL, free) && |words| <= NIL
    ensures free == []
  {
  }

  // ---- The allocator ----

  /** A block from outside: its memory, its live units, and whether it is full. */
  datatype BlockView = BlockView(mem: array?<nat>, live: set<nat>, full: bool)

  ghost predicate OwnedBy(v: BlockView, p: Ptr) {
    p.Ptr? && v.mem == p.mem && p.offset in v.live
  }

  /** Blocks have different memory, and a block with live units has memory. */
  ghost predicate MemsApart(view: seq<BlockView>) {
    && (forall i, j :: 0 <= i < j < |view| && view[i].mem != null ==> view[i].mem != view[j].mem)
    && forall i :: 0 <= i < |view| && view[i].mem == null ==> view[i].live == {}
  }

  /** The list names exactly the blocks with room, each once. */
  ghost predicate RoomOk(view: seq<BlockView>, blocksWithFree: seq<nat>) {
    && NoRepeats(blocksWithFree)
    && forall i :: i in blocksWithFree <==> 0 <= i < |view| && !view[i].full
  }

  ghost predicate Owned(view: seq<BlockView>, p: Ptr) {
    exists i :: 0 <= i < |view| && OwnedBy(view[i], p)
  }

  /** The live pointers are the live units of all blocks. */
  ghost predicate LiveOk(view: seq<BlockView>, live: set<Ptr>) {
    && (forall p :: p in live ==> Owned(view, p))
    && forall i, o :: 0 <= i < |view| && o in view[i].live && view[i].mem != null ==> Ptr(view[i].mem, o) in live
  }

  lemma Owner(view: seq<BlockView>, live: set<Ptr>, p: Ptr) returns (i: nat)
    requires LiveOk(view, live) && p in live
    ensures i < |view| && OwnedBy(view[i], p)
  {
    assert Owned(view, p);
    i :| 0 <= i < |view| && OwnedBy(view[i], p);
  }

  /** A block that has got a unit back. */
  ghost function Returned(v: BlockView, o: nat): BlockView {
    BlockView(if v.live - {o} == {} then null else v.mem, v.live - {o}, false)
  }

  lemma RoomHere(view: seq<BlockView>, list: seq<nat>, i: nat)
    requires RoomOk(view, list) && i in list
    ensures i < |view| && !view[i].full
  {
  }

  lemma NewBlockOk(view: seq<BlockView>, v: BlockView, live: set<Ptr>)
    requires MemsApart(view) && RoomOk(view, []) && LiveOk(view, live) && v == BlockView(null, {}, false)
    ensures MemsApart(view + [v]) && RoomOk(view + [v], [|view|]) && LiveOk(view + [v], live)
  {
    forall p | p in live
      ensures Owned(view + [v], p)
    {
      assert Owned(view, p);
      var i :| 0 <= i < |view| && OwnedBy(view[i], p);
      assert OwnedBy((view + [v])[i], p);
    }
  }

  /** Block i, the last of the list, gains a unit. */
  lemma AllocateOk(view: seq<BlockView>, list: seq<nat>, live: set<Ptr>, i: nat, v: BlockView, o: nat)
    requires MemsApart(view) && RoomOk(view, list) && LiveOk(view, live) && list != [] && i == list[|list| - 1]
    requires i < |view| && v.mem != null && v.live == view[i].live + {o} && o !in view[i].live
    requires view[i].mem == v.mem || (view[i].mem == null && forall j :: 0 <= j < |view| ==> view[j].mem != v.mem)
    ensures MemsApart(view[i := v]) && LiveOk(view[i := v], live + {Ptr(v.mem, o)}) && Ptr(v.mem, o) !in live
    ensures RoomOk(view[i := v], if v.full then list[..|list| - 1] else list)
  {
    var view', p := view[i := v], Ptr(v.mem, o);
    assert !Owned(view, p);
    forall q | q in live + {p}
      ensures Owned(view', q)
    {
      if q == p {
        assert OwnedBy(view'[i], q);
      } else {
        assert Owned(view, q);
        var j :| 0 <= j < |view| && OwnedBy(view[j], q);
        assert OwnedBy(view'[j], q);
      }
    }
    RoomAfter(view, list, i, v);
  }

  /** The last block of the list leaves it when it is full. */
  lemma RoomAfter(view: seq<BlockView>, list: seq<nat>, i: nat, v: BlockView)
    requires RoomOk(view, list) && list != [] && i == list[|list| - 1] && i < |view|
    ensures RoomOk(view[i := v], if v.full then list[..|list| - 1] else list)
  {
    var list' := list[..|list| - 1];
    assert list == list' + [i];
    forall k: nat
      ensures k in list' <==> k in list && k != i
    {
      assert k in list <==> k in list' || k == i;
      if k in list' {
        var a :| 0 <= a < |list'| && list'[a] == k;
        assert list[a] == k && list[|list| - 1] == i;
      }
    }
  }

  /** Block i loses a unit; if it was full it joins the list. */
  lemma DeallocateOk(view: seq<BlockView>, list: seq<nat>, live: set<Ptr>, i: nat, v: BlockView, p: Ptr)
    requires MemsApart(view) && RoomOk(view, list) && LiveOk(view, live) && i < |view| && OwnedBy(view[i], p)
    requires v.live == view[i].live - {p.offset} && !v.full && v.mem == if v.live == {} then null else view[i].mem
    ensures MemsApart(view[i := v]) && LiveOk(view[i := v], live - {p})
    ensures RoomOk(view[i := v], if view[i].full then list + [i] else list)
  {
    var view' := view[i := v];
    forall q | q in live - {p}
      ensures Owned(view', q)
    {
      assert Owned(view, q);
      var j :| 0 <= j < |view| && OwnedBy(view[j], q);
      if j == i {
        assert q.offset in v.live;
      }
      assert OwnedBy(view'[j], q);
    }
  }

  class ElemAllocator {
    const elemWords: nat
    var blocks: seq<MemBlock>
    var blocksWithFree: seq<nat>
    /** The units handed out and not yet taken back. */
    ghost var live: set<Ptr>
    ghost var Repr: set<object>

    ghost predicate BlockOk(i: nat)
      requires i < |blocks|
      reads this`blocks, this`Repr, Repr
    {
      && blocks[i] in Repr && (blocks[i].block != null ==> blocks[i].block in Repr)
      && blocks[i].elemWords == elemWords && blocks[i].Valid(i)
    }

    ghost predicate BlocksOk()
      reads this`blocks, this`Repr, Repr
    {
      && this !in Repr && 0 < elemWords && Words(512, elemWords) <= NIL
      && (forall i :: 0 <= i < |blocks| ==> BlockOk(i))
      && forall i, j :: 0 <= i < j < |blocks| ==> blocks[i] != blocks[j]
    }

    ghost function View(): (view: seq<BlockView>)
      reads this`blocks, blocks
      ensures |view| == |blocks| && forall i :: 0 <= i < |view| ==> view[i] == ViewOf(blocks[i])
    {
      Views(blocks)
    }

    /** What the owner of a unit keeps in it. */
    ghost function Content(p: Ptr): seq<nat>
      reads if p.Ptr? then {p.mem} else {}
    {
      if p.Ptr? then UserWords(p.mem[..], p.offset, elemWords) else []
    }

    ghost predicate Valid()
      reads this, Repr, blocks
    {
      BlocksOk() && MemsApart(View()) && RoomOk(View(), blocksWithFree) && LiveOk(View(), live)
    }

    constructor (elemWords: nat)
      requires 0 < elemWords && Words(512, elemWords) <= NIL
      ensures Valid() && fresh(Repr) && live == {} && this.elemWords == elemWords
    {
      this.elemWords := elemWords;
      blocks, blocksWithFree, live := [], [], {};
      Repr := {};
    }

    /** Makes sure some block has room. */
    method EnsureRoom()
      requires Valid()
      modifies this
      ensures Valid() && live == old(live) && blocksWithFree != [] && fresh(Repr - old(Repr)) && old(Repr) <= Repr
      ensures old(blocks) <= blocks && |blocks| <= |old(blocks)| + 1
      ensures blocks != old(blocks) ==> old(blocksWithFree) == []
    {
      hide MemBlock.Valid, MemsApart, RoomOk, LiveOk, Views, Words, BlocksOk;
      if blocksWithFree == [] {
        NewBlockOk(View(), BlockView(null, {}, false), live);
        WordsFit();
        blocksWithFree := [|blocks|];
        var b := new MemBlock(elemWords);
        blocks := blocks + [b];
        Repr := Repr + {b};
        BlockAdded(b);
      }
    }

    twostate lemma BlockAdded(new b: MemBlock)
      requires old(BlocksOk()) && blocks == old(blocks) + [b] && Repr == old(Repr) + {b} && b as object != this
      requires fresh(b) && b.block == null && b.elemWords == elemWords && b.Valid(|old(blocks)|)
      requires forall i :: 0 <= i < |old(blocks)| ==>
                 unchanged(old(blocks)[i]) && (old(blocks[i].block) != null ==> unchanged(old(blocks[i].block)))
      ensures BlocksOk() && View() == old(View()) + [ViewOf(b)]
    {
      hide MemBlock.Valid, Words, Views;
      forall i | 0 <= i < |blocks|
        ensures BlockOk(i)
        ensures i < |old(blocks)| ==> blocks[i] != b && ViewOf(blocks[i]) == old(ViewOf(blocks[i]))
      {
        if i < |old(blocks)| {
          assert old(BlockOk(i));
        }
      }
    }

    /** Every other block is another object with other memory. */
    lemma ApartFrom(index: nat)
      requires BlocksOk() && MemsApart(View()) && index < |blocks|
      ensures BlockOk(index)
      ensures forall j :: 0 <= j < |blocks| && j != index ==>
                blocks[j] != blocks[index] && (blocks[j].block != null ==> blocks[j].block != blocks[index].block)
    {
      hide MemBlock.Valid, Words, Views;
      forall j | 0 <= j < |blocks| && j != index && blocks[j].block != null
        ensures blocks[j].block != blocks[index].block
      {
        assert View()[j].mem == blocks[j].block && View()[index].mem == blocks[index].block;
      }
    }

    /** Work on one block leaves the others valid and looking the same. */
    twostate lemma OthersKeep(index: nat)
      requires old(BlocksOk()) && old(MemsApart(View())) && blocks == old(blocks) && index < |blocks| && this !in Repr
      requires 0 < elemWords && old(Repr) <= Repr && blocks[index].Valid(index) && blocks[index] in Repr
      requires blocks[index].block != null ==> blocks[index].block in Repr
      requires forall j :: 0 <= j < |blocks| && j != index ==>
                 unchanged(blocks[j]) && (old(blocks[j].block) != null ==> unchanged(old(blocks[j].block)))
      ensures BlocksOk() && View() == old(View())[index := ViewOf(blocks[index])]
    {
      hide Words, Views, UserWords, Partition, Threads, MemsApart;
      forall j | 0 <= j < |blocks|
        ensures BlockOk(j)
        ensures j != index ==> ViewOf(blocks[j]) == old(ViewOf(blocks[j]))
      {
        assert old(BlockOk(j));
      }
    }

    /** Takes a unit from one block; the block keeps its other units, and the other blocks keep everything. */
    method TakeUnit(index: nat) returns (p: Ptr)
      requires BlocksOk() && MemsApart(View()) && index < |blocks| && !View()[index].full
      modifies this`Repr, Repr
      ensures BlocksOk() && fresh(Repr - old(Repr)) && old(Repr) <= Repr
      ensures View() == old(View())[index := ViewOf(blocks[index])]
      ensures p.Ptr? && p.mem == View()[index].mem && p.offset !in old(View()[index].live)
      ensures View()[index].live == old(View()[index].live) + {p.offset}
      ensures old(View()[index].mem) == p.mem || (old(View()[index].mem) == null && fresh(p.mem))
      ensures forall o :: o in old(blocks[index].live) ==> blocks[index].Kept(o) == old(blocks[index].Kept(o))
      ensures forall j :: 0 <= j < |blocks| && j != index && old(blocks[j].block) != null ==>
                unchanged(old(blocks[j].block))
    {
      hide MemBlock.Valid, MemsApart, Views, UserWords, BlocksOk;
      ApartFrom(index);
      WordsFit();
      var b := blocks[index];
      var offset := b.Allocate(index);
      p := Ptr(b.block, offset);
      Repr := Repr + {b.block};
      OthersKeep(index);
    }

    /** Takes a unit from one block. */
    method TakeFrom(index: nat) returns (p: Ptr)
      requires BlocksOk() && MemsApart(View()) && LiveOk(View(), live) && index < |blocks| && !View()[index].full
      modifies this`Repr, Repr
      ensures BlocksOk() && fresh(Repr - old(Repr)) && old(Repr) <= Repr
      ensures View() == old(View())[index := ViewOf(blocks[index])]
      ensures p.Ptr? && p.mem == View()[index].mem && p.offset !in old(View()[index].live)
      ensures View()[index].live == old(View()[index].live) + {p.offset}
      ensures old(View()[index].mem) == p.mem || (old(View()[index].mem) == null && fresh(p.mem))
      ensures forall q :: q in live ==> Content(q) == old(Content(q))
    {
      hide MemBlock.Valid, MemsApart, Views, UserWords, BlocksOk, LiveOk;
      ApartFrom(index);
      ghost var before := View();
      WordsFit();
      MemsInside(before);
      p := TakeUnit(index);
      ghost var b := blocks[index];
      forall q | q in live
        ensures Content(q) == old(Content(q))
      {
        ghost var j := Owner(before, live, q);
        assert before[j] == old(ViewOf(blocks[j]));
        assert j == index ==> old(b.Kept(q.offset)) == old(Content(q)) && b.Kept(q.offset) == Content(q);
      }
    }

    lemma WordsFit()
      requires BlocksOk()
      ensures this !in Repr && 0 < elemWords && Words(512, elemWords) <= NIL
    {
    }

    lemma AllFull()
      requires Valid()
      ensures blocksWithFree == [] ==> forall i :: 0 <= i < |blocks| ==> View()[i].full
    {
      hide BlocksOk, MemsApart, LiveOk, Views;
      if blocksWithFree == [] {
        forall i | 0 <= i < |blocks|
          ensures View()[i].full
        {
          assert i !in blocksWithFree;
        }
      }
    }

    /** Takes a unit from the last block of the list, which leaves the list when it is full. */
    method AllocateIn(index: nat) returns (p: Ptr)
      requires Valid() && blocksWithFree != [] && index == blocksWithFree[|blocksWithFree| - 1]
      modifies this, Repr
      ensures Valid() && p.Ptr? && p !in old(live) && live == old(live) + {p} && fresh(Repr - old(Repr))
              && blocks == old(blocks)
      ensures old(Repr) <= Repr && forall q :: q in old(live) ==> Content(q) == old(Content(q))
    {
      hide MemBlock.Valid, MemsApart, RoomOk, LiveOk, Views, UserWords, BlocksOk;
      ghost var before := View();
      RoomHere(before, blocksWithFree, index);
      MemsInside(before);
      WordsFit();
      p := TakeFrom(index);
      AllocateOk(before, blocksWithFree, live, index, View()[index], p.offset);
      live := live + {p};
      if blocks[index].IsFull() {
        blocksWithFree := blocksWithFree[..|blocksWithFree| - 1];
      }
    }

    lemma MemsInside(view: seq<BlockView>)
      requires BlocksOk() && view == View()
      ensures forall j :: 0 <= j < |view| ==> view[j].mem == null || view[j].mem in Repr
    {
      hide MemBlock.Valid, Words, Views;
      forall j | 0 <= j < |view|
        ensures view[j].mem == null || view[j].mem in Repr
      {
        assert BlockOk(j);
      }
    }

    /** Hands out a unit nobody holds, and changes nothing that anybody keeps. A block is added only when all are
        full. */
    method Allocate() returns (p: Ptr)
      requires Valid()
      modifies this, Repr
      ensures Valid() && p.Ptr? && p !in old(live) && live == old(live) + {p} && fresh(Repr - old(Repr))
      ensures old(blocks) <= blocks && old(Repr) <= Repr && |blocks| <= |old(blocks)| + 1
      ensures blocks != old(blocks) ==> forall i :: 0 <= i < |old(blocks)| ==> old(View())[i].full
      ensures forall q :: q in old(live) ==> Content(q) == old(Content(q))
    {
      hide *;
      AllFull();
      EnsureRoom();
      p := AllocateIn(blocksWithFree[|blocksWithFree| - 1]);
    }

    /** Takes back a unit; the block is found through the index the unit carries. */
    method Deallocate(p: Ptr)
      requires Valid() && (p.Null? || p in live)
      modifies this, Repr
      ensures Valid() && live == (if p.Null? then old(live) else old(live) - {p}) && blocks == old(blocks)
      ensures Repr == old(Repr) && forall q :: q in live ==> Content(q) == old(Content(q))
    {
      hide *;
      if p.Ptr? {
        var index := StoredIndexOf(p);
        DeallocateIn(p, index);
      }
    }

    /** Gives a unit back to its block, which joins the list if it was full. */
    method DeallocateIn(p: Ptr, index: nat)
      requires Valid() && p in live && index < |blocks| && OwnedBy(View()[index], p)
      modifies this, Repr
      ensures Valid() && live == old(live) - {p} && blocks == old(blocks)
      ensures Repr == old(Repr) && forall q :: q in live ==> Content(q) == old(Content(q))
    {
      hide MemBlock.Valid, MemsApart, RoomOk, LiveOk, Views, UserWords, BlocksOk;
      ghost var before := View();
      DeallocateOk(before, blocksWithFree, live, index, Returned(before[index], p.offset), p);
      WordsFit();
      if blocks[index].IsFull() {
        blocksWithFree := blocksWithFree + [index];
      }
      GiveBack(p, index);
      live := live - {p};
    }

    /** The index in the unit's last word leads to the block that owns it. */
    method StoredIndexOf(p: Ptr) returns (index: nat)
      requires Valid() && p in live
      ensures index < |blocks| && OwnedBy(View()[index], p)
    {
      hide MemBlock.Valid, MemsApart, RoomOk, LiveOk, Views, BlocksOk;
      ghost var owner := Owner(View(), live, p);
      StoredIndex(owner, p);
      index := p.mem[p.offset + elemWords];
    }

    /** A unit carries the index of the block it came from. */
    lemma StoredIndex(i: nat, p: Ptr)
      requires BlocksOk() && i < |blocks| && OwnedBy(View()[i], p)
      ensures p.offset + elemWords < p.mem.Length && p.mem[p.offset + elemWords] == i
    {
      hide Threads, Partition, Words, Views;
      assert BlockOk(i);
      var b := blocks[i];
      UnitInside(b.block[..], elemWords, i, b.endIndex, b.live, b.free, p.offset);
    }

    /** Two units in use never share a word, whichever blocks they are in. */
    lemma LiveUnitsApart(p: Ptr, q: Ptr)
      requires Valid() && p in live && q in live && p != q
      ensures p.Ptr? && q.Ptr? && (p.mem != q.mem || p.offset + elemWords < q.offset || q.offset + elemWords < p.offset)
    {
      hide Threads, Words, Views;
      var i := Owner(View(), live, p);
      var j := Owner(View(), live, q);
      assert BlockOk(i) && BlockOk(j);
      if p.mem == q.mem {
        assert View()[i].mem == View()[j].mem != null;
        var b := blocks[i];
        assert IsUnit(p.offset, b.endIndex, elemWords + 1) && IsUnit(q.offset, b.endIndex, elemWords + 1);
        UnitsApart(p.offset, q.offset, elemWords + 1);
        UnitsApart(q.offset, p.offset, elemWords + 1);
      }
    }

    /** The owner of a live unit writes into it. Nothing of the allocator changes, nor any other unit. */
    method Store(p: Ptr, k: nat, x: nat)
      requires Valid() && p in live && k < elemWords
      modifies Repr
      ensures Valid() && live == old(live) && blocks == old(blocks) && Repr == old(Repr)
      ensures k < |old(Content(p))| && Content(p) == old(Content(p))[k := x]
      ensures forall q :: q in live && q != p ==> Content(q) == old(Content(q))
    {
      hide *;
      var index := StoredIndexOf(p);
      StoreIn(p, index, k, x);
    }

    method StoreIn(p: Ptr, index: nat, k: nat, x: nat)
      requires Valid() && p in live && k < elemWords && index < |blocks| && OwnedBy(View()[index], p)
      modifies Repr
      ensures Valid() && live == old(live) && blocks == old(blocks) && Repr == old(Repr)
      ensures k < |old(Content(p))| && Content(p) == old(Content(p))[k := x]
      ensures forall q :: q in live && q != p ==> Content(q) == old(Content(q))
    {
      hide MemBlock.Valid, MemsApart, RoomOk, LiveOk, Views, UserWords, BlocksOk;
      ApartFrom(index);
      WordsFit();
      ghost var before := View();
      ghost var b := blocks[index];
      blocks[index].Store(index, p.offset, k, x);
      OthersKeep(index);
      assert View() == before;
      assert old(b.Kept(p.offset)) == old(Content(p)) && b.Kept(p.offset) == Content(p);
      forall q | q in live && q != p
        ensures Content(q) == old(Content(q))
      {
        ghost var j := Owner(before, live, q);
        assert before[j] == old(ViewOf(blocks[j]));
        assert j == index ==> old(b.Kept(q.offset)) == old(Content(q)) && b.Kept(q.offset) == Content(q);
      }
    }

    method GiveBack(p: Ptr, index: nat)
      requires BlocksOk() && MemsApart(View()) && LiveOk(View(), live) && index < |blocks| && OwnedBy(View()[index], p)
      modifies Repr
      ensures BlocksOk() && View() == old(View())[index := Returned(old(View()[index]), p.offset)]
      ensures forall q :: q in live && q != p ==> Content(q) == old(Content(q))
    {
      hide MemBlock.Valid, MemsApart, Views, UserWords, BlocksOk, LiveOk;
      ApartFrom(index);
      ghost var before := View();
      WordsFit();
      StillRoom(index);
      ghost var b := blocks[index];
      blocks[index].Deallocate(index, p.offset);
      OthersKeep(index);
      forall q | q in live && q != p
        ensures Content(q) == old(Content(q))
      {
        ghost var j := Owner(before, live, q);
        assert before[j] == old(ViewOf(blocks[j]));
        assert j == index ==> old(b.Kept(q.offset)) == old(Content(q)) && b.Kept(q.offset) == Content(q);
      }
    }

    lemma StillRoom(index: nat)
      requires BlocksOk() && index < |blocks|
      ensures blocks[index].allocatedElementsAmount == |blocks[index].live| <= 512
    {
      hide Threads, Partition, Words, Views;
      assert BlockOk(index);
    }
  }

  ghost function ViewOf(b: MemBlock): BlockView
    reads b
  {
    BlockView(b.block, b.live, b.allocatedElementsAmount == 512)
  }

  ghost function Views(blocks: seq<MemBlock>): (view: seq<BlockView>)
    reads blocks
    ensures |view| == |blocks| && forall i :: 0 <= i < |view| ==> view[i] == ViewOf(blocks[i])
  {
    if blocks == [] then [] else
      assert blocks == blocks[..|blocks| - 1] + [blocks[|blocks| - 1]];
      Views(blocks[..|blocks| - 1]) + [ViewOf(blocks[|blocks| - 1])]
  }
}
