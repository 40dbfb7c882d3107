// lib/cromfs-blockifier.cc, FlushBlockifyRequests.
module BlockSchedule {
  // Every block of every scheduled source gets a block number, identical blocks share one, and reading
  // the numbers back gives the sources.

  import opened Arithmetic
  import opened SearchSpec
  import opened BlockNumbering
  import opened BlockStore
  import opened Blockifier
  import BlockReader
  import opened IdenticalBlocks
  import opened Wrappers

  // ---- Second pass: a number for every block ----

  /** The block number stands for the bytes at this offset, and perhaps for more after them. */
  ghost predicate Written(promised: seq<seq<Byte>>, item: Item, offset: int, number: nat)
    requires 0 < item.blocksize
  {
    0 <= offset < |item.source| && number < |promised| && BytesAt(item, offset) <= promised[number]
  }

  ghost predicate RowWritten(promised: seq<seq<Byte>>, item: Item, row: seq<nat>)
    requires 0 < item.blocksize
  {
    forall i :: 0 <= i < |row| ==> Written(promised, item, i * item.blocksize, row[i])
  }

  /** The items before |targets| have all their numbers. */
  ghost predicate TargetsWritten(promised: seq<seq<Byte>>, schedule: seq<Item>, targets: seq<seq<nat>>)
    requires ItemsOk(schedule)
  {
    && |targets| <= |schedule|
    && forall a :: 0 <= a < |targets| ==>
      |targets[a]| == Count(schedule[a]) && RowWritten(promised, schedule[a], targets[a])
  }

  lemma WrittenSurvives(promised: seq<seq<Byte>>, promised': seq<seq<Byte>>, schedule: seq<Item>,
                        targets: seq<seq<nat>>, item: Item, row: seq<nat>)
    requires ItemsOk(schedule) && 0 < item.blocksize && promised <= promised'
    requires TargetsWritten(promised, schedule, targets) && RowWritten(promised, item, row)
    ensures TargetsWritten(promised', schedule, targets) && RowWritten(promised', item, row)
  {
    hide BytesAt;
    forall i | 0 <= i < |row|
      ensures Written(promised', item, i * item.blocksize, row[i])
    {
      assert Written(promised, item, i * item.blocksize, row[i]);
    }
    forall a | 0 <= a < |targets|
      ensures RowWritten(promised', schedule[a], targets[a])
    {
      assert RowWritten(promised, schedule[a], targets[a]);
      forall i | 0 <= i < |targets[a]|
        ensures Written(promised', schedule[a], i * schedule[a].blocksize, targets[a][i])
      {
        assert Written(promised, schedule[a], i * schedule[a].blocksize, targets[a][i]);
      }
    }
  }

  /** The number of an earlier block, read back from where it was written. */
  function NumberAt(targets: seq<seq<nat>>, row: seq<nat>, schedno: nat, index: nat): Option<nat> {
    if schedno < |targets| then (if index < |targets[schedno]| then Some(targets[schedno][index]) else None)
    else if schedno == |targets| && index < |row| then Some(row[index])
    else None
  }

  /** The number of block other, from the target of the item that owns it. */
  function ReadBack(list: seq<nat>, schedule: seq<Item>, targets: seq<seq<nat>>, row: seq<nat>, other: nat): Option<nat>
    requires |list| <= |schedule| && 0 < |list| && list[0] <= other
    requires forall a :: 0 <= a < |schedule| ==> 0 < schedule[a].blocksize
  {
    var w := Find(list, schedule, other);
    NumberAt(targets, row, w.schedno, w.filepos / schedule[w.schedno].blocksize)
  }

  /** Block i of item a begins like block other, as the whole list finds it. */
  ghost predicate Reuses(schedule: seq<Item>, a: nat, i: nat, other: nat)
    requires ItemsOk(schedule) && a < |schedule|
  {
    var offset := i * schedule[a].blocksize;
    && 0 <= offset < |schedule[a].source| && other < First(schedule, a) + i
    && Begins(Firsts(schedule), schedule, schedule[a], offset, other)
  }

  lemma CopyReuses(j: Job, a: nat, i: nat, n: nat, other: nat)
    requires ItemsOk(j.schedule) && IsBlock(j.schedule, a, i, n) && CopyOf(j, n, other)
    ensures Reuses(j.schedule, a, i, other)
  {
    BlockIs(j.schedule, a, i, n);
  }

  /** The comparison before a number is shared. */
  predicate SameBytes(list: seq<nat>, schedule: seq<Item>, item: Item, offset: nat, other: nat)
    requires 0 < item.blocksize && offset < |item.source|
    requires |list| <= |schedule| && 0 < |list| && list[0] <= other
  {
    var w := Find(list, schedule, other);
    w.filepos + Eat(item, offset) <= |schedule[w.schedno].source|
    && BytesAt(item, offset) == schedule[w.schedno].source[w.filepos..w.filepos + Eat(item, offset)]
  }

  /** A copy may take the number of the block it begins like: that block is written, and holds these bytes first. */
  lemma ReusedNumberFits(promised: seq<seq<Byte>>, schedule: seq<Item>, targets: seq<seq<nat>>, row: seq<nat>, i: nat,
                         other: nat)
    requires ItemsOk(schedule) && TargetsWritten(promised, schedule, targets) && |targets| < |schedule|
    requires RowWritten(promised, schedule[|targets|], row) && |row| == i
    requires Reuses(schedule, |targets|, i, other)
    ensures var a, list := |targets|, Firsts(schedule);
            var offset := i * schedule[a].blocksize;
            && list[0] == 0 && 0 <= offset < |schedule[a].source|
            && SameBytes(list, schedule, schedule[a], offset, other)
            && ReadBack(list, schedule, targets, row, other).Some?
            && Written(promised, schedule[a], offset, ReadBack(list, schedule, targets, row, other).value)
  {
    var a, list := |targets|, Firsts(schedule);
    var item, offset := schedule[a], i * schedule[a].blocksize;
    var w := Find(list, schedule, other);
    FirstIsZero(schedule);
    FoundOwns(list, schedule, other, Eat(item, offset));
    var j := other - First(schedule, w.schedno);
    var item2 := schedule[w.schedno];
    DivUnique(w.filepos, item2.blocksize, j, 0);
    if a < w.schedno {
      FirstMonotone(schedule, a, w.schedno);
      CountExists(item, i);
    }
    assert w.schedno <= a;
    var number := if w.schedno < a then targets[w.schedno][j] else row[j];
    assert Written(promised, item2, j * item2.blocksize, number) by {
      if w.schedno < a {
        assert RowWritten(promised, schedule[w.schedno], targets[w.schedno]);
      }
    }
    PrefixOfBlock(item, offset, item2, w.filepos);
  }

  /** The number a block has got so far, if any. */
  ghost function Numbered(schedule: seq<Item>, targets: seq<seq<nat>>, row: seq<nat>, n: nat): Option<nat> {
    if Exists(schedule, n) then
      ExistsHasItem(schedule, n);
      var p := PlaceOf(schedule, n);
      NumberAt(targets, row, p.item, p.index)
    else None
  }

  /** The number read back for a copied block is that block's own. */
  lemma ReadBackIsNumber(schedule: seq<Item>, targets: seq<seq<nat>>, row: seq<nat>, n: nat, other: nat)
    requires Repeats(schedule, n, other)
    ensures ItemsOk(schedule) && 0 < |schedule| && First(schedule, 0) == 0
    ensures ReadBack(Firsts(schedule), schedule, targets, row, other) == Numbered(schedule, targets, row, other)
  {
    RepeatedIsOwned(schedule, n, other);
    ExistsHasItem(schedule, other);
    var p := PlaceOf(schedule, other);
    hide First, PlaceOf, Find, NumberAt;
    MulNonNegative(p.index, schedule[p.item].blocksize);
    DivUnique(OffsetOf(schedule, other), schedule[p.item].blocksize, p.index, 0);
  }

  /** Every listed block before done has the number of the block it is a copy of. */
  ghost predicate SharesNumbers(schedule: seq<Item>, identical: seq<Identical>, targets: seq<seq<nat>>, row: seq<nat>,
                                done: nat) {
    forall x :: 0 <= x < |identical| && identical[x].number < done ==>
      Numbered(schedule, targets, row, identical[x].number).Some?
      && Numbered(schedule, targets, row, identical[x].number) == Numbered(schedule, targets, row, identical[x].other)
  }

  /** A number once given stays, in this row and when the row is complete. */
  lemma NumberStays(schedule: seq<Item>, targets: seq<seq<nat>>, row: seq<nat>, number: nat, m: nat)
    requires ItemsOk(schedule) && |targets| < |schedule| && |row| < Count(schedule[|targets|])
    requires m < First(schedule, |targets|) + |row|
    ensures Numbered(schedule, targets, row + [number], m) == Numbered(schedule, targets, row, m)
  {
    if Exists(schedule, m) {
      ExistsHasItem(schedule, m);
      var p := PlaceOf(schedule, m);
      if p.item > |targets| {
        FirstMonotone(schedule, |targets|, p.item);
      }
    }
  }

  lemma RowJoins(schedule: seq<Item>, targets: seq<seq<nat>>, row: seq<nat>, m: nat)
    requires |targets| < |schedule|
    ensures Numbered(schedule, targets + [row], [], m) == Numbered(schedule, targets, row, m)
  {
    hide PlaceOf;
  }

  /** If block n is listed, number is that of the block it is a copy of. */
  ghost predicate CopiesGet(schedule: seq<Item>, identical: seq<Identical>, targets: seq<seq<nat>>, row: seq<nat>,
                            number: nat, n: nat) {
    forall x :: 0 <= x < |identical| && identical[x].number == n ==>
      Numbered(schedule, targets, row, identical[x].other) == Some(number)
  }

  /** One more block numbered: a copy shares, and all earlier copies still do. */
  lemma SharesMore(j: Job, identical: seq<Identical>, targets: seq<seq<nat>>, row: seq<nat>, number: nat, n: nat)
    requires ItemsOk(j.schedule)
    requires TrueCopies(j, identical) && IsBlock(j.schedule, |targets|, |row|, n)
    requires SharesNumbers(j.schedule, identical, targets, row, n)
             && CopiesGet(j.schedule, identical, targets, row, number, n)
    ensures SharesNumbers(j.schedule, identical, targets, row + [number], n + 1)
  {
    var row' := row + [number];
    NewNumber(j.schedule, targets, row, number, n);
    hide Count, Numbered, First, CopyOf, IsBlock;
    forall x | 0 <= x < |identical| && identical[x].number < n + 1
      ensures Numbered(j.schedule, targets, row', identical[x].number).Some?
      ensures Numbered(j.schedule, targets, row', identical[x].number)
              == Numbered(j.schedule, targets, row', identical[x].other)
    {
      SharesOne(j, identical, targets, row, number, n, x);
    }
  }

  lemma NewNumber(schedule: seq<Item>, targets: seq<seq<nat>>, row: seq<nat>, number: nat, n: nat)
    requires ItemsOk(schedule) && IsBlock(schedule, |targets|, |row|, n)
    ensures Numbered(schedule, targets, row + [number], n) == Some(number)
  {
    BlockIs(schedule, |targets|, |row|, n);
  }

  lemma SharesOne(j: Job, identical: seq<Identical>, targets: seq<seq<nat>>, row: seq<nat>, number: nat, n: nat, x: nat)
    requires ItemsOk(j.schedule) && IsBlock(j.schedule, |targets|, |row|, n) && x < |identical|
             && identical[x].number <= n
    requires CopyOf(j, identical[x].number, identical[x].other)
    requires SharesNumbers(j.schedule, identical, targets, row, n)
    requires Numbered(j.schedule, targets, row + [number], n) == Some(number)
    requires identical[x].number == n ==> Numbered(j.schedule, targets, row, identical[x].other) == Some(number)
    ensures Numbered(j.schedule, targets, row + [number], identical[x].number).Some?
    ensures Numbered(j.schedule, targets, row + [number], identical[x].number)
            == Numbered(j.schedule, targets, row + [number], identical[x].other)
  {
    hide Count, Numbered, Repeats, First, Considered, HashOf;
    NumberStays(j.schedule, targets, row, number, identical[x].other);
    if identical[x].number < n {
      NumberStays(j.schedule, targets, row, number, identical[x].number);
    }
  }

  lemma SharesJoined(schedule: seq<Item>, identical: seq<Identical>, targets: seq<seq<nat>>, row: seq<nat>, done: nat)
    requires |targets| < |schedule| && SharesNumbers(schedule, identical, targets, row, done)
    ensures SharesNumbers(schedule, identical, targets + [row], [], done)
  {
    hide Numbered;
    forall x | 0 <= x < |identical| && identical[x].number < done
      ensures Numbered(schedule, targets + [row], [], identical[x].number).Some?
      ensures Numbered(schedule, targets + [row], [], identical[x].number)
              == Numbered(schedule, targets + [row], [], identical[x].other)
    {
      RowJoins(schedule, targets, row, identical[x].number);
      RowJoins(schedule, targets, row, identical[x].other);
    }
  }

  /** One block of the second pass: the number of an earlier copy if the list names one, else a stored block. */
  method NumberBlock(b: Blockifier, schedule: seq<Item>, list: seq<nat>, reuse: Option<nat>, targets: seq<seq<nat>>,
                     row: seq<nat>, offset: nat)
    returns (number: nat)
    requires ItemsOk(schedule) && |targets| < |schedule| && list == Firsts(schedule)
    requires b.Valid() && (forall z :: z in b.o.bsizes ==> 0 < z) && schedule[|targets|].blocksize <= b.cap
    requires TargetsWritten(b.promised, schedule, targets) && RowWritten(b.promised, schedule[|targets|], row)
    requires offset == |row| * schedule[|targets|].blocksize && offset < |schedule[|targets|].source|
    requires reuse.Some? ==> Reuses(schedule, |targets|, |row|, reuse.value)
    modifies b
    ensures b.Valid() && Grows(old(b.fblocks), b.fblocks) && old(b.promised) <= b.promised && old(b.blocks) <= b.blocks
    ensures Written(b.promised, schedule[|targets|], offset, number)
    ensures reuse.Some? ==>
              0 < |list| && list[0] == 0 && ReadBack(list, schedule, targets, row, reuse.value) == Some(number)
    ensures |b.blocks| == |old(b.blocks)| + if reuse.Some? then 0 else 1
  {
    var item := schedule[|targets|];
    var buf := BytesAt(item, offset);
    if reuse.Some? {
      var copied := CopiedNumber(b.promised, schedule, list, reuse.value, targets, row, offset);
      FirstIsZero(schedule);
      if copied.Some? {
        return copied.value;
      }
    }
    assert |b.promised| == |b.blocks|;
    hide Keeps, RoomOk, OfferedOk, TotalSize, IndexOk;
    ghost var planned;
    number, planned := b.StoreBlock(buf);
  }

  /** The number of the copy. The two places are compared again, and always agree. */
  method CopiedNumber(ghost promised: seq<seq<Byte>>, schedule: seq<Item>, list: seq<nat>, other: nat,
                      targets: seq<seq<nat>>, row: seq<nat>, offset: nat)
    returns (copied: Option<nat>)
    requires ItemsOk(schedule) && |targets| < |schedule| && list == Firsts(schedule)
    requires TargetsWritten(promised, schedule, targets) && RowWritten(promised, schedule[|targets|], row)
    requires offset == |row| * schedule[|targets|].blocksize && offset < |schedule[|targets|].source|
    requires Reuses(schedule, |targets|, |row|, other)
    ensures copied.Some? && Written(promised, schedule[|targets|], offset, copied.value)
    ensures list[0] == 0 && copied == ReadBack(list, schedule, targets, row, other)
  {
    ReusedNumberFits(promised, schedule, targets, row, |row|, other);
    FirstIsZero(schedule);
    hide First, Find, Begins, ReadBack, SameBytes, Written, Reuses;
    var number := ReadBack(list, schedule, targets, row, other);
    copied := if SameBytes(list, schedule, schedule[|targets|], offset, other) then number else None;
  }

  /** The entries before k are for blocks before done, the others are not. */
  ghost predicate SplitAt(identical: seq<Identical>, k: nat, done: nat) {
    && k <= |identical|
    && (forall x :: 0 <= x < k ==> identical[x].number < done)
    && forall x :: k <= x < |identical| ==> done <= identical[x].number
  }

  /** The entry for this block number, past the entries for smaller ones. */
  method NextReuse(identical: seq<Identical>, pos0: nat, blocksDone: nat, ghost k: nat)
    returns (pos: nat, reuse: Option<nat>)
    requires pos0 <= k && SplitAt(identical, k, blocksDone)
    requires Increasing(identical)
    ensures pos == k && SplitAt(identical, if reuse.Some? then k + 1 else k, blocksDone + 1)
    ensures reuse.Some? ==> identical[pos] == Identical(blocksDone, reuse.value)
    ensures reuse.None? ==> forall x :: 0 <= x < |identical| ==> identical[x].number != blocksDone
  {
    pos := pos0;
    while pos < |identical| && identical[pos].number < blocksDone
      invariant pos0 <= pos <= k
    {
      pos := pos + 1;
    }
    reuse := if pos < |identical| && identical[pos].number == blocksDone then Some(identical[pos].other) else None;
  }

  /** How far the second pass has come: all promises kept, numbers shared, and one new block for every other one. */
  ghost predicate PassOk(j: Job, identical: seq<Identical>, promised: seq<seq<Byte>>, targets: seq<seq<nat>>,
                         row: seq<nat>, done: nat, k: nat)
    requires ItemsOk(j.schedule) && |targets| < |j.schedule|
  {
    && TargetsWritten(promised, j.schedule, targets) && RowWritten(promised, j.schedule[|targets|], row)
    && SharesNumbers(j.schedule, identical, targets, row, done) && SplitAt(identical, k, done)
  }

  /** One block of the second pass, with its place in the list of copies. */
  method NumberNext(b: Blockifier, j: Job, list: seq<nat>, identical: seq<Identical>, pos0: nat, targets: seq<seq<nat>>,
                    row: seq<nat>, offset: nat, blocksDone: nat, ghost k: nat)
    returns (number: nat, pos: nat, ghost k': nat)
    requires ItemsOk(j.schedule) && |targets| < |j.schedule| && list == Firsts(j.schedule)
    requires IdenticalExact(j, identical, Total(j.schedule))
    requires b.Valid() && (forall z :: z in b.o.bsizes ==> 0 < z) && j.schedule[|targets|].blocksize <= b.cap
    requires IsBlock(j.schedule, |targets|, |row|, blocksDone) && offset == |row| * j.schedule[|targets|].blocksize
    requires offset < |j.schedule[|targets|].source| && pos0 <= k
    requires PassOk(j, identical, b.promised, targets, row, blocksDone, k)
    modifies b
    ensures b.Valid() && Grows(old(b.fblocks), b.fblocks) && old(b.promised) <= b.promised && old(b.blocks) <= b.blocks
    ensures PassOk(j, identical, b.promised, targets, row + [number], blocksDone + 1, k') && pos <= k'
    ensures |b.blocks| + k' == |old(b.blocks)| + k + 1
  {
    hide Keeps, RoomOk, OfferedOk, TotalSize, BlockStore.Grows, Written, TargetsWritten, Reuses, Blockifier.Valid,
         RowWritten, SharesNumbers, First, CopyOf, Count, Firsts, ReadBack, IdenticalExact, Numbered, CopiesGet,
         TrueCopies, Increasing;
    InIncreasingOrder(j, identical);
    var reuse;
    pos, reuse := NextReuse(identical, pos0, blocksDone, k);
    k' := if reuse.Some? then k + 1 else k;
    if reuse.Some? {
      ListedReuses(j, identical, pos, |targets|, |row|, blocksDone);
    }
    ghost var promised := b.promised;
    number := NumberBlock(b, j.schedule, list, reuse, targets, row, offset);
    RowWrittenMore(promised, b.promised, j.schedule, targets, row, number);
    FirstIsZero(j.schedule);
    NumberIsCopied(j, identical, targets, row, blocksDone, pos, reuse, number);
    SharesMore(j, identical, targets, row, number, blocksDone);
  }

  lemma InIncreasingOrder(j: Job, identical: seq<Identical>)
    requires ItemsOk(j.schedule) && IdenticalExact(j, identical, Total(j.schedule))
    ensures Increasing(identical) && TrueCopies(j, identical)
  {
  }

  lemma ListedReuses(j: Job, identical: seq<Identical>, pos: nat, a: nat, i: nat, n: nat)
    requires ItemsOk(j.schedule) && IdenticalExact(j, identical, Total(j.schedule)) && IsBlock(j.schedule, a, i, n)
    requires pos < |identical| && identical[pos].number == n
    ensures Reuses(j.schedule, a, i, identical[pos].other)
  {
    assert CopyOf(j, identical[pos].number, identical[pos].other);
    CopyReuses(j, a, i, n, identical[pos].other);
  }

  lemma RowWrittenMore(promised: seq<seq<Byte>>, promised': seq<seq<Byte>>, schedule: seq<Item>,
                       targets: seq<seq<nat>>, row: seq<nat>, number: nat)
    requires ItemsOk(schedule) && |targets| < |schedule| && promised <= promised'
    requires TargetsWritten(promised, schedule, targets) && RowWritten(promised, schedule[|targets|], row)
    requires Written(promised', schedule[|targets|], |row| * schedule[|targets|].blocksize, number)
    ensures TargetsWritten(promised', schedule, targets) && RowWritten(promised', schedule[|targets|], row + [number])
  {
    WrittenSurvives(promised, promised', schedule, targets, schedule[|targets|], row);
    hide Written, TargetsWritten;
  }

  lemma NumberIsCopied(j: Job, identical: seq<Identical>, targets: seq<seq<nat>>, row: seq<nat>, n: nat, pos: nat,
                       reuse: Option<nat>, number: nat)
    requires ItemsOk(j.schedule) && IdenticalExact(j, identical, Total(j.schedule)) && 0 < |j.schedule|
             && First(j.schedule, 0) == 0
    requires reuse.Some? ==> pos < |identical| && identical[pos] == Identical(n, reuse.value)
    requires reuse.Some? ==> ReadBack(Firsts(j.schedule), j.schedule, targets, row, reuse.value) == Some(number)
    requires reuse.None? ==> forall x :: 0 <= x < |identical| ==> identical[x].number != n
    ensures CopiesGet(j.schedule, identical, targets, row, number, n)
  {
    hide Numbered, ReadBack, First, Repeats;
    if reuse.Some? {
      assert CopyOf(j, n, reuse.value);
      ReadBackIsNumber(j.schedule, targets, row, n, reuse.value);
      assert forall x :: 0 <= x < |identical| && identical[x].number == n ==> x == pos;
    }
  }

  /** One item of the second pass. */
  method NumberItem(b: Blockifier, j: Job, list: seq<nat>, identical: seq<Identical>, pos0: nat, targets: seq<seq<nat>>,
                    blocksDone0: nat, ghost k0: nat)
    returns (row: seq<nat>, pos: nat, blocksDone: nat, ghost k: nat)
    requires ItemsOk(j.schedule) && |targets| < |j.schedule| && list == Firsts(j.schedule)
    requires IdenticalExact(j, identical, Total(j.schedule))
    requires b.Valid() && (forall z :: z in b.o.bsizes ==> 0 < z) && j.schedule[|targets|].blocksize <= b.cap
    requires blocksDone0 == First(j.schedule, |targets|) && pos0 <= k0
    requires PassOk(j, identical, b.promised, targets, [], blocksDone0, k0)
    modifies b
    ensures b.Valid() && Grows(old(b.fblocks), b.fblocks) && old(b.promised) <= b.promised && old(b.blocks) <= b.blocks
    ensures blocksDone == First(j.schedule, |targets| + 1) && pos <= k && SplitAt(identical, k, blocksDone)
    ensures TargetsWritten(b.promised, j.schedule, targets + [row])
    ensures SharesNumbers(j.schedule, identical, targets + [row], [], blocksDone)
    ensures |b.blocks| + k - blocksDone == |old(b.blocks)| + k0 - blocksDone0
  {
    ghost var a := |targets|;
    FirstStep(j.schedule, a);
    hide Keeps, RoomOk, OfferedOk, TotalSize, First, Count, PassOk, Blockifier.Valid, IdenticalExact, Firsts;
    var item := j.schedule[|targets|];
    var offset := 0;
    row, pos, blocksDone, k := [], pos0, blocksDone0, k0;
    while offset < |item.source|
      invariant offset == |row| * item.blocksize && blocksDone == First(j.schedule, a) + |row| && |row| <= Count(item)
      invariant b.Valid() && Grows(old(b.fblocks), b.fblocks) && old(b.promised) <= b.promised
                && old(b.blocks) <= b.blocks
      invariant PassOk(j, identical, b.promised, targets, row, blocksDone, k) && pos <= k
      invariant |b.blocks| + k - blocksDone == |old(b.blocks)| + k0 - blocksDone0
      decreases |item.source| - offset
    {
      CountExists(item, |row|);
      ghost var fblocks := b.fblocks;
      var number;
      number, pos, k := NumberNext(b, j, list, identical, pos, targets, row, offset, blocksDone, k);
      GrowsTransitive(old(b.fblocks), fblocks, b.fblocks);
      OneMoreMultiple(|row|, item.blocksize);
      row := row + [number];
      offset, blocksDone := offset + item.blocksize, blocksDone + 1;
    }
    CountExists(item, |row|);
    ItemDone(j, identical, b.promised, targets, row, blocksDone, k);
  }

  lemma ItemDone(j: Job, identical: seq<Identical>, promised: seq<seq<Byte>>, targets: seq<seq<nat>>, row: seq<nat>,
                 done: nat, k: nat)
    requires ItemsOk(j.schedule) && |targets| < |j.schedule| && |row| == Count(j.schedule[|targets|])
    requires PassOk(j, identical, promised, targets, row, done, k)
    ensures TargetsWritten(promised, j.schedule, targets + [row]) && SplitAt(identical, k, done)
    ensures SharesNumbers(j.schedule, identical, targets + [row], [], done)
  {
    hide RowWritten, Count, SharesNumbers;
    SharesJoined(j.schedule, identical, targets, row, done);
  }

  /** Block k of source c, not hidden by an empty source, comes before block i of source a, which has the same bytes
      and is cut alike. */
  ghost predicate EqualsBefore(schedule: seq<Item>, wanted: seq<Byte> -> bool, c: nat, k: nat, a: nat, i: nat)
    requires ItemsOk(schedule)
  {
    && c < |schedule| && a < |schedule| && k < Count(schedule[c]) && i < Count(schedule[a])
    && (c < a || (c == a && k < i)) && (k > 0 || c == 0 || schedule[c - 1].source != [])
    && (CountExists(schedule[c], k); CountExists(schedule[a], i);
        var size := schedule[a].blocksize;
        && schedule[c].blocksize == size && wanted(BytesAt(schedule[a], i * size))
        && BytesAt(schedule[a], i * size) == BytesAt(schedule[c], k * size))
  }

  /** The two have the same number. */
  ghost predicate SameNumber(targets: seq<seq<nat>>, c: nat, k: nat, a: nat, i: nat) {
    c < |targets| && k < |targets[c]| && a < |targets| && i < |targets[a]| && targets[a][i] == targets[c][k]
  }

  ghost predicate EqualBlocksShare(schedule: seq<Item>, wanted: seq<Byte> -> bool, targets: seq<seq<nat>>)
    requires ItemsOk(schedule)
  {
    forall c: nat, k: nat, a: nat, i: nat :: EqualsBefore(schedule, wanted, c, k, a, i) ==>
      SameNumber(targets, c, k, a, i)
  }

  /** Copies take the number of the earliest block they equal, so blocks that are equal get equal numbers. */
  lemma EqualGetEqual(schedule: seq<Item>, hash: seq<Byte> -> nat, wanted: seq<Byte> -> bool,
                      identical: seq<Identical>, targets: seq<seq<nat>>, n: nat, m: nat)
    requires ItemsOk(schedule) && ListsOriginals(schedule, hash, wanted, identical)
    requires SharesNumbers(schedule, identical, targets, [], Total(schedule))
    requires m < n && Exists(schedule, n) && Exists(schedule, m) && BlockBytes(schedule, n) == BlockBytes(schedule, m)
    requires ItemOf(schedule, n).blocksize == ItemOf(schedule, m).blocksize && Unshadowed(schedule, m)
    requires wanted(BlockBytes(schedule, n))
    ensures Numbered(schedule, targets, [], n) == Numbered(schedule, targets, [], m)
  {
    hide Numbered, BlockBytes, ItemOf, Unshadowed, First, Increasing;
    assert Original(schedule, hash, wanted, n, m);
    var x :| 0 <= x < |identical| && identical[x].number == n;
    var k := identical[x].other;
    if k < m {
      assert Original(schedule, hash, wanted, m, k);
      var y :| 0 <= y < |identical| && identical[y].number == m;
      assert Original(schedule, hash, wanted, n, identical[y].other);
    }
  }

  lemma EqualShare(schedule: seq<Item>, hash: seq<Byte> -> nat, wanted: seq<Byte> -> bool, identical: seq<Identical>,
                   targets: seq<seq<nat>>)
    requires ItemsOk(schedule) && ListsOriginals(schedule, hash, wanted, identical) && |targets| == |schedule|
    requires SharesNumbers(schedule, identical, targets, [], Total(schedule))
    requires forall a :: 0 <= a < |schedule| ==> |targets[a]| == Count(schedule[a])
    ensures EqualBlocksShare(schedule, wanted, targets)
  {
    hide ListsOriginals, SharesNumbers, EqualsBefore, SameNumber, Count;
    forall c: nat, k: nat, a: nat, i: nat | EqualsBefore(schedule, wanted, c, k, a, i)
      ensures SameNumber(targets, c, k, a, i)
    {
      EqualShareAt(schedule, hash, wanted, identical, targets, c, k, a, i);
    }
  }

  lemma EqualShareAt(schedule: seq<Item>, hash: seq<Byte> -> nat, wanted: seq<Byte> -> bool,
                     identical: seq<Identical>, targets: seq<seq<nat>>, c: nat, k: nat, a: nat, i: nat)
    requires ItemsOk(schedule) && ListsOriginals(schedule, hash, wanted, identical) && |targets| == |schedule|
    requires SharesNumbers(schedule, identical, targets, [], Total(schedule))
    requires forall x :: 0 <= x < |schedule| ==> |targets[x]| == Count(schedule[x])
    requires EqualsBefore(schedule, wanted, c, k, a, i)
    ensures SameNumber(targets, c, k, a, i)
  {
    hide *;
    EqualBlocks(schedule, wanted, c, k, a, i);
    EqualGetEqual(schedule, hash, wanted, identical, targets, First(schedule, a) + i, First(schedule, c) + k);
    NumberedAt(schedule, targets, c, k);
    NumberedAt(schedule, targets, a, i);
    SameAre(targets, c, k, a, i);
  }

  lemma SameAre(targets: seq<seq<nat>>, c: nat, k: nat, a: nat, i: nat)
    requires c < |targets| && k < |targets[c]| && a < |targets| && i < |targets[a]| && targets[a][i] == targets[c][k]
    ensures SameNumber(targets, c, k, a, i)
  {
  }

  lemma EqualBlocks(schedule: seq<Item>, wanted: seq<Byte> -> bool, c: nat, k: nat, a: nat, i: nat)
    requires ItemsOk(schedule) && EqualsBefore(schedule, wanted, c, k, a, i)
    ensures c < |schedule| && a < |schedule| && k < Count(schedule[c]) && i < Count(schedule[a])
    ensures var m, n := First(schedule, c) + k, First(schedule, a) + i;
            && m < n && Exists(schedule, n) && Exists(schedule, m)
            && BlockBytes(schedule, n) == BlockBytes(schedule, m)
            && ItemOf(schedule, n).blocksize == ItemOf(schedule, m).blocksize && Unshadowed(schedule, m)
            && wanted(BlockBytes(schedule, n))
  {
    hide First, Count, BytesAt, Find, LowerBound, PlaceOf, ItemOf, OffsetOf, Exists;
    CountExists(schedule[c], k);
    CountExists(schedule[a], i);
    PlacesInOrder(schedule, c, k, a, i);
    BlockIs(schedule, c, k, First(schedule, c) + k);
    BlockIs(schedule, a, i, First(schedule, a) + i);
  }

  lemma PlacesInOrder(schedule: seq<Item>, c: nat, k: nat, a: nat, i: nat)
    requires ItemsOk(schedule) && c <= a < |schedule| && k < Count(schedule[c]) && i < Count(schedule[a])
    requires c < a || k < i
    ensures First(schedule, c) + k < First(schedule, a) + i
  {
    if c < a {
      FirstStep(schedule, c);
      FirstMonotone(schedule, c + 1, a);
    }
    hide First;
  }

  lemma NumberedAt(schedule: seq<Item>, targets: seq<seq<nat>>, a: nat, i: nat)
    requires ItemsOk(schedule) && a < |schedule| == |targets| && i < Count(schedule[a]) == |targets[a]|
    ensures Numbered(schedule, targets, [], First(schedule, a) + i) == Some(targets[a][i])
  {
    BlockIs(schedule, a, i, First(schedule, a) + i);
    hide First, PlaceOf;
  }

  /** FlushBlockifyRequests: every block of every source is numbered, copies take the number of what they copy and no
      block of their own, and no earlier promise is broken. */
  method FlushBlockifyRequests(b: Blockifier, schedule: seq<Item>, hashing: HashMethod, isBlank: seq<Byte> -> bool)
    returns (targets: seq<seq<nat>>, ghost identical: seq<Identical>)
    requires ItemsOk(schedule) && forall a :: 0 <= a < |schedule| ==> schedule[a].blocksize <= b.cap
    requires b.Valid() && forall z :: z in b.o.bsizes ==> 0 < z
    modifies b
    ensures b.Valid() && Grows(old(b.fblocks), b.fblocks) && old(b.promised) <= b.promised && old(b.blocks) <= b.blocks
    ensures |targets| == |schedule| && TargetsWritten(b.promised, schedule, targets)
    ensures IdenticalExact(Job(schedule, hashing, b.hash, isBlank), identical, Total(schedule))
    ensures SharesNumbers(schedule, identical, targets, [], Total(schedule))
    ensures |b.blocks| == |old(b.blocks)| + Total(schedule) - |identical|
    ensures hashing.HashNone? ==> identical == []
    ensures hashing.HashBlanksOnly? ==>
              ListsOriginals(schedule, b.hash, isBlank, identical) && EqualBlocksShare(schedule, isBlank, targets)
    ensures hashing in {HashAll, HashAllPrepass, HashAllSpeedup, HashCollect, HashCollectSpeedup} ==>
              ListsOriginals(schedule, b.hash, Any, identical) && EqualBlocksShare(schedule, Any, targets)
  {
    var j := Job(schedule, hashing, b.hash, isBlank);
    var list, copies := FindIdentical(j);
    identical := copies;
    targets := [];
    var blocksDone: nat, pos: nat := 0, 0;
    ghost var k: nat := 0;
    FirstIsZero(schedule);
    hide Keeps, RoomOk, OfferedOk, TotalSize, Count, Written, IdenticalExact, RowWritten, Numbered, First,
         Blockifier.Valid, Firsts;
    for a := 0 to |schedule|
      invariant |targets| == a && blocksDone == First(schedule, a) && pos <= k && SplitAt(identical, k, blocksDone)
      invariant b.Valid() && Grows(old(b.fblocks), b.fblocks) && old(b.promised) <= b.promised
                && old(b.blocks) <= b.blocks
      invariant TargetsWritten(b.promised, schedule, targets)
                && SharesNumbers(schedule, identical, targets, [], blocksDone)
      invariant |b.blocks| + k - blocksDone == |old(b.blocks)|
    {
      ghost var fblocks := b.fblocks;
      var row;
      EmptyRow(b.promised, schedule[a]);
      row, pos, blocksDone, k := NumberItem(b, j, list, copies, pos, targets, blocksDone, k);
      GrowsTransitive(old(b.fblocks), fblocks, b.fblocks);
      targets := targets + [row];
    }
    AllBefore(j, identical, k);
    if hashing.HashBlanksOnly? {
      EqualShare(schedule, b.hash, isBlank, identical, targets);
    } else if !hashing.HashNone? {
      EqualShare(schedule, b.hash, Any, identical, targets);
    }
  }

  lemma EmptyRow(promised: seq<seq<Byte>>, item: Item)
    requires 0 < item.blocksize
    ensures RowWritten(promised, item, [])
  {
  }

  /** Entry x, if there is one. */
  ghost function NumberListed(identical: seq<Identical>, x: nat): Option<nat> {
    if x < |identical| then Some(identical[x].number) else None
  }

  lemma AllBefore(j: Job, identical: seq<Identical>, k: nat)
    requires ItemsOk(j.schedule) && IdenticalExact(j, identical, Total(j.schedule))
             && SplitAt(identical, k, Total(j.schedule))
    ensures k == |identical|
  {
    var next := NumberListed(identical, k);
  }

  // ---- Reading back ----

  function Contents(fblocks: seq<FblockRec>): (data: seq<seq<Byte>>)
    ensures |data| == |fblocks| && forall f :: 0 <= f < |data| ==> data[f] == fblocks[f].data
  {
    seq(|fblocks|, f requires 0 <= f < |fblocks| => fblocks[f].data)
  }

  /** The numbers a source got describe it to the reader: every byte is found where its number points. */
  lemma NumbersDescribe(fblocks: seq<FblockRec>, blocks: seq<Locator>, promised: seq<seq<Byte>>, item: Item,
                        row: seq<nat>, slot: nat -> nat)
    requires 0 < item.blocksize && Keeps(fblocks, blocks, promised)
    requires |row| == Count(item) && RowWritten(promised, item, row)
    ensures BlockReader.Describes(BlockReader.Volume(blocks, Contents(fblocks), slot),
                                  BlockReader.FileMap(item.blocksize, |item.source|, row), item.source)
  {
    var v := BlockReader.Volume(blocks, Contents(fblocks), slot);
    var inode := BlockReader.FileMap(item.blocksize, |item.source|, row);
    forall p | 0 <= p < |item.source|
      ensures v.Mapped(inode, p) && v.ByteAt(inode, p) == Some(item.source[p])
    {
      ByteDescribed(fblocks, blocks, promised, item, row, v, inode, p);
    }
  }

  lemma SplitPosition(p: nat, b: nat)
    requires 0 < b
    ensures p == p / b * b + p % b && 0 <= p / b * b && p % b < b
  {
    MulNonNegative(p / b, b);
  }

  lemma ByteDescribed(fblocks: seq<FblockRec>, blocks: seq<Locator>, promised: seq<seq<Byte>>, item: Item,
                      row: seq<nat>, v: BlockReader.Volume, inode: BlockReader.FileMap, p: nat)
    requires 0 < item.blocksize && Keeps(fblocks, blocks, promised)
    requires |row| == Count(item) && RowWritten(promised, item, row) && p < |item.source|
    requires v.blktab == blocks && v.fblocks == Contents(fblocks)
             && inode == BlockReader.FileMap(item.blocksize, |item.source|, row)
    ensures v.Mapped(inode, p) && v.ByteAt(inode, p) == Some(item.source[p])
  {
    var i, r := p / item.blocksize, p % item.blocksize;
    var offset := i * item.blocksize;
    SplitPosition(p, item.blocksize);
    CountExists(item, i);
    assert Written(promised, item, i * item.blocksize, row[i]);
    assert Denotes(fblocks, blocks[row[i]], promised[row[i]]);
    var bytes := BytesAt(item, offset);
    assert bytes[r] == item.source[p] && promised[row[i]][r] == bytes[r];
    assert promised[row[i]][r] == fblocks[blocks[row[i]].fblocknum].data[blocks[row[i]].startoffs + r];
  }

  /** Blockify, then read any part of any source, with whatever bits the reader's set of needed fblocks has. The count
      is whole exactly when no two needed fblocks share a bit, and then the target holds the source's own bytes. */
  method StoreAndRead(b: Blockifier, schedule: seq<Item>, hashing: HashMethod, isBlank: seq<Byte> -> bool,
                      slot: nat -> nat, a: nat, offset: nat, size: nat, target: array<Byte>, cache: set<nat>)
    returns (count: nat, ghost v: BlockReader.Volume, ghost inode: BlockReader.FileMap)
    requires ItemsOk(schedule) && (forall k :: 0 <= k < |schedule| ==> schedule[k].blocksize <= b.cap) && a < |schedule|
    requires b.Valid() && (forall z :: z in b.o.bsizes ==> 0 < z) && size <= target.Length
             && b as object != target as object
    modifies b, target
    ensures v.slot == slot && BlockReader.Describes(v, inode, schedule[a].source)
    ensures ReadAnswer(v, inode, schedule[a].source, offset, size, old(target[..]), target[..], count)
  {
    var targets;
    ghost var identical;
    targets, identical := FlushBlockifyRequests(b, schedule, hashing, isBlank);
    var item := schedule[a];
    var volume := BlockReader.Volume(b.blocks, Contents(b.fblocks), slot);
    var numbers := BlockReader.FileMap(item.blocksize, |item.source|, targets[a]);
    v, inode := volume, numbers;
    NumbersDescribe(b.fblocks, b.blocks, b.promised, item, targets[a], slot);
    count := ReadDescribed(volume, numbers, item.source, offset, size, target, cache);
  }

  /** What reading from a described file answers. */
  ghost predicate ReadAnswer(v: BlockReader.Volume, inode: BlockReader.FileMap, source: seq<Byte>, offset: nat,
                             size: nat, was: seq<Byte>, now: seq<Byte>, count: nat)
    requires 0 < inode.blocksize
  {
    var begin, end := Min(offset, |source|), Min(offset + size, |source|);
    && (count == end - begin <==> BlockReader.SlotsApart(v, inode, begin, end))
    && (count == end - begin ==> count <= |was| && now == source[begin..end] + was[count..])
  }

  method ReadDescribed(v: BlockReader.Volume, inode: BlockReader.FileMap, ghost source: seq<Byte>, offset: nat,
                       size: nat, target: array<Byte>, cache: set<nat>)
    returns (count: nat)
    requires BlockReader.Describes(v, inode, source) && size <= target.Length
    modifies target
    ensures ReadAnswer(v, inode, source, offset, size, old(target[..]), target[..], count)
  {
    BlockReader.DescribedIsPresent(v, inode, source, offset, size);
    assert 0 < inode.blocksize && inode.bytesize == |source|;
    hide BlockReader.Describes, BlockReader.PassesDone, BlockReader.Collected, BlockReader.SlotsApart,
         BlockReader.Present;
    ghost var was := target[..];
    ghost var s;
    count, s := BlockReader.ReadFileData(v, inode, offset, target, size, cache);
    ghost var begin, end := BlockReader.Begin(inode, offset), BlockReader.End(v, inode, offset, size);
    if BlockReader.SlotsApart(v, inode, begin, end) {
      BlockReader.ReadsSource(v, inode, source, offset, size, s, was, target[..], count);
    }
  }

  /** With one bit for each fblock, as the source's comment has it, every such read is whole. */
  lemma CommentBitsReadWhole(v: BlockReader.Volume, inode: BlockReader.FileMap, source: seq<Byte>, offset: nat,
                             size: nat, was: seq<Byte>, now: seq<Byte>, count: nat)
    requires 0 < inode.blocksize && ReadAnswer(v, inode, source, offset, size, was, now, count)
    requires forall f: nat :: v.slot(f) == BlockReader.SlotOn32(f)
    ensures var begin, end := Min(offset, |source|), Min(offset + size, |source|);
            count == end - begin && count <= |was| && now == source[begin..end] + was[count..]
  {
    BlockReader.CommentBitsApart(v, inode, Min(offset, |source|), Min(offset + size, |source|));
  }

  /** So it is on 64-bit words while there are no more fblocks than half a word has bits. */
  lemma FewFblocksReadWhole(v: BlockReader.Volume, inode: BlockReader.FileMap, source: seq<Byte>, offset: nat,
                            size: nat, was: seq<Byte>, now: seq<Byte>, count: nat)
    requires 0 < inode.blocksize && ReadAnswer(v, inode, source, offset, size, was, now, count)
    requires |v.fblocks| <= 32 && forall f: nat :: v.slot(f) == BlockReader.SlotOn64(f)
    ensures var begin, end := Min(offset, |source|), Min(offset + size, |source|);
            count == end - begin && count <= |was| && now == source[begin..end] + was[count..]
  {
    BlockReader.FewFblocksApart(v, inode, Min(offset, |source|), Min(offset + size, |source|));
  }

  /** With the bits of 64-bit words, a read that needs two fblocks 32 apart within one word is not whole. */
  lemma WideBitsReadShort(v: BlockReader.Volume, inode: BlockReader.FileMap, source: seq<Byte>, offset: nat, size: nat,
                          was: seq<Byte>, now: seq<Byte>, count: nat, p: nat, q: nat)
    requires BlockReader.Describes(v, inode, source) && ReadAnswer(v, inode, source, offset, size, was, now, count)
    requires forall f: nat :: v.slot(f) == BlockReader.SlotOn64(f)
    requires offset <= p < Min(offset + size, |source|) && offset <= q < Min(offset + size, |source|)
    requires v.BlockAt(inode, p).fblocknum % 64 < 32
             && v.BlockAt(inode, q).fblocknum == v.BlockAt(inode, p).fblocknum + 32
    ensures count != Min(offset + size, |source|) - Min(offset, |source|)
  {
    BlockReader.DescribedIsPresent(v, inode, source, offset, size);
    BlockReader.WideBitsCollide(v, inode, BlockReader.Begin(inode, offset), BlockReader.End(v, inode, offset, size), p,
                                q);
  }
}
