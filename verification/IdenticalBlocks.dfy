// lib/cromfs-blockifier.cc, FlushBlockifyRequests, first pass: the blocks that begin like an earlier one.
module IdenticalBlocks {
  import opened Arithmetic
  import opened BlockNumbering
  import opened SearchSpec
  import opened Wrappers

  /** BlockHashing_Method. */
  datatype HashMethod =
    | HashNone
    | HashBlanksOnly
    | HashAll
    | HashAllPrepass
    | HashAllSpeedup
    | HashCollect
    | HashCollectSpeedup

  /** What is scheduled, and how identical blocks are looked for. */
  datatype Job = Job(schedule: seq<Item>, hashing: HashMethod, hash: seq<Byte> -> nat, isBlank: seq<Byte> -> bool) {
    /** Whether the method looks for copies of these bytes at all. */
    predicate Considers(bytes: seq<Byte>) {
      !hashing.HashNone? && (hashing.HashBlanksOnly? ==> isBlank(bytes))
    }
  }

  /** Block other begins with the bytes of block number. */
  datatype Identical = Identical(number: nat, other: nat)

  /** A block number under its hash. */
  datatype Seen = Seen(hash: nat, number: nat)

  // ---- Copies ----

  /** What the first pass checks before it calls the block at this offset of item a copy of block other. */
  predicate Begins(list: seq<nat>, schedule: seq<Item>, item: Item, offset: nat, other: nat)
    requires 0 < item.blocksize && offset < |item.source|
    requires |list| <= |schedule| && 0 < |list| && list[0] <= other
  {
    var w := Find(list, schedule, other);
    var item2 := schedule[w.schedno];
    && item.blocksize <= item2.blocksize
    && w.filepos + Eat(item, offset) <= |item2.source|
    && BytesAt(item, offset) == item2.source[w.filepos..w.filepos + Eat(item, offset)]
  }

  /** The same of blocks n and m, when the list is complete. */
  ghost predicate Repeats(schedule: seq<Item>, n: nat, m: nat) {
    && Exists(schedule, n) && Exists(schedule, m)
    && (ExistsHasItem(schedule, n); Begins(Firsts(schedule), schedule, ItemOf(schedule, n), OffsetOf(schedule, n), m))
  }

  ghost function HashOf(j: Job, n: nat): nat
    requires Exists(j.schedule, n)
  {
    j.hash(BlockBytes(j.schedule, n))
  }

  ghost predicate Considered(j: Job, n: nat) {
    Exists(j.schedule, n) && j.Considers(BlockBytes(j.schedule, n))
  }

  /** Block n has the hash of the earlier block m and begins it. */
  ghost predicate CopyOf(j: Job, n: nat, m: nat) {
    m < n && Considered(j, n) && Considered(j, m) && HashOf(j, n) == HashOf(j, m) && Repeats(j.schedule, n, m)
  }

  ghost predicate HasCopy(j: Job, n: nat) {
    exists m :: CopyOf(j, n, m)
  }

  /** Block m is the earliest that block n is a copy of. */
  ghost predicate FirstCopy(j: Job, n: nat, m: nat) {
    CopyOf(j, n, m) && forall k :: CopyOf(j, n, k) ==> m <= k
  }

  /** Where the list says a block is when it leaves room for these bytes, there it is. */
  lemma RepeatedIsOwned(schedule: seq<Item>, n: nat, m: nat)
    requires Repeats(schedule, n, m)
    ensures var item, item2 := ItemOf(schedule, n), ItemOf(schedule, m);
            && item.blocksize <= item2.blocksize && BlockBytes(schedule, n) <= BlockBytes(schedule, m)
            && Find(Firsts(schedule), schedule, m) == Where(PlaceOf(schedule, m).item, OffsetOf(schedule, m))
  {
    ExistsHasItem(schedule, n);
    var item, offset, w := ItemOf(schedule, n), OffsetOf(schedule, n), Find(Firsts(schedule), schedule, m);
    FoundOwns(Firsts(schedule), schedule, m, Eat(item, offset));
    BlockIs(schedule, w.schedno, m - First(schedule, w.schedno), m);
    hide First, Count, PlaceOf, ItemOf, OffsetOf, Exists, LowerBound, Find, IsBlock;
    PrefixOfBlock(item, offset, schedule[w.schedno], w.filepos);
  }

  /** Bytes that stand where a block begins, and are cut no larger, begin that block. */
  lemma PrefixOfBlock(item: Item, offset: nat, item2: Item, filepos: nat)
    requires 0 < item.blocksize <= item2.blocksize && offset < |item.source| && filepos < |item2.source|
    requires filepos + Eat(item, offset) <= |item2.source|
    requires BytesAt(item, offset) == item2.source[filepos..filepos + Eat(item, offset)]
    ensures BytesAt(item, offset) <= BytesAt(item2, filepos)
  {
    assert item2.source[filepos..filepos + Eat(item2, filepos)][..Eat(item, offset)]
           == item2.source[filepos..filepos + Eat(item, offset)];
  }

  /** What begins like a block that begins like a third begins like the third. */
  lemma RepeatsChain(schedule: seq<Item>, n: nat, m: nat, k: nat)
    requires Repeats(schedule, n, m) && Repeats(schedule, m, k)
    ensures Repeats(schedule, n, k)
  {
    RepeatedIsOwned(schedule, n, m);
    RepeatedIsOwned(schedule, m, k);
    ExistsHasItem(schedule, n);
    hide First, Count, PlaceOf, ItemOf, OffsetOf, Exists, LowerBound, Find, Eat;
    var w := Find(Firsts(schedule), schedule, k);
    PrefixOfSlice(schedule[w.schedno].source, w.filepos, BlockBytes(schedule, n), BlockBytes(schedule, m));
  }

  lemma PrefixOfSlice(source: seq<Byte>, from: nat, short: seq<Byte>, long: seq<Byte>)
    requires from + |long| <= |source| && long == source[from..from + |long|] && short <= long
    ensures short == source[from..from + |short|]
  {
    assert short == long[..|short|];
  }

  // ---- The list of copies ----

  ghost predicate Listed(identical: seq<Identical>, n: nat) {
    exists x :: 0 <= x < |identical| && identical[x].number == n
  }

  ghost predicate Increasing(identical: seq<Identical>) {
    forall x, y :: 0 <= x < y < |identical| ==> identical[x].number < identical[y].number
  }

  ghost predicate TrueCopies(j: Job, identical: seq<Identical>) {
    forall x :: 0 <= x < |identical| ==> FirstCopy(j, identical[x].number, identical[x].other)
  }

  /** The list is in order, names every block before done that has a copy, and no other, and the earliest copy. */
  ghost predicate IdenticalExact(j: Job, identical: seq<Identical>, done: nat) {
    && Increasing(identical) && TrueCopies(j, identical)
    && (forall x :: 0 <= x < |identical| ==> identical[x].number < done)
    && forall n :: 0 <= n < done && HasCopy(j, n) ==> Listed(identical, n)
  }

  /** So a block is listed exactly when it has a copy before it. */
  lemma ListedExactly(j: Job, identical: seq<Identical>, done: nat, n: nat)
    requires IdenticalExact(j, identical, done) && n < done
    ensures Listed(identical, n) <==> HasCopy(j, n)
  {
  }

  lemma ListGrows(j: Job, identical: seq<Identical>, done: nat, found: Option<nat>)
    requires IdenticalExact(j, identical, done)
    requires found.Some? ==> FirstCopy(j, done, found.value)
    requires found.None? ==> !HasCopy(j, done)
    ensures IdenticalExact(j, if found.Some? then identical + [Identical(done, found.value)] else identical, done + 1)
  {
    hide CopyOf;
    assert found.Some? ==> CopyOf(j, done, found.value);
    var identical' := if found.Some? then identical + [Identical(done, found.value)] else identical;
    forall n | 0 <= n < done + 1 && HasCopy(j, n)
      ensures Listed(identical', n)
    {
      if n < done {
        assert Listed(identical, n);
        var x :| 0 <= x < |identical| && identical[x].number == n;
        assert identical'[x].number == n;
      } else {
        assert identical'[|identical|].number == n;
      }
    }
  }

  // ---- The index ----

  /** blockhashlist, blockhashlist_firsttime, hash_seen and full_hash_list. */
  datatype Index = Index(listed: seq<Seen>, firstTime: seq<Seen>, seen: set<nat>, full: seq<nat>)

  ghost predicate SeenOk(j: Job, e: Seen, done: nat) {
    e.number < done && Considered(j, e.number) && e.hash == HashOf(j, e.number)
  }

  ghost predicate AllSeenOk(j: Job, s: seq<Seen>, done: nat) {
    forall e :: e in s ==> SeenOk(j, e, done)
  }

  ghost predicate CoversBy(j: Job, listed: seq<Seen>, m: nat, e: Seen)
    requires Exists(j.schedule, m)
  {
    && e in listed && e.hash == HashOf(j, m) && e.number <= m
    && (e.number == m || Repeats(j.schedule, m, e.number))
  }

  /** Block m is in the list, or an earlier block there with its hash begins with its bytes. */
  ghost predicate Covered(j: Job, listed: seq<Seen>, m: nat) {
    Exists(j.schedule, m)
    && exists e :: CoversBy(j, listed, m, e)
  }

  /** Block m waits among the hashes seen once, and no other block before done has its hash. */
  ghost predicate Waits(j: Job, firstTime: seq<Seen>, m: nat, done: nat) {
    && Exists(j.schedule, m) && Seen(HashOf(j, m), m) in firstTime
    && forall k :: 0 <= k < done && k != m && Exists(j.schedule, k) ==> HashOf(j, k) != HashOf(j, m)
  }

  /** hash_seen has exactly the hashes of the blocks before done. */
  ghost predicate SeenHashes(j: Job, seen: set<nat>, done: nat) {
    && (forall m :: 0 <= m < done && Exists(j.schedule, m) ==> HashOf(j, m) in seen)
    && forall h :: h in seen ==> exists m :: 0 <= m < done && Exists(j.schedule, m) && HashOf(j, m) == h
  }

  ghost predicate FullHashes(j: Job, full: seq<nat>, done: nat) {
    |full| == done && forall m :: 0 <= m < done && Exists(j.schedule, m) ==> full[m] == HashOf(j, m)
  }

  /** Blocks with the same hash are listed in the order of their numbers. */
  ghost predicate NumbersInOrder(listed: seq<Seen>) {
    forall x, y :: 0 <= x < y < |listed| && listed[x].hash == listed[y].hash ==> listed[x].number <= listed[y].number
  }

  /** What each method has in hand when the blocks before done have been looked at. */
  ghost predicate IndexInOrder(j: Job, duplicate: set<nat>, ix: Index, done: nat) {
    && AllSeenOk(j, ix.listed, done) && AllSeenOk(j, ix.firstTime, done) && NumbersInOrder(ix.listed)
    && match j.hashing
       case HashNone => true
       case HashBlanksOnly => forall m :: 0 <= m < done && Considered(j, m) ==> Covered(j, ix.listed, m)
       case HashAll => forall m :: 0 <= m < done && Considered(j, m) ==> Covered(j, ix.listed, m)
       case HashAllPrepass =>
         forall m :: 0 <= m < done && Considered(j, m) && HashOf(j, m) in duplicate ==> Covered(j, ix.listed, m)
       case HashAllSpeedup =>
         && SeenHashes(j, ix.seen, done)
         && forall m :: 0 <= m < done && Considered(j, m) ==>
           Covered(j, ix.listed, m) || Waits(j, ix.firstTime, m, done)
       case HashCollect => FullHashes(j, ix.full, done)
       case HashCollectSpeedup => FullHashes(j, ix.full, done) && SeenHashes(j, ix.seen, done)
  }

  /** hash_duplicate has every hash that two blocks share. */
  ghost predicate DuplicatesKnown(j: Job, duplicate: set<nat>) {
    forall n, m :: m < n && Exists(j.schedule, n) && Exists(j.schedule, m) && HashOf(j, n) == HashOf(j, m) ==>
                     HashOf(j, n) in duplicate
  }

  /** If no listed block will do and every earlier block with the hash is covered, there is no copy. */
  lemma NothingListed(j: Job, listed: seq<Seen>, n: nat)
    requires Considered(j, n) && AllSeenOk(j, listed, n)
    requires forall e :: e in listed && e.hash == HashOf(j, n) ==> !Repeats(j.schedule, n, e.number)
    requires forall m :: 0 <= m < n && Considered(j, m) && HashOf(j, m) == HashOf(j, n) ==> Covered(j, listed, m)
    ensures !HasCopy(j, n)
  {
    hide Repeats;
    if HasCopy(j, n) {
      var m :| CopyOf(j, n, m);
      var e := CopyIsListed(j, listed, n, m);
    }
  }

  /** Of what a block is a copy, it is also a copy of the block that covers it. */
  lemma CopyIsListed(j: Job, listed: seq<Seen>, n: nat, m: nat) returns (e: Seen)
    requires Considered(j, n) && AllSeenOk(j, listed, n) && CopyOf(j, n, m) && Covered(j, listed, m)
    ensures e in listed && e.hash == HashOf(j, n) && e.number <= m && Repeats(j.schedule, n, e.number)
  {
    hide Repeats;
    e :| CoversBy(j, listed, m, e);
    if e.number != m {
      RepeatsChain(j.schedule, n, m, e.number);
    }
  }

  lemma CoveredByMore(j: Job, listed: seq<Seen>, more: Seen, m: nat)
    requires Covered(j, listed, m)
    ensures Covered(j, listed + [more], m)
  {
    hide Repeats;
    var e :| CoversBy(j, listed, m, e);
    assert CoversBy(j, listed + [more], m, e);
  }

  /** What the index has in hand for a search: it covers every earlier block with this hash. */
  ghost predicate CoversHash(j: Job, listed: seq<Seen>, n: nat, crc: nat) {
    forall m :: 0 <= m < n && Considered(j, m) && HashOf(j, m) == crc ==> Covered(j, listed, m)
  }

  /** A search that found the listed block with the least number. */
  ghost predicate FoundIn(j: Job, listed: seq<Seen>, n: nat, crc: nat, found: Option<nat>) {
    if found.Some? then
      && (exists e :: e in listed && e.hash == crc && e.number == found.value && Repeats(j.schedule, n, e.number))
      && forall e :: e in listed && e.hash == crc && Repeats(j.schedule, n, e.number) ==> found.value <= e.number
    else
      forall e :: e in listed && e.hash == crc ==> !Repeats(j.schedule, n, e.number)
  }

  /** The list after a search: the block joins it when nothing was found. */
  function ListedAfter(listed: seq<Seen>, crc: nat, n: nat, found: Option<nat>): seq<Seen> {
    if found.Some? then listed else listed + [Seen(crc, n)]
  }

  /** Searching a list that covers the hash finds a copy exactly when there is one, and then covers the block too. */
  lemma Searched(j: Job, listed: seq<Seen>, n: nat, found: Option<nat>)
    requires Considered(j, n) && AllSeenOk(j, listed, n) && CoversHash(j, listed, n, HashOf(j, n))
    requires FoundIn(j, listed, n, HashOf(j, n), found) && NumbersInOrder(listed)
    ensures found.Some? ==> FirstCopy(j, n, found.value)
    ensures found.None? ==> !HasCopy(j, n)
    ensures var listed' := ListedAfter(listed, HashOf(j, n), n, found);
            && AllSeenOk(j, listed', n + 1) && Covered(j, listed', n) && NumbersInOrder(listed')
            && forall m :: Covered(j, listed, m) ==> Covered(j, listed', m)
  {
    hide Repeats;
    var listed' := ListedAfter(listed, HashOf(j, n), n, found);
    OrderKept(j, listed, n, HashOf(j, n));
    if found.Some? {
      var e :| e in listed && e.hash == HashOf(j, n) && e.number == found.value && Repeats(j.schedule, n, e.number);
      assert SeenOk(j, e, n);
      assert CoversBy(j, listed', n, e);
      FoundIsFirst(j, listed, n, found.value);
    } else {
      NothingListed(j, listed, n);
      assert CoversBy(j, listed', n, Seen(HashOf(j, n), n));
      forall m | Covered(j, listed, m)
        ensures Covered(j, listed', m)
      {
        CoveredByMore(j, listed, Seen(HashOf(j, n), n), m);
      }
    }
    forall e | e in listed'
      ensures SeenOk(j, e, n + 1)
    {
      assert e in listed ==> SeenOk(j, e, n);
    }
  }

  lemma FoundIsFirst(j: Job, listed: seq<Seen>, n: nat, found: nat)
    requires Considered(j, n) && AllSeenOk(j, listed, n) && CoversHash(j, listed, n, HashOf(j, n))
    requires FoundIn(j, listed, n, HashOf(j, n), Some(found))
    ensures FirstCopy(j, n, found)
  {
    hide Repeats;
    var e :| e in listed && e.hash == HashOf(j, n) && e.number == found && Repeats(j.schedule, n, e.number);
    assert SeenOk(j, e, n);
    forall k | CopyOf(j, n, k)
      ensures found <= k
    {
      var c := CopyIsListed(j, listed, n, k);
    }
  }

  lemma OrderKept(j: Job, listed: seq<Seen>, n: nat, crc: nat)
    requires AllSeenOk(j, listed, n) && NumbersInOrder(listed)
    ensures NumbersInOrder(listed + [Seen(crc, n)])
  {
    forall x | 0 <= x < |listed|
      ensures listed[x].number <= n
    {
      assert listed[x] in listed && SeenOk(j, listed[x], n);
    }
  }

  // ---- The searches ----

  /** The list so far finds the blocks before n as the whole list will. */
  ghost predicate Serves(list: seq<nat>, schedule: seq<Item>, item: Item, offset: nat, n: nat) {
    && 0 < item.blocksize && offset < |item.source| && |list| <= |schedule| && 0 < |list| && list[0] == 0
    && forall other :: 0 <= other < n ==> (Begins(list, schedule, item, offset, other) <==> Repeats(schedule, n, other))
  }

  /** Looks through the listed blocks with this hash for one that begins with these bytes. */
  method SearchIndex(list: seq<nat>, j: Job, item: Item, offset: nat, crc: nat, listed: seq<Seen>, ghost n: nat)
    returns (found: Option<nat>)
    requires Serves(list, j.schedule, item, offset, n) && AllSeenOk(j, listed, n) && NumbersInOrder(listed)
    ensures FoundIn(j, listed, n, crc, found)
  {
    hide Repeats, Begins;
    for x := 0 to |listed|
      invariant forall e :: e in listed[..x] && e.hash == crc ==> !Repeats(j.schedule, n, e.number)
    {
      var e := listed[x];
      assert e in listed && SeenOk(j, e, n);
      if e.hash == crc && Begins(list, j.schedule, item, offset, e.number) {
        LeastOfHash(j, n, crc, listed, x);
        return Some(e.number);
      }
      assert listed[..x + 1] == listed[..x] + [e];
    }
    assert listed[..|listed|] == listed;
    return None;
  }

  lemma LeastOfHash(j: Job, n: nat, crc: nat, listed: seq<Seen>, x: nat)
    requires x < |listed| && NumbersInOrder(listed) && listed[x].hash == crc
    requires forall e :: e in listed[..x] && e.hash == crc ==> !Repeats(j.schedule, n, e.number)
    ensures forall e :: e in listed && e.hash == crc && Repeats(j.schedule, n, e.number) ==>
              listed[x].number <= e.number
  {
    hide Repeats;
    forall y | 0 <= y < x && listed[y].hash == crc
      ensures !Repeats(j.schedule, n, listed[y].number)
    {
      assert listed[..x][y] == listed[y];
    }
    forall e | e in listed && e.hash == crc && Repeats(j.schedule, n, e.number)
      ensures listed[x].number <= e.number
    {
      var y :| 0 <= y < |listed| && listed[y] == e;
    }
  }

  /** Looks through all earlier blocks with this hash; full ends with the hash of the block itself. */
  method SearchFull(list: seq<nat>, j: Job, item: Item, offset: nat, crc: nat, full: seq<nat>)
    returns (found: Option<nat>)
    requires 0 < |full| && Serves(list, j.schedule, item, offset, |full| - 1)
    ensures found.Some? ==>
              && found.value < |full| - 1 && full[found.value] == crc && Repeats(j.schedule, |full| - 1, found.value)
              && forall m :: 0 <= m < found.value && full[m] == crc ==> !Repeats(j.schedule, |full| - 1, m)
    ensures found.None? ==> forall m :: 0 <= m < |full| - 1 && full[m] == crc ==> !Repeats(j.schedule, |full| - 1, m)
  {
    hide Repeats, Begins;
    for other := 0 to |full| - 1
      invariant forall m :: 0 <= m < other && full[m] == crc ==> !Repeats(j.schedule, |full| - 1, m)
    {
      if full[other] == crc && Begins(list, j.schedule, item, offset, other) {
        return Some(other);
      }
    }
    return None;
  }

  // ---- One block ----

  /** What one block leaves behind: a copy found exactly when there is one, and the index in order. */
  ghost predicate StepOk(j: Job, duplicate: set<nat>, ix: Index, n: nat, found: Option<nat>) {
    && (found.Some? ==> FirstCopy(j, n, found.value)) && (found.None? ==> !HasCopy(j, n))
    && IndexInOrder(j, duplicate, ix, n + 1)
  }

  /** The index-based methods, for a block whose hash is looked up. */
  method UseIndex(list: seq<nat>, j: Job, duplicate: set<nat>, item: Item, offset: nat, crc: nat, ix: Index, n: nat)
    returns (found: Option<nat>, ix': Index)
    requires j.hashing in {HashBlanksOnly, HashAll, HashAllPrepass}
    requires Serves(list, j.schedule, item, offset, n) && IndexInOrder(j, duplicate, ix, n)
    requires Considered(j, n) && crc == HashOf(j, n) && (j.hashing.HashAllPrepass? ==> crc in duplicate)
    ensures StepOk(j, duplicate, ix', n, found)
  {
    hide Serves, Covered, Considered, CopyOf, HashOf, SeenOk, Exists;
    found := SearchIndex(list, j, item, offset, crc, ix.listed, n);
    Searched(j, ix.listed, n, found);
    SeenKept(j, ix.firstTime, n, n + 1);
    ix' := ix.(listed := ListedAfter(ix.listed, crc, n, found));
  }

  lemma SeenKept(j: Job, s: seq<Seen>, n: nat, n': nat)
    requires AllSeenOk(j, s, n) && n <= n'
    ensures AllSeenOk(j, s, n')
  {
    forall e | e in s
      ensures SeenOk(j, e, n')
    {
      assert SeenOk(j, e, n);
    }
  }

  /** A hash no earlier block has: nothing can be a copy. */
  lemma NewHash(j: Job, seen: set<nat>, n: nat)
    requires Considered(j, n) && SeenHashes(j, seen, n) && HashOf(j, n) !in seen
    ensures !HasCopy(j, n) && SeenHashes(j, seen + {HashOf(j, n)}, n + 1)
  {
    hide Repeats, HashOf;
    var seen' := seen + {HashOf(j, n)};
    forall h | h in seen'
      ensures exists m :: 0 <= m < n + 1 && Exists(j.schedule, m) && HashOf(j, m) == h
    {
      if h in seen {
        var m :| 0 <= m < n && Exists(j.schedule, m) && HashOf(j, m) == h;
      } else {
        assert Exists(j.schedule, n) && HashOf(j, n) == h;
      }
    }
  }

  lemma OldHash(j: Job, seen: set<nat>, n: nat) returns (m: nat)
    requires Considered(j, n) && SeenHashes(j, seen, n) && HashOf(j, n) in seen
    ensures m < n && Exists(j.schedule, m) && HashOf(j, m) == HashOf(j, n) && SeenHashes(j, seen, n + 1)
  {
    hide HashOf;
    m :| 0 <= m < n && Exists(j.schedule, m) && HashOf(j, m) == HashOf(j, n);
    forall h | h in seen
      ensures exists k :: 0 <= k < n + 1 && Exists(j.schedule, k) && HashOf(j, k) == h
    {
      var k :| 0 <= k < n && Exists(j.schedule, k) && HashOf(j, k) == h;
    }
  }

  /** The blocks before n that HashAllSpeedup must be able to find. */
  ghost predicate SpeedupOk(j: Job, listed: seq<Seen>, firstTime: seq<Seen>, n: nat, done: nat) {
    forall m :: 0 <= m < n && Considered(j, m) ==> Covered(j, listed, m) || Waits(j, firstTime, m, done)
  }

  /** When the list has an entry with the hash of the next block, no block with that hash waits unlisted. */
  lemma NoneWaits(j: Job, listed: seq<Seen>, firstTime: seq<Seen>, n: nat, e: Seen)
    requires AllSeenOk(j, listed, n) && SpeedupOk(j, listed, firstTime, n, n) && e in listed
    ensures CoversHash(j, listed, n, e.hash)
  {
    assert SeenOk(j, e, n);
    hide HashOf, Repeats;
    forall m | 0 <= m < n && Considered(j, m) && HashOf(j, m) == e.hash
      ensures Covered(j, listed, m)
    {
      if Waits(j, firstTime, m, n) {
        assert e.number == m;
        assert CoversBy(j, listed, m, e);
      }
    }
  }

  /** The only block that waits under a hash is promoted when the hash comes again. */
  lemma Promoted(j: Job, listed: seq<Seen>, firstTime: seq<Seen>, n: nat, e: Seen, rest: seq<Seen>)
    requires AllSeenOk(j, listed, n) && AllSeenOk(j, firstTime, n) && SpeedupOk(j, listed, firstTime, n, n)
    requires e in firstTime && (forall x :: x in rest ==> x in firstTime) && forall x :: x in firstTime ==>
               x in rest || x == e
    ensures AllSeenOk(j, listed + [e], n) && AllSeenOk(j, rest, n) && SpeedupOk(j, listed + [e], rest, n, n)
  {
    assert SeenOk(j, e, n);
    hide HashOf, Repeats, SeenOk, Waits;
    forall m | 0 <= m < n && Considered(j, m)
      ensures Covered(j, listed + [e], m) || Waits(j, rest, m, n)
    {
      if Covered(j, listed, m) {
        CoveredByMore(j, listed, e, m);
      } else {
        StillWaits(j, listed, firstTime, n, e, rest, m);
      }
    }
  }

  lemma StillWaits(j: Job, listed: seq<Seen>, firstTime: seq<Seen>, n: nat, e: Seen, rest: seq<Seen>, m: nat)
    requires Waits(j, firstTime, m, n) && SeenOk(j, e, n) && forall x :: x in firstTime ==> x in rest || x == e
    ensures Covered(j, listed + [e], m) || Waits(j, rest, m, n)
  {
    hide HashOf, Repeats;
    if e == Seen(HashOf(j, m), m) {
      assert CoversBy(j, listed + [e], m, e);
    }
  }

  /** Looking for a hash in a list of blocks. */
  method FindHash(s: seq<Seen>, crc: nat) returns (at: Option<nat>)
    ensures at.Some? ==> at.value < |s| && s[at.value].hash == crc
    ensures at.None? ==> forall e :: e in s ==> e.hash != crc
  {
    for x := 0 to |s|
      invariant forall e :: e in s[..x] ==> e.hash != crc
    {
      if s[x].hash == crc {
        return Some(x);
      }
      assert s[..x + 1] == s[..x] + [s[x]];
    }
    assert s[..|s|] == s;
    return None;
  }

  /** A recurring hash: the first block that had it is moved to the list if it still waits. */
  method Promote(j: Job, crc: nat, ix: Index, ghost n: nat, ghost m: nat) returns (ix': Index)
    requires AllSeenOk(j, ix.listed, n) && AllSeenOk(j, ix.firstTime, n) && SpeedupOk(j, ix.listed, ix.firstTime, n, n)
    requires m < n && Considered(j, m) && HashOf(j, m) == crc && NumbersInOrder(ix.listed)
    ensures ix' == ix.(listed := ix'.listed, firstTime := ix'.firstTime)
    ensures AllSeenOk(j, ix'.listed, n) && AllSeenOk(j, ix'.firstTime, n)
            && SpeedupOk(j, ix'.listed, ix'.firstTime, n, n)
    ensures CoversHash(j, ix'.listed, n, crc) && NumbersInOrder(ix'.listed)
  {
    hide HashOf, Repeats, SeenOk, SpeedupOk, CoversHash, AllSeenOk;
    ix' := ix;
    var known := FindHash(ix.listed, crc);
    if known.Some? {
      NoneWaits(j, ix.listed, ix.firstTime, n, ix.listed[known.value]);
    } else {
      var first := FindHash(ix.firstTime, crc);
      FirstIsThere(j, ix.listed, ix.firstTime, n, m, crc);
      if first.Some? {
        var e := ix.firstTime[first.value];
        var rest := ix.firstTime[..first.value] + ix.firstTime[first.value + 1..];
        Promoted(j, ix.listed, ix.firstTime, n, e, rest);
        NoneWaits(j, ix.listed + [e], rest, n, e);
        ix' := ix.(listed := ix.listed + [e], firstTime := rest);
      }
    }
  }

  lemma FirstIsThere(j: Job, listed: seq<Seen>, firstTime: seq<Seen>, n: nat, m: nat, crc: nat)
    requires SpeedupOk(j, listed, firstTime, n, n) && m < n && Considered(j, m) && HashOf(j, m) == crc
    requires forall e :: e in listed ==> e.hash != crc
    ensures exists e :: e in firstTime && e.hash == crc
  {
    hide HashOf, Repeats;
    if !Covered(j, listed, m) {
      assert Seen(HashOf(j, m), m) in firstTime;
    }
  }

  /** Another block does not disturb those that wait under other hashes. */
  lemma SpeedupNext(j: Job, listed: seq<Seen>, listed': seq<Seen>, firstTime: seq<Seen>, firstTime': seq<Seen>, n: nat)
    requires Considered(j, n) && SpeedupOk(j, listed, firstTime, n, n)
    requires forall m :: Covered(j, listed, m) ==> Covered(j, listed', m)
    requires forall e :: e in firstTime ==> e in firstTime'
    requires CoversHash(j, listed, n, HashOf(j, n))
    requires Covered(j, listed', n) || Waits(j, firstTime', n, n + 1)
    ensures SpeedupOk(j, listed', firstTime', n + 1, n + 1)
  {
    hide HashOf, Covered;
  }

  /** HashAllSpeedup: only a hash that comes again is looked up. */
  method SpeedupStep(list: seq<nat>, j: Job, duplicate: set<nat>, item: Item, offset: nat, crc: nat, ix: Index, n: nat)
    returns (found: Option<nat>, ix': Index)
    requires j.hashing.HashAllSpeedup? && Serves(list, j.schedule, item, offset, n) && IndexInOrder(j, duplicate, ix, n)
    requires Considered(j, n) && crc == HashOf(j, n)
    ensures StepOk(j, duplicate, ix', n, found)
  {
    hide Serves, Covered, CopyOf, HashOf, SeenOk, Waits, SeenHashes, AllSeenOk, CoversHash;
    assert SpeedupOk(j, ix.listed, ix.firstTime, n, n);
    if crc in ix.seen {
      ghost var m := OldHash(j, ix.seen, n);
      assert Considered(j, m);
      hide SpeedupOk, Considered;
      var ix1 := Promote(j, crc, ix, n, m);
      found := SearchIndex(list, j, item, offset, crc, ix1.listed, n);
      Searched(j, ix1.listed, n, found);
      ix' := ix1.(listed := ListedAfter(ix1.listed, crc, n, found));
      SeenKept(j, ix1.firstTime, n, n + 1);
      SpeedupNext(j, ix1.listed, ix'.listed, ix1.firstTime, ix'.firstTime, n);
    } else {
      NewHash(j, ix.seen, n);
      found := None;
      ix' := ix.(seen := ix.seen + {crc}, firstTime := ix.firstTime + [Seen(crc, n)]);
      FirstWaits(j, ix.seen, ix.listed, ix.firstTime, n);
      SpeedupNext(j, ix.listed, ix.listed, ix.firstTime, ix'.firstTime, n);
    }
    SpeedupIsOk(j, duplicate, ix', n + 1);
  }

  lemma SpeedupIsOk(j: Job, duplicate: set<nat>, ix: Index, done: nat)
    requires j.hashing.HashAllSpeedup? && AllSeenOk(j, ix.listed, done) && AllSeenOk(j, ix.firstTime, done)
    requires SeenHashes(j, ix.seen, done) && SpeedupOk(j, ix.listed, ix.firstTime, done, done)
    requires NumbersInOrder(ix.listed)
    ensures IndexInOrder(j, duplicate, ix, done)
  {
    hide Covered, HashOf, SeenOk, Waits, SeenHashes, AllSeenOk;
  }

  /** A block with a new hash waits, and nothing need cover that hash. */
  lemma FirstWaits(j: Job, seen: set<nat>, listed: seq<Seen>, firstTime: seq<Seen>, n: nat)
    requires Considered(j, n) && SeenHashes(j, seen, n) && HashOf(j, n) !in seen
    requires AllSeenOk(j, listed, n) && AllSeenOk(j, firstTime, n)
    ensures Waits(j, firstTime + [Seen(HashOf(j, n), n)], n, n + 1) && CoversHash(j, listed, n, HashOf(j, n))
    ensures AllSeenOk(j, listed, n + 1) && AllSeenOk(j, firstTime + [Seen(HashOf(j, n), n)], n + 1)
  {
    hide HashOf, Covered;
    SeenKept(j, listed, n, n + 1);
    SeenKept(j, firstTime, n, n + 1);
    assert Seen(HashOf(j, n), n) in firstTime + [Seen(HashOf(j, n), n)];
  }

  /** The methods that keep all hashes in a list: HashCollect looks every one up, HashCollectSpeedup those that
      come again. */
  method CollectStep(list: seq<nat>, j: Job, duplicate: set<nat>, item: Item, offset: nat, crc: nat, ix: Index, n: nat)
    returns (found: Option<nat>, ix': Index)
    requires j.hashing.HashCollect? || j.hashing.HashCollectSpeedup?
    requires Serves(list, j.schedule, item, offset, n) && IndexInOrder(j, duplicate, ix, n)
    requires Considered(j, n) && crc == HashOf(j, n)
    ensures StepOk(j, duplicate, ix', n, found)
  {
    assert Exists(j.schedule, n);
    hide Serves, Covered, HashOf, SeenOk, Repeats, SeenHashes, AllSeenOk, FullHashes, HasCopy, CopyOf, Considered;
    SeenKept(j, ix.listed, n, n + 1);
    SeenKept(j, ix.firstTime, n, n + 1);
    FullGrows(j, ix.full, n);
    ix' := ix.(full := ix.full + [crc]);
    if j.hashing.HashCollectSpeedup? && crc !in ix.seen {
      NewHash(j, ix.seen, n);
      found := None;
      ix' := ix'.(seen := ix.seen + {crc});
    } else {
      if j.hashing.HashCollectSpeedup? {
        ghost var m := OldHash(j, ix.seen, n);
      }
      found := SearchFull(list, j, item, offset, crc, ix'.full);
      SearchedFull(j, ix.full, n, found);
    }
  }

  lemma FullGrows(j: Job, full: seq<nat>, n: nat)
    requires FullHashes(j, full, n) && Exists(j.schedule, n)
    ensures |full| == n && FullHashes(j, full + [HashOf(j, n)], n + 1)
  {
    hide HashOf;
  }

  /** Searching all earlier blocks finds a copy exactly when there is one. */
  lemma SearchedFull(j: Job, full: seq<nat>, n: nat, found: Option<nat>)
    requires FullHashes(j, full, n) && Considered(j, n) && !j.hashing.HashBlanksOnly?
    requires found.Some? ==>
               && found.value < n && full[found.value] == HashOf(j, n) && Repeats(j.schedule, n, found.value)
               && forall m :: 0 <= m < found.value && full[m] == HashOf(j, n) ==> !Repeats(j.schedule, n, m)
    requires found.None? ==> forall m :: 0 <= m < n && full[m] == HashOf(j, n) ==> !Repeats(j.schedule, n, m)
    ensures found.Some? ==> FirstCopy(j, n, found.value)
    ensures found.None? ==> !HasCopy(j, n)
  {
    hide HashOf, Repeats;
    forall m: nat
      ensures CopyOf(j, n, m) ==> found.Some? && found.value <= m
    {
      assert m < n && Considered(j, m) ==> full[m] == HashOf(j, m);
    }
    if found.Some? {
      FoundExists(j, n, found.value);
      OthersConsidered(j, n, found.value);
    }
  }

  lemma FoundExists(j: Job, n: nat, m: nat)
    requires Repeats(j.schedule, n, m)
    ensures Exists(j.schedule, m)
  {
  }

  /** Methods other than HashBlanksOnly consider every block, once they consider one. */
  lemma OthersConsidered(j: Job, n: nat, m: nat)
    requires Considered(j, n) && !j.hashing.HashBlanksOnly? && Exists(j.schedule, m)
    ensures Considered(j, m)
  {
  }

  /** A block that is not looked up: the index stays in order, and if its hash is known not to recur it has no copy. */
  lemma PassedOver(j: Job, duplicate: set<nat>, ix: Index, n: nat)
    requires Exists(j.schedule, n) && IndexInOrder(j, duplicate, ix, n) && DuplicatesKnown(j, duplicate)
    requires j.hashing in {HashNone, HashBlanksOnly, HashAll, HashAllPrepass}
             && (j.hashing.HashAll? ==> !Considered(j, n))
    requires Considered(j, n) ==> j.hashing.HashAllPrepass? && HashOf(j, n) !in duplicate
    ensures StepOk(j, duplicate, ix, n, None)
  {
    hide HashOf, Repeats, Covered, SeenOk, AllSeenOk;
    SeenKept(j, ix.listed, n, n + 1);
    SeenKept(j, ix.firstTime, n, n + 1);
  }

  /** One block of the first pass. */
  method CheckBlock(list: seq<nat>, j: Job, duplicate: set<nat>, item: Item, offset: nat, ix: Index, n: nat)
    returns (found: Option<nat>, ix': Index)
    requires Serves(list, j.schedule, item, offset, n) && IndexInOrder(j, duplicate, ix, n)
    requires j.hashing.HashAllPrepass? ==> DuplicatesKnown(j, duplicate)
    requires Exists(j.schedule, n) && item == ItemOf(j.schedule, n) && offset == OffsetOf(j.schedule, n)
    ensures StepOk(j, duplicate, ix', n, found)
  {
    var bytes := BytesAt(item, offset);
    assert BlockBytes(j.schedule, n) == bytes;
    assert Considered(j, n) <==> j.Considers(bytes);
    assert HashOf(j, n) == j.hash(bytes);
    hide Serves, HashOf, Exists, IndexInOrder, StepOk, Considered, DuplicatesKnown, Job.Considers;
    found, ix' := None, ix;
    if !j.Considers(bytes) {
      NotConsidered(j, duplicate, ix, n);
    } else {
      var crc := j.hash(bytes);
      match j.hashing
      case HashNone =>
        NoneConsidered(j, n);
      case HashBlanksOnly =>
        found, ix' := UseIndex(list, j, duplicate, item, offset, crc, ix, n);
      case HashAll =>
        found, ix' := UseIndex(list, j, duplicate, item, offset, crc, ix, n);
      case HashAllPrepass =>
        if crc in duplicate {
          found, ix' := UseIndex(list, j, duplicate, item, offset, crc, ix, n);
        } else {
          PassedOver(j, duplicate, ix, n);
        }
      case HashAllSpeedup =>
        found, ix' := SpeedupStep(list, j, duplicate, item, offset, crc, ix, n);
      case HashCollect =>
        found, ix' := CollectStep(list, j, duplicate, item, offset, crc, ix, n);
      case HashCollectSpeedup =>
        found, ix' := CollectStep(list, j, duplicate, item, offset, crc, ix, n);
    }
  }

  lemma NoneConsidered(j: Job, n: nat)
    requires Considered(j, n)
    ensures !j.hashing.HashNone?
  {
  }

  lemma NotConsidered(j: Job, duplicate: set<nat>, ix: Index, n: nat)
    requires Exists(j.schedule, n) && IndexInOrder(j, duplicate, ix, n) && !Considered(j, n)
    ensures StepOk(j, duplicate, ix, n, None)
  {
    hide HashOf, Repeats, Covered, SeenOk, AllSeenOk;
    SeenKept(j, ix.listed, n, n + 1);
    SeenKept(j, ix.firstTime, n, n + 1);
  }

  // ---- The pre-pass ----

  ghost predicate DuplicatesSoFar(j: Job, duplicate: set<nat>, done: nat) {
    && (forall n, m :: 0 <= m < n < done && Exists(j.schedule, n) && Exists(j.schedule, m) ==>
          HashOf(j, n) == HashOf(j, m) ==> HashOf(j, n) in duplicate)
    && forall h :: h in duplicate ==> Shared(j, h)
  }

  /** Two blocks have this hash. */
  ghost predicate Shared(j: Job, h: nat) {
    exists n, m :: m < n && Exists(j.schedule, n) && Exists(j.schedule, m) && HashOf(j, n) == h && HashOf(j, m) == h
  }

  lemma IsShared(j: Job, n: nat, m: nat)
    requires m < n && Exists(j.schedule, n) && Exists(j.schedule, m) && HashOf(j, n) == HashOf(j, m)
    ensures Shared(j, HashOf(j, n))
  {
  }

  lemma DuplicateOld(j: Job, seen: set<nat>, duplicate: set<nat>, n: nat)
    requires Exists(j.schedule, n) && Considered(j, n) && SeenHashes(j, seen, n) && DuplicatesSoFar(j, duplicate, n)
    requires HashOf(j, n) in seen
    ensures SeenHashes(j, seen, n + 1) && DuplicatesSoFar(j, duplicate + {HashOf(j, n)}, n + 1)
  {
    hide HashOf, SeenHashes, Shared, Considered, Exists;
    var m := OldHash(j, seen, n);
    IsShared(j, n, m);
    var crc, duplicate' := HashOf(j, n), duplicate + {HashOf(j, n)};
    forall k, l | 0 <= l < k < n + 1 && Exists(j.schedule, k) && Exists(j.schedule, l) && HashOf(j, k) == HashOf(j, l)
      ensures HashOf(j, k) in duplicate'
    {
      if k < n {
        assert HashOf(j, k) in duplicate;
      }
    }
    assert forall h :: h in duplicate' ==> Shared(j, h);
  }

  lemma DuplicateNew(j: Job, seen: set<nat>, duplicate: set<nat>, n: nat)
    requires Exists(j.schedule, n) && Considered(j, n) && SeenHashes(j, seen, n) && DuplicatesSoFar(j, duplicate, n)
    requires HashOf(j, n) !in seen
    ensures SeenHashes(j, seen + {HashOf(j, n)}, n + 1) && DuplicatesSoFar(j, duplicate, n + 1)
  {
    NewHash(j, seen, n);
    hide HashOf;
  }

  method PrepassBlock(j: Job, a: nat, ghost i: nat, offset: nat, seen0: set<nat>, duplicate0: set<nat>, ghost n: nat)
    returns (seen: set<nat>, duplicate: set<nat>)
    requires ItemsOk(j.schedule) && j.hashing.HashAllPrepass? && IsBlock(j.schedule, a, i, n)
    requires offset == i * j.schedule[a].blocksize && SeenHashes(j, seen0, n) && DuplicatesSoFar(j, duplicate0, n)
    ensures SeenHashes(j, seen, n + 1) && DuplicatesSoFar(j, duplicate, n + 1)
  {
    BlockIs(j.schedule, a, i, n);
    var bytes := BytesAt(j.schedule[a], offset);
    HashIs(j, n, bytes);
    hide HashOf, SeenHashes, DuplicatesSoFar, Exists, Considered;
    seen, duplicate := seen0, duplicate0;
    var crc := j.hash(bytes);
    if crc in seen {
      DuplicateOld(j, seen, duplicate, n);
      if crc !in duplicate {
        duplicate := duplicate + {crc};
      } else {
        assert duplicate + {crc} == duplicate;
      }
    } else {
      DuplicateNew(j, seen, duplicate, n);
      seen := seen + {crc};
    }
  }

  /** HashAllPrepass: collects exactly the hashes that two blocks share. */
  method Prepass(j: Job) returns (duplicate: set<nat>)
    requires ItemsOk(j.schedule) && j.hashing.HashAllPrepass?
    ensures DuplicatesKnown(j, duplicate) && forall h :: h in duplicate ==> Shared(j, h)
  {
    hide First, Count;
    var seen: set<nat>;
    seen, duplicate := {}, {};
    ghost var n: nat := 0;
    NothingSeen(j);
    for a := 0 to |j.schedule|
      invariant n == First(j.schedule, a) && SeenHashes(j, seen, n) && DuplicatesSoFar(j, duplicate, n)
    {
      hide SeenHashes, DuplicatesSoFar;
      var item := j.schedule[a];
      var offset := 0;
      ghost var i := 0;
      FirstStep(j.schedule, a);
      while offset < |item.source|
        invariant offset == i * item.blocksize && n == First(j.schedule, a) + i && i <= Count(item)
        invariant SeenHashes(j, seen, n) && DuplicatesSoFar(j, duplicate, n)
        decreases |item.source| - offset
      {
        CountExists(item, i);
        seen, duplicate := PrepassBlock(j, a, i, offset, seen, duplicate, n);
        OneMoreMultiple(i, item.blocksize);
        offset, i, n := offset + item.blocksize, i + 1, n + 1;
      }
      CountExists(item, i);
    }
  }

  lemma HashIs(j: Job, n: nat, bytes: seq<Byte>)
    requires Exists(j.schedule, n) && bytes == BytesAt(ItemOf(j.schedule, n), OffsetOf(j.schedule, n))
    ensures HashOf(j, n) == j.hash(bytes)
    ensures j.hashing.HashAllPrepass? ==> Considered(j, n)
  {
  }

  lemma NothingSeen(j: Job)
    requires ItemsOk(j.schedule)
    ensures First(j.schedule, 0) == 0 && SeenHashes(j, {}, 0) && DuplicatesSoFar(j, {}, 0)
  {
  }

  lemma FirstStep(schedule: seq<Item>, a: nat)
    requires ItemsOk(schedule) && a < |schedule|
    ensures First(schedule, a + 1) == First(schedule, a) + Count(schedule[a])
  {
  }

  // ---- The first pass ----

  /** The list of the items so far serves their blocks. */
  lemma PartialListServes(schedule: seq<Item>, list: seq<nat>, a: nat, i: nat, n: nat)
    requires ItemsOk(schedule) && a < |schedule| && list == Firsts(schedule)[..a + 1] && IsBlock(schedule, a, i, n)
    ensures Exists(schedule, n) && Serves(list, schedule, schedule[a], OffsetOf(schedule, n), n)
  {
    BlockIs(schedule, a, i, n);
    FirstIsZero(schedule);
    FirstStep(schedule, a);
    hide OffsetOf, BlockBytes, Count, First, Begins, ItemOf, PlaceOf;
    forall other: nat | other < n
      ensures Begins(list, schedule, schedule[a], OffsetOf(schedule, n), other) <==> Repeats(schedule, n, other)
    {
      SameBegins(schedule, list, a, n, OffsetOf(schedule, n), other);
    }
  }

  lemma SameBegins(schedule: seq<Item>, list: seq<nat>, a: nat, n: nat, offset: nat, other: nat)
    requires ItemsOk(schedule) && a < |schedule| && list == Firsts(schedule)[..a + 1] && offset < |schedule[a].source|
    requires other < n < First(schedule, a + 1) && First(schedule, 0) == 0
    ensures Begins(list, schedule, schedule[a], offset, other) <==>
            Begins(Firsts(schedule), schedule, schedule[a], offset, other)
  {
    hide First, Find, LowerBound, BytesAt, Eat;
    var more := Firsts(schedule)[a + 1..];
    assert Firsts(schedule) == list + more;
    forall k | 0 <= k < |more|
      ensures other < more[k]
    {
      FirstMonotone(schedule, a + 1, a + 1 + k);
    }
    FindStable(list, more, schedule, other);
  }

  method ScanBlock(j: Job, duplicate: set<nat>, list: seq<nat>, a: nat, ghost i: nat, offset: nat,
                   identical0: seq<Identical>, ix0: Index, blocksDone: nat)
    returns (identical: seq<Identical>, ix: Index)
    requires ItemsOk(j.schedule) && a < |j.schedule| && list == Firsts(j.schedule)[..a + 1]
    requires j.hashing.HashAllPrepass? ==> DuplicatesKnown(j, duplicate)
    requires IsBlock(j.schedule, a, i, blocksDone) && offset == i * j.schedule[a].blocksize
    requires IdenticalExact(j, identical0, blocksDone) && IndexInOrder(j, duplicate, ix0, blocksDone)
    ensures IdenticalExact(j, identical, blocksDone + 1) && IndexInOrder(j, duplicate, ix, blocksDone + 1)
  {
    hide Serves, IdenticalExact, IndexInOrder, First, Count, CopyOf, HasCopy, DuplicatesKnown, OffsetOf, ItemOf,
         PlaceOf, Exists, Total, Firsts, IsBlock;
    assert offset >= 0;
    BlockIs(j.schedule, a, i, blocksDone);
    PartialListServes(j.schedule, list, a, i, blocksDone);
    var found;
    found, ix := CheckBlock(list, j, duplicate, j.schedule[a], offset, ix0, blocksDone);
    ListGrows(j, identical0, blocksDone, found);
    identical := if found.Some? then identical0 + [Identical(blocksDone, found.value)] else identical0;
  }

  /** One item of the first pass. */
  method ScanItem(j: Job, duplicate: set<nat>, list: seq<nat>, a: nat, identical0: seq<Identical>, ix0: Index,
                  blocksDone0: nat)
    returns (identical: seq<Identical>, ix: Index, blocksDone: nat)
    requires ItemsOk(j.schedule) && a < |j.schedule| && list == Firsts(j.schedule)[..a + 1]
    requires j.hashing.HashAllPrepass? ==> DuplicatesKnown(j, duplicate)
    requires blocksDone0 == First(j.schedule, a)
    requires IdenticalExact(j, identical0, blocksDone0) && IndexInOrder(j, duplicate, ix0, blocksDone0)
    ensures blocksDone == First(j.schedule, a + 1)
    ensures IdenticalExact(j, identical, blocksDone) && IndexInOrder(j, duplicate, ix, blocksDone)
  {
    FirstStep(j.schedule, a);
    hide IdenticalExact, IndexInOrder, First, Count, DuplicatesKnown, Firsts;
    identical, ix, blocksDone := identical0, ix0, blocksDone0;
    var item := j.schedule[a];
    var offset := 0;
    ghost var i := 0;
    while offset < |item.source|
      invariant offset == i * item.blocksize && blocksDone == First(j.schedule, a) + i && i <= Count(item)
      invariant IdenticalExact(j, identical, blocksDone) && IndexInOrder(j, duplicate, ix, blocksDone)
      decreases |item.source| - offset
    {
      CountExists(item, i);
      identical, ix := ScanBlock(j, duplicate, list, a, i, offset, identical, ix, blocksDone);
      OneMoreMultiple(i, item.blocksize);
      offset, i, blocksDone := offset + item.blocksize, i + 1, blocksDone + 1;
    }
    CountExists(item, i);
  }

  /** The first pass: where each item's blocks begin, and exactly the blocks that have a copy before them. */
  method FindIdentical(j: Job) returns (list: seq<nat>, identical: seq<Identical>)
    requires ItemsOk(j.schedule)
    ensures list == Firsts(j.schedule) && IdenticalExact(j, identical, Total(j.schedule))
    ensures j.hashing.HashNone? ==> identical == []
    ensures j.hashing.HashBlanksOnly? ==> ListsOriginals(j.schedule, j.hash, j.isBlank, identical)
    ensures j.hashing in {HashAll, HashAllPrepass, HashAllSpeedup, HashCollect, HashCollectSpeedup} ==>
              ListsOriginals(j.schedule, j.hash, Any, identical)
  {
    hide First, Count, CopyOf, HasCopy;
    list, identical := [], [];
    var duplicate: set<nat> := {};
    if j.hashing.HashAllPrepass? {
      duplicate := Prepass(j);
    }
    var ix := Index([], [], {}, []);
    var blocksDone := 0;
    NothingSeen(j);
    for a := 0 to |j.schedule|
      invariant list == Firsts(j.schedule)[..a] && blocksDone == First(j.schedule, a)
      invariant IdenticalExact(j, identical, blocksDone) && IndexInOrder(j, duplicate, ix, blocksDone)
    {
      hide IdenticalExact, IndexInOrder, DuplicatesKnown;
      list := list + [blocksDone];
      if j.hashing.HashNone? {
        FirstStep(j.schedule, a);
        NoneListed(j, duplicate, identical, ix, blocksDone, Count(j.schedule[a]));
        blocksDone := blocksDone + Count(j.schedule[a]);
      } else {
        identical, ix, blocksDone := ScanItem(j, duplicate, list, a, identical, ix, blocksDone);
      }
    }
    ListByMethod(j, identical);
  }

  lemma NoneListed(j: Job, duplicate: set<nat>, identical: seq<Identical>, ix: Index, done: nat, more: nat)
    requires j.hashing.HashNone? && IdenticalExact(j, identical, done) && IndexInOrder(j, duplicate, ix, done)
    ensures IdenticalExact(j, identical, done + more) && IndexInOrder(j, duplicate, ix, done + more)
  {
    hide HashOf, Repeats, SeenOk, AllSeenOk;
    SeenKept(j, ix.listed, done, done + more);
    SeenKept(j, ix.firstTime, done, done + more);
  }

  // ---- What is found ----

  /** No empty source stands right before the source that block n begins. */
  ghost predicate Unshadowed(schedule: seq<Item>, n: nat)
    requires Exists(schedule, n)
  {
    ExistsHasItem(schedule, n);
    var p := PlaceOf(schedule, n);
    p.index > 0 || p.item == 0 || schedule[p.item - 1].source != []
  }

  /** lower_bound stops at the item of a block that begins it, or past the item of a later block. */
  lemma LowerBoundOf(schedule: seq<Item>, a: nat, i: nat, n: nat)
    requires ItemsOk(schedule) && IsBlock(schedule, a, i, n)
    ensures i > 0 ==> LowerBound(Firsts(schedule), n) == a + 1
    ensures i == 0 && (a == 0 || schedule[a - 1].source != []) ==> LowerBound(Firsts(schedule), n) == a
    ensures i == 0 && a > 0 && schedule[a - 1].source == [] ==> LowerBound(Firsts(schedule), n) < a
  {
    var list := Firsts(schedule);
    EarlierFirsts(schedule, a, a);
    if i > 0 {
      if a + 1 < |schedule| {
        FirstStep(schedule, a);
      }
      LowerBoundIs(list, n, a + 1);
    } else if a == 0 {
      LowerBoundIs(list, n, 0);
    } else {
      FirstStep(schedule, a - 1);
      CountExists(schedule[a - 1], 0);
      if schedule[a - 1].source != [] {
        EarlierFirsts(schedule, a - 1, a - 1);
        LowerBoundIs(list, n, a);
      }
    }
  }

  /** The list of first numbers leads to a block exactly when it is not shadowed. */
  lemma FindsItsBlock(schedule: seq<Item>, n: nat)
    requires Exists(schedule, n)
    ensures 0 < |schedule| && First(schedule, 0) == 0
    ensures Find(Firsts(schedule), schedule, n) == Where(PlaceOf(schedule, n).item, OffsetOf(schedule, n)) <==>
            Unshadowed(schedule, n)
  {
    ExistsHasItem(schedule, n);
    var p := PlaceOf(schedule, n);
    LowerBoundOf(schedule, p.item, p.index, n);
    hide LowerBound, First, Count, PlaceOf;
  }

  lemma EarlierFirsts(schedule: seq<Item>, a: nat, b: nat)
    requires ItemsOk(schedule) && a <= b < |schedule|
    ensures forall k :: 0 <= k <= a ==> First(schedule, k) <= First(schedule, b)
  {
    forall k | 0 <= k <= a
      ensures First(schedule, k) <= First(schedule, b)
    {
      FirstMonotone(schedule, k, b);
    }
  }

  /** The comparison finds that block n begins block m exactly when it does, is cut no larger, and m is not shadowed. */
  lemma RepeatsExactly(schedule: seq<Item>, n: nat, m: nat)
    requires Exists(schedule, n) && Exists(schedule, m)
    ensures Repeats(schedule, n, m) <==>
            && Unshadowed(schedule, m) && ItemOf(schedule, n).blocksize <= ItemOf(schedule, m).blocksize
            && BlockBytes(schedule, n) <= BlockBytes(schedule, m)
  {
    FindsItsBlock(schedule, m);
    ExistsHasItem(schedule, n);
    if Repeats(schedule, n, m) {
      RepeatedIsOwned(schedule, n, m);
    } else if Unshadowed(schedule, m) && BlockBytes(schedule, n) <= BlockBytes(schedule, m) {
      var w := Find(Firsts(schedule), schedule, m);
      var short, long := BlockBytes(schedule, n), BlockBytes(schedule, m);
      hide First, Count, PlaceOf, ItemOf, OffsetOf, Exists, LowerBound, Find, Unshadowed;
      PrefixOfSlice(schedule[w.schedno].source, w.filepos, short, long);
    }
  }

  /** So a block equal to an earlier one is seen to repeat it exactly when it is cut no larger and that one is not
      shadowed. */
  lemma EqualBlockRepeats(schedule: seq<Item>, n: nat, m: nat)
    requires Exists(schedule, n) && Exists(schedule, m) && BlockBytes(schedule, n) == BlockBytes(schedule, m)
    ensures Repeats(schedule, n, m) <==>
            Unshadowed(schedule, m) && ItemOf(schedule, n).blocksize <= ItemOf(schedule, m).blocksize
  {
    RepeatsExactly(schedule, n, m);
  }

  /** The earlier block m is one that block n can be taken for: both are wanted, they have one hash, block n begins
      block m and is cut no larger, and block m is not shadowed. */
  ghost predicate Original(schedule: seq<Item>, hash: seq<Byte> -> nat, wanted: seq<Byte> -> bool, n: nat, m: nat) {
    && m < n && Exists(schedule, n) && Exists(schedule, m)
    && wanted(BlockBytes(schedule, n)) && wanted(BlockBytes(schedule, m))
    && hash(BlockBytes(schedule, n)) == hash(BlockBytes(schedule, m))
    && BlockBytes(schedule, n) <= BlockBytes(schedule, m)
    && ItemOf(schedule, n).blocksize <= ItemOf(schedule, m).blocksize && Unshadowed(schedule, m)
  }

  /** In order, every wanted block that can be taken for an earlier one, and no other, with the earliest of these. */
  ghost predicate ListsOriginals(schedule: seq<Item>, hash: seq<Byte> -> nat, wanted: seq<Byte> -> bool,
                                 identical: seq<Identical>)
  {
    && Increasing(identical)
    && (forall x :: 0 <= x < |identical| ==>
          Original(schedule, hash, wanted, identical[x].number, identical[x].other))
    && (forall x, m :: 0 <= x < |identical| && Original(schedule, hash, wanted, identical[x].number, m) ==>
          identical[x].other <= m)
    && forall n, m :: Original(schedule, hash, wanted, n, m) ==> Listed(identical, n)
  }

  ghost predicate Any(bytes: seq<Byte>) {
    true
  }

  lemma CopyIsOriginal(j: Job, wanted: seq<Byte> -> bool, n: nat, m: nat)
    requires forall bytes :: j.Considers(bytes) == wanted(bytes)
    ensures CopyOf(j, n, m) <==> Original(j.schedule, j.hash, wanted, n, m)
  {
    if Exists(j.schedule, n) && Exists(j.schedule, m) {
      RepeatsExactly(j.schedule, n, m);
    }
    hide First, Count, PlaceOf, ItemOf, OffsetOf, Exists, Find, Begins, Unshadowed, BlockBytes;
  }

  lemma ListIsOfOriginals(j: Job, wanted: seq<Byte> -> bool, identical: seq<Identical>)
    requires ItemsOk(j.schedule) && IdenticalExact(j, identical, Total(j.schedule))
    requires forall bytes :: j.Considers(bytes) == wanted(bytes)
    ensures ListsOriginals(j.schedule, j.hash, wanted, identical)
  {
    hide Original, CopyOf, Total, Increasing;
    forall n: nat, m: nat
      ensures CopyOf(j, n, m) <==> Original(j.schedule, j.hash, wanted, n, m)
    {
      CopyIsOriginal(j, wanted, n, m);
    }
    forall x | 0 <= x < |identical|
      ensures CopyOf(j, identical[x].number, identical[x].other)
    {
      assert FirstCopy(j, identical[x].number, identical[x].other);
    }
    forall n, m | Original(j.schedule, j.hash, wanted, n, m)
      ensures Listed(identical, n)
    {
      assert CopyOf(j, n, m);
      OriginalExists(j.schedule, j.hash, wanted, n, m);
    }
  }

  lemma OriginalExists(schedule: seq<Item>, hash: seq<Byte> -> nat, wanted: seq<Byte> -> bool, n: nat, m: nat)
    requires Original(schedule, hash, wanted, n, m)
    ensures n < Total(schedule)
  {
    ExistsHasItem(schedule, n);
  }

  /** What each of the methods lists: nothing, the blanks, or everything. */
  lemma ListByMethod(j: Job, identical: seq<Identical>)
    requires ItemsOk(j.schedule) && IdenticalExact(j, identical, Total(j.schedule))
    ensures j.hashing.HashNone? ==> identical == []
    ensures j.hashing.HashBlanksOnly? ==> ListsOriginals(j.schedule, j.hash, j.isBlank, identical)
    ensures j.hashing in {HashAll, HashAllPrepass, HashAllSpeedup, HashCollect, HashCollectSpeedup} ==>
              ListsOriginals(j.schedule, j.hash, Any, identical)
  {
    hide Total, Exists, Increasing, ListsOriginals;
    if j.hashing.HashNone? {
      assert identical != [] ==> FirstCopy(j, identical[0].number, identical[0].other);
    } else if j.hashing.HashBlanksOnly? {
      ListIsOfOriginals(j, j.isBlank, identical);
    } else {
      ListIsOfOriginals(j, Any, identical);
    }
  }

  /** Where no source is empty and all are cut alike, every wanted block equal to an earlier one is in the list. */
  lemma EveryCopyIsListed(schedule: seq<Item>, hash: seq<Byte> -> nat, wanted: seq<Byte> -> bool,
                          identical: seq<Identical>, n: nat, m: nat)
    requires ItemsOk(schedule) && ListsOriginals(schedule, hash, wanted, identical)
    requires forall a :: 0 <= a < |schedule| ==>
               schedule[a].source != [] && schedule[a].blocksize == schedule[0].blocksize
    requires m < n && Exists(schedule, n) && Exists(schedule, m) && BlockBytes(schedule, n) == BlockBytes(schedule, m)
    requires wanted(BlockBytes(schedule, n))
    ensures Listed(identical, n)
  {
    ExistsHasItem(schedule, n);
    ExistsHasItem(schedule, m);
    assert Original(schedule, hash, wanted, n, m);
  }

  /** An empty source, then two sources of the same one block. */
  ghost function EmptyThenTwice(): seq<Item> {
    [Item([], 1), Item([7], 1), Item([7], 1)]
  }

  lemma EmptyThenTwiceNumbers()
    ensures var schedule := EmptyThenTwice();
            ItemsOk(schedule) && IsBlock(schedule, 1, 0, 0) && IsBlock(schedule, 2, 0, 1)
  {
    var schedule := EmptyThenTwice();
    assert Count(schedule[0]) == 0 && Count(schedule[1]) == 1 && Count(schedule[2]) == 1;
    hide Count;
    FirstIsZero(schedule);
    FirstStep(schedule, 0);
    FirstStep(schedule, 1);
    hide First;
  }

  lemma EmptyThenTwicePlaces()
    ensures var schedule := EmptyThenTwice();
            && Exists(schedule, 0) && Exists(schedule, 1) && PlaceOf(schedule, 0) == Place(1, 0)
            && ItemOf(schedule, 0) == ItemOf(schedule, 1) && OffsetOf(schedule, 0) == OffsetOf(schedule, 1)
            && !Unshadowed(schedule, 0)
  {
    var schedule := EmptyThenTwice();
    EmptyThenTwiceNumbers();
    hide First, PlaceOf, OffsetOf, ItemOf, Exists, IsBlock;
    BlockIs(schedule, 1, 0, 0);
    BlockIs(schedule, 2, 0, 1);
  }

  /** Whatever the method, the second of those blocks is not seen to repeat the first, which it equals. */
  lemma EmptySourceHidesBlock(hash: seq<Byte> -> nat, wanted: seq<Byte> -> bool, identical: seq<Identical>)
    requires ListsOriginals(EmptyThenTwice(), hash, wanted, identical)
    ensures Exists(EmptyThenTwice(), 0) && Exists(EmptyThenTwice(), 1)
    ensures BlockBytes(EmptyThenTwice(), 1) == BlockBytes(EmptyThenTwice(), 0)
    ensures !Listed(identical, 1)
  {
    hide First, PlaceOf, OffsetOf, ItemOf, Exists, IsBlock, Repeats, HashOf, Considered, EmptyThenTwice, Unshadowed,
         BytesAt;
    EmptyThenTwicePlaces();
  }

  /** Two sources of the same one block, the second cut larger. */
  ghost function CutLargerLater(): seq<Item> {
    [Item([7], 1), Item([7], 2)]
  }

  lemma CutLargerPlaces()
    ensures var schedule := CutLargerLater();
            && Exists(schedule, 0) && Exists(schedule, 1) && BlockBytes(schedule, 1) == BlockBytes(schedule, 0)
            && ItemOf(schedule, 0).blocksize == 1 && ItemOf(schedule, 1).blocksize == 2
  {
    var schedule := CutLargerLater();
    assert Count(schedule[0]) == 1 && Count(schedule[1]) == 1;
    hide Count;
    FirstIsZero(schedule);
    FirstStep(schedule, 0);
    hide First;
    BlockIs(schedule, 0, 0, 0);
    BlockIs(schedule, 1, 0, 1);
    hide PlaceOf, Exists, IsBlock;
  }

  /** Whatever the method, the second of those blocks is not seen to repeat the first, which it equals, though no
      source is empty. */
  lemma LargerCutHidesBlock(hash: seq<Byte> -> nat, wanted: seq<Byte> -> bool, identical: seq<Identical>)
    requires ListsOriginals(CutLargerLater(), hash, wanted, identical)
    ensures Exists(CutLargerLater(), 0) && Exists(CutLargerLater(), 1)
    ensures BlockBytes(CutLargerLater(), 1) == BlockBytes(CutLargerLater(), 0)
    ensures !Listed(identical, 1)
  {
    hide First, PlaceOf, OffsetOf, ItemOf, Exists, IsBlock, Repeats, HashOf, Considered, CutLargerLater, Unshadowed,
         BytesAt;
    CutLargerPlaces();
  }

  /** Two methods that consider the same blocks make the same list. */
  lemma MethodsAgree(j: Job, k: Job, a: seq<Identical>, b: seq<Identical>)
    requires ItemsOk(j.schedule) && j.schedule == k.schedule && j.hash == k.hash
    requires forall bytes :: j.Considers(bytes) == k.Considers(bytes)
    requires IdenticalExact(j, a, Total(j.schedule)) && IdenticalExact(k, b, Total(k.schedule))
    ensures a == b
  {
    forall n: nat
      ensures Listed(a, n) <==> Listed(b, n)
    {
      SameListed(j, k, a, b, n);
    }
    InOrder(a, b, |a|);
    InOrder(b, a, |b|);
    hide CopyOf, HasCopy, First, Listed, Increasing;
    forall x | 0 <= x < |a|
      ensures a[x].other == b[x].other
    {
      SameCopies(j, k, a[x].number);
      assert FirstCopy(j, a[x].number, a[x].other) && FirstCopy(k, b[x].number, b[x].other);
    }
  }

  lemma SameListed(j: Job, k: Job, a: seq<Identical>, b: seq<Identical>, n: nat)
    requires ItemsOk(j.schedule) && j.schedule == k.schedule && j.hash == k.hash
    requires forall bytes :: j.Considers(bytes) == k.Considers(bytes)
    requires IdenticalExact(j, a, Total(j.schedule)) && IdenticalExact(k, b, Total(k.schedule))
    ensures Listed(a, n) <==> Listed(b, n)
  {
    hide CopyOf, HasCopy, First;
    SameCopies(j, k, n);
    if n < Total(j.schedule) {
      ListedExactly(j, a, Total(j.schedule), n);
      ListedExactly(k, b, Total(j.schedule), n);
    }
  }

  lemma SameCopies(j: Job, k: Job, n: nat)
    requires j.schedule == k.schedule && j.hash == k.hash && forall bytes :: j.Considers(bytes) == k.Considers(bytes)
    ensures HasCopy(j, n) <==> HasCopy(k, n)
    ensures forall m: nat :: CopyOf(j, n, m) <==> CopyOf(k, n, m)
  {
    hide Repeats, Exists;
    forall m: nat
      ensures CopyOf(j, n, m) <==> CopyOf(k, n, m)
    {
    }
  }

  /** Increasing lists with the same members agree from the front. */
  lemma {:induction false} InOrder(a: seq<Identical>, b: seq<Identical>, x: nat)
    requires Increasing(a) && Increasing(b)
    requires forall n: nat :: Listed(a, n) <==> Listed(b, n)
    requires x <= |a|
    ensures x <= |b| && forall y :: 0 <= y < x ==> a[y].number == b[y].number
  {
    if x > 0 {
      InOrder(a, b, x - 1);
      assert Listed(a, a[x - 1].number);
      var y :| 0 <= y < |b| && b[y].number == a[x - 1].number;
      assert x - 1 <= y;
      assert Listed(b, b[x - 1].number);
      var z :| 0 <= z < |a| && a[z].number == b[x - 1].number;
    }
  }
}
