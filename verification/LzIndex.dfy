// lib/lzma/C/LzFind.c: what the hash heads and the trees of the match finder mean, and that
// inserting a position and moving on keeps that meaning.
module LzIndex {
  import opened LzHash
  import opened LzTree
  import opened LzDescent
  import opened LzFinder
  import opened Wrappers

  // ---- Hashes of the text ----

  function Hash2At(c: Config, p: int): (h: nat)
    requires |c.crc| == 256
    ensures h < HASH2_SIZE
  {
    Hash2(c.crc, At(c.input, p), At(c.input, p + 1))
  }

  function Hash3At(c: Config, p: int): (h: nat)
    requires |c.crc| == 256
    ensures h < HASH3_SIZE
  {
    Hash3(c.crc, At(c.input, p), At(c.input, p + 1), At(c.input, p + 2))
  }

  function Hash4At(c: Config, p: int): (h: nat)
    requires |c.crc| == 256
    ensures h < Pow2(c.hashBits)
  {
    Hash4(c.crc, c.hashBits, At(c.input, p), At(c.input, p + 1), At(c.input, p + 2), At(c.input, p + 3))
  }

  // ---- The invariant ----

  predicate IsLive(env: Env, v: UInt32) {
    env.pos < v + env.size
  }

  /** The stream position a reference names. */
  function PosOf(env: Env, v: UInt32): int {
    env.cursor - (env.pos - v)
  }

  /** The head of a 2-byte slot is too old to matter or names a position whose hash is the slot. */
  ghost predicate Head2Ok(c: Config, env: Env, hash: seq<UInt32>, k: nat)
    requires |c.crc| == 256 && k < HASH2_SIZE && FIX4 <= |hash|
  {
    var v := hash[k];
    v < env.pos && (IsLive(env, v) ==> 0 <= PosOf(env, v) && Hash2At(c, PosOf(env, v)) == k)
  }

  ghost predicate Head3Ok(c: Config, env: Env, hash: seq<UInt32>, k: nat)
    requires |c.crc| == 256 && k < HASH3_SIZE && FIX4 <= |hash|
  {
    var v := hash[FIX3 + k];
    v < env.pos && (IsLive(env, v) ==> 0 <= PosOf(env, v) && Hash3At(c, PosOf(env, v)) == k)
  }

  /** Head v of slot k shows tree t: ordered on limit bytes, and made of positions that hash to k. */
  ghost predicate TreeOk(c: Config, env: Env, son: seq<UInt32>, v: UInt32, t: Tree, k: nat, limit: nat)
    requires |c.crc| == 256
  {
    && env.Valid() && |son| == 2 * env.size && Shows(son, env, v, t) && Distinct(t)
    && Ordered(c.input, t, None, None, limit) && HashesTo(c, t, k)
  }

  ghost predicate HashesTo(c: Config, t: Tree, k: nat)
    requires |c.crc| == 256
  {
    forall p :: p in Positions(t) ==> Hash4At(c, p) == k
  }

  ghost predicate HeadsOk(c: Config, env: Env, hash: seq<UInt32>)
    requires |c.crc| == 256 && FIX4 <= |hash|
  {
    && (forall k :: 0 <= k < HASH2_SIZE ==> Head2Ok(c, env, hash, k))
    && (forall k :: 0 <= k < HASH3_SIZE ==> Head3Ok(c, env, hash, k))
  }

  ghost predicate TreesOk(c: Config, env: Env, hash: seq<UInt32>, son: seq<UInt32>, forest: seq<Tree>, limit: nat)
    requires |c.crc| == 256 && |hash| == FIX4 + |forest|
  {
    forall k :: 0 <= k < |forest| ==> TreeOk(c, env, son, hash[FIX4 + k], forest[k], k, limit)
  }

  // ---- Moving on by one position ----

  /** The next moment, with all references lowered by sub. */
  function NextEnv(env: Env, sub: UInt32): Env
    requires env.pos < MAX_POS && sub <= env.pos
  {
    Env(env.pos + 1 - sub, env.size, if env.cyc + 1 == env.size then 0 else env.cyc + 1, env.cursor + 1)
  }

  /** The oldest stream position that can still be matched at the next moment. */
  function NextOldest(env: Env): int {
    env.cursor + 2 - env.size
  }

  /** References may be lowered as long as the next moment still lies past a whole window. */
  ghost predicate CanLower(env: Env, sub: UInt32) {
    env.Valid() && env.pos < MAX_POS && sub + env.size <= env.pos + 1
  }

  /** A reference keeps its distance and its two words; one that leaves the window stays out of it. */
  lemma RefNext(env: Env, v: UInt32, sub: UInt32)
    requires CanLower(env, sub) && v <= env.pos
    ensures v + env.size <= env.pos + 1 ==> Lowered(v, sub) + env.size <= NextEnv(env, sub).pos
    ensures env.pos + 1 < v + env.size ==>
              var next := NextEnv(env, sub);
              && next.Valid() && next.pos - Lowered(v, sub) == env.pos + 1 - v && Lowered(v, sub) < next.pos
              && next.Pair(env.pos + 1 - v) == if v == env.pos then 2 * env.cyc else env.Pair(env.pos - v)
  {
  }

  /** Moving on drops exactly the positions that leave the window; lowering changes no tree. */
  lemma {:induction false} ShowsNext(son: seq<UInt32>, env: Env, v: UInt32, t: Tree, sub: UInt32)
    requires CanLower(env, sub) && |son| == 2 * env.size && Shows(son, env, v, t)
    ensures NextEnv(env, sub).Valid()
    ensures Shows(LoweredAll(son, sub), NextEnv(env, sub), Lowered(v, sub), Prune(t, NextOldest(env)))
    decreases t
  {
    if t.Node? && NextOldest(env) <= t.at {
      hide Prune, LoweredAll, Lowered;
      var pair := env.Pair(env.pos - v);
      ShowsNext(son, env, son[pair], t.left, sub);
      ShowsNext(son, env, son[pair + 1], t.right, sub);
      NodeShowsNext(son, env, v, t, sub);
    } else {
      RefNext(env, v, sub);
    }
  }

  lemma NodeShowsNext(son: seq<UInt32>, env: Env, v: UInt32, t: Tree, sub: UInt32)
    requires CanLower(env, sub) && |son| == 2 * env.size && Shows(son, env, v, t)
    requires t.Node? && NextOldest(env) <= t.at && NextEnv(env, sub).Valid()
    requires var pair, son', next := env.Pair(env.pos - v), LoweredAll(son, sub), NextEnv(env, sub);
             && Shows(son', next, son'[pair], Prune(t.left, NextOldest(env)))
             && Shows(son', next, son'[pair + 1], Prune(t.right, NextOldest(env)))
    ensures Shows(LoweredAll(son, sub), NextEnv(env, sub), Lowered(v, sub), Prune(t, NextOldest(env)))
  {
    hide Shows, Prune, LoweredAll, Lowered, Env.Pair;
    NodeShown(son, env, v, t);
    RefNext(env, v, sub);
    var next, kept := NextEnv(env, sub), Prune(t, NextOldest(env));
    assert kept == Node(t.at, Prune(t.left, NextOldest(env)), Prune(t.right, NextOldest(env))) by {
      PruneNode(t, NextOldest(env));
    }
    assert next.Pair(next.pos - Lowered(v, sub)) == env.Pair(env.pos - v);
    ShowNode(LoweredAll(son, sub), next, Lowered(v, sub), kept);
  }

  lemma PruneNode(t: Tree, oldest: int)
    requires t.Node? && oldest <= t.at
    ensures Prune(t, oldest) == Node(t.at, Prune(t.left, oldest), Prune(t.right, oldest))
  {
  }

  /** What a node that shows says of its reference, and the other way around. */
  lemma NodeShown(son: seq<UInt32>, env: Env, v: UInt32, t: Tree)
    requires env.Valid() && |son| == 2 * env.size && t.Node? && Shows(son, env, v, t)
    ensures v < env.pos < v + env.size && t.at == env.cursor - (env.pos - v)
    ensures var pair := env.Pair(env.pos - v);
            Shows(son, env, son[pair], t.left) && Shows(son, env, son[pair + 1], t.right)
  {
  }

  lemma ShowNode(son: seq<UInt32>, env: Env, v: UInt32, t: Tree)
    requires env.Valid() && |son| == 2 * env.size && t.Node?
    requires v < env.pos < v + env.size && t.at == env.cursor - (env.pos - v)
    requires var pair := env.Pair(env.pos - v);
             Shows(son, env, son[pair], t.left) && Shows(son, env, son[pair + 1], t.right)
    ensures Shows(son, env, v, t)
  {
  }

  /** The node just hung at the current slot shows, from the next moment on, as the newest node. */
  lemma NewNodeShows(son: seq<UInt32>, env: Env, smaller: Tree, greater: Tree, sub: UInt32)
    requires CanLower(env, sub) && |son| == 2 * env.size
    requires Shows(son, env, son[2 * env.cyc], smaller) && Shows(son, env, son[2 * env.cyc + 1], greater)
    ensures NextEnv(env, sub).Valid()
    ensures Shows(LoweredAll(son, sub), NextEnv(env, sub), Lowered(env.pos, sub),
                  Prune(Node(env.cursor, smaller, greater), NextOldest(env)))
  {
    hide Shows, Prune, LoweredAll, Lowered, Env.Pair;
    RefNext(env, env.pos, sub);
    ShowsNext(son, env, son[2 * env.cyc], smaller, sub);
    ShowsNext(son, env, son[2 * env.cyc + 1], greater, sub);
    var t := Node(env.cursor, smaller, greater);
    if NextOldest(env) <= env.cursor {
      PruneNode(t, NextOldest(env));
      ShowNode(LoweredAll(son, sub), NextEnv(env, sub), Lowered(env.pos, sub), Prune(t, NextOldest(env)));
    } else {
      OldNodeShows(LoweredAll(son, sub), NextEnv(env, sub), Lowered(env.pos, sub), t, NextOldest(env));
    }
  }

  /** A node that is too old shows as nothing. */
  lemma OldNodeShows(son: seq<UInt32>, env: Env, v: UInt32, t: Tree, oldest: int)
    requires env.Valid() && |son| == 2 * env.size && t.Node? && t.at < oldest && v + env.size <= env.pos
    ensures Shows(son, env, v, Prune(t, oldest))
  {
  }

  lemma TreeNext(c: Config, env: Env, son: seq<UInt32>, v: UInt32, t: Tree, k: nat, limit: nat, sub: UInt32,
                 limit': nat)
    requires |c.crc| == 256 && TreeOk(c, env, son, v, t, k, limit) && CanLower(env, sub) && limit' <= limit
    ensures TreeOk(c, NextEnv(env, sub), LoweredAll(son, sub), Lowered(v, sub), Prune(t, NextOldest(env)), k, limit')
  {
    ShowsNext(son, env, v, t, sub);
    OrderedShorter(c.input, t, None, None, limit, limit');
    PruneKeepsTree(c.input, t, NextOldest(env), None, None, limit');
  }

  /** Trees of other slots do not notice an insertion. */
  lemma TreeUntouched(c: Config, env: Env, son: seq<UInt32>, v: UInt32, t: Tree, k: nat, limit: nat,
                      son': seq<UInt32>, other: Tree, otherK: nat)
    requires |c.crc| == 256 && TreeOk(c, env, son, v, t, k, limit) && HashesTo(c, other, otherK) && k != otherK
    requires OnlyTouches(son, son', env, other, 2 * env.cyc + 1, 2 * env.cyc)
    ensures TreeOk(c, env, son', v, t, k, limit)
  {
    forall i | 0 <= i < |son| && UsesWord(env, t, i)
      ensures son'[i] == son[i]
    {
      var at := WordOwner(env, t, i);
      if UsesWord(env, other, i) {
        var at' := WordOwner(env, other, i);
        WordsInjective(env, at, at', i);
      }
    }
    ShowsFrame(son, son', env, v, t);
  }

  /** Inserting the current position: the walk rebuilds the slot's tree with it on top. */
  lemma TreeInserted(c: Config, env: Env, son: seq<UInt32>, v: UInt32, t: Tree, limit: nat, cut: nat, sub: UInt32,
                     limit': nat)
    requires |c.crc| == 256 && TreeOk(c, env, son, v, t, Hash4At(c, env.cursor), limit)
    requires 0 < limit && CanLower(env, sub) && limit' <= limit
    ensures var son' := Descend(c.input, env.cursor, env, Point(son, v, 2 * env.cyc + 1, 2 * env.cyc, 0, 0), limit,
                                cut);
            var t' := Insert(c.input, t, env.cursor, limit, cut);
            && OnlyTouches(son, son', env, t, 2 * env.cyc + 1, 2 * env.cyc)
            && TreeOk(c, NextEnv(env, sub), LoweredAll(son', sub), Lowered(env.pos, sub), Prune(t', NextOldest(env)),
                      Hash4At(c, env.cursor), limit')
  {
    StartVisits(c, env, son, v, t, Hash4At(c, env.cursor), limit);
    var pt := Point(son, v, 2 * env.cyc + 1, 2 * env.cyc, 0, 0);
    DescendShowsSplit(c.input, env, pt, t, limit, cut, None, None);
    var son' := Descend(c.input, env.cursor, env, pt, limit, cut);
    var halves := Split(c.input, t, env.cursor, limit, cut);
    NewNodeShows(son', env, halves.0, halves.1, sub);
    InsertKeepsTree(c.input, t, env.cursor, limit, cut);
    var t' := Insert(c.input, t, env.cursor, limit, cut);
    OrderedShorter(c.input, t', None, None, limit, limit');
    PruneKeepsTree(c.input, t', NextOldest(env), None, None, limit');
  }

  /** The walk may start at any tree: the current slot is nobody's, and the current position is in no tree. */
  lemma StartVisits(c: Config, env: Env, son: seq<UInt32>, v: UInt32, t: Tree, k: nat, limit: nat)
    requires |c.crc| == 256 && TreeOk(c, env, son, v, t, k, limit) && 0 < limit
    ensures Visits(c.input, env, Point(son, v, 2 * env.cyc + 1, 2 * env.cyc, 0, 0), t, limit, None, None)
    ensures env.cursor !in Positions(t)
  {
    ShownPositions(son, env, v, t);
    NotInSlot(son, env, v, t, 2 * env.cyc);
    NotInSlot(son, env, v, t, 2 * env.cyc + 1);
    hide Shows, UsesWord, Distinct, Ordered, HashesTo;
  }

  /** The words of the current slot belong to no position shown. */
  lemma NotInSlot(son: seq<UInt32>, env: Env, v: UInt32, t: Tree, i: nat)
    requires env.Valid() && |son| == 2 * env.size && Shows(son, env, v, t)
    requires i == 2 * env.cyc || i == 2 * env.cyc + 1
    ensures !UsesWord(env, t, i)
  {
    ShownPositions(son, env, v, t);
    if UsesWord(env, t, i) {
      var at := WordOwner(env, t, i);
    }
  }

  lemma HeadsNext(c: Config, env: Env, hash: seq<UInt32>, sub: UInt32)
    requires |c.crc| == 256 && FIX4 <= |hash| && HeadsOk(c, env, hash) && CanLower(env, sub)
    ensures HeadsOk(c, NextEnv(env, sub), LoweredAll(hash, sub))
  {
    hide At, Xor, Low, Pow2, Temp;
    forall k | 0 <= k < HASH2_SIZE
      ensures Head2Ok(c, NextEnv(env, sub), LoweredAll(hash, sub), k)
    {
      assert Head2Ok(c, env, hash, k);
    }
    forall k | 0 <= k < HASH3_SIZE
      ensures Head3Ok(c, NextEnv(env, sub), LoweredAll(hash, sub), k)
    {
      assert Head3Ok(c, env, hash, k);
    }
  }

  /** The three heads of the current position all name it. */
  function Hashed(c: Config, env: Env, hash: seq<UInt32>): (hash': seq<UInt32>)
    requires |c.crc| == 256 && |hash| == FIX4 + Pow2(c.hashBits)
    ensures |hash'| == |hash|
  {
    hash[Hash2At(c, env.cursor) := env.pos]
        [FIX3 + Hash3At(c, env.cursor) := env.pos]
        [FIX4 + Hash4At(c, env.cursor) := env.pos]
  }

  lemma HashedHeadsNext(c: Config, env: Env, hash: seq<UInt32>, sub: UInt32)
    requires |c.crc| == 256 && |hash| == FIX4 + Pow2(c.hashBits) && HeadsOk(c, env, hash) && CanLower(env, sub)
    ensures HeadsOk(c, NextEnv(env, sub), LoweredAll(Hashed(c, env, hash), sub))
  {
    hide At, Xor, Low, Pow2, Temp;
    HeadsNext(c, env, hash, sub);
    var next, hash' := NextEnv(env, sub), LoweredAll(Hashed(c, env, hash), sub);
    forall k | 0 <= k < HASH2_SIZE
      ensures Head2Ok(c, next, hash', k)
    {
      assert Head2Ok(c, next, LoweredAll(hash, sub), k);
      assert k != Hash2At(c, env.cursor) ==> hash'[k] == LoweredAll(hash, sub)[k];
    }
    forall k | 0 <= k < HASH3_SIZE
      ensures Head3Ok(c, next, hash', k)
    {
      assert Head3Ok(c, next, LoweredAll(hash, sub), k);
      assert k != Hash3At(c, env.cursor) ==> hash'[FIX3 + k] == LoweredAll(hash, sub)[FIX3 + k];
    }
  }

  function PruneAll(forest: seq<Tree>, oldest: int): (pruned: seq<Tree>)
    ensures |pruned| == |forest| && forall k :: 0 <= k < |forest| ==> pruned[k] == Prune(forest[k], oldest)
  {
    seq(|forest|, k requires 0 <= k < |forest| => Prune(forest[k], oldest))
  }

  lemma TreesNext(c: Config, env: Env, hash: seq<UInt32>, son: seq<UInt32>, forest: seq<Tree>, limit: nat,
                  sub: UInt32, limit': nat)
    requires |c.crc| == 256 && |hash| == FIX4 + |forest| && TreesOk(c, env, hash, son, forest, limit)
    requires CanLower(env, sub) && limit' <= limit
    ensures TreesOk(c, NextEnv(env, sub), LoweredAll(hash, sub), LoweredAll(son, sub),
                    PruneAll(forest, NextOldest(env)), limit')
  {
    forall k | 0 <= k < |forest|
      ensures TreeOk(c, NextEnv(env, sub), LoweredAll(son, sub), LoweredAll(hash, sub)[FIX4 + k],
                     PruneAll(forest, NextOldest(env))[k], k, limit')
    {
      assert TreeOk(c, env, son, hash[FIX4 + k], forest[k], k, limit);
      TreeNext(c, env, son, hash[FIX4 + k], forest[k], k, limit, sub, limit');
    }
  }

  /** The whole forest after inserting the current position into its slot's tree. */
  function Planted(c: Config, env: Env, forest: seq<Tree>, limit: nat): (forest': seq<Tree>)
    requires |c.crc| == 256 && |forest| == Pow2(c.hashBits) && 0 <= env.cursor
    ensures |forest'| == |forest|
  {
    var k := Hash4At(c, env.cursor);
    forest[k := Insert(c.input, forest[k], env.cursor, limit, c.cutValue)]
  }

  function StartPoint(c: Config, env: Env, hash: seq<UInt32>, son: seq<UInt32>): Point
    requires |c.crc| == 256 && |hash| == FIX4 + Pow2(c.hashBits)
  {
    Point(son, hash[FIX4 + Hash4At(c, env.cursor)], 2 * env.cyc + 1, 2 * env.cyc, 0, 0)
  }

  lemma PlantedTreesNext(c: Config, env: Env, hash: seq<UInt32>, son: seq<UInt32>, forest: seq<Tree>, limit: nat,
                         sub: UInt32, limit': nat)
    requires |c.crc| == 256 && |forest| == Pow2(c.hashBits) && |hash| == FIX4 + |forest|
    requires env.Valid() && |son| == 2 * env.size && TreesOk(c, env, hash, son, forest, limit)
    requires CanLower(env, sub) && limit' <= limit && 0 < limit
    ensures var son' := Descend(c.input, env.cursor, env, StartPoint(c, env, hash, son), limit, c.cutValue);
            TreesOk(c, NextEnv(env, sub), LoweredAll(Hashed(c, env, hash), sub), LoweredAll(son', sub),
                    PruneAll(Planted(c, env, forest, limit), NextOldest(env)), limit')
  {
    hide At, Xor, Low, Pow2, Temp;
    var h := Hash4At(c, env.cursor);
    var son' := Descend(c.input, env.cursor, env, StartPoint(c, env, hash, son), limit, c.cutValue);
    assert TreeOk(c, env, son, hash[FIX4 + h], forest[h], h, limit);
    TreeInserted(c, env, son, hash[FIX4 + h], forest[h], limit, c.cutValue, sub, limit');
    forall k | 0 <= k < |forest|
      ensures TreeOk(c, NextEnv(env, sub), LoweredAll(son', sub), LoweredAll(Hashed(c, env, hash), sub)[FIX4 + k],
                     PruneAll(Planted(c, env, forest, limit), NextOldest(env))[k], k, limit')
    {
      if k != h {
        assert TreeOk(c, env, son, hash[FIX4 + k], forest[k], k, limit);
        TreeUntouched(c, env, son, hash[FIX4 + k], forest[k], k, limit, son', forest[h], h);
        TreeNext(c, env, son', hash[FIX4 + k], forest[k], k, limit, sub, limit');
      }
    }
  }
}
