// lib/lzma/C/LzFind.c: the Bt4 match finder, one call at a time, and what holds over every run.
module LzMatches {
  import opened Arithmetic
  import opened SearchSpec
  import opened LzHash
  import opened LzTree
  import opened LzDescent
  import opened LzFinder
  import opened LzIndex
  import opened Wrappers

  function EnvOf(c: Config, s: Finder): Env
    requires c.Valid() && 0 <= s.Cursor()
  {
    Env(s.pos, c.Size(), if s.cyc == c.Size() then 0 else s.cyc, s.Cursor())
  }

  // ---- Invariants ----

  /** Positions, limits and the buffer: enough is read ahead, and posLimit stops every run in time. */
  ghost predicate WindowOk(c: Config, s: Finder) {
    && c.Valid()
    && c.Size() <= s.pos < MAX_POS && s.cyc < c.Size()
    && s.Avail() <= s.taken <= |c.input| && s.buffer + s.Avail() <= c.blockSize
    && Min(s.Cursor(), c.keepBefore) <= s.buffer <= s.Cursor()
    && (s.ended || s.failed || c.keepAfter < s.Avail()) && StopsRightly(c, s)
    && s.lenLimit == Min(s.Avail(), c.matchMaxLen)
    && (0 < s.Avail() ==>
          && s.pos < s.posLimit <= MAX_POS && s.posLimit - s.pos <= c.Size() - s.cyc
          && (s.posLimit == s.pos + 1 || s.posLimit - s.pos <= s.Avail() - c.keepAfter))
  }

  ghost predicate StateOk(c: Config, s: Finder, forest: seq<Tree>) {
    && WindowOk(c, s)
    && |s.son| == 2 * c.Size() && |forest| == Pow2(c.hashBits) && |s.hash| == FIX4 + |forest|
    && HeadsOk(c, EnvOf(c, s), s.hash)
    && TreesOk(c, EnvOf(c, s), s.hash, s.son, forest, s.lenLimit)
  }

  // ---- Moving on ----

  /** How far MovePos lowers all references: only at the last position before the counter would overflow. */
  function MoveSub(c: Config, s: Finder): UInt32
    requires c.Valid() && c.Size() <= s.pos < MAX_POS
  {
    if s.pos + 1 == s.posLimit == MAX_POS then SubValue(c, MAX_POS) else 0
  }

  lemma LoweredByNothing(items: seq<UInt32>)
    ensures LoweredAll(items, 0) == items
  {
  }

  lemma SetLimitsOk(c: Config, s: Finder)
    requires c.Valid() && c.Size() <= s.pos < MAX_POS && s.cyc < c.Size()
    requires s.Avail() <= s.taken <= |c.input| && s.buffer + s.Avail() <= c.blockSize
    requires Min(s.Cursor(), c.keepBefore) <= s.buffer <= s.Cursor()
    requires (s.ended || s.failed || c.keepAfter < s.Avail()) && StopsRightly(c, s)
    ensures WindowOk(c, SetLimits(c, s))
  {
  }

  /** After sliding and reading, enough is read ahead again, and the cursor and its history have not moved. */
  lemma MoveAndReadOk(c: Config, s: Finder)
    requires c.Valid() && s.Avail() == c.keepAfter && s.Avail() <= s.taken <= |c.input| && StopsRightly(c, s)
    requires s.buffer + s.Avail() <= c.blockSize && Min(s.Cursor(), c.keepBefore) <= s.buffer <= s.Cursor()
    ensures var s' := MoveAndRead(c, s);
            && s'.Cursor() == s.Cursor() && s'.Avail() <= s'.taken <= |c.input| && s'.buffer + s'.Avail() <= c.blockSize
            && Min(s'.Cursor(), c.keepBefore) <= s'.buffer <= s'.Cursor()
            && (s'.ended || s'.failed || c.keepAfter < s'.Avail()) && StopsRightly(c, s')
            && s.Avail() <= s'.Avail()
            && s' == s.(buffer := s'.buffer, streamPos := s'.streamPos, taken := s'.taken, ended := s'.ended,
                        failed := s'.failed)
  {
  }

  lemma NormalizeOk(c: Config, s: Finder)
    requires c.Valid() && s.pos == MAX_POS
    ensures var sub := SubValue(c, s.pos);
            && 0 < sub && sub + c.Size() <= s.pos
            && Normalize(c, s).Avail() == s.Avail() && Normalize(c, s).Cursor() == s.Cursor()
  {
  }

  /** The state when posLimit is reached, just after stepping to it. */
  ghost predicate AtLimit(c: Config, s: Finder) {
    && c.Valid() && c.Size() <= s.pos <= MAX_POS && 0 < s.cyc <= c.Size()
    && s.Avail() <= s.taken <= |c.input| && s.buffer + s.Avail() <= c.blockSize
    && Min(s.Cursor(), c.keepBefore) <= s.buffer <= s.Cursor()
    && (s.ended || s.failed || c.keepAfter <= s.Avail()) && StopsRightly(c, s)
  }

  function LimitSub(c: Config, s: Finder): UInt32
    requires c.Valid() && c.Size() <= s.pos
  {
    if s.pos == MAX_POS then SubValue(c, s.pos) else 0
  }

  /** The first half of CheckLimits: normalization. */
  lemma NormalizeStep(c: Config, s: Finder) returns (s1: Finder)
    requires AtLimit(c, s)
    ensures s1 == if s.pos == MAX_POS then Normalize(c, s) else s
    ensures AtLimit(c, s1) && s1.pos < MAX_POS && s1.pos == s.pos - LimitSub(c, s)
    ensures LimitSub(c, s) + c.Size() <= s.pos
    ensures s1.cyc == s.cyc && s1.Avail() == s.Avail() && s1.Cursor() == s.Cursor()
    ensures s1.hash == LoweredAll(s.hash, LimitSub(c, s)) && s1.son == LoweredAll(s.son, LimitSub(c, s))
  {
    s1 := if s.pos == MAX_POS then Normalize(c, s) else s;
    if s.pos == MAX_POS {
      NormalizeOk(c, s);
    } else {
      LoweredByNothing(s.hash);
      LoweredByNothing(s.son);
    }
  }

  /** The second half: reading ahead. */
  lemma ReadStep(c: Config, s: Finder) returns (s1: Finder)
    requires AtLimit(c, s)
    ensures s1 == if !s.ended && c.keepAfter == s.Avail() then MoveAndRead(c, s) else s
    ensures AtLimit(c, s1) && (s1.ended || s1.failed || c.keepAfter < s1.Avail())
    ensures s1.pos == s.pos && s1.cyc == s.cyc && s1.Cursor() == s.Cursor() && s1.hash == s.hash && s1.son == s.son
    ensures s1.Avail() == s.Avail() || (s.Avail() == c.keepAfter && s.Avail() <= s1.Avail())
  {
    s1 := if !s.ended && c.keepAfter == s.Avail() then MoveAndRead(c, s) else s;
    if !s.ended && c.keepAfter == s.Avail() {
      MoveAndReadOk(c, s);
    }
  }

  lemma CheckLimitsOk(c: Config, s: Finder)
    requires AtLimit(c, s)
    ensures var s', sub := CheckLimits(c, s), LimitSub(c, s);
            && WindowOk(c, s') && sub + c.Size() <= s.pos
            && s'.pos == s.pos - sub && s'.cyc == (if s.cyc == c.Size() then 0 else s.cyc) && s'.Cursor() == s.Cursor()
            && (s'.Avail() == s.Avail() || (s.Avail() == c.keepAfter && s.Avail() <= s'.Avail()))
            && s'.hash == LoweredAll(s.hash, sub) && s'.son == LoweredAll(s.son, sub)
  {
    hide Normalize, MoveAndRead, SubValue, LimitSub;
    var s1 := NormalizeStep(c, s);
    var s2 := ReadStep(c, s1);
    var s3 := if s2.cyc == c.Size() then s2.(cyc := 0) else s2;
    SetLimitsOk(c, s3);
    assert CheckLimits(c, s) == SetLimits(c, s3);
  }

  /** A step at which the limit is reached is checked. */
  lemma LimitReached(c: Config, s: Finder)
    requires WindowOk(c, s) && 0 < s.Avail() && s.pos + 1 == s.posLimit
    ensures var s1 := s.(cyc := s.cyc + 1, buffer := s.buffer + 1, pos := s.pos + 1);
            && AtLimit(c, s1) && s1.Cursor() == s.Cursor() + 1 && s1.Avail() == s.Avail() - 1
            && MovePos(c, s) == CheckLimits(c, s1) && MoveSub(c, s) == LimitSub(c, s1)
  {
    hide CheckLimits, SubValue;
  }

  /** A step before the limit keeps the window. */
  lemma LimitNotReached(c: Config, s: Finder)
    requires WindowOk(c, s) && 0 < s.Avail() && s.pos + 1 != s.posLimit
    ensures var s' := s.(cyc := s.cyc + 1, buffer := s.buffer + 1, pos := s.pos + 1);
            && WindowOk(c, s') && s'.cyc < c.Size() && s'.Cursor() == s.Cursor() + 1 && s'.Avail() == s.Avail() - 1
            && MovePos(c, s) == s' && MoveSub(c, s) == 0
  {
    hide CheckLimits, SubValue;
  }

  /** The numbers after MovePos: one position further, less what the references were lowered by. */
  lemma MovePosNumbers(c: Config, s: Finder)
    requires WindowOk(c, s) && 0 < s.Avail()
    ensures var s', sub := MovePos(c, s), MoveSub(c, s);
            && WindowOk(c, s') && s'.lenLimit <= s.lenLimit && s.Avail() - 1 <= s'.Avail()
            && sub + c.Size() <= s.pos + 1 && s'.pos == s.pos + 1 - sub && s'.Cursor() == s.Cursor() + 1
            && s'.cyc == (if s.cyc + 1 == c.Size() then 0 else s.cyc + 1)
            && s'.hash == LoweredAll(s.hash, sub) && s'.son == LoweredAll(s.son, sub)
  {
    hide MovePos, MoveSub, CheckLimits, LimitSub;
    if s.pos + 1 == s.posLimit {
      LimitReached(c, s);
      CheckLimitsOk(c, s.(cyc := s.cyc + 1, buffer := s.buffer + 1, pos := s.pos + 1));
    } else {
      LimitNotReached(c, s);
      LoweredByNothing(s.hash);
      LoweredByNothing(s.son);
    }
  }

  /** MovePos keeps the window invariant, advances by one byte, and at most lowers all references together. */
  lemma MovePosOk(c: Config, s: Finder)
    requires WindowOk(c, s) && 0 < s.Avail()
    ensures var s', sub := MovePos(c, s), MoveSub(c, s);
            && WindowOk(c, s') && s'.lenLimit <= s.lenLimit && s.Avail() - 1 <= s'.Avail()
            && CanLower(EnvOf(c, s), sub) && EnvOf(c, s') == NextEnv(EnvOf(c, s), sub)
            && s'.hash == LoweredAll(s.hash, sub) && s'.son == LoweredAll(s.son, sub)
  {
    hide MovePos, MoveSub;
    MovePosNumbers(c, s);
  }

  // ---- Starting ----

  /** Nothing read and no head set. */
  function Blank(c: Config, son: seq<UInt32>): Finder
    requires c.Valid()
  {
    Finder(0, c.Size(), 0, c.Size(), 0, 0, seq(FIX4 + Pow2(c.hashBits), i => 0), son, false, false, 0)
  }

  /** MatchFinder_Init. The son array keeps whatever it held. */
  function Init(c: Config, son: seq<UInt32>): Finder
    requires c.Valid()
  {
    SetLimits(c, ReadBlock(c, Blank(c, son)))
  }

  function NoTrees(c: Config): (forest: seq<Tree>)
    ensures |forest| == Pow2(c.hashBits) && forall k :: 0 <= k < |forest| ==> forest[k] == Empty
  {
    seq(Pow2(c.hashBits), k => Empty)
  }

  /** After the first read the window is in order and every head names nothing. */
  lemma InitWindowOk(c: Config, son: seq<UInt32>)
    requires c.Valid()
    ensures var s := Init(c, son);
            && WindowOk(c, s) && s.Cursor() == 0 && s.son == son && s.pos == c.Size()
            && |s.hash| == FIX4 + Pow2(c.hashBits) && forall i :: 0 <= i < |s.hash| ==> s.hash[i] == 0
  {
    hide Pow2;
    var hash := seq(FIX4 + Pow2(c.hashBits), i => 0);
    var s0 := Finder(0, c.Size(), 0, c.Size(), 0, 0, hash, son, false, false, 0);
    SetLimitsOk(c, ReadBlock(c, s0));
  }

  lemma EmptyHeadsOk(c: Config, env: Env, hash: seq<UInt32>)
    requires |c.crc| == 256 && FIX4 <= |hash| && env.Valid() && forall i :: 0 <= i < |hash| ==> hash[i] == 0
    ensures HeadsOk(c, env, hash)
  {
    hide Hash2At, Hash3At;
  }

  lemma InitOk(c: Config, son: seq<UInt32>)
    requires c.Valid() && |son| == 2 * c.Size()
    ensures StateOk(c, Init(c, son), NoTrees(c)) && Init(c, son).Cursor() == 0
  {
    hide Init, Pow2, HeadsOk, At, Hash4At;
    InitWindowOk(c, son);
    EmptyHeadsOk(c, EnvOf(c, Init(c, son)), Init(c, son).hash);
  }

  // ---- Bt4 ----

  /** What the callers of a match call see to: at least one byte lies ahead. */
  ghost predicate Ready(c: Config, s: Finder) {
    WindowOk(c, s) && 0 < s.Avail() && |s.son| == 2 * c.Size() && |s.hash| == FIX4 + Pow2(c.hashBits)
  }

  /** The matches the 2-byte and the 3-byte heads give, and the length of the last of them, or 1. */
  datatype Short = Short(found: seq<Match>, maxLen: nat)

  /** A head inside the window whose first byte is the current byte. */
  predicate HeadHits(c: Config, env: Env, delta: UInt32) {
    delta < env.size && At(c.input, env.cursor - delta) == At(c.input, env.cursor)
  }

  function ShortHits(c: Config, env: Env, delta2: UInt32, delta3: UInt32, limit: nat): (r: Short)
    requires 4 <= limit
    ensures r.maxLen <= limit
  {
    if delta2 != delta3 && HeadHits(c, env, delta3) then
      var len := Extend(c.input, env.cursor - delta3, env.cursor, 3, limit);
      Short((if HeadHits(c, env, delta2) then [Match(2, Sub32(delta2, 1))] else []) + [Match(len, Sub32(delta3, 1))],
            len)
    else if HeadHits(c, env, delta2) then
      var len := Extend(c.input, env.cursor - delta2, env.cursor, 2, limit);
      Short([Match(len, Sub32(delta2, 1))], len)
    else
      Short([], 1)
  }

  function ShortMatches(c: Config, env: Env, hash: seq<UInt32>, limit: nat): (r: Short)
    requires |c.crc| == 256 && |hash| == FIX4 + Pow2(c.hashBits) && 4 <= limit
    ensures r.maxLen <= limit
  {
    ShortHits(c, env, Sub32(env.pos, hash[Hash2At(c, env.cursor)]), Sub32(env.pos, hash[FIX3 + Hash3At(c, env.cursor)]),
              limit)
  }

  datatype Reply = Reply(state: Finder, found: seq<Match>)

  function Bt4Walk(c: Config, s: Finder): (w: Walk)
    requires Ready(c, s) && 4 <= s.lenLimit
  {
    var env := EnvOf(c, s);
    var short := ShortMatches(c, env, s.hash, s.lenLimit);
    var start := StartPoint(c, env, s.hash, s.son);
    if short.maxLen == s.lenLimit then
      Walk(Descend(c.input, env.cursor, env, start, s.lenLimit, c.cutValue), short.found)
    else
      Hunt(c.input, env.cursor, env, start, s.lenLimit, c.cutValue, Longer(short.maxLen, 3), short.found)
  }

  /** Bt4_MatchFinder_GetMatches. */
  function Bt4GetMatches(c: Config, s: Finder): Reply
    requires Ready(c, s)
  {
    if s.lenLimit < 4 then Reply(MovePos(c, s), [])
    else
      var w := Bt4Walk(c, s);
      Reply(MovePos(c, s.(hash := Hashed(c, EnvOf(c, s), s.hash), son := w.son)), w.found)
  }

  /** Bt4_MatchFinder_Skip by one position. */
  function Bt4Skip(c: Config, s: Finder): Finder
    requires Ready(c, s)
  {
    if s.lenLimit < 4 then MovePos(c, s)
    else
      var env := EnvOf(c, s);
      var son := Descend(c.input, env.cursor, env, StartPoint(c, env, s.hash, s.son), s.lenLimit, c.cutValue);
      MovePos(c, s.(hash := Hashed(c, env, s.hash), son := son))
  }

  /** Whichever way GetMatches walks, it rebuilds the tree as Skip does. */
  lemma WalkRebuilds(c: Config, s: Finder)
    requires Ready(c, s) && 4 <= s.lenLimit
    ensures var env := EnvOf(c, s);
            Bt4Walk(c, s).son == Descend(c.input, env.cursor, env, StartPoint(c, env, s.hash, s.son), s.lenLimit,
                                         c.cutValue)
  {
    hide Hunt, Descend, ShortMatches, Hash2At, Hash3At, Hash4At, At;
    var env := EnvOf(c, s);
    var short := ShortMatches(c, env, s.hash, s.lenLimit);
    if short.maxLen < s.lenLimit {
      HuntRebuildsLikeDescend(c.input, env.cursor, env, StartPoint(c, env, s.hash, s.son), s.lenLimit, c.cutValue,
                              Longer(short.maxLen, 3), short.found);
    }
  }

  /** Skipping a position and asking for its matches leave the same state behind. */
  lemma SkipMatchesGet(c: Config, s: Finder)
    requires Ready(c, s)
    ensures Bt4GetMatches(c, s).state == Bt4Skip(c, s)
  {
    hide MovePos, Descend, Bt4Walk, Hashed, Hash4At, At;
    if 4 <= s.lenLimit {
      WalkRebuilds(c, s);
    }
  }

  /** The forest after one call. */
  function NextForest(c: Config, s: Finder, forest: seq<Tree>): (forest': seq<Tree>)
    requires WindowOk(c, s) && |forest| == Pow2(c.hashBits)
    ensures |forest'| == |forest|
  {
    var env := EnvOf(c, s);
    PruneAll(if s.lenLimit < 4 then forest else Planted(c, env, forest, s.lenLimit), NextOldest(env))
  }

  /** Every call keeps the whole invariant and moves on by exactly one byte of the stream. */
  lemma SkipKeepsState(c: Config, s: Finder, forest: seq<Tree>)
    requires StateOk(c, s, forest) && 0 < s.Avail()
    ensures StateOk(c, Bt4Skip(c, s), NextForest(c, s, forest))
    ensures Bt4Skip(c, s).Cursor() == s.Cursor() + 1 && s.Avail() - 1 <= Bt4Skip(c, s).Avail()
  {
    hide MovePos, SubValue, HeadsOk, TreesOk, LoweredAll, Hashed, Descend, Planted, Pow2, CanLower, Hash4At, At;
    var env, sub := EnvOf(c, s), MoveSub(c, s);
    if s.lenLimit < 4 {
      MovePosOk(c, s);
      HeadsNext(c, env, s.hash, sub);
      TreesNext(c, env, s.hash, s.son, forest, s.lenLimit, sub, MovePos(c, s).lenLimit);
    } else {
      var son := Descend(c.input, env.cursor, env, StartPoint(c, env, s.hash, s.son), s.lenLimit, c.cutValue);
      var s1 := s.(hash := Hashed(c, env, s.hash), son := son);
      MovePosOk(c, s1);
      HashedHeadsNext(c, env, s.hash, sub);
      PlantedTreesNext(c, env, s.hash, s.son, forest, s.lenLimit, sub, MovePos(c, s1).lenLimit);
    }
  }

  // ---- What is reported ----

  /** The oldest position a match may start at. */
  function Oldest(env: Env): int {
    env.cursor - env.size + 1
  }

  /** A 2-byte head whose first byte is right is a real 2-byte match inside the window. */
  lemma Head2Hit(c: Config, env: Env, hash: seq<UInt32>, delta: UInt32)
    requires |c.crc| == 256 && FIX4 <= |hash| && HeadsOk(c, env, hash)
    requires delta == Sub32(env.pos, hash[Hash2At(c, env.cursor)]) && HeadHits(c, env, delta)
    ensures 1 <= delta <= env.cursor && Oldest(env) <= env.cursor - delta
    ensures SameBytes(c.input, env.cursor - delta, env.cursor, 2)
  {
    hide At, Xor, Low, Pow2, Temp, Hash2;
    var p, q := env.cursor - delta, env.cursor;
    assert Head2Ok(c, env, hash, Hash2At(c, q));
    Hash2Exact(c.crc, At(c.input, q), At(c.input, p + 1), At(c.input, q + 1));
    assert SameAt(c.input, p, q, 0) && SameAt(c.input, p, q, 1);
  }

  lemma Head3Hit(c: Config, env: Env, hash: seq<UInt32>, delta: UInt32)
    requires |c.crc| == 256 && FIX4 <= |hash| && HeadsOk(c, env, hash)
    requires delta == Sub32(env.pos, hash[FIX3 + Hash3At(c, env.cursor)]) && HeadHits(c, env, delta)
    ensures 1 <= delta <= env.cursor && Oldest(env) <= env.cursor - delta
    ensures SameBytes(c.input, env.cursor - delta, env.cursor, 3)
  {
    hide At, Xor, Low, Pow2, Temp, Hash3;
    var p, q := env.cursor - delta, env.cursor;
    assert Head3Ok(c, env, hash, Hash3At(c, q));
    Hash3Exact(c.crc, At(c.input, q), At(c.input, p + 1), At(c.input, p + 2), At(c.input, q + 1), At(c.input, q + 2));
    assert SameAt(c.input, p, q, 0) && SameAt(c.input, p, q, 1) && SameAt(c.input, p, q, 2);
  }

  lemma ShortMatchesGood(c: Config, env: Env, hash: seq<UInt32>, limit: nat)
    requires |c.crc| == 256 && |hash| == FIX4 + Pow2(c.hashBits) && 4 <= limit && HeadsOk(c, env, hash)
    ensures var short := ShortMatches(c, env, hash, limit);
            1 <= short.maxLen && GoodMatches(c.input, env.cursor, Oldest(env), short.found, short.maxLen)
  {
    hide At, Hash2At, Hash3At, HeadsOk, Pow2, HeadHits;
    var delta2 := Sub32(env.pos, hash[Hash2At(c, env.cursor)]);
    var delta3 := Sub32(env.pos, hash[FIX3 + Hash3At(c, env.cursor)]);
    if HeadHits(c, env, delta2) {
      Head2Hit(c, env, hash, delta2);
      ExtendKeepsSame(c.input, env.cursor - delta2, env.cursor, 2, limit);
    }
    if HeadHits(c, env, delta3) {
      Head3Hit(c, env, hash, delta3);
      ExtendKeepsSame(c.input, env.cursor - delta3, env.cursor, 3, limit);
    }
  }

  lemma ShownNotBefore(c: Config, env: Env, son: seq<UInt32>, v: UInt32, t: Tree, k: nat, limit: nat)
    requires |c.crc| == 256 && TreeOk(c, env, son, v, t, k, limit)
    ensures NotBefore(t, Oldest(env))
  {
    ShownPositions(son, env, v, t);
  }

  /** Every reported pair is a true match inside the window, and lengths strictly increase up to lenLimit. */
  lemma GetReportsTrueMatches(c: Config, s: Finder, forest: seq<Tree>)
    requires StateOk(c, s, forest) && 0 < s.Avail()
    ensures s.Cursor() + s.lenLimit <= |c.input|
    ensures GoodMatches(c.input, s.Cursor(), s.Cursor() - c.historySize, Bt4GetMatches(c, s).found, s.lenLimit)
  {
    hide At, Hash2At, Hash3At, Hash4At, HeadsOk, GoodMatches, TrueMatch, Pow2, HeadHits, Hashed, MovePos, ShortMatches,
         Hunt, Descend;
    if 4 <= s.lenLimit {
      var env, h := EnvOf(c, s), Hash4At(c, s.Cursor());
      ShortMatchesGood(c, env, s.hash, s.lenLimit);
      var short := ShortMatches(c, env, s.hash, s.lenLimit);
      if short.maxLen < s.lenLimit {
        var maxLen := Longer(short.maxLen, 3);
        assert TreeOk(c, env, s.son, s.hash[FIX4 + h], forest[h], h, s.lenLimit);
        StartVisits(c, env, s.son, s.hash[FIX4 + h], forest[h], h, s.lenLimit);
        ShownNotBefore(c, env, s.son, s.hash[FIX4 + h], forest[h], h, s.lenLimit);
        HuntReportsMatches(c.input, env, StartPoint(c, env, s.hash, s.son), forest[h], s.lenLimit, c.cutValue,
                           None, None, maxLen, short.found);
        GoodWithin(c.input, env.cursor, Oldest(env), short.found, short.maxLen, maxLen);
        SplitMatchesGood(c.input, forest[h], env.cursor, Oldest(env), s.lenLimit, c.cutValue, maxLen, short.found);
      }
    } else {
      NothingIsGood(c.input, s.Cursor(), s.Cursor() - c.historySize, s.lenLimit);
    }
  }

  lemma NothingIsGood(text: seq<Byte>, cur: nat, oldest: int, maxLen: nat)
    ensures GoodMatches(text, cur, oldest, [], maxLen)
  {
  }

  /** There are fewer matches than lenLimit, so the caller's array of that many pairs never overflows. */
  lemma {:induction false} FewMatches(text: seq<Byte>, cur: nat, oldest: int, found: seq<Match>, maxLen: nat)
    requires GoodMatches(text, cur, oldest, found, maxLen)
    ensures |found| == 0 || |found| < found[|found| - 1].length <= maxLen
    decreases |found|
  {
    if 1 < |found| {
      FewMatches(text, cur, oldest, found[..|found| - 1], maxLen);
    }
  }
}
