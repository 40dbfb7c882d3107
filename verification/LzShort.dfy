// lib/lzma/C/LzFind.c: what Bt4 and Hc4 find through the heads of the 2-byte and 3-byte hashes, cut short or not.
module LzShort {
  import H = LzChain
  import opened LzDescent
  import opened LzFinder
  import opened LzHash
  import opened LzIndex
  import M = LzMatches
  import R = LzRuns
  import opened LzTree
  import opened SearchSpec
  import opened Wrappers

  // ---- The newest position with a hash ----

  /** No position of the window with this hash is newer than the one its head names. */
  ghost predicate Newest2(c: Config, env: Env, hash: seq<UInt32>, k: nat)
    requires |c.crc| == 256 && k < HASH2_SIZE && FIX4 <= |hash|
  {
    forall p: nat :: env.cursor - env.size < p < env.cursor && Hash2At(c, p) == k ==> p <= PosOf(env, hash[k])
  }

  ghost predicate Newest3(c: Config, env: Env, hash: seq<UInt32>, k: nat)
    requires |c.crc| == 256 && k < HASH3_SIZE && FIX4 <= |hash|
  {
    forall p: nat :: env.cursor - env.size < p < env.cursor && Hash3At(c, p) == k ==> p <= PosOf(env, hash[FIX3 + k])
  }

  ghost predicate HeadsNewest(c: Config, env: Env, hash: seq<UInt32>)
    requires |c.crc| == 256 && FIX4 <= |hash|
  {
    && (forall k :: 0 <= k < HASH2_SIZE ==> Newest2(c, env, hash, k))
    && (forall k :: 0 <= k < HASH3_SIZE ==> Newest3(c, env, hash, k))
  }

  /** Lowering a reference never moves the position it names back. */
  lemma LoweredNamesNoOlder(env: Env, v: UInt32, sub: UInt32)
    requires CanLower(env, sub)
    ensures PosOf(env, v) <= PosOf(NextEnv(env, sub), Lowered(v, sub))
    ensures PosOf(NextEnv(env, sub), Lowered(env.pos, sub)) == env.cursor
  {
  }

  lemma Newest2Next(c: Config, env: Env, hash: seq<UInt32>, sub: UInt32, k: nat)
    requires |c.crc| == 256 && |hash| == FIX4 + Pow2(c.hashBits) && k < HASH2_SIZE
    requires Newest2(c, env, hash, k) && CanLower(env, sub)
    ensures Newest2(c, NextEnv(env, sub), LoweredAll(Hashed(c, env, hash), sub), k)
  {
    hide Hash2At, Hash3At, Hash4At, Pow2, PosOf, Lowered;
    var hash' := Hashed(c, env, hash);
    assert hash'[k] == if k == Hash2At(c, env.cursor) then env.pos else hash[k];
    LoweredNamesNoOlder(env, hash'[k], sub);
  }

  lemma Newest3Next(c: Config, env: Env, hash: seq<UInt32>, sub: UInt32, k: nat)
    requires |c.crc| == 256 && |hash| == FIX4 + Pow2(c.hashBits) && k < HASH3_SIZE
    requires Newest3(c, env, hash, k) && CanLower(env, sub)
    ensures Newest3(c, NextEnv(env, sub), LoweredAll(Hashed(c, env, hash), sub), k)
  {
    hide Hash2At, Hash3At, Hash4At, Pow2, PosOf, Lowered;
    var hash' := Hashed(c, env, hash);
    assert hash'[FIX3 + k] == if k == Hash3At(c, env.cursor) then env.pos else hash[FIX3 + k];
    LoweredNamesNoOlder(env, hash'[FIX3 + k], sub);
  }

  /** After the heads of the current position have been set, all are the newest of the next moment. */
  lemma HeadsNewestNext(c: Config, env: Env, hash: seq<UInt32>, sub: UInt32)
    requires |c.crc| == 256 && |hash| == FIX4 + Pow2(c.hashBits) && HeadsNewest(c, env, hash) && CanLower(env, sub)
    ensures HeadsNewest(c, NextEnv(env, sub), LoweredAll(Hashed(c, env, hash), sub))
  {
    hide Newest2, Newest3, Pow2, Hashed, LoweredAll;
    forall k | 0 <= k < HASH2_SIZE
      ensures Newest2(c, NextEnv(env, sub), LoweredAll(Hashed(c, env, hash), sub), k)
    {
      Newest2Next(c, env, hash, sub, k);
    }
    forall k | 0 <= k < HASH3_SIZE
      ensures Newest3(c, NextEnv(env, sub), LoweredAll(Hashed(c, env, hash), sub), k)
    {
      Newest3Next(c, env, hash, sub, k);
    }
  }

  // ---- What the heads find ----

  /** p is the newest position of the window with the 2-byte hash of the text at cur. */
  ghost predicate NewestWith2(c: Config, p: nat, cur: int)
    requires |c.crc| == 256
  {
    && cur - c.historySize <= p < cur && Hash2At(c, p) == Hash2At(c, cur)
    && forall q: nat :: p < q < cur ==> Hash2At(c, q) != Hash2At(c, cur)
  }

  ghost predicate NewestWith3(c: Config, p: nat, cur: int)
    requires |c.crc| == 256
  {
    && cur - c.historySize <= p < cur && Hash3At(c, p) == Hash3At(c, cur)
    && forall q: nat :: p < q < cur ==> Hash3At(c, q) != Hash3At(c, cur)
  }

  /** Some match is at least this long, and no farther back than p. */
  ghost predicate Covers(found: seq<Match>, cur: int, p: int, len: nat) {
    exists m :: m in found && len <= m.length && p <= cur - 1 - m.back
  }

  /** The match is with the newest position that has the 2-byte hash, or the newest that has the 3-byte hash. */
  ghost predicate FromHead(c: Config, cur: int, m: Match)
    requires |c.crc| == 256
  {
    m.back < cur && (NewestWith2(c, cur - 1 - m.back, cur) || NewestWith3(c, cur - 1 - m.back, cur))
  }

  /** There is a match, and the last is at least this long. */
  ghost predicate Reaches(found: seq<Match>, len: nat) {
    found != [] && len <= found[|found| - 1].length
  }

  /** If the newest position with the 2-byte hash shares two bytes, or the newest with the 3-byte hash three, then some
      match that is no farther back, and so the last one, is at least as long as what it shares. No other position is
      reported for two or three bytes. */
  ghost predicate ShortFound(c: Config, cur: int, limit: nat, found: seq<Match>)
    requires |c.crc| == 256
  {
    && (forall p: nat :: NewestWith2(c, p, cur) && 2 <= Lcp(c.input, p, cur, limit) ==>
          Covers(found, cur, p, Lcp(c.input, p, cur, limit)) && Reaches(found, Lcp(c.input, p, cur, limit)))
    && (forall m :: m in found && m.length <= 3 ==> FromHead(c, cur, m))
    && forall p: nat :: NewestWith3(c, p, cur) && 3 <= Lcp(c.input, p, cur, limit) ==>
         Covers(found, cur, p, Lcp(c.input, p, cur, limit)) && Reaches(found, Lcp(c.input, p, cur, limit))
  }

  lemma Head2IsNewest(c: Config, env: Env, hash: seq<UInt32>, p: nat)
    requires |c.crc| == 256 && FIX4 <= |hash| && HeadsOk(c, env, hash) && HeadsNewest(c, env, hash)
    requires env.size == c.Size() && NewestWith2(c, p, env.cursor)
    ensures Sub32(env.pos, hash[Hash2At(c, env.cursor)]) == env.cursor - p && 0 < env.cursor - p < env.size
  {
    hide Hash2At, Hash3At;
    var k := Hash2At(c, env.cursor);
    assert Head2Ok(c, env, hash, k) && Newest2(c, env, hash, k);
  }

  lemma Head3IsNewest(c: Config, env: Env, hash: seq<UInt32>, p: nat)
    requires |c.crc| == 256 && FIX4 <= |hash| && HeadsOk(c, env, hash) && HeadsNewest(c, env, hash)
    requires env.size == c.Size() && NewestWith3(c, p, env.cursor)
    ensures Sub32(env.pos, hash[FIX3 + Hash3At(c, env.cursor)]) == env.cursor - p && 0 < env.cursor - p < env.size
  {
    hide Hash2At, Hash3At;
    var k := Hash3At(c, env.cursor);
    assert Head3Ok(c, env, hash, k) && Newest3(c, env, hash, k);
  }

  /** Texts that share two bytes have one 2-byte hash, and those that share three one 3-byte hash. */
  lemma SharedHashes(c: Config, p: int, q: int, limit: nat)
    requires |c.crc| == 256
    ensures 2 <= Lcp(c.input, p, q, limit) ==>
              At(c.input, p) == At(c.input, q) && Hash2At(c, p) == Hash2At(c, q) && SameBytes(c.input, p, q, 2)
    ensures 3 <= Lcp(c.input, p, q, limit) ==> Hash3At(c, p) == Hash3At(c, q) && SameBytes(c.input, p, q, 3)
  {
    LcpIsCommonPrefix(c.input, p, q, limit);
    if 2 <= Lcp(c.input, p, q, limit) {
      assert SameAt(c.input, p, q, 0) && SameAt(c.input, p, q, 1);
    }
    if 3 <= Lcp(c.input, p, q, limit) {
      assert SameAt(c.input, p, q, 2);
    }
  }

  lemma HeadsAreNewest(c: Config, env: Env, hash: seq<UInt32>, limit: nat)
    requires |c.crc| == 256 && |hash| == FIX4 + Pow2(c.hashBits) && 4 <= limit && env.size == c.Size()
    requires HeadsOk(c, env, hash) && HeadsNewest(c, env, hash)
    ensures forall m :: m in M.ShortMatches(c, env, hash, limit).found ==> FromHead(c, env.cursor, m)
  {
    hide At, Hash2At, Hash3At, Pow2, Extend;
    var k2, k3 := Hash2At(c, env.cursor), Hash3At(c, env.cursor);
    assert Newest2(c, env, hash, k2) && Newest3(c, env, hash, k3) && Head2Ok(c, env, hash, k2)
           && Head3Ok(c, env, hash, k3);
  }

  lemma SharesAtLeast(text: seq<Byte>, p: int, q: int, n: nat, limit: nat)
    requires SameBytes(text, p, q, n) && n <= limit
    ensures n <= Lcp(text, p, q, limit)
  {
    LcpIsCommonPrefix(text, p, q, limit);
    assert Lcp(text, p, q, limit) < n ==> SameAt(text, p, q, Lcp(text, p, q, limit));
  }

  /** The newest position with the 3-byte hash, when it shares three bytes, is measured. */
  lemma ThirdHeadFound(c: Config, env: Env, hash: seq<UInt32>, limit: nat, p: nat)
    requires |c.crc| == 256 && |hash| == FIX4 + Pow2(c.hashBits) && 4 <= limit && env.size == c.Size()
    requires HeadsOk(c, env, hash) && HeadsNewest(c, env, hash)
    requires NewestWith3(c, p, env.cursor) && 3 <= Lcp(c.input, p, env.cursor, limit)
    ensures Covers(M.ShortMatches(c, env, hash, limit).found, env.cursor, p, Lcp(c.input, p, env.cursor, limit))
  {
    hide At, Hash2At, Hash3At, HeadsOk, HeadsNewest, NewestWith3, Pow2, Extend, Lcp;
    Head3IsNewest(c, env, hash, p);
    SharedHashes(c, p, env.cursor, limit);
    ExtendFindsLcp(c.input, p, env.cursor, 3, limit);
    ExtendFindsLcp(c.input, p, env.cursor, 2, limit);
    var found := M.ShortMatches(c, env, hash, limit).found;
    assert found[|found| - 1] == Match(Lcp(c.input, p, env.cursor, limit), env.cursor - p - 1);
  }

  /** So is the newest with the 2-byte hash when it shares two, unless a match of three is measured instead. */
  lemma SecondHeadFound(c: Config, env: Env, hash: seq<UInt32>, limit: nat, p: nat)
    requires |c.crc| == 256 && |hash| == FIX4 + Pow2(c.hashBits) && 4 <= limit && env.size == c.Size()
    requires HeadsOk(c, env, hash) && HeadsNewest(c, env, hash)
    requires NewestWith2(c, p, env.cursor) && 2 <= Lcp(c.input, p, env.cursor, limit)
    ensures Covers(M.ShortMatches(c, env, hash, limit).found, env.cursor, p, Lcp(c.input, p, env.cursor, limit))
  {
    hide At, Hash2At, Hash3At, HeadsOk, HeadsNewest, NewestWith2, Pow2, Extend, Lcp;
    Head2IsNewest(c, env, hash, p);
    SharedHashes(c, p, env.cursor, limit);
    ExtendFindsLcp(c.input, p, env.cursor, 2, limit);
    var delta3 := Sub32(env.pos, hash[FIX3 + Hash3At(c, env.cursor)]);
    if M.HeadHits(c, env, delta3) && delta3 != env.cursor - p {
      ThirdIsLonger(c, env, hash, limit, p, delta3);
    }
    var found := M.ShortMatches(c, env, hash, limit).found;
    assert found[0].back == env.cursor - p - 1 && Lcp(c.input, p, env.cursor, limit) <= found[0].length;
  }

  /** A 3-byte head that hits elsewhere shares more than the newest position with the 2-byte hash. */
  lemma ThirdIsLonger(c: Config, env: Env, hash: seq<UInt32>, limit: nat, p: nat, delta3: UInt32)
    requires |c.crc| == 256 && |hash| == FIX4 + Pow2(c.hashBits) && 4 <= limit && env.size == c.Size()
    requires HeadsOk(c, env, hash) && HeadsNewest(c, env, hash)
    requires NewestWith2(c, p, env.cursor) && 2 <= Lcp(c.input, p, env.cursor, limit)
    requires delta3 == Sub32(env.pos, hash[FIX3 + Hash3At(c, env.cursor)]) && M.HeadHits(c, env, delta3)
    requires delta3 != env.cursor - p
    ensures Lcp(c.input, p, env.cursor, limit) < 3
    ensures 3 <= Extend(c.input, env.cursor - delta3, env.cursor, 3, limit)
  {
    hide At, Hash2At, Hash3At, Pow2, Extend, Lcp;
    var q := env.cursor - delta3;
    M.Head3Hit(c, env, hash, delta3);
    SharesAtLeast(c.input, q, env.cursor, 3, limit);
    ExtendFindsLcp(c.input, q, env.cursor, 3, limit);
    SharedHashes(c, q, env.cursor, limit);
    SharedHashes(c, p, env.cursor, limit);
    var k := Hash3At(c, env.cursor);
    assert Newest3(c, env, hash, k) && Head3Ok(c, env, hash, k);
  }

  /** What shares no more than the last match of the heads, but three bytes, is no newer than that match. */
  lemma HeadsCover(c: Config, env: Env, hash: seq<UInt32>, limit: nat, p: nat)
    requires |c.crc| == 256 && |hash| == FIX4 + Pow2(c.hashBits) && 4 <= limit && env.size == c.Size()
    requires HeadsOk(c, env, hash) && HeadsNewest(c, env, hash) && env.cursor - c.historySize <= p < env.cursor
    requires 3 <= Lcp(c.input, p, env.cursor, limit) <= M.ShortMatches(c, env, hash, limit).maxLen
    ensures Covers(M.ShortMatches(c, env, hash, limit).found, env.cursor, p, Lcp(c.input, p, env.cursor, limit))
  {
    hide At, Pow2, Extend, Lcp, Hash2At, Hash3At;
    var k2, k3 := Hash2At(c, env.cursor), Hash3At(c, env.cursor);
    SharedHashes(c, p, env.cursor, limit);
    assert Newest2(c, env, hash, k2) && Newest3(c, env, hash, k3) && Head2Ok(c, env, hash, k2)
           && Head3Ok(c, env, hash, k3);
    var found := M.ShortMatches(c, env, hash, limit).found;
    assert p <= env.cursor - 1 - found[|found| - 1].back;
  }

  // ---- The walk adds to what the heads found ----

  lemma {:induction false} SplitAdds(text: seq<Byte>, t: Tree, cur: nat, limit: nat, cut: nat, maxLen: nat,
                                     found: seq<Match>)
    ensures found <= SplitMatches(text, t, cur, limit, cut, maxLen, found)
    ensures forall m :: m in SplitMatches(text, t, cur, limit, cut, maxLen, found) ==> m in found || maxLen < m.length
    decreases cut
  {
    if !(cut == 0 || t.Empty? || cur <= t.at) {
      var len := Lcp(text, t.at, cur, limit);
      if len != limit {
        SplitAdds(text, NextChild(text, t, cur, limit), cur, limit, cut - 1, Longer(len, maxLen),
                  Extended(found, len, cur - t.at - 1, maxLen));
      }
    }
  }

  lemma {:induction false} FollowAdds(text: seq<Byte>, env: Env, son: seq<UInt32>, v: UInt32, limit: nat, cut: nat,
                                      maxLen: nat, found: seq<Match>)
    requires env.cyc < env.size == |son| && 1 <= limit
    ensures found <= H.Follow(text, env, son, v, limit, cut, maxLen, found)
    ensures forall m :: m in H.Follow(text, env, son, v, limit, cut, maxLen, found) ==> m in found || maxLen < m.length
    decreases cut
  {
    hide At, Extend;
    var delta := Sub32(env.pos, v);
    if cut > 0 && delta < env.size {
      var next := son[H.Slot(env, delta)];
      var pb, cur := env.cursor - delta, env.cursor;
      if At(text, pb + maxLen) == At(text, cur + maxLen) && At(text, pb) == At(text, cur) {
        var len := Extend(text, pb, cur, 1, limit);
        if !(maxLen < len == limit) {
          FollowAdds(text, env, son, next, limit, cut - 1, Longer(len, maxLen),
                     Extended(found, len, Sub32(delta, 1), maxLen));
        }
      } else {
        FollowAdds(text, env, son, next, limit, cut - 1, maxLen, found);
      }
    }
  }

  /** Matches that begin with these cover as much. */
  lemma MoreCovers(short: seq<Match>, found: seq<Match>, cur: int, p: int, len: nat)
    requires short <= found && Covers(short, cur, p, len)
    ensures Covers(found, cur, p, len)
  {
    var m :| m in short && len <= m.length && p <= cur - 1 - m.back;
    var i :| 0 <= i < |short| && short[i] == m;
    assert found[i] == m;
  }

  /** Of ever longer matches the last is at least as long as any. */
  lemma CoversReaches(text: seq<Byte>, cur: nat, oldest: int, found: seq<Match>, limit: nat, p: int, len: nat)
    requires GoodMatches(text, cur, oldest, found, limit) && Covers(found, cur, p, len)
    ensures Reaches(found, len)
  {
    var m :| m in found && len <= m.length && p <= cur - 1 - m.back;
  }

  // ---- One call ----

  /** The heads name the newest positions as long as whole hashes can be read. */
  ghost predicate Fresh(c: Config, s: Finder)
    requires M.WindowOk(c, s) && |s.hash| == FIX4 + Pow2(c.hashBits)
  {
    4 <= s.lenLimit ==> HeadsNewest(c, M.EnvOf(c, s), s.hash)
  }

  /** The matches of the heads come first in the answer. */
  lemma Bt4AnswerBegins(c: Config, s: Finder, forest: seq<Tree>)
    requires M.StateOk(c, s, forest) && 0 < s.Avail() && 4 <= s.lenLimit
    ensures M.ShortMatches(c, M.EnvOf(c, s), s.hash, s.lenLimit).found <= M.Bt4GetMatches(c, s).found
    ensures forall m :: m in M.Bt4GetMatches(c, s).found ==>
              m in M.ShortMatches(c, M.EnvOf(c, s), s.hash, s.lenLimit).found || 3 < m.length
  {
    hide At, Hash2At, Hash3At, Hash4At, HeadsOk, Pow2, M.ShortMatches, Hunt, Descend, Hashed, MovePos;
    var env, h := M.EnvOf(c, s), Hash4At(c, s.Cursor());
    var short := M.ShortMatches(c, env, s.hash, s.lenLimit);
    if short.maxLen < s.lenLimit {
      var maxLen := Longer(short.maxLen, 3);
      assert TreeOk(c, env, s.son, s.hash[FIX4 + h], forest[h], h, s.lenLimit);
      StartVisits(c, env, s.son, s.hash[FIX4 + h], forest[h], h, s.lenLimit);
      HuntReportsMatches(c.input, env, StartPoint(c, env, s.hash, s.son), forest[h], s.lenLimit, c.cutValue, None, None,
                         maxLen, short.found);
      SplitAdds(c.input, forest[h], env.cursor, s.lenLimit, c.cutValue, maxLen, short.found);
    }
  }

  lemma Hc4AnswerBegins(c: Config, s: Finder)
    requires H.Ready(c, s) && 4 <= s.lenLimit
    ensures M.ShortMatches(c, M.EnvOf(c, s), s.hash, s.lenLimit).found <= H.Hc4GetMatches(c, s).found
    ensures forall m :: m in H.Hc4GetMatches(c, s).found ==>
              m in M.ShortMatches(c, M.EnvOf(c, s), s.hash, s.lenLimit).found || 3 < m.length
  {
    hide At, Hash2At, Hash3At, Hash4At, Pow2, M.ShortMatches, H.Follow, Hashed, MovePos;
    var env, v := M.EnvOf(c, s), H.CurMatch(c, s);
    var short := M.ShortMatches(c, env, s.hash, s.lenLimit);
    if short.maxLen < s.lenLimit {
      FollowAdds(c.input, env, s.son[s.cyc := v], v, s.lenLimit, c.cutValue, Longer(short.maxLen, 3), short.found);
    }
  }

  lemma AnswerBegins(mode: R.Mode, c: Config, s: Finder)
    requires R.Sound(mode, c, s) && R.Ready(mode, c, s) && 4 <= s.lenLimit
    ensures HeadsOk(c, M.EnvOf(c, s), s.hash)
    ensures M.ShortMatches(c, M.EnvOf(c, s), s.hash, s.lenLimit).found <= R.Answer(mode, c, s).found
    ensures forall m :: m in R.Answer(mode, c, s).found ==>
              m in M.ShortMatches(c, M.EnvOf(c, s), s.hash, s.lenLimit).found || 3 < m.length
  {
    hide HeadsOk, TreesOk, H.ChainsOk, M.ShortMatches, M.Bt4GetMatches, H.Hc4GetMatches, Pow2;
    if mode.Bt4? {
      var forest :| M.StateOk(c, s, forest);
      Bt4AnswerBegins(c, s, forest);
    } else {
      var chains :| H.StateOk(c, s, chains);
      Hc4AnswerBegins(c, s);
    }
  }

  /** A call for matches reports what the newest positions with the short hashes share, cut short or not. */
  lemma GetFindsShort(mode: R.Mode, c: Config, s: Finder)
    requires R.Sound(mode, c, s) && R.Ready(mode, c, s) && Fresh(c, s) && 4 <= s.lenLimit
    ensures ShortFound(c, s.Cursor(), s.lenLimit, R.Answer(mode, c, s).found)
  {
    hide R.Sound, R.Answer, HeadsOk, HeadsNewest, NewestWith2, NewestWith3, Pow2, M.ShortMatches, Lcp, GoodMatches,
         Reaches, Covers, FromHead, TrueMatch;
    var cur, limit := s.Cursor(), s.lenLimit;
    var env := M.EnvOf(c, s);
    AnswerBegins(mode, c, s);
    R.StepReportsTrueMatches(mode, c, s, R.Call.GetMatches);
    var short, found := M.ShortMatches(c, env, s.hash, limit).found, R.Answer(mode, c, s).found;
    HeadsAreNewest(c, env, s.hash, limit);
    forall p: nat | NewestWith2(c, p, cur) && 2 <= Lcp(c.input, p, cur, limit)
      ensures Covers(found, cur, p, Lcp(c.input, p, cur, limit)) && Reaches(found, Lcp(c.input, p, cur, limit))
    {
      SecondHeadFound(c, env, s.hash, limit, p);
      MoreCovers(short, found, cur, p, Lcp(c.input, p, cur, limit));
      CoversReaches(c.input, cur, cur - c.historySize, found, limit, p, Lcp(c.input, p, cur, limit));
    }
    forall p: nat | NewestWith3(c, p, cur) && 3 <= Lcp(c.input, p, cur, limit)
      ensures Covers(found, cur, p, Lcp(c.input, p, cur, limit)) && Reaches(found, Lcp(c.input, p, cur, limit))
    {
      ThirdHeadFound(c, env, s.hash, limit, p);
      MoreCovers(short, found, cur, p, Lcp(c.input, p, cur, limit));
      CoversReaches(c.input, cur, cur - c.historySize, found, limit, p, Lcp(c.input, p, cur, limit));
    }
  }

  /** The heads after one call of either kind. */
  lemma HeadsAfter(mode: R.Mode, c: Config, s: Finder)
    requires R.Ready(mode, c, s)
    ensures var s', sub := R.Skipped(mode, c, s), M.MoveSub(c, s);
            && M.WindowOk(c, s') && s'.lenLimit <= s.lenLimit && CanLower(M.EnvOf(c, s), sub)
            && M.EnvOf(c, s') == NextEnv(M.EnvOf(c, s), sub)
            && s'.hash == LoweredAll(if s.lenLimit < 4 then s.hash else Hashed(c, M.EnvOf(c, s), s.hash), sub)
  {
    hide MovePos, Hashed, Descend, Hash4At, At, CanLower, LoweredAll;
    var env := M.EnvOf(c, s);
    var son := if s.lenLimit < 4 then s.son
               else if mode.Bt4? then
                 Descend(c.input, env.cursor, env, StartPoint(c, env, s.hash, s.son), s.lenLimit, c.cutValue)
               else s.son[s.cyc := H.CurMatch(c, s)];
    var s1 := s.(hash := if s.lenLimit < 4 then s.hash else Hashed(c, env, s.hash), son := son);
    assert s.lenLimit < 4 ==> s1 == s;
    M.MovePosOk(c, s1);
  }

  lemma StepKeepsFresh(mode: R.Mode, c: Config, s: Finder)
    requires R.Ready(mode, c, s) && Fresh(c, s)
    ensures var s' := R.Skipped(mode, c, s);
            M.WindowOk(c, s') && |s'.hash| == FIX4 + Pow2(c.hashBits) && Fresh(c, s')
  {
    HeadsAfter(mode, c, s);
    hide R.Skipped, HeadsNewest, Hashed, LoweredAll, Pow2, CanLower;
    if 4 <= R.Skipped(mode, c, s).lenLimit {
      HeadsNewestNext(c, M.EnvOf(c, s), s.hash, M.MoveSub(c, s));
    }
  }

  /** The same of any state. */
  ghost predicate Current(c: Config, s: Finder) {
    M.WindowOk(c, s) && |s.hash| == FIX4 + Pow2(c.hashBits) && Fresh(c, s)
  }

  lemma InitCurrent(c: Config, son: seq<UInt32>)
    requires c.Valid()
    ensures Current(c, M.Init(c, son))
  {
    hide M.Init, Pow2, Hash2At, Hash3At;
    M.InitWindowOk(c, son);
  }

  lemma StepKeepsCurrent(mode: R.Mode, c: Config, s: Finder)
    requires R.Ready(mode, c, s) && Current(c, s)
    ensures Current(c, R.Skipped(mode, c, s))
  {
    hide R.Skipped, Fresh;
    StepKeepsFresh(mode, c, s);
  }

  ghost predicate ShortReport(c: Config, r: R.Report)
    requires |c.crc| == 256
  {
    4 <= r.limit ==> ShortFound(c, r.cursor, r.limit, r.found)
  }

  lemma AnswerFindsShort(mode: R.Mode, c: Config, s: Finder)
    requires R.Sound(mode, c, s) && R.Ready(mode, c, s) && Current(c, s)
    ensures ShortReport(c, R.Report(s.Cursor(), s.lenLimit, R.Answer(mode, c, s).found))
  {
    hide R.Sound, R.Answer, Fresh, ShortFound;
    if 4 <= s.lenLimit {
      GetFindsShort(mode, c, s);
    }
  }

  // ---- Whole runs ----

  /** Every call for matches among these was answered with at least what the heads find. */
  ghost predicate ShortReports(c: Config, calls: seq<R.Call>, reports: seq<R.Report>)
    requires |c.crc| == 256
  {
    && |reports| <= |calls|
    && forall i :: 0 <= i < |reports| && calls[i].GetMatches? ==> ShortReport(c, reports[i])
  }

  lemma {:induction false} RunFindsShort(mode: R.Mode, c: Config, s: Finder, calls: seq<R.Call>)
    requires R.Sound(mode, c, s) && Current(c, s)
    ensures ShortReports(c, calls, R.Run(mode, c, s, calls))
    decreases calls
  {
    hide R.Sound, R.Ready, R.Skipped, R.Answer, M.WindowOk, Current, ShortReport;
    if calls != [] && s.Avail() != 0 {
      R.StepKeepsSound(mode, c, s, calls[0]);
      StepKeepsCurrent(mode, c, s);
      AnswerFindsShort(mode, c, s);
      var reply := R.Step(mode, c, s, calls[0]);
      var rest := R.Run(mode, c, reply.state, calls[1..]);
      RunFindsShort(mode, c, reply.state, calls[1..]);
      assert R.Run(mode, c, s, calls) == [R.Report(s.Cursor(), s.lenLimit, reply.found)] + rest;
    }
  }

  /** In every run from Init, cut short or not, the newest positions with the short hashes are never passed over. */
  lemma EveryRunFindsShort(mode: R.Mode, c: Config, son: seq<UInt32>, calls: seq<R.Call>)
    requires c.Valid() && |son| == mode.Sons(c)
    ensures R.Sound(mode, c, M.Init(c, son)) && ShortReports(c, calls, R.Run(mode, c, M.Init(c, son), calls))
  {
    hide M.Init, R.Sound, R.Run, ShortReports, Current;
    R.InitSound(mode, c, son);
    InitCurrent(c, son);
    RunFindsShort(mode, c, M.Init(c, son), calls);
  }
}
