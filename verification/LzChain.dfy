// lib/lzma/C/LzFind.c: the Hc4 match finder, which keeps a linked chain of positions per hash slot
// in the cyclic buffer instead of a tree.
module LzChain {
  import opened SearchSpec
  import opened LzHash
  import opened LzTree
  import opened LzDescent
  import opened LzFinder
  import opened LzIndex
  import opened LzMatches

  /** The word of the position this distance back: half of what a tree node takes. */
  function Slot(env: Env, delta: UInt32): (i: nat)
    requires env.cyc < env.size && delta < env.size
    ensures i < env.size
  {
    env.Pair(delta) / 2
  }

  /** Hc_GetMatchesSpec, after its first store. */
  function Follow(text: seq<Byte>, env: Env, son: seq<UInt32>, v: UInt32, limit: nat, cut: nat,
                  maxLen: nat, found: seq<Match>): seq<Match>
    requires env.cyc < env.size == |son| && 1 <= limit
    decreases cut
  {
    var delta := Sub32(env.pos, v);
    if cut == 0 || delta >= env.size then found
    else
      var next := son[Slot(env, delta)];
      var pb, cur := env.cursor - delta, env.cursor;
      if At(text, pb + maxLen) == At(text, cur + maxLen) && At(text, pb) == At(text, cur) then
        var len := Extend(text, pb, cur, 1, limit);
        var found' := Extended(found, len, Sub32(delta, 1), maxLen);
        if maxLen < len == limit then found'
        else Follow(text, env, son, next, limit, cut - 1, Longer(len, maxLen), found')
      else Follow(text, env, son, next, limit, cut - 1, maxLen, found)
  }

  // ---- What the array represents ----

  /** Following references from v visits exactly the positions of chain. */
  ghost predicate Linked(son: seq<UInt32>, env: Env, v: UInt32, chain: seq<nat>)
    requires env.Valid() && |son| == env.size
    decreases chain
  {
    if chain == [] then v + env.size <= env.pos
    else
      && v < env.pos < v + env.size && chain[0] == env.cursor - (env.pos - v)
      && Linked(son, env, son[Slot(env, env.pos - v)], chain[1..])
  }

  /** What remains of a chain when positions before `oldest` are no longer visible. */
  function Trim(chain: seq<nat>, oldest: int): seq<nat> {
    if chain == [] || chain[0] < oldest then [] else [chain[0]] + Trim(chain[1..], oldest)
  }

  /** The current slot belongs to no position of the window. */
  lemma {:induction false} LinkedFrame(son: seq<UInt32>, env: Env, v: UInt32, chain: seq<nat>, x: UInt32)
    requires env.Valid() && |son| == env.size && Linked(son, env, v, chain)
    ensures Linked(son[env.cyc := x], env, v, chain)
    decreases chain
  {
    if chain != [] {
      LinkedFrame(son, env, son[Slot(env, env.pos - v)], chain[1..], x);
    }
  }

  lemma {:induction false} LinkedNext(son: seq<UInt32>, env: Env, v: UInt32, chain: seq<nat>, sub: UInt32)
    requires CanLower(env, sub) && |son| == env.size && Linked(son, env, v, chain)
    ensures NextEnv(env, sub).Valid()
    ensures Linked(LoweredAll(son, sub), NextEnv(env, sub), Lowered(v, sub), Trim(chain, NextOldest(env)))
    decreases chain
  {
    RefNext(env, v, sub);
    if chain != [] && NextOldest(env) <= chain[0] {
      var rest := Trim(chain[1..], NextOldest(env));
      LinkedNext(son, env, son[Slot(env, env.pos - v)], chain[1..], sub);
      assert ([chain[0]] + rest)[1..] == rest;
    }
  }

  lemma NewestLinked(son: seq<UInt32>, env: Env, v: UInt32, chain: seq<nat>, sub: UInt32)
    requires CanLower(env, sub) && |son| == env.size && Linked(son, env, v, chain)
    ensures NextEnv(env, sub).Valid()
    ensures Linked(LoweredAll(son[env.cyc := v], sub), NextEnv(env, sub), Lowered(env.pos, sub),
                   Trim([env.cursor] + chain, NextOldest(env)))
  {
    RefNext(env, env.pos, sub);
    LinkedFrame(son, env, v, chain, v);
    LinkedNext(son[env.cyc := v], env, v, chain, sub);
    var rest := Trim(chain, NextOldest(env));
    assert ([env.cursor] + chain)[1..] == chain;
    assert ([env.cursor] + rest)[1..] == rest;
  }

  ghost predicate ChainsOk(env: Env, hash: seq<UInt32>, son: seq<UInt32>, chains: seq<seq<nat>>)
    requires |hash| == FIX4 + |chains|
  {
    && env.Valid() && |son| == env.size
    && forall k :: 0 <= k < |chains| ==> Linked(son, env, hash[FIX4 + k], chains[k])
  }

  ghost predicate StateOk(c: Config, s: Finder, chains: seq<seq<nat>>) {
    && WindowOk(c, s)
    && |s.son| == c.Size() && |chains| == Pow2(c.hashBits) && |s.hash| == FIX4 + |chains|
    && HeadsOk(c, EnvOf(c, s), s.hash)
    && ChainsOk(EnvOf(c, s), s.hash, s.son, chains)
  }

  function NoChains(c: Config): (chains: seq<seq<nat>>)
    ensures |chains| == Pow2(c.hashBits) && forall k :: 0 <= k < |chains| ==> chains[k] == []
  {
    seq(Pow2(c.hashBits), k => [])
  }

  lemma InitOk(c: Config, son: seq<UInt32>)
    requires c.Valid() && |son| == c.Size()
    ensures StateOk(c, Init(c, son), NoChains(c)) && Init(c, son).Cursor() == 0
  {
    hide Init, Pow2, HeadsOk, At;
    InitWindowOk(c, son);
    EmptyHeadsOk(c, EnvOf(c, Init(c, son)), Init(c, son).hash);
  }

  // ---- Hc4 ----

  ghost predicate Ready(c: Config, s: Finder) {
    WindowOk(c, s) && 0 < s.Avail() && |s.son| == c.Size() && |s.hash| == FIX4 + Pow2(c.hashBits)
  }

  function CurMatch(c: Config, s: Finder): UInt32
    requires |c.crc| == 256 && |s.hash| == FIX4 + Pow2(c.hashBits)
  {
    s.hash[FIX4 + Hash4At(c, s.Cursor())]
  }

  function Hc4Walk(c: Config, s: Finder): seq<Match>
    requires Ready(c, s) && 4 <= s.lenLimit
  {
    var env := EnvOf(c, s);
    var short := ShortMatches(c, env, s.hash, s.lenLimit);
    var v := CurMatch(c, s);
    if short.maxLen == s.lenLimit then short.found
    else Follow(c.input, env, s.son[s.cyc := v], v, s.lenLimit, c.cutValue, Longer(short.maxLen, 3), short.found)
  }

  /** Hc4_MatchFinder_GetMatches. */
  function Hc4GetMatches(c: Config, s: Finder): Reply
    requires Ready(c, s)
  {
    if s.lenLimit < 4 then Reply(MovePos(c, s), [])
    else
      Reply(MovePos(c, s.(hash := Hashed(c, EnvOf(c, s), s.hash), son := s.son[s.cyc := CurMatch(c, s)])),
            Hc4Walk(c, s))
  }

  /** Hc4_MatchFinder_Skip by one position. */
  function Hc4Skip(c: Config, s: Finder): Finder
    requires Ready(c, s)
  {
    if s.lenLimit < 4 then MovePos(c, s)
    else MovePos(c, s.(hash := Hashed(c, EnvOf(c, s), s.hash), son := s.son[s.cyc := CurMatch(c, s)]))
  }

  lemma SkipMatchesGet(c: Config, s: Finder)
    requires Ready(c, s)
    ensures Hc4GetMatches(c, s).state == Hc4Skip(c, s)
  {
    hide MovePos, Hashed, Hc4Walk;
  }

  function TrimAll(chains: seq<seq<nat>>, oldest: int): (trimmed: seq<seq<nat>>)
    ensures |trimmed| == |chains| && forall k :: 0 <= k < |chains| ==> trimmed[k] == Trim(chains[k], oldest)
  {
    seq(|chains|, k requires 0 <= k < |chains| => Trim(chains[k], oldest))
  }

  /** The chains with the current position at the head of its own. */
  function Grown(c: Config, env: Env, chains: seq<seq<nat>>): (chains': seq<seq<nat>>)
    requires |c.crc| == 256 && |chains| == Pow2(c.hashBits)
    ensures |chains'| == |chains|
  {
    var h := Hash4At(c, env.cursor);
    chains[h := [env.cursor] + chains[h]]
  }

  function NextChains(c: Config, s: Finder, chains: seq<seq<nat>>): (chains': seq<seq<nat>>)
    requires WindowOk(c, s) && |chains| == Pow2(c.hashBits)
    ensures |chains'| == |chains|
  {
    var env := EnvOf(c, s);
    TrimAll(if s.lenLimit < 4 then chains else Grown(c, env, chains), NextOldest(env))
  }

  lemma ChainsNext(env: Env, hash: seq<UInt32>, son: seq<UInt32>, chains: seq<seq<nat>>, sub: UInt32)
    requires |hash| == FIX4 + |chains| && ChainsOk(env, hash, son, chains) && CanLower(env, sub)
    ensures ChainsOk(NextEnv(env, sub), LoweredAll(hash, sub), LoweredAll(son, sub), TrimAll(chains, NextOldest(env)))
  {
    var next := NextEnv(env, sub);
    RefNext(env, env.pos - env.size, sub);
    assert next.Valid();
    forall k | 0 <= k < |chains|
      ensures Linked(LoweredAll(son, sub), next, LoweredAll(hash, sub)[FIX4 + k], Trim(chains[k], NextOldest(env)))
    {
      LinkedNext(son, env, hash[FIX4 + k], chains[k], sub);
    }
  }

  lemma GrownChainsNext(c: Config, env: Env, hash: seq<UInt32>, son: seq<UInt32>, chains: seq<seq<nat>>, sub: UInt32)
    requires |c.crc| == 256 && |chains| == Pow2(c.hashBits) && |hash| == FIX4 + |chains|
    requires ChainsOk(env, hash, son, chains) && CanLower(env, sub)
    ensures ChainsOk(NextEnv(env, sub), LoweredAll(Hashed(c, env, hash), sub),
                     LoweredAll(son[env.cyc := hash[FIX4 + Hash4At(c, env.cursor)]], sub),
                     TrimAll(Grown(c, env, chains), NextOldest(env)))
  {
    hide Pow2, Hash2At, Hash3At, Hash4At, At, LoweredAll, Trim, TrimAll;
    var h := Hash4At(c, env.cursor);
    var v := hash[FIX4 + h];
    var son' := son[env.cyc := v];
    NewestLinked(son, env, v, chains[h], sub);
    var next, oldest, trimmed := NextEnv(env, sub), NextOldest(env), TrimAll(Grown(c, env, chains), NextOldest(env));
    forall k | 0 <= k < |chains|
      ensures Linked(LoweredAll(son', sub), next, LoweredAll(Hashed(c, env, hash), sub)[FIX4 + k], trimmed[k])
    {
      if k != h {
        LinkedFrame(son, env, hash[FIX4 + k], chains[k], v);
        LinkedNext(son', env, hash[FIX4 + k], chains[k], sub);
        assert trimmed[k] == Trim(chains[k], oldest);
      } else {
        assert trimmed[k] == Trim([env.cursor] + chains[h], oldest);
      }
    }
  }

  lemma SkipKeepsState(c: Config, s: Finder, chains: seq<seq<nat>>)
    requires StateOk(c, s, chains) && 0 < s.Avail()
    ensures StateOk(c, Hc4Skip(c, s), NextChains(c, s, chains))
    ensures Hc4Skip(c, s).Cursor() == s.Cursor() + 1 && s.Avail() - 1 <= Hc4Skip(c, s).Avail()
  {
    hide MovePos, SubValue, HeadsOk, ChainsOk, LoweredAll, Hashed, Grown, Pow2, CanLower, Hash4At, At;
    var env, sub := EnvOf(c, s), MoveSub(c, s);
    if s.lenLimit < 4 {
      MovePosOk(c, s);
      HeadsNext(c, env, s.hash, sub);
      ChainsNext(env, s.hash, s.son, chains, sub);
    } else {
      MovePosOk(c, s.(hash := Hashed(c, env, s.hash), son := s.son[s.cyc := CurMatch(c, s)]));
      HashedHeadsNext(c, env, s.hash, sub);
      GrownChainsNext(c, env, s.hash, s.son, chains, sub);
    }
  }

  // ---- What is reported ----

  lemma ChainMatch(text: seq<Byte>, env: Env, v: UInt32, limit: nat)
    requires env.Valid() && v < env.pos < v + env.size && 0 <= PosOf(env, v) && 1 <= limit
    requires At(text, PosOf(env, v)) == At(text, env.cursor)
    ensures TrueMatch(text, env.cursor, Oldest(env),
                      Match(Extend(text, PosOf(env, v), env.cursor, 1, limit), env.pos - v - 1))
  {
    assert SameAt(text, PosOf(env, v), env.cursor, 0);
    ExtendKeepsSame(text, PosOf(env, v), env.cursor, 1, limit);
  }

  lemma {:induction false} FollowGood(text: seq<Byte>, env: Env, son: seq<UInt32>, v: UInt32, chain: seq<nat>,
                                      limit: nat, cut: nat, maxLen: nat, found: seq<Match>)
    requires env.Valid() && |son| == env.size && Linked(son, env, v, chain)
    requires GoodMatches(text, env.cursor, Oldest(env), found, maxLen) && 1 <= maxLen <= limit
    ensures GoodMatches(text, env.cursor, Oldest(env), Follow(text, env, son, v, limit, cut, maxLen, found), limit)
    decreases cut
  {
    hide GoodMatches, TrueMatch, Extended, At;
    GoodWithin(text, env.cursor, Oldest(env), found, maxLen, limit);
    var delta := Sub32(env.pos, v);
    if cut != 0 && delta < env.size {
      var next := son[Slot(env, delta)];
      var pb, cur := env.cursor - delta, env.cursor;
      if At(text, pb + maxLen) == At(text, cur + maxLen) && At(text, pb) == At(text, cur) {
        ChainMatch(text, env, v, limit);
        var len := Extend(text, pb, cur, 1, limit);
        var found' := Extended(found, len, Sub32(delta, 1), maxLen);
        ExtendedStaysGood(text, cur, Oldest(env), found, len, Sub32(delta, 1), maxLen);
        if !(maxLen < len == limit) {
          FollowGood(text, env, son, next, chain[1..], limit, cut - 1, Longer(len, maxLen), found');
        }
      } else {
        FollowGood(text, env, son, next, chain[1..], limit, cut - 1, maxLen, found);
      }
    }
  }

  lemma GetReportsTrueMatches(c: Config, s: Finder, chains: seq<seq<nat>>)
    requires StateOk(c, s, chains) && 0 < s.Avail()
    ensures s.Cursor() + s.lenLimit <= |c.input|
    ensures GoodMatches(c.input, s.Cursor(), s.Cursor() - c.historySize, Hc4GetMatches(c, s).found, s.lenLimit)
  {
    hide At, Hash2At, Hash3At, Hash4At, HeadsOk, GoodMatches, TrueMatch, Pow2, HeadHits, Hashed, MovePos, ShortMatches,
         Follow;
    if 4 <= s.lenLimit {
      var env, h := EnvOf(c, s), Hash4At(c, s.Cursor());
      ShortMatchesGood(c, env, s.hash, s.lenLimit);
      var short := ShortMatches(c, env, s.hash, s.lenLimit);
      if short.maxLen < s.lenLimit {
        var maxLen := Longer(short.maxLen, 3);
        GoodWithin(c.input, env.cursor, Oldest(env), short.found, short.maxLen, maxLen);
        LinkedFrame(s.son, env, s.hash[FIX4 + h], chains[h], CurMatch(c, s));
        FollowGood(c.input, env, s.son[s.cyc := CurMatch(c, s)], CurMatch(c, s), chains[h], s.lenLimit, c.cutValue,
                   maxLen, short.found);
      }
    } else {
      NothingIsGood(c.input, s.Cursor(), s.Cursor() - c.historySize, s.lenLimit);
    }
  }
}
