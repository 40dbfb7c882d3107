// lib/lzma/C/LzFind.c: what Hc4 finds: as the trees do, the longest match in the window, or, when walks are cut short,
// the longest with any of as many of the newest positions as the cut value allows for.
module LzChainLongest {
  import opened LzChain
  import opened LzDescent
  import opened LzFinder
  import opened LzHash
  import opened LzIndex
  import L = LzLongest
  import M = LzMatches
  import opened LzTree
  import R = LzRuns
  import opened LzShort
  import opened SearchSpec

  // ---- The walk along a chain ----

  /** The walk comes to the end of the chain, or to a match of limit bytes, before the cut value is used up. */
  predicate Enough(text: seq<Byte>, chain: seq<nat>, cur: nat, limit: nat, cut: nat) {
    || chain == []
    || (cut > 0 && (Lcp(text, chain[0], cur, limit) == limit || Enough(text, chain[1..], cur, limit, cut - 1)))
  }

  lemma LongerPasses(text: seq<Byte>, p: int, cur: int, limit: nat, maxLen: nat)
    requires maxLen < Lcp(text, p, cur, limit)
    ensures At(text, p + maxLen) == At(text, cur + maxLen) && At(text, p) == At(text, cur)
  {
    LcpIsCommonPrefix(text, p, cur, limit);
    assert SameAt(text, p, cur, 0) && SameAt(text, p, cur, maxLen);
  }

  /** A position that fails the quick test shares no more bytes than the last match has. */
  lemma QuickTest(text: seq<Byte>, p: int, cur: int, limit: nat, maxLen: nat)
    requires !(At(text, p + maxLen) == At(text, cur + maxLen) && At(text, p) == At(text, cur))
    ensures Lcp(text, p, cur, limit) <= maxLen
  {
    hide At, Lcp;
    if maxLen < Lcp(text, p, cur, limit) {
      LongerPasses(text, p, cur, limit, maxLen);
    }
  }

  /** A position that passes it is compared from the second byte on, and that finds all it shares. */
  lemma ComparedWhole(text: seq<Byte>, p: int, cur: int, limit: nat)
    requires 1 <= limit && At(text, p) == At(text, cur)
    ensures Extend(text, p, cur, 1, limit) == Lcp(text, p, cur, limit)
  {
    LcpIsCommonPrefix(text, p, cur, limit);
    assert SameAt(text, p, cur, 0);
    ExtendFindsLcp(text, p, cur, 1, limit);
  }

  /** One step along the chain, in terms of what the position met shares. */
  lemma FollowUnfolds(text: seq<Byte>, env: Env, son: seq<UInt32>, v: UInt32, chain: seq<nat>, limit: nat, cut: nat,
                      maxLen: nat, found: seq<Match>)
    returns (next: UInt32)
    requires env.Valid() && 0 <= env.cursor && |son| == env.size && Linked(son, env, v, chain)
    requires chain != [] && 1 <= maxLen < limit && 0 < cut
    ensures Linked(son, env, next, chain[1..]) && chain[0] < env.cursor
    ensures var len := Lcp(text, chain[0], env.cursor, limit);
            var found' := Extended(found, len, env.cursor - chain[0] - 1, maxLen);
            && found' <= Follow(text, env, son, v, limit, cut, maxLen, found)
            && (len < limit ==> Follow(text, env, son, v, limit, cut, maxLen, found)
                                == Follow(text, env, son, next, limit, cut - 1, Longer(len, maxLen), found'))
  {
    hide At, Lcp, Extend;
    var delta := Sub32(env.pos, v);
    next := son[Slot(env, delta)];
    var p, len := chain[0], Lcp(text, chain[0], env.cursor, limit);
    LcpIsCommonPrefix(text, p, env.cursor, limit);
    if At(text, p + maxLen) == At(text, env.cursor + maxLen) && At(text, p) == At(text, env.cursor) {
      ComparedWhole(text, p, env.cursor, limit);
      FollowAdds(text, env, son, next, limit, cut - 1, Longer(len, maxLen),
                 Extended(found, len, Sub32(delta, 1), maxLen));
    } else {
      QuickTest(text, p, env.cursor, limit, maxLen);
      FollowAdds(text, env, son, next, limit, cut - 1, maxLen, found);
    }
  }

  /** What any position of the chain shares with the current one is not more than maxLen, or some match is as long and
      no farther back. Of a walk that is cut short this is true of as many positions as the cut value lets it visit. */
  lemma {:induction false} FollowLongest(text: seq<Byte>, env: Env, son: seq<UInt32>, v: UInt32, chain: seq<nat>,
                                         limit: nat, cut: nat, maxLen: nat, found: seq<Match>, i: nat)
    requires env.Valid() && 0 <= env.cursor && |son| == env.size && Linked(son, env, v, chain)
    requires Descending(chain) && i < |chain| && 1 <= maxLen < Lcp(text, chain[i], env.cursor, limit)
    requires i < cut || Enough(text, chain, env.cursor, limit, cut)
    ensures Covers(Follow(text, env, son, v, limit, cut, maxLen, found), env.cursor, chain[i],
                   Lcp(text, chain[i], env.cursor, limit))
    decreases cut
  {
    hide Lcp, Follow, Linked, Covers;
    LcpIsCommonPrefix(text, chain[i], env.cursor, limit);
    var next := FollowUnfolds(text, env, son, v, chain, limit, cut, maxLen, found);
    var len, len' := Lcp(text, chain[0], env.cursor, limit), Lcp(text, chain[i], env.cursor, limit);
    if len' <= len {
      L.VisitedCovers(found, Follow(text, env, son, v, limit, cut, maxLen, found),
                      Match(len, env.cursor - chain[0] - 1), env.cursor, chain[i], len');
    } else {
      FollowLongest(text, env, son, next, chain[1..], limit, cut - 1, Longer(len, maxLen),
                    Extended(found, len, env.cursor - chain[0] - 1, maxLen), i - 1);
    }
  }

  // ---- Full chains ----

  /** The newest position comes first. */
  ghost predicate Descending(chain: seq<nat>) {
    forall i, j :: 0 <= i < j < |chain| ==> chain[j] < chain[i]
  }

  lemma NewestInFront(p: nat, chain: seq<nat>)
    requires Descending(chain) && forall q :: q in chain ==> q < p
    ensures Descending([p] + chain)
    ensures forall q :: q in [p] + chain <==> q == p || q in chain
  {
    var whole := [p] + chain;
    forall i, j | 0 <= i < j < |whole|
      ensures whole[j] < whole[i]
    {
      assert chain[j - 1] in chain && whole[j] == chain[j - 1];
    }
  }

  /** Trimming drops exactly the old positions. */
  lemma {:induction false} TrimIsExact(chain: seq<nat>, oldest: int)
    requires Descending(chain)
    ensures Descending(Trim(chain, oldest))
    ensures forall p :: p in Trim(chain, oldest) <==> p in chain && oldest <= p
    decreases chain
  {
    if chain != [] {
      var rest := chain[1..];
      assert Descending(rest) && forall q :: q in rest ==> q < chain[0];
      TrimIsExact(rest, oldest);
      NewestInFront(chain[0], rest);
      NewestInFront(chain[0], Trim(rest, oldest));
      assert [chain[0]] + rest == chain;
    }
  }

  /** The chain of slot k holds exactly the positions of the window with hash k, the newest first. */
  ghost predicate ChainFull(c: Config, chain: seq<nat>, k: nat, oldest: int, cur: int)
    requires |c.crc| == 256
  {
    && Descending(chain)
    && forall p: nat :: p in chain <==> oldest <= p < cur && Hash4At(c, p) == k
  }

  ghost predicate ChainsFull(c: Config, chains: seq<seq<nat>>, oldest: int, cur: int)
    requires |c.crc| == 256
  {
    forall k :: 0 <= k < |chains| ==> ChainFull(c, chains[k], k, oldest, cur)
  }

  lemma GrownChainFull(c: Config, chain: seq<nat>, k: nat, oldest: int, cur: nat)
    requires |c.crc| == 256 && ChainFull(c, chain, k, oldest, cur) && Hash4At(c, cur) == k && oldest <= cur
    ensures ChainFull(c, [cur] + chain, k, oldest, cur + 1)
  {
    hide Hash4At;
    NewestInFront(cur, chain);
  }

  lemma TrimmedChainFull(c: Config, chain: seq<nat>, k: nat, oldest: int, oldest': int, cur: int)
    requires |c.crc| == 256 && ChainFull(c, chain, k, oldest, cur) && oldest <= oldest'
    ensures ChainFull(c, Trim(chain, oldest'), k, oldest', cur)
  {
    hide Hash4At;
    TrimIsExact(chain, oldest');
  }

  lemma ChainsNextFull(c: Config, env: Env, chains: seq<seq<nat>>)
    requires |c.crc| == 256 && |chains| == Pow2(c.hashBits) && 0 <= env.cursor && env.Valid()
    requires ChainsFull(c, chains, NextOldest(env) - 1, env.cursor)
    ensures ChainsFull(c, TrimAll(Grown(c, env, chains), NextOldest(env)), NextOldest(env), env.cursor + 1)
  {
    hide Hash4At, Pow2, ChainFull, Trim;
    var oldest, grown := NextOldest(env), Grown(c, env, chains);
    forall k | 0 <= k < |chains|
      ensures ChainFull(c, Trim(grown[k], oldest), k, oldest, env.cursor + 1)
    {
      assert ChainFull(c, chains[k], k, oldest - 1, env.cursor);
      if k == Hash4At(c, env.cursor) {
        GrownChainFull(c, chains[k], k, oldest - 1, env.cursor);
      } else {
        ElsewhereFull(c, chains[k], k, oldest - 1, env.cursor);
      }
      TrimmedChainFull(c, grown[k], k, oldest - 1, oldest, env.cursor + 1);
    }
  }

  lemma ElsewhereFull(c: Config, chain: seq<nat>, k: nat, oldest: int, cur: nat)
    requires |c.crc| == 256 && ChainFull(c, chain, k, oldest, cur) && Hash4At(c, cur) != k
    ensures ChainFull(c, chain, k, oldest, cur + 1)
  {
    hide Hash4At;
  }

  // ---- One call ----

  /** Nothing is lost as long as whole hashes can be read. */
  ghost predicate Full(c: Config, s: Finder, chains: seq<seq<nat>>)
    requires |c.crc| == 256
  {
    4 <= s.lenLimit ==> ChainsFull(c, chains, s.Cursor() + 1 - c.Size(), s.Cursor())
  }

  /** The walk of this call is not cut short. */
  ghost predicate NotCut(c: Config, s: Finder, chains: seq<seq<nat>>)
    requires M.WindowOk(c, s) && |chains| == Pow2(c.hashBits)
  {
    4 <= s.lenLimit ==> Enough(c.input, chains[Hash4At(c, s.Cursor())], s.Cursor(), s.lenLimit, c.cutValue)
  }

  /** A call of either kind loses no position of the next window, cut short or not. */
  lemma SkipKeepsFull(c: Config, s: Finder, chains: seq<seq<nat>>)
    requires StateOk(c, s, chains) && 0 < s.Avail() && Full(c, s, chains)
    ensures StateOk(c, Hc4Skip(c, s), NextChains(c, s, chains)) && Full(c, Hc4Skip(c, s), NextChains(c, s, chains))
  {
    hide HeadsOk, ChainsOk, MovePos, Hash4At, Pow2, ChainsFull, Grown, Hashed, TrimAll;
    SkipKeepsState(c, s, chains);
    LimitShrinks(c, s);
    hide Hc4Skip;
    if 4 <= Hc4Skip(c, s).lenLimit {
      ChainsNextFull(c, M.EnvOf(c, s), chains);
    }
  }

  lemma LimitShrinks(c: Config, s: Finder)
    requires Ready(c, s)
    ensures Hc4Skip(c, s).lenLimit <= s.lenLimit
  {
    hide MovePos, Hash4At, Hashed;
    if s.lenLimit < 4 {
      M.MovePosOk(c, s);
    } else {
      M.MovePosOk(c, s.(hash := Hashed(c, M.EnvOf(c, s), s.hash), son := s.son[s.cyc := CurMatch(c, s)]));
    }
  }

  // ---- What is found ----

  /** A call that is not cut short reports the longest match of the window, if it has four bytes, and for each length
      the closest; and any call does so among the positions with fewer than cutValue newer ones. */
  lemma GetFindsLongest(c: Config, s: Finder, chains: seq<seq<nat>>, whole: bool)
    requires StateOk(c, s, chains) && 0 < s.Avail() && Full(c, s, chains) && Current(c, s)
    requires whole ==> NotCut(c, s, chains)
    ensures L.Longest(c, s.Cursor(), s.lenLimit, Hc4GetMatches(c, s).found, whole)
  {
    hide ChainsOk, HeadsOk, Pow2, Full, NotCut, Current, Hc4GetMatches, Covers, Reaches, GoodMatches, Lcp, L.InSight;
    GetReportsTrueMatches(c, s, chains);
    var found := Hc4GetMatches(c, s).found;
    forall p: nat | L.InSight(c, p, s.Cursor(), whole) && 4 <= Lcp(c.input, p, s.Cursor(), s.lenLimit)
      ensures Covers(found, s.Cursor(), p, Lcp(c.input, p, s.Cursor(), s.lenLimit))
      ensures Reaches(found, Lcp(c.input, p, s.Cursor(), s.lenLimit))
    {
      LcpIsCommonPrefix(c.input, p, s.Cursor(), s.lenLimit);
      PositionIsCovered(c, s, chains, whole, p);
      CoversReaches(c.input, s.Cursor(), s.Cursor() - c.historySize, found, s.lenLimit, p,
                    Lcp(c.input, p, s.Cursor(), s.lenLimit));
    }
  }

  /** Before place i of a full chain stand only newer positions. */
  lemma NewerInFront(c: Config, chain: seq<nat>, k: nat, oldest: int, cur: int, i: nat)
    requires |c.crc| == 256 && ChainFull(c, chain, k, oldest, cur) && i < |chain|
    ensures i <= |L.Newer(c, k, chain[i], cur)|
  {
    hide Hash4At;
    forall j | 0 <= j < i
      ensures chain[j] in L.Newer(c, k, chain[i], cur)
    {
      assert chain[j] in chain;
    }
    DistinctCount(chain, i, L.Newer(c, k, chain[i], cur));
  }

  lemma {:induction false} DistinctCount(chain: seq<nat>, i: nat, s: set<nat>)
    requires Descending(chain) && i <= |chain| && forall j :: 0 <= j < i ==> chain[j] in s
    ensures i <= |s|
  {
    if i > 0 {
      DistinctCount(chain, i - 1, s - {chain[i - 1]});
    }
  }

  /** By the heads when they share as much, else by the walk. */
  lemma PositionIsCovered(c: Config, s: Finder, chains: seq<seq<nat>>, whole: bool, p: nat)
    requires StateOk(c, s, chains) && 0 < s.Avail() && Full(c, s, chains) && Current(c, s)
    requires (whole ==> NotCut(c, s, chains)) && L.InSight(c, p, s.Cursor(), whole)
    requires 4 <= Lcp(c.input, p, s.Cursor(), s.lenLimit)
    ensures Covers(Hc4GetMatches(c, s).found, s.Cursor(), p, Lcp(c.input, p, s.Cursor(), s.lenLimit))
  {
    LcpIsCommonPrefix(c.input, p, s.Cursor(), s.lenLimit);
    hide Hash4At, HeadsOk, ChainsOk, HeadsNewest, Pow2, Hashed, MovePos, M.ShortMatches, Follow, Enough, ChainsFull,
         Covers, Lcp, TrueMatch, L.Newer;
    var len, short := Lcp(c.input, p, s.Cursor(), s.lenLimit), M.ShortMatches(c, M.EnvOf(c, s), s.hash, s.lenLimit);
    Hc4AnswerBegins(c, s);
    if len <= short.maxLen {
      HeadsCover(c, M.EnvOf(c, s), s.hash, s.lenLimit, p);
      MoreCovers(short.found, Hc4GetMatches(c, s).found, s.Cursor(), p, len);
    } else {
      WalkFindsLongest(c, s, chains, whole, p);
    }
  }

  /** The walk of a call, for a position that shares more than the heads gave. */
  lemma WalkFindsLongest(c: Config, s: Finder, chains: seq<seq<nat>>, whole: bool, p: nat)
    requires StateOk(c, s, chains) && 0 < s.Avail() && Full(c, s, chains) && 4 <= s.lenLimit
    requires (whole ==> NotCut(c, s, chains)) && L.InSight(c, p, s.Cursor(), whole)
    requires 4 <= Lcp(c.input, p, s.Cursor(), s.lenLimit)
    requires M.ShortMatches(c, M.EnvOf(c, s), s.hash, s.lenLimit).maxLen < Lcp(c.input, p, s.Cursor(), s.lenLimit)
    ensures Covers(Hc4Walk(c, s), s.Cursor(), p, Lcp(c.input, p, s.Cursor(), s.lenLimit))
  {
    hide At, Hash2At, Hash3At, Hash4At, HeadsOk, Pow2, M.ShortMatches, Follow, Enough, Lcp, Linked, Covers;
    var env, h, limit := M.EnvOf(c, s), Hash4At(c, s.Cursor()), s.lenLimit;
    var v, chain, short := CurMatch(c, s), chains[h], M.ShortMatches(c, env, s.hash, limit);
    assert Linked(s.son, env, v, chain);
    assert ChainFull(c, chain, h, s.Cursor() + 1 - c.Size(), s.Cursor());
    hide ChainsOk, ChainsFull, ChainFull, L.Newer;
    LinkedFrame(s.son, env, v, chain, v);
    L.SameHash(c, p, s.Cursor(), limit);
    InFullChain(c, chain, h, s.Cursor() + 1 - c.Size(), s.Cursor(), p);
    var i :| 0 <= i < |chain| && chain[i] == p;
    NewerInFront(c, chain, h, s.Cursor() + 1 - c.Size(), s.Cursor(), i);
    LcpIsCommonPrefix(c.input, p, s.Cursor(), limit);
    FollowLongest(c.input, env, s.son[s.cyc := v], v, chain, limit, c.cutValue, Longer(short.maxLen, 3), short.found,
                  i);
  }

  lemma InFullChain(c: Config, chain: seq<nat>, k: nat, oldest: int, cur: int, p: nat)
    requires |c.crc| == 256 && ChainFull(c, chain, k, oldest, cur) && oldest <= p < cur && Hash4At(c, p) == k
    ensures p in chain && Descending(chain)
  {
    hide Hash4At;
  }

  // ---- Whole runs ----

  /** No walk of the run is cut short. */
  ghost predicate NeverCut(c: Config, s: Finder, chains: seq<seq<nat>>, calls: seq<R.Call>)
    requires StateOk(c, s, chains)
    decreases calls
  {
    calls == [] || s.Avail() == 0
    || (&& NotCut(c, s, chains)
        && (SkipKeepsState(c, s, chains); NeverCut(c, Hc4Skip(c, s), NextChains(c, s, chains), calls[1..])))
  }

  lemma {:induction false} RunFindsLongest(c: Config, s: Finder, chains: seq<seq<nat>>, calls: seq<R.Call>,
                                           whole: bool)
    requires StateOk(c, s, chains) && Full(c, s, chains) && Current(c, s)
    requires whole ==> NeverCut(c, s, chains, calls)
    ensures R.Sound(R.Hc4, c, s) && L.LongestReports(c, calls, R.Run(R.Hc4, c, s, calls), whole)
    decreases calls
  {
    IsSound(c, s, chains);
    hide R.Sound, R.Run, StateOk, Full, NotCut, Current, L.LongestReport, M.WindowOk, Hc4GetMatches, Hc4Skip;
    if calls == [] || s.Avail() == 0 {
      L.NoMoreReports(R.Hc4, c, s, calls, whole);
    } else {
      SkipKeepsFull(c, s, chains);
      R.SoundIsReady(R.Hc4, c, s);
      StepKeepsCurrent(R.Hc4, c, s);
      RunFindsLongest(c, Hc4Skip(c, s), NextChains(c, s, chains), calls[1..], whole);
      TurnFindsLongest(c, s, chains, calls, whole);
    }
  }

  lemma IsSound(c: Config, s: Finder, chains: seq<seq<nat>>)
    requires StateOk(c, s, chains)
    ensures R.Sound(R.Hc4, c, s)
  {
    hide StateOk;
  }

  lemma TurnFindsLongest(c: Config, s: Finder, chains: seq<seq<nat>>, calls: seq<R.Call>, whole: bool)
    requires StateOk(c, s, chains) && 0 < s.Avail() && Full(c, s, chains) && Current(c, s)
    requires (whole ==> NotCut(c, s, chains)) && calls != []
    requires R.Sound(R.Hc4, c, s) && R.Sound(R.Hc4, c, Hc4Skip(c, s))
    requires L.LongestReports(c, calls[1..], R.Run(R.Hc4, c, Hc4Skip(c, s), calls[1..]), whole)
    ensures L.LongestReports(c, calls, R.Run(R.Hc4, c, s, calls), whole)
  {
    R.SoundIsReady(R.Hc4, c, s);
    StepFindsLongest(c, s, chains, whole);
    hide R.Sound, R.Ready, StateOk, Full, NotCut, Current, L.LongestReport, M.WindowOk, Hc4GetMatches, Hc4Skip;
    L.OneMoreReport(R.Hc4, c, s, calls, whole);
  }

  lemma StepFindsLongest(c: Config, s: Finder, chains: seq<seq<nat>>, whole: bool)
    requires StateOk(c, s, chains) && 0 < s.Avail() && Full(c, s, chains) && Current(c, s)
    requires whole ==> NotCut(c, s, chains)
    ensures L.LongestReport(c, R.Report(s.Cursor(), s.lenLimit, Hc4GetMatches(c, s).found), whole)
  {
    GetFindsLongest(c, s, chains, whole);
  }

  lemma InitFull(c: Config, son: seq<UInt32>)
    requires c.Valid() && |son| == c.Size()
    ensures StateOk(c, M.Init(c, son), NoChains(c)) && Full(c, M.Init(c, son), NoChains(c))
  {
    hide M.Init, StateOk, Pow2, Hash4At;
    InitOk(c, son);
  }

  // ---- When nothing is cut ----

  /** A full chain has no more positions than the window. */
  lemma {:induction false} FewPositions(chain: seq<nat>, lo: int, hi: int)
    requires Descending(chain) && lo <= hi && forall p :: p in chain ==> lo <= p < hi
    ensures |chain| <= hi - lo
    decreases chain
  {
    if chain != [] {
      var rest := chain[1..];
      assert Descending(rest) && chain[0] in chain && forall p :: p in rest ==> p in chain && p < chain[0];
      FewPositions(rest, lo, chain[0]);
    }
  }

  lemma FullChainIsShort(c: Config, chain: seq<nat>, k: nat, oldest: int, cur: int)
    requires |c.crc| == 256 && ChainFull(c, chain, k, oldest, cur) && oldest <= cur
    ensures |chain| <= cur - oldest
  {
    hide Hash4At;
    FewPositions(chain, oldest, cur);
  }

  lemma {:induction false} ShortChainSuffices(text: seq<Byte>, chain: seq<nat>, cur: nat, limit: nat, cut: nat)
    requires |chain| <= cut
    ensures Enough(text, chain, cur, limit, cut)
    decreases chain
  {
    if chain != [] {
      ShortChainSuffices(text, chain[1..], cur, limit, cut - 1);
    }
  }

  /** With a cut value as large as the window no walk is cut short. */
  lemma WideCutSuffices(c: Config, s: Finder, chains: seq<seq<nat>>)
    requires StateOk(c, s, chains) && Full(c, s, chains) && c.historySize <= c.cutValue
    ensures NotCut(c, s, chains)
  {
    if 4 <= s.lenLimit {
      var h := Hash4At(c, s.Cursor());
      assert ChainFull(c, chains[h], h, s.Cursor() + 1 - c.Size(), s.Cursor());
      hide Hash4At, Pow2, Enough, ChainsOk, HeadsOk, ChainsFull;
      FullChainIsShort(c, chains[h], h, s.Cursor() + 1 - c.Size(), s.Cursor());
      ShortChainSuffices(c.input, chains[h], s.Cursor(), s.lenLimit, c.cutValue);
    }
  }

  lemma {:induction false} WideCutNeverCuts(c: Config, s: Finder, chains: seq<seq<nat>>, calls: seq<R.Call>)
    requires StateOk(c, s, chains) && Full(c, s, chains) && c.historySize <= c.cutValue
    ensures NeverCut(c, s, chains, calls)
    decreases calls
  {
    WideCutSuffices(c, s, chains);
    if calls != [] && s.Avail() != 0 {
      SkipKeepsFull(c, s, chains);
      WideCutNeverCuts(c, Hc4Skip(c, s), NextChains(c, s, chains), calls[1..]);
    }
    hide StateOk, NotCut, Hc4Skip;
  }

  /** From Init on, every run is answered with the longest matches with positions that have fewer than cutValue newer
      ones, and one in which no walk is cut short with the longest of the window; and a cut value as large as the window
      cuts no walk of any run. */
  lemma EveryRunFindsLongest(c: Config, son: seq<UInt32>, calls: seq<R.Call>)
    requires c.Valid() && |son| == c.Size()
    ensures StateOk(c, M.Init(c, son), NoChains(c)) && R.Sound(R.Hc4, c, M.Init(c, son))
    ensures L.LongestReports(c, calls, R.Run(R.Hc4, c, M.Init(c, son), calls), false)
    ensures NeverCut(c, M.Init(c, son), NoChains(c), calls) ==>
              L.LongestReports(c, calls, R.Run(R.Hc4, c, M.Init(c, son), calls), true)
    ensures c.historySize <= c.cutValue ==> NeverCut(c, M.Init(c, son), NoChains(c), calls)
  {
    hide M.Init, StateOk, Full, NeverCut, Current, R.Run, L.LongestReports, NoChains;
    InitFull(c, son);
    InitCurrent(c, son);
    R.InitSound(R.Hc4, c, son);
    RunFindsLongest(c, M.Init(c, son), NoChains(c), calls, false);
    if NeverCut(c, M.Init(c, son), NoChains(c), calls) {
      RunFindsLongest(c, M.Init(c, son), NoChains(c), calls, true);
    }
    if c.historySize <= c.cutValue {
      WideCutNeverCuts(c, M.Init(c, son), NoChains(c), calls);
    }
  }
}
