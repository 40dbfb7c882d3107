// lib/lzma/C/LzFind.c: what Bt4 finds: the longest match in the window, or, when walks are cut short, the longest with
// any of as many of the newest positions as the cut value allows for.
module LzLongest {
  import opened LzDescent
  import opened LzFinder
  import opened LzHash
  import opened LzIndex
  import opened LzMatches
  import opened LzTree
  import R = LzRuns
  import opened LzShort
  import opened SearchSpec
  import opened Wrappers

  // ---- Common prefixes ----

  lemma {:induction false} LcpSelf(text: seq<Byte>, p: int, limit: nat)
    ensures Lcp(text, p, p, limit) == limit
    decreases limit
  {
    if limit > 0 {
      LcpSelf(text, p + 1, limit - 1);
    }
  }

  /** Texts that agree on limit bytes have the same common prefixes with any third. */
  lemma {:induction false} LcpSame(text: seq<Byte>, p: int, q: int, cur: int, limit: nat)
    requires Lcp(text, p, q, limit) == limit
    ensures Lcp(text, p, cur, limit) == Lcp(text, q, cur, limit)
    decreases limit
  {
    if limit > 0 {
      LcpSame(text, p + 1, q + 1, cur + 1, limit - 1);
    }
  }

  lemma {:induction false} LcpShorter(text: seq<Byte>, p: int, q: int, limit: nat, limit': nat)
    requires Lcp(text, p, q, limit) == limit && limit' <= limit
    ensures Lcp(text, p, q, limit') == limit'
    decreases limit'
  {
    if limit' > 0 {
      LcpShorter(text, p + 1, q + 1, limit - 1, limit' - 1);
    }
  }

  // ---- The walk passes the best node ----

  lemma {:induction false} WithinBounds(text: seq<Byte>, t: Tree, lo: Option<nat>, hi: Option<nat>, limit: nat, p: nat)
    requires Ordered(text, t, lo, hi, limit) && p in Positions(t)
    ensures AtLeast(text, lo, p, limit) && AtMost(text, p, hi, limit)
  {
    if p in Positions(t.left) {
      WithinBounds(text, t.left, lo, Some(t.at), limit, p);
      if hi.Some? {
        LeqTransitive(text, p, t.at, hi.value, limit);
      }
    } else if p in Positions(t.right) {
      WithinBounds(text, t.right, Some(t.at), hi, limit, p);
      if lo.Some? {
        LeqTransitive(text, lo.value, t.at, p, limit);
      }
    }
  }

  /** A position below the visited node, on the side the walk leaves, shares no more with cur than the node does. */
  lemma LeftBehind(text: seq<Byte>, t: Tree, cur: nat, lo: Option<nat>, hi: Option<nat>, limit: nat, p: nat)
    requires Ordered(text, t, lo, hi, limit) && t.Node? && Lcp(text, t.at, cur, limit) < limit
    requires p in Positions(t) && p !in Positions(NextChild(text, t, cur, limit))
    ensures Lcp(text, p, cur, limit) <= Lcp(text, t.at, cur, limit)
  {
    LcpSelf(text, cur, limit);
    LcpIsCommonPrefix(text, t.at, cur, limit);
    LcpDecidesOrder(text, t.at, cur, limit);
    if p in Positions(t.left) {
      WithinBounds(text, t.left, lo, Some(t.at), limit, p);
      BetweenSharesPrefix(text, p, t.at, cur, cur, Lcp(text, p, cur, limit), limit);
    } else if p in Positions(t.right) {
      WithinBounds(text, t.right, Some(t.at), hi, limit, p);
      BetweenSharesPrefix(text, cur, t.at, p, cur, Lcp(text, p, cur, limit), limit);
    }
  }

  /** The walk reaches the end of its path before the cut value does. */
  predicate Enough(text: seq<Byte>, t: Tree, cur: nat, limit: nat, cut: nat) {
    t.Empty?
    || (cut > 0 && (Lcp(text, t.at, cur, limit) == limit
                    || Enough(text, NextChild(text, t, cur, limit), cur, limit, cut - 1)))
  }

  /** Every node is newer than all below it. */
  ghost predicate NewestFirst(t: Tree) {
    match t
    case Empty => true
    case Node(at, l, r) =>
      (forall p :: p in Positions(l) || p in Positions(r) ==> p < at) && NewestFirst(l) && NewestFirst(r)
  }

  ghost function NewerIn(t: Tree, p: nat): set<nat> {
    set q | q in Positions(t) && p < q
  }

  /** A position below the node has one newer position less in the child that holds it. */
  lemma FewerBelow(t: Tree, next: Tree, p: nat)
    requires NewestFirst(t) && t.Node? && (next == t.left || next == t.right) && p in Positions(next)
    ensures |NewerIn(next, p)| < |NewerIn(t, p)|
  {
    assert NewerIn(next, p) <= NewerIn(t, p) - {t.at} && t.at in NewerIn(t, p);
    CardSubset(NewerIn(next, p), NewerIn(t, p) - {t.at});
  }

  lemma {:induction false} CardSubset(a: set<nat>, b: set<nat>)
    requires a <= b
    ensures |a| <= |b|
  {
    if a != {} {
      var x :| x in a;
      CardSubset(a - {x}, b - {x});
    }
  }

  /** What any position of the tree shares with cur is not more than maxLen, or some match is as long and no farther
      back. Of a walk that is cut short this is true of positions with fewer newer ones than it may visit. */
  lemma {:induction false} SplitMatchesLongest(text: seq<Byte>, t: Tree, cur: nat, lo: Option<nat>, hi: Option<nat>,
                                               limit: nat, cut: nat, maxLen: nat, found: seq<Match>, p: nat)
    requires Ordered(text, t, lo, hi, limit) && NewestFirst(t) && p in Positions(t)
    requires (forall q :: q in Positions(t) ==> q < cur) && maxLen < Lcp(text, p, cur, limit)
    requires |NewerIn(t, p)| < cut || Enough(text, t, cur, limit, cut)
    ensures Covers(SplitMatches(text, t, cur, limit, cut, maxLen, found), cur, p, Lcp(text, p, cur, limit))
    decreases cut
  {
    hide Ordered, Covers, Lcp, NewerIn;
    LcpIsCommonPrefix(text, p, cur, limit);
    assert t.at in Positions(t);
    var len, len', next := Lcp(text, t.at, cur, limit), Lcp(text, p, cur, limit), NextChild(text, t, cur, limit);
    var found' := Extended(found, len, cur - t.at - 1, maxLen);
    if len' <= len {
      if len < limit {
        SplitAdds(text, next, cur, limit, cut - 1, Longer(len, maxLen), found');
      }
      VisitedCovers(found, SplitMatches(text, t, cur, limit, cut, maxLen, found), Match(len, cur - t.at - 1), cur, p,
                    len');
    } else {
      if p !in Positions(next) {
        LeftBehind(text, t, cur, lo, hi, limit, p);
      }
      NextIsOrdered(text, t, cur, lo, hi, limit);
      FewerBelow(t, next, p);
      SplitMatchesLongest(text, next, cur, if next == t.right then Some(t.at) else lo,
                          if next == t.right then hi else Some(t.at), limit, cut - 1, Longer(len, maxLen), found', p);
    }
  }

  lemma VisitedCovers(found: seq<Match>, result: seq<Match>, m: Match, cur: int, p: int, len: nat)
    requires found + [m] <= result && len <= m.length && p <= cur - 1 - m.back
    ensures Covers(result, cur, p, len)
  {
    assert result[|found|] == (found + [m])[|found|];
  }

  lemma NextIsOrdered(text: seq<Byte>, t: Tree, cur: nat, lo: Option<nat>, hi: Option<nat>, limit: nat)
    requires Ordered(text, t, lo, hi, limit) && t.Node?
    ensures var next := NextChild(text, t, cur, limit);
            Ordered(text, next, if next == t.right then Some(t.at) else lo, if next == t.right then hi else Some(t.at),
                    limit)
  {
  }

  // ---- No position of the window is lost ----

  /** So forgetting drops exactly the old positions. */
  lemma {:induction false} PruneIsExact(t: Tree, oldest: int, p: nat)
    requires NewestFirst(t)
    ensures NewestFirst(Prune(t, oldest)) && (p in Positions(Prune(t, oldest)) <==> p in Positions(t) && oldest <= p)
  {
    if t.Node? && oldest <= t.at {
      PruneIsExact(t.left, oldest, p);
      PruneIsExact(t.right, oldest, p);
      forall q | q in Positions(Prune(t.left, oldest)) || q in Positions(Prune(t.right, oldest))
        ensures q < t.at
      {
        PruneIsExact(t.left, oldest, q);
        PruneIsExact(t.right, oldest, q);
      }
    }
  }

  /** A split loses no position that has fewer newer ones than it may visit nodes, and one that is not cut short loses
      none, but for one that equals cur on limit bytes. */
  lemma {:induction false} SplitKeeps(text: seq<Byte>, t: Tree, cur: nat, limit: nat, cut: nat, p: nat)
    requires NewestFirst(t) && p in Positions(t) && (|NewerIn(t, p)| < cut || Enough(text, t, cur, limit, cut))
    ensures var (smaller, greater) := Split(text, t, cur, limit, cut);
            p in Positions(smaller) || p in Positions(greater) || Lcp(text, p, cur, limit) == limit
    decreases cut
  {
    hide NewerIn, Lcp;
    LcpIsCommonPrefix(text, t.at, cur, limit);
    var next := NextChild(text, t, cur, limit);
    if Lcp(text, t.at, cur, limit) < limit && p in Positions(next) {
      FewerBelow(t, next, p);
      SplitKeeps(text, next, cur, limit, cut - 1, p);
    }
  }

  lemma {:induction false} SplitNewestFirst(text: seq<Byte>, t: Tree, cur: nat, limit: nat, cut: nat)
    requires NewestFirst(t)
    ensures var (smaller, greater) := Split(text, t, cur, limit, cut);
            NewestFirst(smaller) && NewestFirst(greater) && Positions(smaller) + Positions(greater) <= Positions(t)
    decreases cut
  {
    if t.Node? && cut > 0 {
      LcpIsCommonPrefix(text, t.at, cur, limit);
      if Lcp(text, t.at, cur, limit) < limit {
        SplitNewestFirst(text, NextChild(text, t, cur, limit), cur, limit, cut - 1);
      }
    }
  }

  /** The tree holds p, or a newer position with the same limit bytes. */
  ghost predicate Represented(text: seq<Byte>, t: Tree, p: nat, limit: nat) {
    exists q :: q in Positions(t) && p <= q && Lcp(text, p, q, limit) == limit
  }

  /** The positions after p with hash k. */
  ghost function Newer(c: Config, k: nat, p: nat, cur: int): set<nat>
    requires |c.crc| == 256
  {
    set q: nat | p < q < cur && Hash4At(c, q) == k
  }

  /** Positions of the window with hash k are represented in the tree of slot k: when no walk has been cut short all
      are, otherwise those that have fewer than cutValue newer ones. */
  ghost predicate TreeFull(c: Config, t: Tree, k: nat, oldest: int, cur: int, limit: nat, whole: bool)
    requires |c.crc| == 256
  {
    && NewestFirst(t) && (forall p :: p in Positions(t) ==> p < cur && Hash4At(c, p) == k)
    && forall p: nat :: oldest <= p < cur && Hash4At(c, p) == k && (whole || |Newer(c, k, p, cur)| < c.cutValue) ==>
                          Represented(c.input, t, p, limit)
  }

  ghost predicate ForestFull(c: Config, forest: seq<Tree>, oldest: int, cur: int, limit: nat, whole: bool)
    requires |c.crc| == 256
  {
    forall k :: 0 <= k < |forest| ==> TreeFull(c, forest[k], k, oldest, cur, limit, whole)
  }

  lemma RepresentedInsert(text: seq<Byte>, t: Tree, p: nat, q: nat, cur: nat, limit: nat, cut: nat)
    requires NewestFirst(t) && q in Positions(t) && p <= q < cur && Lcp(text, p, q, limit) == limit
    requires |NewerIn(t, q)| < cut || Enough(text, t, cur, limit, cut)
    ensures Represented(text, Insert(text, t, cur, limit, cut), p, limit)
  {
    hide NewerIn, Lcp;
    SplitKeeps(text, t, cur, limit, cut, q);
    var t' := Insert(text, t, cur, limit, cut);
    if q !in Positions(t') {
      LcpSame(text, p, q, cur, limit);
      assert cur in Positions(t');
    }
  }

  /** In its tree a position has no more newer ones than in the whole window. */
  lemma NewerInTree(c: Config, t: Tree, k: nat, oldest: int, cur: int, limit: nat, whole: bool, p: nat, q: nat)
    requires |c.crc| == 256 && TreeFull(c, t, k, oldest, cur, limit, whole) && p <= q
    ensures |NewerIn(t, q)| <= |Newer(c, k, p, cur)|
  {
    hide Hash4At, Represented, NewestFirst;
    assert NewerIn(t, q) <= Newer(c, k, p, cur);
    CardSubset(NewerIn(t, q), Newer(c, k, p, cur));
  }

  /** Inserting the current position keeps its tree full. */
  lemma InsertKeepsFull(c: Config, t: Tree, k: nat, oldest: int, cur: nat, limit: nat, whole: bool)
    requires |c.crc| == 256 && TreeFull(c, t, k, oldest, cur, limit, whole) && Hash4At(c, cur) == k
    requires whole ==> Enough(c.input, t, cur, limit, c.cutValue)
    ensures TreeFull(c, Insert(c.input, t, cur, limit, c.cutValue), k, oldest, cur + 1, limit, whole)
  {
    hide Hash4At, Enough, Lcp, Newer, NewerIn;
    var t' := Insert(c.input, t, cur, limit, c.cutValue);
    SplitNewestFirst(c.input, t, cur, limit, c.cutValue);
    LcpSelf(c.input, cur, limit);
    assert cur in Positions(t');
    forall p: nat | oldest <= p < cur + 1 && Hash4At(c, p) == k && (whole || |Newer(c, k, p, cur + 1)| < c.cutValue)
      ensures Represented(c.input, t', p, limit)
    {
      if p < cur {
        OneMoreNewer(c, k, p, cur);
        var q :| q in Positions(t) && p <= q && Lcp(c.input, p, q, limit) == limit;
        NewerInTree(c, t, k, oldest, cur, limit, whole, p, q);
        RepresentedInsert(c.input, t, p, q, cur, limit, c.cutValue);
      }
    }
  }

  lemma OneMoreNewer(c: Config, k: nat, p: nat, cur: nat)
    requires |c.crc| == 256 && p < cur
    ensures |Newer(c, k, p, cur + 1)| == |Newer(c, k, p, cur)| + if Hash4At(c, cur) == k then 1 else 0
  {
    hide Hash4At;
    assert Newer(c, k, p, cur + 1) == Newer(c, k, p, cur) + if Hash4At(c, cur) == k then {cur} else {};
  }

  /** A tree without the current position stays full when the position hashes elsewhere. */
  lemma ElsewhereStaysFull(c: Config, t: Tree, k: nat, oldest: int, cur: nat, limit: nat, whole: bool)
    requires |c.crc| == 256 && TreeFull(c, t, k, oldest, cur, limit, whole) && Hash4At(c, cur) != k
    ensures TreeFull(c, t, k, oldest, cur + 1, limit, whole)
  {
    hide Hash4At, Newer, Represented;
    forall p: nat | oldest <= p < cur + 1 && Hash4At(c, p) == k && (whole || |Newer(c, k, p, cur + 1)| < c.cutValue)
      ensures Represented(c.input, t, p, limit)
    {
      OneMoreNewer(c, k, p, cur);
    }
  }

  lemma PruneRepresents(text: seq<Byte>, t: Tree, oldest: int, p: nat, limit: nat, limit': nat)
    requires NewestFirst(t) && Represented(text, t, p, limit) && oldest <= p && limit' <= limit
    ensures Represented(text, Prune(t, oldest), p, limit')
  {
    hide NewestFirst, Prune, Lcp;
    var q :| q in Positions(t) && p <= q && Lcp(text, p, q, limit) == limit;
    LcpShorter(text, p, q, limit, limit');
    PruneIsExact(t, oldest, q);
  }

  /** Moving on, with no longer a limit, keeps a tree full. */
  lemma PruneKeepsFull(c: Config, t: Tree, k: nat, oldest: int, oldest': int, cur: int, limit: nat, limit': nat,
                       whole: bool)
    requires |c.crc| == 256 && TreeFull(c, t, k, oldest, cur, limit, whole) && oldest <= oldest' && limit' <= limit
    ensures TreeFull(c, Prune(t, oldest'), k, oldest', cur, limit', whole)
  {
    hide Hash4At, Newer, Represented, NewestFirst, Positions, Prune;
    PruneIsExact(t, oldest', 0);
    forall p | p in Positions(Prune(t, oldest'))
      ensures p < cur && Hash4At(c, p) == k
    {
      PruneIsExact(t, oldest', p);
    }
    forall p: nat | oldest' <= p < cur && Hash4At(c, p) == k && (whole || |Newer(c, k, p, cur)| < c.cutValue)
      ensures Represented(c.input, Prune(t, oldest'), p, limit')
    {
      PruneRepresents(c.input, t, oldest', p, limit, limit');
    }
  }

  // ---- One call ----

  /** Nothing is lost as long as whole hashes can be read. */
  ghost predicate Full(c: Config, s: Finder, forest: seq<Tree>, whole: bool)
    requires |c.crc| == 256
  {
    4 <= s.lenLimit ==> ForestFull(c, forest, s.Cursor() + 1 - c.Size(), s.Cursor(), s.lenLimit, whole)
  }

  /** The walk of this call is not cut short. */
  ghost predicate NotCut(c: Config, s: Finder, forest: seq<Tree>)
    requires WindowOk(c, s) && |forest| == Pow2(c.hashBits)
  {
    4 <= s.lenLimit ==> Enough(c.input, forest[Hash4At(c, s.Cursor())], s.Cursor(), s.lenLimit, c.cutValue)
  }

  lemma ForestNext(c: Config, env: Env, forest: seq<Tree>, limit: nat, limit': nat, whole: bool)
    requires |c.crc| == 256 && |forest| == Pow2(c.hashBits) && 0 <= env.cursor && limit' <= limit
    requires ForestFull(c, forest, NextOldest(env) - 1, env.cursor, limit, whole)
    requires whole ==> Enough(c.input, forest[Hash4At(c, env.cursor)], env.cursor, limit, c.cutValue)
    ensures ForestFull(c, PruneAll(Planted(c, env, forest, limit), NextOldest(env)), NextOldest(env), env.cursor + 1,
                       limit', whole)
  {
    hide Hash4At, Pow2, TreeFull, Insert, Prune, Enough;
    var cur, oldest, planted := env.cursor, NextOldest(env), Planted(c, env, forest, limit);
    forall k | 0 <= k < |forest|
      ensures TreeFull(c, PruneAll(planted, oldest)[k], k, oldest, cur + 1, limit', whole)
    {
      assert TreeFull(c, forest[k], k, oldest - 1, cur, limit, whole);
      if k == Hash4At(c, cur) {
        InsertKeepsFull(c, forest[k], k, oldest - 1, cur, limit, whole);
      } else {
        ElsewhereStaysFull(c, forest[k], k, oldest - 1, cur, limit, whole);
      }
      PruneKeepsFull(c, planted[k], k, oldest - 1, oldest, cur + 1, limit, limit', whole);
    }
  }

  /** A call that is not cut short, of either kind, loses no position of the next window; one that is loses only
      positions that have cutValue newer ones. */
  lemma SkipKeepsFull(c: Config, s: Finder, forest: seq<Tree>, whole: bool)
    requires StateOk(c, s, forest) && 0 < s.Avail() && Full(c, s, forest, whole) && (whole ==> NotCut(c, s, forest))
    ensures StateOk(c, Bt4Skip(c, s), NextForest(c, s, forest))
    ensures Full(c, Bt4Skip(c, s), NextForest(c, s, forest), whole)
  {
    hide HeadsOk, TreesOk, MovePos, Hash4At, Pow2, ForestFull, Planted, Enough, Descend, PruneAll, Bt4Skip;
    SkipKeepsState(c, s, forest);
    LimitShrinks(c, s);
    if 4 <= Bt4Skip(c, s).lenLimit {
      ForestNext(c, EnvOf(c, s), forest, s.lenLimit, Bt4Skip(c, s).lenLimit, whole);
    }
  }

  lemma LimitShrinks(c: Config, s: Finder)
    requires Ready(c, s)
    ensures Bt4Skip(c, s).lenLimit <= s.lenLimit
  {
    hide MovePos, Hash4At, Descend, Hashed;
    if s.lenLimit < 4 {
      MovePosOk(c, s);
    } else {
      var env := EnvOf(c, s);
      var son := Descend(c.input, env.cursor, env, StartPoint(c, env, s.hash, s.son), s.lenLimit, c.cutValue);
      MovePosOk(c, s.(hash := Hashed(c, env, s.hash), son := son));
    }
  }

  // ---- What is found ----

  /** A position of the window, any, or one that fewer than cutValue newer ones with the hash of the text at cur
      follow. */
  ghost predicate InSight(c: Config, p: nat, cur: int, whole: bool)
    requires |c.crc| == 256
  {
    && cur - c.historySize <= p < cur
    && (whole || (0 <= cur && |Newer(c, Hash4At(c, cur), p, cur)| < c.cutValue))
  }

  /** For every position in sight that shares four bytes or more with the text at cur, some match is as long and no
      farther back; so for each such length the closest match is there, and the last match is the longest. */
  ghost predicate Longest(c: Config, cur: int, limit: nat, found: seq<Match>, whole: bool)
    requires |c.crc| == 256
  {
    forall p: nat :: InSight(c, p, cur, whole) && 4 <= Lcp(c.input, p, cur, limit) ==>
                       Covers(found, cur, p, Lcp(c.input, p, cur, limit)) && Reaches(found, Lcp(c.input, p, cur, limit))
  }

  lemma SameHash(c: Config, p: int, q: int, limit: nat)
    requires |c.crc| == 256 && 4 <= Lcp(c.input, p, q, limit)
    ensures Hash4At(c, p) == Hash4At(c, q)
  {
    LcpIsCommonPrefix(c.input, p, q, limit);
    assert SameAt(c.input, p, q, 0) && SameAt(c.input, p, q, 1) && SameAt(c.input, p, q, 2) && SameAt(c.input, p, q, 3);
  }

  /** A call that is not cut short reports the longest match of the window, if it has four bytes, and for each length
      the closest; and any call does so among the positions with fewer than cutValue newer ones. */
  lemma GetFindsLongest(c: Config, s: Finder, forest: seq<Tree>, whole: bool)
    requires StateOk(c, s, forest) && 0 < s.Avail() && Full(c, s, forest, whole) && Current(c, s)
    requires whole ==> NotCut(c, s, forest)
    ensures Longest(c, s.Cursor(), s.lenLimit, Bt4GetMatches(c, s).found, whole)
  {
    hide TreesOk, HeadsOk, Pow2, Full, NotCut, Current, Bt4GetMatches, Covers, Reaches, GoodMatches, Lcp, InSight;
    GetReportsTrueMatches(c, s, forest);
    var found := Bt4GetMatches(c, s).found;
    forall p: nat | InSight(c, p, s.Cursor(), whole) && 4 <= Lcp(c.input, p, s.Cursor(), s.lenLimit)
      ensures Covers(found, s.Cursor(), p, Lcp(c.input, p, s.Cursor(), s.lenLimit))
      ensures Reaches(found, Lcp(c.input, p, s.Cursor(), s.lenLimit))
    {
      LcpIsCommonPrefix(c.input, p, s.Cursor(), s.lenLimit);
      PositionIsCovered(c, s, forest, whole, p);
      CoversReaches(c.input, s.Cursor(), s.Cursor() - c.historySize, found, s.lenLimit, p,
                    Lcp(c.input, p, s.Cursor(), s.lenLimit));
    }
  }

  /** By the heads when they share as much, else by the walk. */
  lemma PositionIsCovered(c: Config, s: Finder, forest: seq<Tree>, whole: bool, p: nat)
    requires StateOk(c, s, forest) && 0 < s.Avail() && Full(c, s, forest, whole) && Current(c, s)
    requires (whole ==> NotCut(c, s, forest)) && InSight(c, p, s.Cursor(), whole)
    requires 4 <= Lcp(c.input, p, s.Cursor(), s.lenLimit)
    ensures Covers(Bt4GetMatches(c, s).found, s.Cursor(), p, Lcp(c.input, p, s.Cursor(), s.lenLimit))
  {
    LcpIsCommonPrefix(c.input, p, s.Cursor(), s.lenLimit);
    hide Hash4At, HeadsOk, TreesOk, HeadsNewest, Pow2, Hashed, MovePos, ShortMatches, Hunt, Descend, Enough, ForestFull,
         Covers, Lcp, TrueMatch, Newer;
    var len, short := Lcp(c.input, p, s.Cursor(), s.lenLimit), ShortMatches(c, EnvOf(c, s), s.hash, s.lenLimit);
    Bt4AnswerBegins(c, s, forest);
    if len <= short.maxLen {
      HeadsCover(c, EnvOf(c, s), s.hash, s.lenLimit, p);
      MoreCovers(short.found, Bt4GetMatches(c, s).found, s.Cursor(), p, len);
    } else {
      WalkFindsLongest(c, s, forest, whole, p);
    }
  }

  /** A full tree shows every position in sight, or a newer one with the same limit bytes. */
  lemma TreeShowsLongest(c: Config, t: Tree, oldest: int, cur: nat, limit: nat, maxLen: nat, found: seq<Match>,
                         whole: bool, p: nat)
    requires |c.crc| == 256 && Ordered(c.input, t, None, None, limit)
             && TreeFull(c, t, Hash4At(c, cur), oldest, cur, limit, whole)
    requires (whole ==> Enough(c.input, t, cur, limit, c.cutValue)) && InSight(c, p, cur, whole) && oldest <= p
    requires 4 <= Lcp(c.input, p, cur, limit) && maxLen < Lcp(c.input, p, cur, limit)
    ensures Covers(SplitMatches(c.input, t, cur, limit, c.cutValue, maxLen, found), cur, p, Lcp(c.input, p, cur, limit))
  {
    hide At, Hash4At, SplitMatches, Enough, Lcp, Newer, NewerIn;
    SameHash(c, p, cur, limit);
    assert Represented(c.input, t, p, limit);
    var q :| q in Positions(t) && p <= q && Lcp(c.input, p, q, limit) == limit;
    LcpSame(c.input, p, q, cur, limit);
    NewerInTree(c, t, Hash4At(c, cur), oldest, cur, limit, whole, p, q);
    SplitMatchesLongest(c.input, t, cur, None, None, limit, c.cutValue, maxLen, found, q);
  }

  /** The walk of a call, for a position that shares more than the heads gave. */
  lemma WalkFindsLongest(c: Config, s: Finder, forest: seq<Tree>, whole: bool, p: nat)
    requires StateOk(c, s, forest) && 0 < s.Avail() && Full(c, s, forest, whole) && 4 <= s.lenLimit
    requires (whole ==> NotCut(c, s, forest)) && InSight(c, p, s.Cursor(), whole)
    requires 4 <= Lcp(c.input, p, s.Cursor(), s.lenLimit)
    requires ShortMatches(c, EnvOf(c, s), s.hash, s.lenLimit).maxLen < Lcp(c.input, p, s.Cursor(), s.lenLimit)
    ensures Covers(Bt4Walk(c, s).found, s.Cursor(), p, Lcp(c.input, p, s.Cursor(), s.lenLimit))
  {
    hide At, Hash2At, Hash3At, Hash4At, HeadsOk, Pow2, ShortMatches, Hunt, Descend, Enough, Visits, SplitMatches, Shows,
         Lcp, TreeFull, Covers, Newer;
    var env, h, limit := EnvOf(c, s), Hash4At(c, s.Cursor()), s.lenLimit;
    var t, short := forest[h], ShortMatches(c, env, s.hash, limit);
    var maxLen := Longer(short.maxLen, 3);
    assert TreeOk(c, env, s.son, s.hash[FIX4 + h], t, h, limit);
    assert TreeFull(c, t, h, s.Cursor() + 1 - c.Size(), s.Cursor(), limit, whole);
    hide TreesOk;
    StartVisits(c, env, s.son, s.hash[FIX4 + h], t, h, limit);
    HuntReportsMatches(c.input, env, StartPoint(c, env, s.hash, s.son), t, limit, c.cutValue, None, None, maxLen,
                       short.found);
    TreeShowsLongest(c, t, s.Cursor() + 1 - c.Size(), s.Cursor(), limit, maxLen, short.found, whole, p);
  }

  // ---- Whole runs ----

  /** No walk of the run is cut short. */
  ghost predicate NeverCut(c: Config, s: Finder, forest: seq<Tree>, calls: seq<R.Call>)
    requires StateOk(c, s, forest)
    decreases calls
  {
    calls == [] || s.Avail() == 0
    || (&& NotCut(c, s, forest)
        && (SkipKeepsState(c, s, forest); NeverCut(c, Bt4Skip(c, s), NextForest(c, s, forest), calls[1..])))
  }

  /** Every call for matches among these was answered with the longest in sight. */
  ghost predicate LongestReports(c: Config, calls: seq<R.Call>, reports: seq<R.Report>, whole: bool)
    requires |c.crc| == 256
  {
    && |reports| <= |calls|
    && forall i :: 0 <= i < |reports| && calls[i].GetMatches? ==> LongestReport(c, reports[i], whole)
  }

  ghost predicate LongestReport(c: Config, r: R.Report, whole: bool)
    requires |c.crc| == 256
  {
    Longest(c, r.cursor, r.limit, r.found, whole)
  }

  lemma {:induction false} RunFindsLongest(c: Config, s: Finder, forest: seq<Tree>, calls: seq<R.Call>, whole: bool)
    requires StateOk(c, s, forest) && Full(c, s, forest, whole) && Current(c, s)
    requires whole ==> NeverCut(c, s, forest, calls)
    ensures R.Sound(R.Bt4, c, s) && LongestReports(c, calls, R.Run(R.Bt4, c, s, calls), whole)
    decreases calls
  {
    IsSound(c, s, forest);
    hide R.Sound, R.Run, StateOk, Full, NotCut, Current, LongestReport, WindowOk, Bt4GetMatches, Bt4Skip;
    if calls == [] || s.Avail() == 0 {
      NoMoreReports(R.Bt4, c, s, calls, whole);
    } else {
      SkipKeepsFull(c, s, forest, whole);
      R.SoundIsReady(R.Bt4, c, s);
      StepKeepsCurrent(R.Bt4, c, s);
      RunFindsLongest(c, Bt4Skip(c, s), NextForest(c, s, forest), calls[1..], whole);
      TurnFindsLongest(c, s, forest, calls, whole);
    }
  }

  lemma IsSound(c: Config, s: Finder, forest: seq<Tree>)
    requires StateOk(c, s, forest)
    ensures R.Sound(R.Bt4, c, s)
  {
    hide StateOk;
  }

  lemma NoMoreReports(mode: R.Mode, c: Config, s: Finder, calls: seq<R.Call>, whole: bool)
    requires R.Sound(mode, c, s) && (calls == [] || s.Avail() == 0) && |c.crc| == 256
    ensures LongestReports(c, calls, R.Run(mode, c, s, calls), whole)
  {
    hide R.Sound;
  }

  /** One turn of a run: its report comes before those of the rest. */
  lemma OneMoreReport(mode: R.Mode, c: Config, s: Finder, calls: seq<R.Call>, whole: bool)
    requires R.Sound(mode, c, s) && 0 < s.Avail() && calls != [] && R.Ready(mode, c, s)
    requires calls[0].GetMatches? ==>
               LongestReport(c, R.Report(s.Cursor(), s.lenLimit, R.Answer(mode, c, s).found), whole)
    requires R.Sound(mode, c, R.Skipped(mode, c, s))
    requires LongestReports(c, calls[1..], R.Run(mode, c, R.Skipped(mode, c, s), calls[1..]), whole)
    ensures LongestReports(c, calls, R.Run(mode, c, s, calls), whole)
  {
    hide R.Sound, R.Ready, R.Skipped, R.Answer, LongestReport, WindowOk;
    R.StepKeepsSound(mode, c, s, calls[0]);
    var reply := R.Step(mode, c, s, calls[0]);
    var rest := R.Run(mode, c, reply.state, calls[1..]);
    assert R.Run(mode, c, s, calls) == [R.Report(s.Cursor(), s.lenLimit, reply.found)] + rest;
  }

  /** One turn of the run: the first report is the longest when the call asks for matches. */
  lemma TurnFindsLongest(c: Config, s: Finder, forest: seq<Tree>, calls: seq<R.Call>, whole: bool)
    requires StateOk(c, s, forest) && 0 < s.Avail() && Full(c, s, forest, whole) && Current(c, s)
    requires (whole ==> NotCut(c, s, forest)) && calls != []
    requires R.Sound(R.Bt4, c, s) && R.Sound(R.Bt4, c, Bt4Skip(c, s))
    requires LongestReports(c, calls[1..], R.Run(R.Bt4, c, Bt4Skip(c, s), calls[1..]), whole)
    ensures LongestReports(c, calls, R.Run(R.Bt4, c, s, calls), whole)
  {
    R.SoundIsReady(R.Bt4, c, s);
    StepFindsLongest(c, s, forest, whole);
    hide R.Sound, R.Ready, StateOk, Full, NotCut, Current, LongestReport, WindowOk, Bt4GetMatches, Bt4Skip;
    OneMoreReport(R.Bt4, c, s, calls, whole);
  }

  lemma StepFindsLongest(c: Config, s: Finder, forest: seq<Tree>, whole: bool)
    requires StateOk(c, s, forest) && 0 < s.Avail() && Full(c, s, forest, whole) && Current(c, s)
    requires whole ==> NotCut(c, s, forest)
    ensures LongestReport(c, R.Report(s.Cursor(), s.lenLimit, Bt4GetMatches(c, s).found), whole)
  {
    GetFindsLongest(c, s, forest, whole);
  }

  lemma InitFull(c: Config, son: seq<UInt32>, whole: bool)
    requires c.Valid() && |son| == 2 * c.Size()
    ensures StateOk(c, Init(c, son), NoTrees(c)) && Full(c, Init(c, son), NoTrees(c), whole)
  {
    hide Init, StateOk, Pow2, Hash4At;
    InitOk(c, son);
  }

  // ---- When nothing is cut ----

  /** A path has no more nodes than the tree has positions. */
  lemma {:induction false} FewNodesSuffice(text: seq<Byte>, t: Tree, cur: nat, limit: nat, cut: nat)
    requires Distinct(t) && |Positions(t)| <= cut
    ensures Enough(text, t, cur, limit, cut)
    decreases t
  {
    if t.Node? {
      var next := NextChild(text, t, cur, limit);
      assert t.at in Positions(t) && Positions(next) <= Positions(t) - {t.at};
      CardSubset(Positions(next), Positions(t) - {t.at});
      FewNodesSuffice(text, next, cur, limit, cut - 1);
    }
  }

  /** A set of numbers from lo up to hi has at most hi - lo elements. */
  lemma {:induction false} CardRange(a: set<nat>, lo: int, hi: int)
    requires lo <= hi && forall x :: x in a ==> lo <= x < hi
    ensures |a| <= hi - lo
    decreases hi - lo
  {
    if lo < hi {
      if hi - 1 in a {
        CardRange(a - {hi - 1}, lo, hi - 1);
      } else {
        CardRange(a, lo, hi - 1);
      }
    } else {
      assert a == {};
    }
  }

  /** With a cut value as large as the window no walk is cut short. */
  lemma WideCutSuffices(c: Config, s: Finder, forest: seq<Tree>)
    requires StateOk(c, s, forest) && c.historySize <= c.cutValue
    ensures NotCut(c, s, forest)
  {
    if 4 <= s.lenLimit {
      var env, h := EnvOf(c, s), Hash4At(c, s.Cursor());
      var t := forest[h];
      assert TreeOk(c, env, s.son, s.hash[FIX4 + h], t, h, s.lenLimit);
      hide TreesOk, HeadsOk, Hash4At, Pow2, Lcp, At;
      ShownPositions(s.son, env, s.hash[FIX4 + h], t);
      CardRange(Positions(t), s.Cursor() + 1 - c.Size(), s.Cursor());
      FewNodesSuffice(c.input, t, s.Cursor(), s.lenLimit, c.cutValue);
    }
  }

  lemma {:induction false} WideCutNeverCuts(c: Config, s: Finder, forest: seq<Tree>, calls: seq<R.Call>)
    requires StateOk(c, s, forest) && c.historySize <= c.cutValue
    ensures NeverCut(c, s, forest, calls)
    decreases calls
  {
    WideCutSuffices(c, s, forest);
    if calls != [] && s.Avail() != 0 {
      SkipKeepsState(c, s, forest);
      WideCutNeverCuts(c, Bt4Skip(c, s), NextForest(c, s, forest), calls[1..]);
    }
    hide StateOk, NotCut, Bt4Skip;
  }

  /** From Init on, every run is answered with the longest matches with positions that have fewer than cutValue newer
      ones, and one in which no walk is cut short with the longest of the window; and a cut value as large as the window
      cuts no walk of any run. */
  lemma EveryRunFindsLongest(c: Config, son: seq<UInt32>, calls: seq<R.Call>)
    requires c.Valid() && |son| == 2 * c.Size()
    ensures StateOk(c, Init(c, son), NoTrees(c)) && R.Sound(R.Bt4, c, Init(c, son))
    ensures LongestReports(c, calls, R.Run(R.Bt4, c, Init(c, son), calls), false)
    ensures NeverCut(c, Init(c, son), NoTrees(c), calls) ==>
              LongestReports(c, calls, R.Run(R.Bt4, c, Init(c, son), calls), true)
    ensures c.historySize <= c.cutValue ==> NeverCut(c, Init(c, son), NoTrees(c), calls)
  {
    hide Init, StateOk, Full, NeverCut, Current, R.Run, LongestReports, NoTrees;
    InitFull(c, son, true);
    InitFull(c, son, false);
    InitCurrent(c, son);
    R.InitSound(R.Bt4, c, son);
    RunFindsLongest(c, Init(c, son), NoTrees(c), calls, false);
    if NeverCut(c, Init(c, son), NoTrees(c), calls) {
      RunFindsLongest(c, Init(c, son), NoTrees(c), calls, true);
    }
    if c.historySize <= c.cutValue {
      WideCutNeverCuts(c, Init(c, son), NoTrees(c), calls);
    }
  }
}
