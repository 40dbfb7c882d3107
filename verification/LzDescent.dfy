// GetMatchesSpec1 and SkipMatchesSpec of lib/lzma/C/LzFind.c as walks over the `son` array,
// and their refinement of the pointer-free trees.
module LzDescent {
  import opened SearchSpec
  import opened LzTree
  import opened Wrappers

  type UInt32 = x: int | 0 <= x < 0x1_0000_0000

  function Sub32(a: UInt32, b: UInt32): UInt32 {
    if b <= a then a - b else a - b + 0x1_0000_0000
  }

  /** The moment of a match call: the current reference value, the cyclic buffer, the stream position. */
  datatype Env = Env(pos: UInt32, size: UInt32, cyc: nat, cursor: nat) {
    ghost predicate Valid() {
      cyc < size <= pos
    }

    /** First of the two words of the node at this distance back. */
    function Pair(delta: UInt32): (i: nat)
      requires cyc < size && delta < size
      ensures i + 1 < 2 * size
    {
      2 * (cyc - delta + if delta > cyc then size else 0)
    }
  }

  // ---- The walks of the source ----

  /** Loop state: the array, the reference to visit, where smaller (ptr1) and greater (ptr0) nodes are hung,
      and how many bytes the last smaller (len1) and the last greater (len0) node shared with cur. */
  datatype Point = Point(son: seq<UInt32>, v: UInt32, ptr0: nat, ptr1: nat, len0: nat, len1: nat) {
    predicate Valid(env: Env, limit: nat) {
      && env.cyc < env.size && |son| == 2 * env.size
      && ptr0 < |son| && ptr1 < |son| && len0 < limit && len1 < limit
    }
  }

  /** The comparison at the visited node, which skips the bytes both neighbours share. */
  function StepLen(text: seq<Byte>, cur: int, env: Env, pt: Point, limit: nat): (len: nat)
    requires pt.Valid(env, limit)
    ensures len <= limit
  {
    Extend(text, cur - Sub32(env.pos, pt.v), cur, if pt.len0 < pt.len1 then pt.len0 else pt.len1, limit)
  }

  /** Neither the cut value nor the window allows another node: both ends are closed. */
  function Close(pt: Point): seq<UInt32>
    requires pt.ptr0 < |pt.son| && pt.ptr1 < |pt.son|
  {
    pt.son[pt.ptr1 := 0][pt.ptr0 := 0]
  }

  /** The visited node equals cur up to the limit: its subtrees take its place. */
  function Graft(env: Env, pt: Point, limit: nat): seq<UInt32>
    requires pt.Valid(env, limit) && Sub32(env.pos, pt.v) < env.size
  {
    var pair := env.Pair(Sub32(env.pos, pt.v));
    var son1 := pt.son[pt.ptr1 := pt.son[pair]];
    son1[pt.ptr0 := son1[pair + 1]]
  }

  /** A smaller node is hung on ptr1, and the walk continues with its right child. */
  function NextRight(env: Env, pt: Point, limit: nat, len: nat): (next: Point)
    requires pt.Valid(env, limit) && Sub32(env.pos, pt.v) < env.size && len < limit
    ensures next.Valid(env, limit)
  {
    var pair := env.Pair(Sub32(env.pos, pt.v));
    var son1 := pt.son[pt.ptr1 := pt.v];
    Point(son1, son1[pair + 1], pt.ptr0, pair + 1, pt.len0, len)
  }

  /** A greater node is hung on ptr0, and the walk continues with its left child. */
  function NextLeft(env: Env, pt: Point, limit: nat, len: nat): (next: Point)
    requires pt.Valid(env, limit) && Sub32(env.pos, pt.v) < env.size && len < limit
    ensures next.Valid(env, limit)
  {
    var pair := env.Pair(Sub32(env.pos, pt.v));
    var son1 := pt.son[pt.ptr0 := pt.v];
    Point(son1, son1[pair], pair, pt.ptr1, len, pt.len1)
  }

  function Advance(text: seq<Byte>, cur: int, env: Env, pt: Point, limit: nat, len: nat): (next: Point)
    requires pt.Valid(env, limit) && Sub32(env.pos, pt.v) < env.size && len < limit
    ensures next.Valid(env, limit)
  {
    if At(text, cur - Sub32(env.pos, pt.v) + len) < At(text, cur + len) then NextRight(env, pt, limit, len)
    else NextLeft(env, pt, limit, len)
  }

  /** SkipMatchesSpec. */
  function Descend(text: seq<Byte>, cur: int, env: Env, pt: Point, limit: nat, cut: nat): (son': seq<UInt32>)
    requires pt.Valid(env, limit)
    ensures |son'| == |pt.son|
    decreases cut
  {
    if cut == 0 || Sub32(env.pos, pt.v) >= env.size then Close(pt)
    else
      var len := StepLen(text, cur, env, pt, limit);
      if len == limit then Graft(env, pt, limit)
      else Descend(text, cur, env, Advance(text, cur, env, pt, limit, len), limit, cut - 1)
  }

  datatype Walk = Walk(son: seq<UInt32>, found: seq<Match>)

  /** GetMatchesSpec1: the same walk, reporting each match longer than all before. */
  function Hunt(text: seq<Byte>, cur: int, env: Env, pt: Point, limit: nat, cut: nat,
                maxLen: nat, found: seq<Match>): (w: Walk)
    requires pt.Valid(env, limit) && maxLen < limit
    decreases cut
  {
    var delta := Sub32(env.pos, pt.v);
    if cut == 0 || delta >= env.size then Walk(Close(pt), found)
    else
      var len := StepLen(text, cur, env, pt, limit);
      var found' := Extended(found, len, Sub32(delta, 1), maxLen);
      if len == limit then Walk(Graft(env, pt, limit), found')
      else Hunt(text, cur, env, Advance(text, cur, env, pt, limit, len), limit, cut - 1, Longer(len, maxLen), found')
  }

  /** Both walks leave the same tree behind. */
  lemma {:induction false} HuntRebuildsLikeDescend(text: seq<Byte>, cur: int, env: Env, pt: Point, limit: nat,
                                                   cut: nat, maxLen: nat, found: seq<Match>)
    requires pt.Valid(env, limit) && maxLen < limit
    ensures Hunt(text, cur, env, pt, limit, cut, maxLen, found).son == Descend(text, cur, env, pt, limit, cut)
    decreases cut
  {
    var delta := Sub32(env.pos, pt.v);
    if cut != 0 && delta < env.size {
      var len := StepLen(text, cur, env, pt, limit);
      if len < limit {
        HuntRebuildsLikeDescend(text, cur, env, Advance(text, cur, env, pt, limit, len), limit, cut - 1,
                                Longer(len, maxLen), Extended(found, len, Sub32(delta, 1), maxLen));
      }
    }
  }

  // ---- What the array represents ----

  /** The array read from reference v shows tree t. A reference at least `size` back shows nothing. */
  ghost predicate Shows(son: seq<UInt32>, env: Env, v: UInt32, t: Tree)
    requires env.Valid() && |son| == 2 * env.size
    decreases t
  {
    match t
    case Empty => v + env.size <= env.pos
    case Node(at, l, r) =>
      && v < env.pos < v + env.size && at == env.cursor - (env.pos - v)
      && var pair := env.Pair(env.pos - v);
      && Shows(son, env, son[pair], l) && Shows(son, env, son[pair + 1], r)
  }

  /** The two words of a position in the window. */
  ghost predicate IsWordOf(env: Env, at: nat, i: nat)
    requires env.Valid()
  {
    at < env.cursor < at + env.size && (var pair := env.Pair(env.cursor - at); i == pair || i == pair + 1)
  }

  ghost predicate UsesWord(env: Env, t: Tree, i: nat)
    requires env.Valid()
  {
    t.Node? && (IsWordOf(env, t.at, i) || UsesWord(env, t.left, i) || UsesWord(env, t.right, i))
  }

  lemma {:induction false} WordOwner(env: Env, t: Tree, i: nat) returns (at: nat)
    requires env.Valid() && UsesWord(env, t, i)
    ensures at in Positions(t) && IsWordOf(env, at, i)
    decreases t
  {
    if IsWordOf(env, t.at, i) {
      at := t.at;
    } else if UsesWord(env, t.left, i) {
      at := WordOwner(env, t.left, i);
    } else {
      at := WordOwner(env, t.right, i);
    }
  }

  lemma WordsInjective(env: Env, a: nat, b: nat, i: nat)
    requires env.Valid() && IsWordOf(env, a, i) && IsWordOf(env, b, i)
    ensures a == b
  {
  }

  lemma {:induction false} ShownPositions(son: seq<UInt32>, env: Env, v: UInt32, t: Tree)
    requires env.Valid() && |son| == 2 * env.size && Shows(son, env, v, t)
    ensures forall p :: p in Positions(t) ==> p < env.cursor < p + env.size
    decreases t
  {
    if t.Node? {
      var pair := env.Pair(env.pos - v);
      ShownPositions(son, env, son[pair], t.left);
      ShownPositions(son, env, son[pair + 1], t.right);
    }
  }

  /** Only the words of its own positions matter to a shown tree. */
  lemma {:induction false} ShowsFrame(son: seq<UInt32>, son': seq<UInt32>, env: Env, v: UInt32, t: Tree)
    requires env.Valid() && |son| == |son'| == 2 * env.size && Shows(son, env, v, t)
    requires forall i :: 0 <= i < |son| && UsesWord(env, t, i) ==> son'[i] == son[i]
    ensures Shows(son', env, v, t)
    decreases t
  {
    if t.Node? {
      var pair := env.Pair(env.pos - v);
      assert UsesWord(env, t, pair) && UsesWord(env, t, pair + 1);
      ShowsFrame(son, son', env, son[pair], t.left);
      ShowsFrame(son, son', env, son[pair + 1], t.right);
    }
  }

  // ---- The walk performs the split ----

  /** The words of a node are its own: neither subtree uses them, and the subtrees share none. */
  lemma NodeWords(env: Env, t: Tree, i: nat)
    requires env.Valid() && t.Node? && Distinct(t)
    ensures IsWordOf(env, t.at, i) ==> !UsesWord(env, t.left, i) && !UsesWord(env, t.right, i)
    ensures UsesWord(env, t.left, i) ==> !UsesWord(env, t.right, i)
  {
    if UsesWord(env, t.left, i) {
      var a := WordOwner(env, t.left, i);
      if UsesWord(env, t.right, i) {
        var b := WordOwner(env, t.right, i);
        WordsInjective(env, a, b, i);
      } else if IsWordOf(env, t.at, i) {
        WordsInjective(env, a, t.at, i);
      }
    } else if UsesWord(env, t.right, i) && IsWordOf(env, t.at, i) {
      var b := WordOwner(env, t.right, i);
      WordsInjective(env, b, t.at, i);
    }
  }

  ghost predicate OnlyTouches(son: seq<UInt32>, son': seq<UInt32>, env: Env, t: Tree, ptr0: nat, ptr1: nat)
    requires env.Valid()
  {
    |son| == |son'| && forall i :: 0 <= i < |son| && i != ptr0 && i != ptr1 && !UsesWord(env, t, i) ==>
      son'[i] == son[i]
  }

  /** The neighbour on one side shares at least len bytes with cur; without a neighbour nothing is known. */
  ghost predicate Shares(text: seq<Byte>, bound: Option<nat>, cur: nat, limit: nat, len: nat) {
    if bound.Some? then len <= Lcp(text, bound.value, cur, limit) else len == 0
  }

  /** The walk is at tree t, with both hanging ends outside it. */
  ghost predicate Visits(text: seq<Byte>, env: Env, pt: Point, t: Tree, limit: nat, lo: Option<nat>, hi: Option<nat>) {
    && pt.Valid(env, limit) && Apart(env, pt.son, pt.v, t, pt.ptr0, pt.ptr1)
    && Ordered(text, t, lo, hi, limit)
    && Shares(text, lo, env.cursor, limit, pt.len1) && Shares(text, hi, env.cursor, limit, pt.len0)
  }

  /** Starting the comparison at the shorter neighbour length is safe, because the node lies between them. */
  lemma StepLenIsLcp(text: seq<Byte>, env: Env, pt: Point, t: Tree, limit: nat, lo: Option<nat>, hi: Option<nat>)
    requires Visits(text, env, pt, t, limit, lo, hi) && t.Node?
    ensures Sub32(env.pos, pt.v) < env.size && env.cursor - Sub32(env.pos, pt.v) == t.at
    ensures StepLen(text, env.cursor, env, pt, limit) == Lcp(text, t.at, env.cursor, limit)
  {
    var m := if pt.len0 < pt.len1 then pt.len0 else pt.len1;
    if lo.Some? && hi.Some? {
      BetweenSharesPrefix(text, lo.value, t.at, hi.value, env.cursor, m, limit);
    }
    ExtendFindsLcp(text, t.at, env.cursor, m, limit);
  }

  lemma UpdateOutside(son: seq<UInt32>, env: Env, v: UInt32, t: Tree, i: nat, x: UInt32)
    requires env.Valid() && |son| == 2 * env.size && Shows(son, env, v, t)
    requires i < |son| && !UsesWord(env, t, i)
    ensures Shows(son[i := x], env, v, t)
  {
    ShowsFrame(son, son[i := x], env, v, t);
  }

  /** son' shows the two halves at the hanging ends and differs from son nowhere outside t. */
  ghost predicate SplitShown(env: Env, son: seq<UInt32>, t: Tree, ptr0: nat, ptr1: nat,
                             son': seq<UInt32>, smaller: Tree, greater: Tree)
    requires env.Valid() && |son| == 2 * env.size && ptr0 < |son| && ptr1 < |son|
  {
    && OnlyTouches(son, son', env, t, ptr0, ptr1)
    && Shows(son', env, son'[ptr1], smaller) && Shows(son', env, son'[ptr0], greater)
  }

  /** Tree t is shown from v, and the two ends lie outside it. */
  ghost predicate Apart(env: Env, son: seq<UInt32>, v: UInt32, t: Tree, ptr0: nat, ptr1: nat) {
    && env.Valid() && |son| == 2 * env.size && Shows(son, env, v, t) && Distinct(t)
    && ptr0 != ptr1 && ptr0 < |son| && ptr1 < |son| && !UsesWord(env, t, ptr0) && !UsesWord(env, t, ptr1)
  }

  /** Storing references to both subtrees at the ends shows them there. */
  lemma BothSubtreesShow(env: Env, son: seq<UInt32>, v: UInt32, t: Tree, ptr0: nat, ptr1: nat, left: UInt32,
                         right: UInt32)
    requires Apart(env, son, v, t, ptr0, ptr1) && t.Node?
    requires left == son[env.Pair(env.pos - v)] && right == son[env.Pair(env.pos - v) + 1]
    ensures SplitShown(env, son, t, ptr0, ptr1, son[ptr1 := left][ptr0 := right], t.left, t.right)
  {
    UpdateOutside(son, env, left, t.left, ptr1, left);
    UpdateOutside(son[ptr1 := left], env, left, t.left, ptr0, right);
    UpdateOutside(son, env, right, t.right, ptr1, left);
    UpdateOutside(son[ptr1 := left], env, right, t.right, ptr0, right);
  }

  lemma GraftShows(env: Env, pt: Point, t: Tree, limit: nat)
    requires Apart(env, pt.son, pt.v, t, pt.ptr0, pt.ptr1) && t.Node?
    requires pt.Valid(env, limit) && Sub32(env.pos, pt.v) < env.size
    ensures SplitShown(env, pt.son, t, pt.ptr0, pt.ptr1, Graft(env, pt, limit), t.left, t.right)
  {
    var pair := env.Pair(env.pos - pt.v);
    assert IsWordOf(env, t.at, pair + 1);
    assert Graft(env, pt, limit) == pt.son[pt.ptr1 := pt.son[pair]][pt.ptr0 := pt.son[pair + 1]];
    hide SplitShown, UsesWord, Distinct, Graft;
    BothSubtreesShow(env, pt.son, pt.v, t, pt.ptr0, pt.ptr1, pt.son[pair], pt.son[pair + 1]);
  }

  /** Hanging the node on one end leaves its child on the other side apart from the remaining ends. */
  lemma HangKeepsChildApart(env: Env, son: seq<UInt32>, v: UInt32, t: Tree, near: nat, far: nat)
    requires Apart(env, son, v, t, far, near) && t.Node?
    ensures var pair := env.Pair(env.pos - v);
            && Apart(env, son[near := v], son[pair + 1], t.right, far, pair + 1)
            && Apart(env, son[near := v], son[pair], t.left, pair, far)
  {
    hide Positions;
    var pair := env.Pair(env.pos - v);
    NodeWords(env, t, pair);
    NodeWords(env, t, pair + 1);
    UpdateOutside(son, env, son[pair], t.left, near, v);
    UpdateOutside(son, env, son[pair + 1], t.right, near, v);
  }

  /** While the rest of the walk splits the right subtree, the node and its left subtree stay. */
  lemma LeftOfHungStays(env: Env, pt: Point, t: Tree, next: Point, son': seq<UInt32>)
    requires Apart(env, pt.son, pt.v, t, pt.ptr0, pt.ptr1) && t.Node?
    requires next.son == pt.son[pt.ptr1 := pt.v] && next.ptr0 == pt.ptr0 && next.ptr1 == env.Pair(env.pos - pt.v) + 1
    requires OnlyTouches(next.son, son', env, t.right, next.ptr0, next.ptr1)
    ensures OnlyTouches(pt.son, son', env, t, pt.ptr0, pt.ptr1) && son'[pt.ptr1] == pt.v
    ensures Shows(son', env, son'[env.Pair(env.pos - pt.v)], t.left)
  {
    hide Positions, Distinct;
    var pair := env.Pair(env.pos - pt.v);
    NodeWords(env, t, pair);
    assert son'[pt.ptr1] == pt.v && son'[pair] == pt.son[pair];
    forall i | 0 <= i < |pt.son| && UsesWord(env, t.left, i)
      ensures son'[i] == pt.son[i]
    {
      NodeWords(env, t, i);
      NodeWords(env, t, pair + 1);
    }
    ShowsFrame(pt.son, son', env, pt.son[pair], t.left);
  }

  /** After the rest of the walk split the right subtree, the node shows with the smaller part on its right. */
  lemma HungSmallerShows(env: Env, pt: Point, t: Tree, next: Point, son': seq<UInt32>, smaller: Tree, greater: Tree)
    requires Apart(env, pt.son, pt.v, t, pt.ptr0, pt.ptr1) && t.Node?
    requires next.son == pt.son[pt.ptr1 := pt.v] && next.ptr0 == pt.ptr0 && next.ptr1 == env.Pair(env.pos - pt.v) + 1
    requires SplitShown(env, next.son, t.right, next.ptr0, next.ptr1, son', smaller, greater)
    ensures SplitShown(env, pt.son, t, pt.ptr0, pt.ptr1, son', Node(t.at, t.left, smaller), greater)
  {
    LeftOfHungStays(env, pt, t, next, son');
    hide UsesWord, Distinct, OnlyTouches;
  }

  /** The mirror image: the node and its right subtree stay. */
  lemma RightOfHungStays(env: Env, pt: Point, t: Tree, next: Point, son': seq<UInt32>)
    requires Apart(env, pt.son, pt.v, t, pt.ptr0, pt.ptr1) && t.Node?
    requires next.son == pt.son[pt.ptr0 := pt.v] && next.ptr1 == pt.ptr1 && next.ptr0 == env.Pair(env.pos - pt.v)
    requires OnlyTouches(next.son, son', env, t.left, next.ptr0, next.ptr1)
    ensures OnlyTouches(pt.son, son', env, t, pt.ptr0, pt.ptr1) && son'[pt.ptr0] == pt.v
    ensures Shows(son', env, son'[env.Pair(env.pos - pt.v) + 1], t.right)
  {
    hide Positions, Distinct;
    var pair := env.Pair(env.pos - pt.v);
    NodeWords(env, t, pair + 1);
    assert son'[pt.ptr0] == pt.v && son'[pair + 1] == pt.son[pair + 1];
    forall i | 0 <= i < |pt.son| && UsesWord(env, t.right, i)
      ensures son'[i] == pt.son[i]
    {
      NodeWords(env, t, i);
      NodeWords(env, t, pair);
    }
    ShowsFrame(pt.son, son', env, pt.son[pair + 1], t.right);
  }

  lemma HungGreaterShows(env: Env, pt: Point, t: Tree, next: Point, son': seq<UInt32>, smaller: Tree, greater: Tree)
    requires Apart(env, pt.son, pt.v, t, pt.ptr0, pt.ptr1) && t.Node?
    requires next.son == pt.son[pt.ptr0 := pt.v] && next.ptr1 == pt.ptr1 && next.ptr0 == env.Pair(env.pos - pt.v)
    requires SplitShown(env, next.son, t.left, next.ptr0, next.ptr1, son', smaller, greater)
    ensures SplitShown(env, pt.son, t, pt.ptr0, pt.ptr1, son', smaller, Node(t.at, greater, t.right))
  {
    RightOfHungStays(env, pt, t, next, son');
    hide UsesWord, Distinct, OnlyTouches;
  }

  /** The byte after the common prefix says on which side of cur the node belongs. */
  predicate GoesLeftOf(text: seq<Byte>, t: Tree, cur: nat, limit: nat)
    requires t.Node?
  {
    var len := Lcp(text, t.at, cur, limit);
    len < limit && At(text, t.at + len) < At(text, cur + len)
  }

  predicate GoesRightOf(text: seq<Byte>, t: Tree, cur: nat, limit: nat)
    requires t.Node?
  {
    var len := Lcp(text, t.at, cur, limit);
    len < limit && At(text, t.at + len) >= At(text, cur + len)
  }

  lemma VisitedNode(text: seq<Byte>, env: Env, pt: Point, t: Tree, limit: nat, lo: Option<nat>, hi: Option<nat>)
    requires Visits(text, env, pt, t, limit, lo, hi) && t.Node?
    ensures t.at < env.cursor && Sub32(env.pos, pt.v) == env.pos - pt.v < env.size
  {
  }

  /** A smaller node is hung on ptr1, and the walk visits its right subtree, now bounded below by it. */
  lemma TurnRightVisits(text: seq<Byte>, env: Env, pt: Point, t: Tree, limit: nat, lo: Option<nat>, hi: Option<nat>)
    requires Visits(text, env, pt, t, limit, lo, hi) && t.Node?
    requires GoesLeftOf(text, t, env.cursor, limit) && Sub32(env.pos, pt.v) < env.size
    ensures Visits(text, env, NextRight(env, pt, limit, Lcp(text, t.at, env.cursor, limit)), t.right, limit, Some(t.at),
                   hi)
  {
    HangKeepsChildApart(env, pt.son, pt.v, t, pt.ptr1, pt.ptr0);
  }

  /** The mirror image. */
  lemma TurnLeftVisits(text: seq<Byte>, env: Env, pt: Point, t: Tree, limit: nat, lo: Option<nat>, hi: Option<nat>)
    requires Visits(text, env, pt, t, limit, lo, hi) && t.Node?
    requires GoesRightOf(text, t, env.cursor, limit) && Sub32(env.pos, pt.v) < env.size
    ensures Visits(text, env, NextLeft(env, pt, limit, Lcp(text, t.at, env.cursor, limit)), t.left, limit, lo,
                   Some(t.at))
  {
    HangKeepsChildApart(env, pt.son, pt.v, t, pt.ptr0, pt.ptr1);
  }

  /** One turn of either walk: the node found decides the branch taken. */
  lemma StepAdvances(text: seq<Byte>, env: Env, pt: Point, t: Tree, limit: nat, lo: Option<nat>, hi: Option<nat>,
                     len: nat)
    requires Visits(text, env, pt, t, limit, lo, hi) && t.Node?
    requires len == Lcp(text, t.at, env.cursor, limit) < limit
    requires t.at < env.cursor && Sub32(env.pos, pt.v) < env.size
    ensures pt.Valid(env, limit) && StepLen(text, env.cursor, env, pt, limit) == len
    ensures Sub32(Sub32(env.pos, pt.v), 1) == env.cursor - t.at - 1
    ensures Advance(text, env.cursor, env, pt, limit, len)
            == (if GoesLeftOf(text, t, env.cursor, limit) then NextRight(env, pt, limit, len)
                else NextLeft(env, pt, limit, len))
  {
    StepLenIsLcp(text, env, pt, t, limit, lo, hi);
    hide Leq, Extend, Ordered, Positions, Distinct, UsesWord, StepLen, NextRight, NextLeft;
  }

  lemma WalksUnfold(text: seq<Byte>, env: Env, pt: Point, limit: nat, cut: nat, maxLen: nat, found: seq<Match>,
                    len: nat, back: nat)
    requires pt.Valid(env, limit) && 0 < cut && maxLen < limit && Sub32(env.pos, pt.v) < env.size
    requires StepLen(text, env.cursor, env, pt, limit) == len < limit && Sub32(Sub32(env.pos, pt.v), 1) == back
    ensures var next := Advance(text, env.cursor, env, pt, limit, len);
            && Descend(text, env.cursor, env, pt, limit, cut) == Descend(text, env.cursor, env, next, limit, cut - 1)
            && Hunt(text, env.cursor, env, pt, limit, cut, maxLen, found)
               == Hunt(text, env.cursor, env, next, limit, cut - 1, Longer(len, maxLen),
                       Extended(found, len, back, maxLen))
  {
    hide StepLen, Advance, Extended;
  }

  lemma TurnRight(text: seq<Byte>, env: Env, pt: Point, t: Tree, limit: nat, cut: nat, lo: Option<nat>, hi: Option<nat>,
                  maxLen: nat, found: seq<Match>, len: nat) returns (next: Point)
    requires Visits(text, env, pt, t, limit, lo, hi) && t.Node? && 0 < cut && maxLen < limit
    requires len == Lcp(text, t.at, env.cursor, limit) && GoesLeftOf(text, t, env.cursor, limit)
    ensures Visits(text, env, next, t.right, limit, Some(t.at), hi) && next.Valid(env, limit) && t.at < env.cursor
    ensures next.son == pt.son[pt.ptr1 := pt.v] && next.ptr0 == pt.ptr0 && next.ptr1 == env.Pair(env.pos - pt.v) + 1
    ensures Descend(text, env.cursor, env, pt, limit, cut) == Descend(text, env.cursor, env, next, limit, cut - 1)
    ensures Longer(len, maxLen) < limit
    ensures Hunt(text, env.cursor, env, pt, limit, cut, maxLen, found)
            == Hunt(text, env.cursor, env, next, limit, cut - 1, Longer(len, maxLen),
                    Extended(found, len, env.cursor - t.at - 1, maxLen))
  {
    hide Leq, Lcp, Ordered, Positions, Distinct, UsesWord, Shows, Apart, Extended, StepLen, Advance, At;
    VisitedNode(text, env, pt, t, limit, lo, hi);
    TurnRightVisits(text, env, pt, t, limit, lo, hi);
    StepAdvances(text, env, pt, t, limit, lo, hi, len);
    WalksUnfold(text, env, pt, limit, cut, maxLen, found, len, env.cursor - t.at - 1);
    next := NextRight(env, pt, limit, len);
  }

  lemma TurnLeft(text: seq<Byte>, env: Env, pt: Point, t: Tree, limit: nat, cut: nat, lo: Option<nat>, hi: Option<nat>,
                 maxLen: nat, found: seq<Match>, len: nat) returns (next: Point)
    requires Visits(text, env, pt, t, limit, lo, hi) && t.Node? && 0 < cut && maxLen < limit
    requires len == Lcp(text, t.at, env.cursor, limit) && GoesRightOf(text, t, env.cursor, limit)
    ensures Visits(text, env, next, t.left, limit, lo, Some(t.at)) && next.Valid(env, limit) && t.at < env.cursor
    ensures next.son == pt.son[pt.ptr0 := pt.v] && next.ptr1 == pt.ptr1 && next.ptr0 == env.Pair(env.pos - pt.v)
    ensures Descend(text, env.cursor, env, pt, limit, cut) == Descend(text, env.cursor, env, next, limit, cut - 1)
    ensures Longer(len, maxLen) < limit
    ensures Hunt(text, env.cursor, env, pt, limit, cut, maxLen, found)
            == Hunt(text, env.cursor, env, next, limit, cut - 1, Longer(len, maxLen),
                    Extended(found, len, env.cursor - t.at - 1, maxLen))
  {
    hide Leq, Lcp, Ordered, Positions, Distinct, UsesWord, Shows, Apart, Extended, StepLen, Advance, At;
    VisitedNode(text, env, pt, t, limit, lo, hi);
    TurnLeftVisits(text, env, pt, t, limit, lo, hi);
    StepAdvances(text, env, pt, t, limit, lo, hi, len);
    WalksUnfold(text, env, pt, limit, cut, maxLen, found, len, env.cursor - t.at - 1);
    next := NextLeft(env, pt, limit, len);
  }

  lemma DescendEnds(text: seq<Byte>, env: Env, pt: Point, t: Tree, limit: nat, cut: nat, lo: Option<nat>,
                    hi: Option<nat>)
    requires Visits(text, env, pt, t, limit, lo, hi)
    requires cut == 0 || t.Empty? || Lcp(text, t.at, env.cursor, limit) == limit
    ensures var halves := Split(text, t, env.cursor, limit, cut);
            SplitShown(env, pt.son, t, pt.ptr0, pt.ptr1, Descend(text, env.cursor, env, pt, limit, cut), halves.0,
                       halves.1)
  {
    if cut != 0 && t.Node? {
      StepLenIsLcp(text, env, pt, t, limit, lo, hi);
      GraftShows(env, pt, t, limit);
    }
  }

  /** The pointer walk leaves exactly the split at its two hanging ends and disturbs no other tree. */
  lemma {:induction false} DescendShowsSplit(text: seq<Byte>, env: Env, pt: Point, t: Tree, limit: nat, cut: nat,
                                             lo: Option<nat>, hi: Option<nat>)
    requires Visits(text, env, pt, t, limit, lo, hi)
    ensures var halves := Split(text, t, env.cursor, limit, cut);
            SplitShown(env, pt.son, t, pt.ptr0, pt.ptr1, Descend(text, env.cursor, env, pt, limit, cut), halves.0,
                       halves.1)
    decreases cut, 1
  {
    if cut == 0 || t.Empty? || Lcp(text, t.at, env.cursor, limit) == limit {
      DescendEnds(text, env, pt, t, limit, cut, lo, hi);
    } else if GoesLeftOf(text, t, env.cursor, limit) {
      DescendRight(text, env, pt, t, limit, cut, lo, hi);
    } else {
      DescendLeft(text, env, pt, t, limit, cut, lo, hi);
    }
  }

  lemma SplitTurnsRight(text: seq<Byte>, t: Tree, cur: nat, limit: nat, cut: nat)
    requires 0 < cut && t.Node? && GoesLeftOf(text, t, cur, limit)
    ensures var rest := Split(text, t.right, cur, limit, cut - 1);
            Split(text, t, cur, limit, cut) == (Node(t.at, t.left, rest.0), rest.1)
  {
  }

  lemma SplitTurnsLeft(text: seq<Byte>, t: Tree, cur: nat, limit: nat, cut: nat)
    requires 0 < cut && t.Node? && GoesRightOf(text, t, cur, limit)
    ensures var rest := Split(text, t.left, cur, limit, cut - 1);
            Split(text, t, cur, limit, cut) == (rest.0, Node(t.at, rest.1, t.right))
  {
  }

  lemma VisitsApart(text: seq<Byte>, env: Env, pt: Point, t: Tree, limit: nat, lo: Option<nat>, hi: Option<nat>)
    requires Visits(text, env, pt, t, limit, lo, hi)
    ensures Apart(env, pt.son, pt.v, t, pt.ptr0, pt.ptr1) && pt.Valid(env, limit) && 0 < limit
  {
  }

  lemma {:induction false} DescendRight(text: seq<Byte>, env: Env, pt: Point, t: Tree, limit: nat, cut: nat,
                                        lo: Option<nat>, hi: Option<nat>)
    requires Visits(text, env, pt, t, limit, lo, hi) && 0 < cut && t.Node? && GoesLeftOf(text, t, env.cursor, limit)
    ensures var halves := Split(text, t, env.cursor, limit, cut);
            SplitShown(env, pt.son, t, pt.ptr0, pt.ptr1, Descend(text, env.cursor, env, pt, limit, cut), halves.0,
                       halves.1)
    decreases cut, 0
  {
    hide *;
    VisitsApart(text, env, pt, t, limit, lo, hi);
    var len := Lcp(text, t.at, env.cursor, limit);
    var next := TurnRight(text, env, pt, t, limit, cut, lo, hi, 0, [], len);
    DescendShowsSplit(text, env, next, t.right, limit, cut - 1, Some(t.at), hi);
    var rest := Split(text, t.right, env.cursor, limit, cut - 1);
    HungSmallerShows(env, pt, t, next, Descend(text, env.cursor, env, next, limit, cut - 1), rest.0, rest.1);
    SplitTurnsRight(text, t, env.cursor, limit, cut);
  }

  lemma {:induction false} DescendLeft(text: seq<Byte>, env: Env, pt: Point, t: Tree, limit: nat, cut: nat,
                                       lo: Option<nat>, hi: Option<nat>)
    requires Visits(text, env, pt, t, limit, lo, hi) && 0 < cut && t.Node? && GoesRightOf(text, t, env.cursor, limit)
    ensures var halves := Split(text, t, env.cursor, limit, cut);
            SplitShown(env, pt.son, t, pt.ptr0, pt.ptr1, Descend(text, env.cursor, env, pt, limit, cut), halves.0,
                       halves.1)
    decreases cut, 0
  {
    hide *;
    VisitsApart(text, env, pt, t, limit, lo, hi);
    var len := Lcp(text, t.at, env.cursor, limit);
    var next := TurnLeft(text, env, pt, t, limit, cut, lo, hi, 0, [], len);
    DescendShowsSplit(text, env, next, t.left, limit, cut - 1, lo, Some(t.at));
    var rest := Split(text, t.left, env.cursor, limit, cut - 1);
    HungGreaterShows(env, pt, t, next, Descend(text, env.cursor, env, next, limit, cut - 1), rest.0, rest.1);
    SplitTurnsLeft(text, t, env.cursor, limit, cut);
  }

  /** And the reporting walk reports exactly the matches of the split. */
  lemma {:induction false} HuntReportsMatches(text: seq<Byte>, env: Env, pt: Point, t: Tree, limit: nat, cut: nat,
                                              lo: Option<nat>, hi: Option<nat>, maxLen: nat, found: seq<Match>)
    requires Visits(text, env, pt, t, limit, lo, hi) && maxLen < limit
    ensures Hunt(text, env.cursor, env, pt, limit, cut, maxLen, found).found
            == SplitMatches(text, t, env.cursor, limit, cut, maxLen, found)
    decreases cut, 1
  {
    if cut == 0 || t.Empty? || Lcp(text, t.at, env.cursor, limit) == limit {
      HuntEnds(text, env, pt, t, limit, cut, lo, hi, maxLen, found);
    } else if GoesLeftOf(text, t, env.cursor, limit) {
      HuntRight(text, env, pt, t, limit, cut, lo, hi, maxLen, found);
    } else {
      HuntLeft(text, env, pt, t, limit, cut, lo, hi, maxLen, found);
    }
  }

  lemma {:induction false} HuntRight(text: seq<Byte>, env: Env, pt: Point, t: Tree, limit: nat, cut: nat,
                                     lo: Option<nat>, hi: Option<nat>, maxLen: nat, found: seq<Match>)
    requires Visits(text, env, pt, t, limit, lo, hi) && maxLen < limit
    requires 0 < cut && t.Node? && GoesLeftOf(text, t, env.cursor, limit)
    ensures Hunt(text, env.cursor, env, pt, limit, cut, maxLen, found).found
            == SplitMatches(text, t, env.cursor, limit, cut, maxLen, found)
    decreases cut, 0
  {
    hide *;
    SplitMatchesTurn(text, env, pt, t, limit, cut, lo, hi, maxLen, found);
    var len := Lcp(text, t.at, env.cursor, limit);
    var next := TurnRight(text, env, pt, t, limit, cut, lo, hi, maxLen, found, len);
    HuntReportsMatches(text, env, next, t.right, limit, cut - 1, Some(t.at), hi, Longer(len, maxLen),
                       Extended(found, len, env.cursor - t.at - 1, maxLen));
  }

  lemma {:induction false} HuntLeft(text: seq<Byte>, env: Env, pt: Point, t: Tree, limit: nat, cut: nat,
                                    lo: Option<nat>, hi: Option<nat>, maxLen: nat, found: seq<Match>)
    requires Visits(text, env, pt, t, limit, lo, hi) && maxLen < limit
    requires 0 < cut && t.Node? && GoesRightOf(text, t, env.cursor, limit)
    ensures Hunt(text, env.cursor, env, pt, limit, cut, maxLen, found).found
            == SplitMatches(text, t, env.cursor, limit, cut, maxLen, found)
    decreases cut, 0
  {
    hide *;
    SplitMatchesTurn(text, env, pt, t, limit, cut, lo, hi, maxLen, found);
    var len := Lcp(text, t.at, env.cursor, limit);
    var next := TurnLeft(text, env, pt, t, limit, cut, lo, hi, maxLen, found, len);
    HuntReportsMatches(text, env, next, t.left, limit, cut - 1, lo, Some(t.at), Longer(len, maxLen),
                       Extended(found, len, env.cursor - t.at - 1, maxLen));
  }

  lemma SplitMatchesTurn(text: seq<Byte>, env: Env, pt: Point, t: Tree, limit: nat, cut: nat,
                         lo: Option<nat>, hi: Option<nat>, maxLen: nat, found: seq<Match>)
    requires Visits(text, env, pt, t, limit, lo, hi) && t.Node? && 0 < cut
    requires GoesLeftOf(text, t, env.cursor, limit) || GoesRightOf(text, t, env.cursor, limit)
    ensures t.at < env.cursor
    ensures var len := Lcp(text, t.at, env.cursor, limit);
            SplitMatches(text, t, env.cursor, limit, cut, maxLen, found)
            == SplitMatches(text, if GoesLeftOf(text, t, env.cursor, limit) then t.right else t.left, env.cursor, limit,
                            cut - 1, Longer(len, maxLen), Extended(found, len, env.cursor - t.at - 1, maxLen))
    ensures GoesRightOf(text, t, env.cursor, limit) ==> !GoesLeftOf(text, t, env.cursor, limit)
  {
    VisitedNode(text, env, pt, t, limit, lo, hi);
    hide Leq, Ordered, Positions, Distinct, Shows, UsesWord, Visits;
  }

  lemma HuntEnds(text: seq<Byte>, env: Env, pt: Point, t: Tree, limit: nat, cut: nat,
                 lo: Option<nat>, hi: Option<nat>, maxLen: nat, found: seq<Match>)
    requires Visits(text, env, pt, t, limit, lo, hi) && maxLen < limit
    requires cut == 0 || t.Empty? || Lcp(text, t.at, env.cursor, limit) == limit
    ensures Hunt(text, env.cursor, env, pt, limit, cut, maxLen, found).found
            == SplitMatches(text, t, env.cursor, limit, cut, maxLen, found)
  {
    if cut != 0 && t.Node? {
      StepLenIsLcp(text, env, pt, t, limit, lo, hi);
    }
  }
}
