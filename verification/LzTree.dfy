// The search trees of lib/lzma/C/LzFind.c, without pointers.
module LzTree {
  // Stream positions ordered by the text that starts there, and the split that inserting a new position
  // performs.

  import opened SearchSpec
  import opened Wrappers

  // ---- Comparing text ----

  function At(text: seq<Byte>, i: int): Byte {
    if 0 <= i < |text| then text[i] else 0
  }

  predicate SameAt(text: seq<Byte>, p: int, q: int, k: int) {
    At(text, p + k) == At(text, q + k)
  }

  ghost predicate SameBytes(text: seq<Byte>, p: int, q: int, len: nat) {
    forall k :: 0 <= k < len ==> SameAt(text, p, q, k)
  }

  /** Length of the common prefix of the texts at p and q, up to limit. */
  function Lcp(text: seq<Byte>, p: int, q: int, limit: nat): (len: nat)
    ensures len <= limit
    decreases limit
  {
    if limit == 0 || At(text, p) != At(text, q) then 0 else 1 + Lcp(text, p + 1, q + 1, limit - 1)
  }

  /** The first limit bytes at p are lexicographically at most those at q. */
  predicate Leq(text: seq<Byte>, p: int, q: int, limit: nat)
    decreases limit
  {
    limit == 0 || At(text, p) < At(text, q)
    || (At(text, p) == At(text, q) && Leq(text, p + 1, q + 1, limit - 1))
  }

  lemma {:induction false} LcpIsCommonPrefix(text: seq<Byte>, p: int, q: int, limit: nat)
    ensures var len := Lcp(text, p, q, limit);
            && SameBytes(text, p, q, len)
            && (len < limit ==> !SameAt(text, p, q, len))
    decreases limit
  {
    if limit != 0 && At(text, p) == At(text, q) {
      LcpIsCommonPrefix(text, p + 1, q + 1, limit - 1);
      var len := Lcp(text, p, q, limit);
      forall k | 0 <= k <= len
        ensures SameAt(text, p, q, k) == (k == 0 || SameAt(text, p + 1, q + 1, k - 1))
      {
      }
    }
  }

  lemma {:induction false} LeqTransitive(text: seq<Byte>, p: int, q: int, r: int, limit: nat)
    requires Leq(text, p, q, limit) && Leq(text, q, r, limit)
    ensures Leq(text, p, r, limit)
    decreases limit
  {
    if limit != 0 && At(text, p) == At(text, q) == At(text, r) {
      LeqTransitive(text, p + 1, q + 1, r + 1, limit - 1);
    }
  }

  lemma {:induction false} LeqShorter(text: seq<Byte>, p: int, q: int, limit: nat, limit': nat)
    requires Leq(text, p, q, limit) && limit' <= limit
    ensures Leq(text, p, q, limit')
    decreases limit'
  {
    if limit' != 0 && At(text, p) == At(text, q) {
      LeqShorter(text, p + 1, q + 1, limit - 1, limit' - 1);
    }
  }

  /** Text lying between two texts that share m bytes with cur shares them too. */
  lemma {:induction false} BetweenSharesPrefix(text: seq<Byte>, lo: int, p: int, hi: int, cur: int, m: nat, limit: nat)
    requires Leq(text, lo, p, limit) && Leq(text, p, hi, limit)
    requires m <= Lcp(text, lo, cur, limit) && m <= Lcp(text, hi, cur, limit)
    ensures m <= Lcp(text, p, cur, limit)
    decreases m
  {
    if m != 0 {
      BetweenSharesPrefix(text, lo + 1, p + 1, hi + 1, cur + 1, m - 1, limit - 1);
    }
  }

  /** The byte after the common prefix decides the order; a full common prefix gives both directions. */
  lemma {:induction false} LcpDecidesOrder(text: seq<Byte>, p: int, q: int, limit: nat)
    ensures var len := Lcp(text, p, q, limit);
            && (len == limit || At(text, p + len) < At(text, q + len) ==> Leq(text, p, q, limit))
            && (len == limit || At(text, p + len) > At(text, q + len) ==> Leq(text, q, p, limit))
    decreases limit
  {
    if limit != 0 && At(text, p) == At(text, q) {
      LcpDecidesOrder(text, p + 1, q + 1, limit - 1);
      assert p + 1 + Lcp(text, p + 1, q + 1, limit - 1) == p + Lcp(text, p, q, limit);
      assert q + 1 + Lcp(text, p + 1, q + 1, limit - 1) == q + Lcp(text, p, q, limit);
    }
  }

  /** The comparison loop of the source: start at len, stop at the first difference or at limit. */
  function Extend(text: seq<Byte>, p: int, q: int, len: nat, limit: nat): (r: nat)
    requires len <= limit
    ensures len <= r <= limit
    decreases limit - len
  {
    if len < limit && At(text, p + len) == At(text, q + len) then Extend(text, p, q, len + 1, limit) else len
  }

  /** Starting the comparison anywhere inside the common prefix gives its true length. */
  lemma {:induction false} ExtendFindsLcp(text: seq<Byte>, p: int, q: int, len: nat, limit: nat)
    requires len <= Lcp(text, p, q, limit)
    ensures Extend(text, p, q, len, limit) == Lcp(text, p, q, limit)
    decreases limit - len
  {
    LcpIsCommonPrefix(text, p, q, limit);
    assert len < Lcp(text, p, q, limit) ==> SameAt(text, p, q, len);
    assert Lcp(text, p, q, limit) < limit ==> !SameAt(text, p, q, Lcp(text, p, q, limit));
    if len < Lcp(text, p, q, limit) {
      ExtendFindsLcp(text, p, q, len + 1, limit);
    }
  }

  lemma {:induction false} ExtendKeepsSame(text: seq<Byte>, p: int, q: int, len: nat, limit: nat)
    requires len <= limit && SameBytes(text, p, q, len)
    ensures SameBytes(text, p, q, Extend(text, p, q, len, limit))
    decreases limit - len
  {
    if len < limit && At(text, p + len) == At(text, q + len) {
      assert SameAt(text, p, q, len);
      ExtendKeepsSame(text, p, q, len + 1, limit);
    }
  }

  // ---- Trees ----

  datatype Tree = Empty | Node(at: nat, left: Tree, right: Tree)

  ghost function Positions(t: Tree): set<nat> {
    match t
    case Empty => {}
    case Node(at, l, r) => {at} + Positions(l) + Positions(r)
  }

  /** No position occurs twice. */
  ghost predicate Distinct(t: Tree) {
    match t
    case Empty => true
    case Node(at, l, r) =>
      && at !in Positions(l) && at !in Positions(r) && Positions(l) !! Positions(r)
      && Distinct(l) && Distinct(r)
  }

  ghost predicate AtLeast(text: seq<Byte>, bound: Option<nat>, p: nat, limit: nat) {
    bound.Some? ==> Leq(text, bound.value, p, limit)
  }

  ghost predicate AtMost(text: seq<Byte>, p: nat, bound: Option<nat>, limit: nat) {
    bound.Some? ==> Leq(text, p, bound.value, limit)
  }

  /** A search tree on the first limit bytes, all of it between lo and hi. */
  ghost predicate Ordered(text: seq<Byte>, t: Tree, lo: Option<nat>, hi: Option<nat>, limit: nat) {
    match t
    case Empty => true
    case Node(at, l, r) =>
      && AtLeast(text, lo, at, limit) && AtMost(text, at, hi, limit)
      && Ordered(text, l, lo, Some(at), limit) && Ordered(text, r, Some(at), hi, limit)
  }

  lemma {:induction false} OrderedShorter(text: seq<Byte>, t: Tree, lo: Option<nat>, hi: Option<nat>, limit: nat,
                                          limit': nat)
    requires Ordered(text, t, lo, hi, limit) && limit' <= limit
    ensures Ordered(text, t, lo, hi, limit')
  {
    if t.Node? {
      if lo.Some? {
        LeqShorter(text, lo.value, t.at, limit, limit');
      }
      if hi.Some? {
        LeqShorter(text, t.at, hi.value, limit, limit');
      }
      OrderedShorter(text, t.left, lo, Some(t.at), limit, limit');
      OrderedShorter(text, t.right, Some(t.at), hi, limit, limit');
    }
  }

  lemma {:induction false} RaiseUpperBound(text: seq<Byte>, t: Tree, lo: Option<nat>, hi: nat, hi': nat, limit: nat)
    requires Ordered(text, t, lo, Some(hi), limit) && Leq(text, hi, hi', limit)
    ensures Ordered(text, t, lo, Some(hi'), limit)
  {
    if t.Node? {
      LeqTransitive(text, t.at, hi, hi', limit);
      RaiseUpperBound(text, t.right, Some(t.at), hi, hi', limit);
    }
  }

  lemma {:induction false} LowerLowerBound(text: seq<Byte>, t: Tree, lo: nat, lo': nat, hi: Option<nat>, limit: nat)
    requires Ordered(text, t, Some(lo), hi, limit) && Leq(text, lo', lo, limit)
    ensures Ordered(text, t, Some(lo'), hi, limit)
  {
    if t.Node? {
      LeqTransitive(text, lo', lo, t.at, limit);
      LowerLowerBound(text, t.left, lo, lo', Some(t.at), limit);
    }
  }

  // ---- Inserting a position ----

  /** Splits a tree around cur, visiting at most cut nodes: what is smaller and what is greater. A node
      equal to cur on limit bytes is replaced by its subtrees, and what is not visited is dropped. */
  function Split(text: seq<Byte>, t: Tree, cur: nat, limit: nat, cut: nat): (Tree, Tree) {
    if cut == 0 || t.Empty? then (Empty, Empty)
    else
      var len := Lcp(text, t.at, cur, limit);
      if len == limit then (t.left, t.right)
      else if At(text, t.at + len) < At(text, cur + len) then
        var (smaller, greater) := Split(text, t.right, cur, limit, cut - 1);
        (Node(t.at, t.left, smaller), greater)
      else
        var (smaller, greater) := Split(text, t.left, cur, limit, cut - 1);
        (smaller, Node(t.at, greater, t.right))
  }

  lemma {:induction false} SplitOrdered(text: seq<Byte>, t: Tree, cur: nat, limit: nat, cut: nat, lo: Option<nat>,
                                        hi: Option<nat>)
    requires Ordered(text, t, lo, hi, limit)
    requires AtLeast(text, lo, cur, limit) && AtMost(text, cur, hi, limit)
    ensures var (smaller, greater) := Split(text, t, cur, limit, cut);
            Ordered(text, smaller, lo, Some(cur), limit) && Ordered(text, greater, Some(cur), hi, limit)
  {
    if cut != 0 && t.Node? {
      var len := Lcp(text, t.at, cur, limit);
      LcpIsCommonPrefix(text, t.at, cur, limit);
      LcpDecidesOrder(text, t.at, cur, limit);
      if len == limit {
        RaiseUpperBound(text, t.left, lo, t.at, cur, limit);
        LowerLowerBound(text, t.right, t.at, cur, hi, limit);
      } else if At(text, t.at + len) < At(text, cur + len) {
        SplitOrdered(text, t.right, cur, limit, cut - 1, Some(t.at), hi);
      } else {
        SplitOrdered(text, t.left, cur, limit, cut - 1, lo, Some(t.at));
      }
    }
  }

  lemma {:induction false} SplitPositions(text: seq<Byte>, t: Tree, cur: nat, limit: nat, cut: nat)
    requires Distinct(t)
    ensures var (smaller, greater) := Split(text, t, cur, limit, cut);
            && Positions(smaller) + Positions(greater) <= Positions(t)
            && Positions(smaller) !! Positions(greater)
            && Distinct(smaller) && Distinct(greater)
  {
    if cut != 0 && t.Node? {
      var len := Lcp(text, t.at, cur, limit);
      if len < limit {
        if At(text, t.at + len) < At(text, cur + len) {
          SplitPositions(text, t.right, cur, limit, cut - 1);
        } else {
          SplitPositions(text, t.left, cur, limit, cut - 1);
        }
      }
    }
  }

  /** The tree with cur as its newest node. */
  function Insert(text: seq<Byte>, t: Tree, cur: nat, limit: nat, cut: nat): Tree {
    var (smaller, greater) := Split(text, t, cur, limit, cut);
    Node(cur, smaller, greater)
  }

  /** Inserting keeps the tree ordered and free of repeats. */
  lemma InsertKeepsTree(text: seq<Byte>, t: Tree, cur: nat, limit: nat, cut: nat)
    requires Ordered(text, t, None, None, limit) && Distinct(t) && cur !in Positions(t)
    ensures var t' := Insert(text, t, cur, limit, cut);
            && Ordered(text, t', None, None, limit) && Distinct(t')
            && Positions(t') <= Positions(t) + {cur}
  {
    SplitOrdered(text, t, cur, limit, cut, None, None);
    SplitPositions(text, t, cur, limit, cut);
  }

  // ---- Forgetting old positions ----

  /** What remains of a tree when positions before `oldest` are no longer visible. */
  function Prune(t: Tree, oldest: int): Tree {
    if t.Empty? || t.at < oldest then Empty
    else Node(t.at, Prune(t.left, oldest), Prune(t.right, oldest))
  }

  lemma {:induction false} PruneKeepsTree(text: seq<Byte>, t: Tree, oldest: int, lo: Option<nat>, hi: Option<nat>,
                                          limit: nat)
    requires Ordered(text, t, lo, hi, limit) && Distinct(t)
    ensures var t' := Prune(t, oldest);
            Ordered(text, t', lo, hi, limit) && Distinct(t') && Positions(t') <= Positions(t)
  {
    if t.Node? {
      PruneKeepsTree(text, t.left, oldest, lo, Some(t.at), limit);
      PruneKeepsTree(text, t.right, oldest, Some(t.at), hi, limit);
    }
  }

  // ---- Matches ----

  /** `length` bytes at distance `back + 1`, as the source reports them. */
  datatype Match = Match(length: nat, back: nat)

  /** What has been reported after one more comparison: a match only when it is longer than all before. */
  function Extended(found: seq<Match>, len: nat, back: nat, maxLen: nat): seq<Match> {
    if maxLen < len then found + [Match(len, back)] else found
  }

  function Longer(len: nat, maxLen: nat): nat {
    if maxLen < len then len else maxLen
  }

  /** Where splitting continues below a node that differs from cur within the limit. */
  function NextChild(text: seq<Byte>, t: Tree, cur: nat, limit: nat): Tree
    requires t.Node?
  {
    var len := Lcp(text, t.at, cur, limit);
    if At(text, t.at + len) < At(text, cur + len) then t.right else t.left
  }

  /** The matches longer than maxLen met while splitting, after those already found. */
  function SplitMatches(text: seq<Byte>, t: Tree, cur: nat, limit: nat, cut: nat, maxLen: nat,
                        found: seq<Match>): seq<Match> {
    if cut == 0 || t.Empty? || cur <= t.at then found
    else
      var len := Lcp(text, t.at, cur, limit);
      var found' := Extended(found, len, cur - t.at - 1, maxLen);
      if len == limit then found'
      else SplitMatches(text, NextChild(text, t, cur, limit), cur, limit, cut - 1, Longer(len, maxLen), found')
  }

  /** A match reports true equality with text at an earlier position, not before `oldest`. */
  ghost predicate TrueMatch(text: seq<Byte>, cur: nat, oldest: int, m: Match) {
    m.back < cur && oldest <= cur - m.back - 1 && SameBytes(text, cur - m.back - 1, cur, m.length)
  }

  /** All matches are true, at least two bytes long, ever longer, and none longer than maxLen. */
  ghost predicate GoodMatches(text: seq<Byte>, cur: nat, oldest: int, found: seq<Match>, maxLen: nat) {
    && (forall i :: 0 <= i < |found| ==> TrueMatch(text, cur, oldest, found[i]) && 2 <= found[i].length <= maxLen)
    && forall i, j :: 0 <= i < j < |found| ==> found[i].length < found[j].length
  }

  lemma GoodWithin(text: seq<Byte>, cur: nat, oldest: int, found: seq<Match>, maxLen: nat, limit: nat)
    requires GoodMatches(text, cur, oldest, found, maxLen) && maxLen <= limit
    ensures GoodMatches(text, cur, oldest, found, limit)
  {
  }

  lemma ExtendedStaysGood(text: seq<Byte>, cur: nat, oldest: int, found: seq<Match>, len: nat, back: nat, maxLen: nat)
    requires GoodMatches(text, cur, oldest, found, maxLen) && 1 <= maxLen
    requires TrueMatch(text, cur, oldest, Match(len, back))
    ensures GoodMatches(text, cur, oldest, Extended(found, len, back, maxLen), Longer(len, maxLen))
  {
  }

  ghost predicate NotBefore(t: Tree, oldest: int) {
    forall p :: p in Positions(t) ==> oldest <= p
  }

  lemma NodeTrueMatch(text: seq<Byte>, t: Tree, cur: nat, oldest: int, limit: nat)
    requires t.Node? && t.at < cur && NotBefore(t, oldest)
    ensures TrueMatch(text, cur, oldest, Match(Lcp(text, t.at, cur, limit), cur - t.at - 1))
    ensures NotBefore(t.left, oldest) && NotBefore(t.right, oldest)
  {
    LcpIsCommonPrefix(text, t.at, cur, limit);
    assert t.at in Positions(t) && cur - (cur - t.at - 1) - 1 == t.at;
    assert Positions(t.left) <= Positions(t) && Positions(t.right) <= Positions(t);
  }

  /** Splitting reports only good matches. */
  lemma {:induction false} SplitMatchesGood(text: seq<Byte>, t: Tree, cur: nat, oldest: int, limit: nat, cut: nat,
                                            maxLen: nat, found: seq<Match>)
    requires GoodMatches(text, cur, oldest, found, maxLen) && 1 <= maxLen <= limit && NotBefore(t, oldest)
    ensures GoodMatches(text, cur, oldest, SplitMatches(text, t, cur, limit, cut, maxLen, found), limit)
    decreases cut
  {
    if cut != 0 && t.Node? && t.at < cur {
      var len := Lcp(text, t.at, cur, limit);
      NodeTrueMatch(text, t, cur, oldest, limit);
      ExtendedStaysGood(text, cur, oldest, found, len, cur - t.at - 1, maxLen);
      hide GoodMatches, TrueMatch, Extended, NotBefore, Positions, Lcp, At;
      var found' := Extended(found, len, cur - t.at - 1, maxLen);
      if len == limit {
        GoodWithin(text, cur, oldest, found', Longer(len, maxLen), limit);
      } else {
        var next := NextChild(text, t, cur, limit);
        SplitMatchesGood(text, next, cur, oldest, limit, cut - 1, Longer(len, maxLen), found');
      }
    } else {
      GoodWithin(text, cur, oldest, found, maxLen, limit);
    }
  }
}
