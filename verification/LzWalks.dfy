// The loops of lib/lzma/C/LzFind.c over the sliding buffer and the reference array, in place.
module LzWalks {
  import opened SearchSpec
  import opened LzTree
  import opened LzDescent
  import H = LzChain
  import opened Wrappers

  // ---- The sliding buffer ----

  /** Around index `buffer` the buffer holds the stream around `cursor`: all before, and `ahead` bytes from there. */
  ghost predicate Holds(base: seq<Byte>, buffer: nat, ahead: nat, text: seq<Byte>, cursor: int) {
    && buffer <= cursor && buffer + ahead <= |base|
    && forall k :: 0 <= k < buffer + ahead ==> base[k] == At(text, cursor - buffer + k)
  }

  /** The buffer reaches back to every position of the window. */
  ghost predicate Reaches(env: Env, buffer: nat) {
    buffer == env.cursor || env.size <= buffer
  }

  lemma HeldByte(base: array<Byte>, buffer: nat, ahead: nat, text: seq<Byte>, cursor: int, i: int)
    requires Holds(base[..], buffer, ahead, text, cursor) && 0 <= buffer + i && i < ahead
    ensures buffer + ahead <= base.Length && base[buffer + i] == At(text, cursor + i)
  {
    assert base[..][buffer + i] == At(text, cursor - buffer + (buffer + i));
  }

  /** The inner loops: extend a match from `start` bytes. */
  method Compare(base: array<Byte>, buffer: nat, delta: nat, start: nat, limit: nat,
                 ghost ahead: nat, ghost text: seq<Byte>, ghost cursor: int) returns (len: nat)
    requires Holds(base[..], buffer, ahead, text, cursor) && delta <= buffer && start <= limit <= ahead
    ensures len == Extend(text, cursor - delta, cursor, start, limit)
  {
    len := start;
    while len != limit
      invariant start <= len <= limit
      invariant Extend(text, cursor - delta, cursor, len, limit) == Extend(text, cursor - delta, cursor, start, limit)
    {
      HeldByte(base, buffer, ahead, text, cursor, len - delta);
      HeldByte(base, buffer, ahead, text, cursor, len);
      if base[buffer - delta + len] != base[buffer + len] {
        break;
      }
      len := len + 1;
    }
  }

  // ---- One turn of the tree walks ----

  /** A visited reference inside the window is a node of the tree, at an earlier stream position. */
  lemma VisitedInside(text: seq<Byte>, env: Env, pt: Point, t: Tree, limit: nat, lo: Option<nat>, hi: Option<nat>)
    requires Visits(text, env, pt, t, limit, lo, hi) && Sub32(env.pos, pt.v) < env.size
    ensures t.Node? && 1 <= Sub32(env.pos, pt.v) <= env.cursor
  {
  }

  lemma WalkOn(text: seq<Byte>, env: Env, pt: Point, t: Tree, limit: nat, cut: nat, lo: Option<nat>, hi: Option<nat>,
               maxLen: nat, found: seq<Match>, len: nat) returns (t': Tree, lo': Option<nat>, hi': Option<nat>)
    requires Visits(text, env, pt, t, limit, lo, hi) && 0 < cut && maxLen < limit && pt.Valid(env, limit)
    requires Sub32(env.pos, pt.v) < env.size && len == StepLen(text, env.cursor, env, pt, limit) < limit
    ensures var next, back := Advance(text, env.cursor, env, pt, limit, len), Sub32(Sub32(env.pos, pt.v), 1);
            && Visits(text, env, next, t', limit, lo', hi')
            && Descend(text, env.cursor, env, pt, limit, cut) == Descend(text, env.cursor, env, next, limit, cut - 1)
            && Hunt(text, env.cursor, env, pt, limit, cut, maxLen, found)
               == Hunt(text, env.cursor, env, next, limit, cut - 1, Longer(len, maxLen),
                       Extended(found, len, back, maxLen))
  {
    VisitedInside(text, env, pt, t, limit, lo, hi);
    hide Leq, Ordered, Positions, Distinct, UsesWord, Shows, Apart, Visits, Extended, Advance, At, Extend, StepLen;
    StepLenIsLcp(text, env, pt, t, limit, lo, hi);
    StepAdvances(text, env, pt, t, limit, lo, hi, len);
    WalksUnfold(text, env, pt, limit, cut, maxLen, found, len, Sub32(Sub32(env.pos, pt.v), 1));
    if GoesLeftOf(text, t, env.cursor, limit) {
      TurnRightVisits(text, env, pt, t, limit, lo, hi);
      t', lo', hi' := t.right, Some(t.at), hi;
    } else {
      TurnLeftVisits(text, env, pt, t, limit, lo, hi);
      t', lo', hi' := t.left, lo, Some(t.at);
    }
  }

  lemma HuntEnd(text: seq<Byte>, env: Env, pt: Point, limit: nat, cut: nat, maxLen: nat, found: seq<Match>)
    requires pt.Valid(env, limit) && maxLen < limit && (cut == 0 || Sub32(env.pos, pt.v) >= env.size)
    ensures Hunt(text, env.cursor, env, pt, limit, cut, maxLen, found) == Walk(Close(pt), found)
    ensures Descend(text, env.cursor, env, pt, limit, cut) == Close(pt)
  {
  }

  lemma HuntFull(text: seq<Byte>, env: Env, pt: Point, limit: nat, cut: nat, maxLen: nat, found: seq<Match>)
    requires pt.Valid(env, limit) && maxLen < limit && 0 < cut && Sub32(env.pos, pt.v) < env.size
    requires StepLen(text, env.cursor, env, pt, limit) == limit
    ensures Hunt(text, env.cursor, env, pt, limit, cut, maxLen, found)
            == Walk(Graft(env, pt, limit), found + [Match(limit, Sub32(Sub32(env.pos, pt.v), 1))])
    ensures Descend(text, env.cursor, env, pt, limit, cut) == Graft(env, pt, limit)
  {
  }

  lemma ChainInside(son: seq<UInt32>, env: Env, v: UInt32, chain: seq<nat>)
    requires env.Valid() && |son| == env.size && H.Linked(son, env, v, chain) && Sub32(env.pos, v) < env.size
    ensures chain != [] && 1 <= Sub32(env.pos, v) <= env.cursor
    ensures H.Linked(son, env, son[H.Slot(env, Sub32(env.pos, v))], chain[1..])
  {
  }

  /** What a chain entry this distance back is worth: nothing when a byte at either end already differs. */
  function Worth(text: seq<Byte>, cursor: int, delta: UInt32, maxLen: nat, limit: nat): (len: nat)
    requires 1 <= limit
    ensures len <= limit
  {
    if At(text, cursor - delta + maxLen) == At(text, cursor + maxLen)
       && At(text, cursor - delta) == At(text, cursor) then
      Extend(text, cursor - delta, cursor, 1, limit)
    else 0
  }

  lemma FollowUnfolds(text: seq<Byte>, env: Env, son: seq<UInt32>, v: UInt32, limit: nat, cut: nat, maxLen: nat,
                      found: seq<Match>)
    requires env.cyc < env.size == |son| && maxLen < limit && 0 < cut && Sub32(env.pos, v) < env.size
    ensures var next := son[H.Slot(env, Sub32(env.pos, v))];
            var len := Worth(text, env.cursor, Sub32(env.pos, v), maxLen, limit);
            var found' := found + [Match(len, Sub32(Sub32(env.pos, v), 1))];
            H.Follow(text, env, son, v, limit, cut, maxLen, found)
            == if len <= maxLen then H.Follow(text, env, son, next, limit, cut - 1, maxLen, found)
               else if len == limit then found'
               else H.Follow(text, env, son, next, limit, cut - 1, len, found')
  {
  }

  lemma FollowEnds(text: seq<Byte>, env: Env, son: seq<UInt32>, v: UInt32, limit: nat, cut: nat, maxLen: nat,
                   found: seq<Match>)
    requires env.cyc < env.size == |son| && 1 <= limit && (cut == 0 || Sub32(env.pos, v) >= env.size)
    ensures H.Follow(text, env, son, v, limit, cut, maxLen, found) == found
  {
  }

  // ---- The walks ----

  /** Hangs the visited node on one end and moves to its child on the other side. */
  method Turn(son: array<UInt32>, smaller: bool, v: UInt32, pair: nat, ptr0: nat, ptr1: nat, len0: nat, len1: nat,
              len: nat, ghost env: Env, ghost limit: nat)
    returns (v': UInt32, ptr0': nat, ptr1': nat, len0': nat, len1': nat)
    requires Point(son[..], v, ptr0, ptr1, len0, len1).Valid(env, limit) && len < limit
    requires Sub32(env.pos, v) < env.size && pair == env.Pair(Sub32(env.pos, v))
    modifies son
    ensures Point(son[..], v', ptr0', ptr1', len0', len1')
            == if smaller then NextRight(env, old(Point(son[..], v, ptr0, ptr1, len0, len1)), limit, len)
               else NextLeft(env, old(Point(son[..], v, ptr0, ptr1, len0, len1)), limit, len)
    ensures len0' == (if smaller then len0 else len) && len1' == if smaller then len else len1
  {
    v', ptr0', ptr1', len0', len1' := v, ptr0, ptr1, len0, len1;
    if smaller {
      son[ptr1] := v;
      ptr1' := pair + 1;
      v' := son[ptr1'];
      len1' := len;
    } else {
      son[ptr0] := v;
      ptr0' := pair;
      v' := son[ptr0'];
      len0' := len;
    }
  }

  method CloseEnds(son: array<UInt32>, ptr0: nat, ptr1: nat, ghost pt: Point)
    requires pt.son == son[..] && pt.ptr0 == ptr0 < son.Length && pt.ptr1 == ptr1 < son.Length
    modifies son
    ensures son[..] == Close(pt)
  {
    son[ptr1] := 0;
    son[ptr0] := 0;
  }

  method GraftEnds(son: array<UInt32>, pair: nat, ptr0: nat, ptr1: nat, ghost pt: Point, ghost env: Env,
                   ghost limit: nat)
    requires pt.Valid(env, limit) && pt.son == son[..] && pt.ptr0 == ptr0 && pt.ptr1 == ptr1
    requires Sub32(env.pos, pt.v) < env.size && pair == env.Pair(Sub32(env.pos, pt.v))
    modifies son
    ensures son[..] == Graft(env, pt, limit)
  {
    son[ptr1] := son[pair];
    son[ptr0] := son[pair + 1];
  }

  /** GetMatchesSpec1. Reading the bytes behind the cursor is safe because every visited node is a real position. */
  method GetMatchesSpec1(lenLimit: nat, first: UInt32, pos: UInt32, base: array<Byte>, buffer: nat, son: array<UInt32>,
                         cyc: nat, size: UInt32, cutValue: nat, found: seq<Match>, longest: nat,
                         ghost env: Env, ghost text: seq<Byte>, ghost ahead: nat, ghost tree: Tree)
    returns (distances: seq<Match>)
    requires env.pos == pos && env.cyc == cyc && env.size == size && son.Length == 2 * size
    requires Holds(base[..], buffer, ahead, text, env.cursor) && Reaches(env, buffer) && lenLimit <= ahead
    requires base as object != son as object
    requires longest < lenLimit
    requires Visits(text, env, Point(son[..], first, 2 * cyc + 1, 2 * cyc, 0, 0), tree, lenLimit, None, None)
    modifies son
    ensures Walk(son[..], distances)
            == Hunt(text, env.cursor, env, old(Point(son[..], first, 2 * cyc + 1, 2 * cyc, 0, 0)), lenLimit, cutValue,
                    longest, found)
  {
    hide Holds, Visits, Hunt, Descend, Extend, At, NextLeft, NextRight, Close, Graft;
    ghost var pt := Point(son[..], first, 2 * cyc + 1, 2 * cyc, 0, 0);
    VisitsApart(text, env, pt, tree, lenLimit, None, None);
    ghost var whole := Hunt(text, env.cursor, env, pt, lenLimit, cutValue, longest, found);
    ghost var t: Tree, lo: Option<nat>, hi: Option<nat> := tree, None, None;
    var ptr0: nat, ptr1: nat, len0: nat, len1: nat := 2 * cyc + 1, 2 * cyc, 0, 0;
    var curMatch, cut, maxLen := first, cutValue, longest;
    distances := found;
    while true
      invariant pt == Point(son[..], curMatch, ptr0, ptr1, len0, len1) && pt.Valid(env, lenLimit)
      invariant len0 <= maxLen && len1 <= maxLen && maxLen < lenLimit
      invariant Visits(text, env, pt, t, lenLimit, lo, hi)
      invariant Hunt(text, env.cursor, env, pt, lenLimit, cut, maxLen, distances) == whole
      decreases cut
    {
      var delta := Sub32(pos, curMatch);
      if cut == 0 || delta >= size {
        HuntEnd(text, env, pt, lenLimit, cut, maxLen, distances);
        CloseEnds(son, ptr0, ptr1, pt);
        return;
      }
      VisitedInside(text, env, pt, t, lenLimit, lo, hi);
      var pair := 2 * (cyc - delta + if delta > cyc then size else 0);
      var len := Compare(base, buffer, delta, if len0 < len1 then len0 else len1, lenLimit, ahead, text, env.cursor);
      ghost var distances0, maxLen0 := distances, maxLen;
      if maxLen < len {
        distances, maxLen := distances + [Match(len, delta - 1)], len;
        if len == lenLimit {
          HuntFull(text, env, pt, lenLimit, cut, maxLen0, distances0);
          GraftEnds(son, pair, ptr0, ptr1, pt, env, lenLimit);
          return;
        }
      }
      HeldByte(base, buffer, ahead, text, env.cursor, len - delta);
      HeldByte(base, buffer, ahead, text, env.cursor, len);
      t, lo, hi := WalkOn(text, env, pt, t, lenLimit, cut, lo, hi, maxLen0, distances0, len);
      pt := Advance(text, env.cursor, env, pt, lenLimit, len);
      curMatch, ptr0, ptr1, len0, len1 :=
        Turn(son, base[buffer - delta + len] < base[buffer + len], curMatch, pair, ptr0, ptr1, len0, len1, len, env,
             lenLimit);
      cut := cut - 1;
    }
  }

  /** SkipMatchesSpec. */
  method SkipMatchesSpec(lenLimit: nat, first: UInt32, pos: UInt32, base: array<Byte>, buffer: nat, son: array<UInt32>,
                         cyc: nat, size: UInt32, cutValue: nat,
                         ghost env: Env, ghost text: seq<Byte>, ghost ahead: nat, ghost tree: Tree)
    requires env.pos == pos && env.cyc == cyc && env.size == size && son.Length == 2 * size
    requires Holds(base[..], buffer, ahead, text, env.cursor) && Reaches(env, buffer) && lenLimit <= ahead
    requires base as object != son as object
    requires Visits(text, env, Point(son[..], first, 2 * cyc + 1, 2 * cyc, 0, 0), tree, lenLimit, None, None)
    modifies son
    ensures old(Point(son[..], first, 2 * cyc + 1, 2 * cyc, 0, 0)).Valid(env, lenLimit)
    ensures son[..] == Descend(text, env.cursor, env, old(Point(son[..], first, 2 * cyc + 1, 2 * cyc, 0, 0)), lenLimit,
                               cutValue)
  {
    hide Holds, Visits, Hunt, Descend, Extend, At, NextLeft, NextRight, Close, Graft;
    ghost var pt := Point(son[..], first, 2 * cyc + 1, 2 * cyc, 0, 0);
    VisitsApart(text, env, pt, tree, lenLimit, None, None);
    ghost var whole := Descend(text, env.cursor, env, pt, lenLimit, cutValue);
    ghost var t: Tree, lo: Option<nat>, hi: Option<nat> := tree, None, None;
    var ptr0: nat, ptr1: nat, len0: nat, len1: nat := 2 * cyc + 1, 2 * cyc, 0, 0;
    var curMatch, cut := first, cutValue;
    while true
      invariant pt == Point(son[..], curMatch, ptr0, ptr1, len0, len1) && pt.Valid(env, lenLimit)
      invariant Visits(text, env, pt, t, lenLimit, lo, hi)
      invariant Descend(text, env.cursor, env, pt, lenLimit, cut) == whole
      decreases cut
    {
      var delta := Sub32(pos, curMatch);
      if cut == 0 || delta >= size {
        HuntEnd(text, env, pt, lenLimit, cut, 0, []);
        CloseEnds(son, ptr0, ptr1, pt);
        return;
      }
      VisitedInside(text, env, pt, t, lenLimit, lo, hi);
      var pair := 2 * (cyc - delta + if delta > cyc then size else 0);
      var len := Compare(base, buffer, delta, if len0 < len1 then len0 else len1, lenLimit, ahead, text, env.cursor);
      if len == lenLimit {
        HuntFull(text, env, pt, lenLimit, cut, 0, []);
        GraftEnds(son, pair, ptr0, ptr1, pt, env, lenLimit);
        return;
      }
      HeldByte(base, buffer, ahead, text, env.cursor, len - delta);
      HeldByte(base, buffer, ahead, text, env.cursor, len);
      t, lo, hi := WalkOn(text, env, pt, t, lenLimit, cut, lo, hi, 0, [], len);
      pt := Advance(text, env.cursor, env, pt, lenLimit, len);
      curMatch, ptr0, ptr1, len0, len1 :=
        Turn(son, base[buffer - delta + len] < base[buffer + len], curMatch, pair, ptr0, ptr1, len0, len1, len, env,
             lenLimit);
      cut := cut - 1;
    }
  }

  method Probe(base: array<Byte>, buffer: nat, delta: nat, maxLen: nat, limit: nat,
               ghost ahead: nat, ghost text: seq<Byte>, ghost cursor: int) returns (len: nat)
    requires Holds(base[..], buffer, ahead, text, cursor) && delta <= buffer && delta < 0x1_0000_0000
             && maxLen < limit <= ahead
    ensures len == Worth(text, cursor, delta, maxLen, limit)
  {
    HeldByte(base, buffer, ahead, text, cursor, maxLen - delta);
    HeldByte(base, buffer, ahead, text, cursor, maxLen);
    HeldByte(base, buffer, ahead, text, cursor, 0 - delta);
    HeldByte(base, buffer, ahead, text, cursor, 0);
    len := 0;
    if base[buffer - delta + maxLen] == base[buffer + maxLen] && base[buffer - delta] == base[buffer] {
      len := Compare(base, buffer, delta, 1, limit, ahead, text, cursor);
    }
  }

  method WalkChain(lenLimit: nat, first: UInt32, pos: UInt32, base: array<Byte>, buffer: nat, son: array<UInt32>,
                   cyc: nat, size: UInt32, cutValue: nat, found: seq<Match>, longest: nat,
                   ghost env: Env, ghost text: seq<Byte>, ghost ahead: nat, ghost chain: seq<nat>)
    returns (distances: seq<Match>)
    requires env.pos == pos && env.cyc == cyc && env.size == size && son.Length == size && env.Valid()
    requires Holds(base[..], buffer, ahead, text, env.cursor) && Reaches(env, buffer) && lenLimit <= ahead
    requires longest < lenLimit
    requires H.Linked(son[..], env, first, chain)
    ensures distances == H.Follow(text, env, son[..], first, lenLimit, cutValue, longest, found)
  {
    hide Holds, Extend, At, H.Follow, H.Linked, Worth;
    ghost var c := chain;
    var curMatch, cut: nat, maxLen: nat := first, cutValue, longest;
    distances := found;
    while true
      invariant maxLen < lenLimit
      invariant H.Linked(son[..], env, curMatch, c)
      invariant H.Follow(text, env, son[..], curMatch, lenLimit, cut, maxLen, distances)
                == H.Follow(text, env, son[..], first, lenLimit, cutValue, longest, found)
      decreases cut
    {
      var delta := Sub32(pos, curMatch);
      if cut == 0 || delta >= size {
        FollowEnds(text, env, son[..], curMatch, lenLimit, cut, maxLen, distances);
        return;
      }
      FollowUnfolds(text, env, son[..], curMatch, lenLimit, cut, maxLen, distances);
      ChainInside(son[..], env, curMatch, c);
      curMatch, c, cut := NextInChain(son, cyc, size, delta, env), c[1..], cut - 1;
      var len := Probe(base, buffer, delta, maxLen, lenLimit, ahead, text, env.cursor);
      if maxLen < len {
        distances, maxLen := distances + [Match(len, delta - 1)], len;
        if len == lenLimit {
          return;
        }
      }
    }
  }

  function NextInChain(son: array<UInt32>, cyc: nat, size: UInt32, delta: UInt32, ghost env: Env): (v: UInt32)
    requires env.cyc == cyc < env.size == size == son.Length && delta < size
    reads son
    ensures v == son[..][H.Slot(env, delta)]
  {
    son[cyc - delta + if delta > cyc then size else 0]
  }

  /** Hc_GetMatchesSpec. */
  method FollowChain(lenLimit: nat, first: UInt32, pos: UInt32, base: array<Byte>, buffer: nat, son: array<UInt32>,
                     cyc: nat, size: UInt32, cutValue: nat, found: seq<Match>, longest: nat,
                     ghost env: Env, ghost text: seq<Byte>, ghost ahead: nat, ghost chain: seq<nat>)
    returns (distances: seq<Match>)
    requires env.pos == pos && env.cyc == cyc && env.size == size && son.Length == size && env.Valid()
    requires Holds(base[..], buffer, ahead, text, env.cursor) && Reaches(env, buffer) && lenLimit <= ahead
    requires base as object != son as object
    requires longest < lenLimit
    requires H.Linked(son[..], env, first, chain)
    modifies son
    ensures son[..] == old(son[..])[cyc := first]
    ensures distances == H.Follow(text, env, son[..], first, lenLimit, cutValue, longest, found)
  {
    hide Holds, H.Follow, H.Linked;
    H.LinkedFrame(son[..], env, first, chain, first);
    son[cyc] := first;
    assert son[..] == old(son[..])[cyc := first];
    distances := WalkChain(lenLimit, first, pos, base, buffer, son, cyc, size, cutValue, found, longest, env, text,
                           ahead, chain);
  }
}
