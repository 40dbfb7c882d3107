// lib/cromfs-hashmap_lzo_sparse.cc: a finite map over 32-bit indices, kept as stripes of
// compressed arrays that are created, extended and merged.
module SparseHash {
  import opened CompressedHash

  const MAX_STRIPES: nat := 2048
  const LIMIT: nat := 0x1_0000_0000

  /** An entry of the std::map, kept in the order of its keys. */
  datatype Stripe = Stripe(begin: nat, layer: CompressedHashLayer)

  /** What a stripe looks like from outside: its place, its length, and the part of the map it holds. */
  datatype Span = Span(begin: nat, length: nat, contents: map<nat, nat>) {
    function End(): nat {
      begin + length
    }
  }

  ghost predicate SpanOk(s: Span) {
    && s.begin % 0x1000 == 0 && s.length % 0x1000 == 0 && 0 < s.length && s.End() <= LIMIT
    && forall i :: i in s.contents ==> s.begin <= i < s.End()
  }

  /** Aligned stripes in order, each more than three granules after the one before. */
  ghost predicate Layout(view: seq<Span>) {
    && (forall k :: 0 <= k < |view| ==> SpanOk(view[k]))
    && forall k, l :: 0 <= k < l < |view| ==> view[k].End() + 0x3000 < view[l].begin
  }

  ghost predicate PartOf(part: map<nat, nat>, m: map<nat, nat>) {
    forall i :: i in part ==> i in m && m[i] == part[i]
  }

  ghost predicate Somewhere(view: seq<Span>, i: nat) {
    exists k :: 0 <= k < |view| && i in view[k].contents
  }

  /** The stripes together hold exactly this map. */
  ghost predicate Models(view: seq<Span>, m: map<nat, nat>) {
    && (forall k :: 0 <= k < |view| ==> PartOf(view[k].contents, m))
    && forall i :: i in m ==> Somewhere(view, i)
  }

  // ---- Steps on views ----

  /** No other stripe holds an index that lies in this one. */
  lemma OnlyHere(view: seq<Span>, k: nat, l: nat, i: nat)
    requires Layout(view) && k < |view| && l < |view| && view[k].begin <= i < view[k].End() && i in view[l].contents
    ensures k == l
  {
    assert SpanOk(view[l]);
  }

  /** Changing one part and the map alike, in a place no other part has. */
  lemma ReplaceModels(view: seq<Span>, m: map<nat, nat>, k: nat, s: Span, m': map<nat, nat>, index: nat)
    requires Models(view, m) && k < |view| && PartOf(s.contents, m')
    requires forall l :: 0 <= l < |view| && l != k ==> index !in view[l].contents
    requires forall i :: i != index ==> (i in m <==> i in m') && (i in m ==> m[i] == m'[i])
    requires forall i :: i in view[k].contents && i != index ==> i in s.contents
    requires index in m' ==> index in s.contents
    ensures Models(view[k := s], m')
  {
    var view' := view[k := s];
    forall l | 0 <= l < |view'|
      ensures PartOf(view'[l].contents, m')
    {
      assert PartOf(view[l].contents, m);
    }
    forall i | i in m'
      ensures Somewhere(view', i)
    {
      if i == index {
        HeldAt(view', i, k);
      } else {
        assert Somewhere(view, i);
        var l :| 0 <= l < |view| && i in view[l].contents;
        HeldAt(view', i, l);
      }
    }
  }

  lemma HeldAt(view: seq<Span>, i: nat, k: nat)
    requires k < |view| && i in view[k].contents
    ensures Somewhere(view, i)
  {
  }

  lemma ReplaceLayout(view: seq<Span>, k: nat, s: Span)
    requires Layout(view) && k < |view| && SpanOk(s) && s.begin == view[k].begin && s.length == view[k].length
    ensures Layout(view[k := s])
  {
    hide SpanOk;
  }

  lemma PartsAreSound(view: seq<Span>, m: map<nat, nat>, k: nat)
    requires Layout(view) && Models(view, m) && k < |view|
    ensures SpanOk(view[k]) && PartOf(view[k].contents, m)
  {
  }

  lemma SetModels(view: seq<Span>, m: map<nat, nat>, k: nat, index: nat, value: nat)
    requires Layout(view) && Models(view, m) && k < |view| && view[k].begin <= index < view[k].End()
    ensures var view' := view[k := view[k].(contents := view[k].contents[index := value])];
            Layout(view') && Models(view', m[index := value])
  {
    hide Layout, Models;
    var s := view[k].(contents := view[k].contents[index := value]);
    NotElsewhere(view, k, index);
    PartsAreSound(view, m, k);
    ReplaceLayout(view, k, s);
    ReplaceModels(view, m, k, s, m[index := value], index);
  }

  lemma NotElsewhere(view: seq<Span>, k: nat, index: nat)
    requires Layout(view) && k < |view| && view[k].begin <= index < view[k].End()
    ensures forall l :: 0 <= l < |view| && l != k ==> index !in view[l].contents
  {
    forall l | 0 <= l < |view| && index in view[l].contents
      ensures l == k
    {
      OnlyHere(view, k, l, index);
    }
  }

  lemma UnsetModels(view: seq<Span>, m: map<nat, nat>, k: nat, index: nat)
    requires Layout(view) && Models(view, m) && k < |view| && view[k].begin <= index < view[k].End()
    ensures var view' := view[k := view[k].(contents := view[k].contents - {index})];
            Layout(view') && Models(view', m - {index})
  {
    hide Layout, Models;
    var s := view[k].(contents := view[k].contents - {index});
    NotElsewhere(view, k, index);
    PartsAreSound(view, m, k);
    ReplaceLayout(view, k, s);
    ReplaceModels(view, m, k, s, m - {index}, index);
  }

  /** An index that lies in no stripe is not in the map the stripes model. */
  lemma OutsideIsAbsent(view: seq<Span>, m: map<nat, nat>, index: nat)
    requires Layout(view) && Models(view, m)
    requires forall k :: 0 <= k < |view| ==> index < view[k].begin || view[k].End() <= index
    ensures index !in m
  {
    forall k | 0 <= k < |view|
      ensures index !in view[k].contents
    {
      assert SpanOk(view[k]);
    }
  }

  lemma ExtendModels(view: seq<Span>, m: map<nat, nat>, k: nat, length: nat)
    requires Layout(view) && Models(view, m) && k < |view| && view[k].length <= length && length % 0x1000 == 0
    requires view[k].begin + length <= LIMIT
    requires k + 1 < |view| ==> view[k].begin + length + 0x3000 < view[k + 1].begin
    ensures var view' := view[k := view[k].(length := length)]; Layout(view') && Models(view', m)
  {
    ExtendLayout(view, k, length);
    ExtendKeepsModels(view, m, k, length);
  }

  lemma ExtendLayout(view: seq<Span>, k: nat, length: nat)
    requires Layout(view) && k < |view| && view[k].length <= length && length % 0x1000 == 0
    requires view[k].begin + length <= LIMIT
    requires k + 1 < |view| ==> view[k].begin + length + 0x3000 < view[k + 1].begin
    ensures Layout(view[k := view[k].(length := length)])
  {
    var view' := view[k := view[k].(length := length)];
    assert SpanOk(view[k]) && SpanOk(view'[k]);
    hide SpanOk;
    forall l | k < l < |view|
      ensures view'[k].End() + 0x3000 < view[l].begin
    {
      if l > k + 1 {
        assert view[k + 1].End() + 0x3000 < view[l].begin;
      }
    }
  }

  lemma ExtendKeepsModels(view: seq<Span>, m: map<nat, nat>, k: nat, length: nat)
    requires Models(view, m) && k < |view|
    ensures Models(view[k := view[k].(length := length)], m)
  {
    var view' := view[k := view[k].(length := length)];
    forall l | 0 <= l < |view'|
      ensures PartOf(view'[l].contents, m)
    {
      assert PartOf(view[l].contents, m);
    }
    forall i | i in m
      ensures Somewhere(view', i)
    {
      var l := Holder(view, m, i);
      HeldAt(view', i, l);
    }
  }

  /** s covers stripes k and k + 1 with the gap between them, and holds what they held. */
  ghost predicate Joins(view: seq<Span>, k: nat, s: Span)
    requires k + 1 < |view|
  {
    s.begin == view[k].begin && s.End() == view[k + 1].End() && s.contents == view[k].contents + view[k + 1].contents
  }

  lemma JoinModels(view: seq<Span>, m: map<nat, nat>, k: nat, s: Span)
    requires Layout(view) && Models(view, m) && k + 1 < |view| && Joins(view, k, s)
    ensures var view' := view[..k] + [s] + view[k + 2..]; Layout(view') && Models(view', m)
  {
    JoinKeepsLayout(view, k, s);
    JoinKeepsModels(view, m, k, s);
  }

  lemma Holder(view: seq<Span>, m: map<nat, nat>, i: nat) returns (l: nat)
    requires Models(view, m) && i in m
    ensures l < |view| && i in view[l].contents
  {
    assert Somewhere(view, i);
    l :| 0 <= l < |view| && i in view[l].contents;
  }

  lemma JoinKeepsModels(view: seq<Span>, m: map<nat, nat>, k: nat, s: Span)
    requires Models(view, m) && k + 1 < |view| && s.contents == view[k].contents + view[k + 1].contents
    ensures Models(view[..k] + [s] + view[k + 2..], m)
  {
    var view' := view[..k] + [s] + view[k + 2..];
    forall l | 0 <= l < |view'|
      ensures PartOf(view'[l].contents, m)
    {
      JoinPart(view, m, k, s, l);
    }
    forall i | i in m
      ensures Somewhere(view', i)
    {
      JoinHolds(view, m, k, s, i);
    }
  }

  lemma OnePart(view: seq<Span>, m: map<nat, nat>, k: nat)
    requires Models(view, m) && k < |view|
    ensures PartOf(view[k].contents, m)
  {
    hide PartOf, Somewhere;
  }

  lemma JoinedAt(view: seq<Span>, k: nat, s: Span, l: nat)
    requires k + 1 < |view| && l < |view| - 1
    ensures (view[..k] + [s] + view[k + 2..])[l] == if l == k then s else view[if l < k then l else l + 1]
  {
  }

  lemma JoinPart(view: seq<Span>, m: map<nat, nat>, k: nat, s: Span, l: nat)
    requires Models(view, m) && k + 1 < |view| && s.contents == view[k].contents + view[k + 1].contents
    requires l < |view| - 1
    ensures PartOf((view[..k] + [s] + view[k + 2..])[l].contents, m)
  {
    hide Models, PartOf;
    JoinedAt(view, k, s, l);
    if l == k {
      OnePart(view, m, k);
      OnePart(view, m, k + 1);
      BothParts(view[k].contents, view[k + 1].contents, m);
    } else {
      OnePart(view, m, if l < k then l else l + 1);
    }
  }

  lemma BothParts(a: map<nat, nat>, b: map<nat, nat>, m: map<nat, nat>)
    requires PartOf(a, m) && PartOf(b, m)
    ensures PartOf(a + b, m)
  {
  }

  lemma JoinHolds(view: seq<Span>, m: map<nat, nat>, k: nat, s: Span, i: nat)
    requires Models(view, m) && k + 1 < |view| && s.contents == view[k].contents + view[k + 1].contents && i in m
    ensures Somewhere(view[..k] + [s] + view[k + 2..], i)
  {
    hide Models, Somewhere;
    var l := Holder(view, m, i);
    HeldAt(view[..k] + [s] + view[k + 2..], i, if l <= k then l else l - 1);
  }

  lemma JoinKeepsLayout(view: seq<Span>, k: nat, s: Span)
    requires Layout(view) && k + 1 < |view| && Joins(view, k, s)
    ensures Layout(view[..k] + [s] + view[k + 2..])
  {
    var view' := view[..k] + [s] + view[k + 2..];
    assert SpanOk(view[k]) && SpanOk(view[k + 1]);
    assert SpanOk(s);
    hide SpanOk;
    forall a, b | 0 <= a < b < |view'|
      ensures view'[a].End() + 0x3000 < view'[b].begin
    {
      var a', b' := if a < k then a else a + 1, if b <= k then b else b + 1;
      assert view[a'].End() + 0x3000 < view[b'].begin;
    }
  }

  /** A new stripe at position k holding one new index. */
  lemma InsertModels(view: seq<Span>, m: map<nat, nat>, k: nat, s: Span, index: nat, value: nat)
    requires Layout(view) && Models(view, m) && k <= |view| && SpanOk(s)
    requires s.contents == map[index := value] && index !in m
    requires k > 0 ==> view[k - 1].End() + 0x3000 < s.begin
    requires k < |view| ==> s.End() + 0x3000 < view[k].begin
    ensures var view' := view[..k] + [s] + view[k..]; Layout(view') && Models(view', m[index := value])
  {
    InsertKeepsLayout(view, k, s);
    InsertKeepsModels(view, m, k, s, index, value);
  }

  lemma InsertKeepsModels(view: seq<Span>, m: map<nat, nat>, k: nat, s: Span, index: nat, value: nat)
    requires Models(view, m) && k <= |view| && s.contents == map[index := value] && index !in m
    ensures Models(view[..k] + [s] + view[k..], m[index := value])
  {
    var view', m' := view[..k] + [s] + view[k..], m[index := value];
    forall l | 0 <= l < |view'|
      ensures PartOf(view'[l].contents, m')
    {
      InsertPart(view, m, k, s, index, value, l);
    }
    forall i | i in m.Keys + {index}
      ensures Somewhere(view', i)
    {
      InsertHolds(view, m, k, s, index, value, i);
    }
  }

  lemma InsertPart(view: seq<Span>, m: map<nat, nat>, k: nat, s: Span, index: nat, value: nat, l: nat)
    requires Models(view, m) && k <= |view| && s.contents == map[index := value] && index !in m && l <= |view|
    ensures PartOf((view[..k] + [s] + view[k..])[l].contents, m[index := value])
  {
    hide PartOf;
    PartsStay(s.contents, m, index, value);
    if l != k {
      var old_ := if l < k then l else l - 1;
      assert (view[..k] + [s] + view[k..])[l] == view[old_];
      assert PartOf(view[old_].contents, m);
      PartsStay(view[old_].contents, m, index, value);
    }
  }

  lemma PartsStay(part: map<nat, nat>, m: map<nat, nat>, index: nat, value: nat)
    requires index !in m
    ensures PartOf(part, m) ==> PartOf(part, m[index := value])
    ensures PartOf(map[index := value], m[index := value])
  {
  }

  lemma InsertHolds(view: seq<Span>, m: map<nat, nat>, k: nat, s: Span, index: nat, value: nat, i: nat)
    requires Models(view, m) && k <= |view| && s.contents == map[index := value] && i in m.Keys + {index}
    ensures Somewhere(view[..k] + [s] + view[k..], i)
  {
    hide Models, Somewhere;
    var view' := view[..k] + [s] + view[k..];
    if i == index {
      HeldAt(view', i, k);
    } else {
      var l := Holder(view, m, i);
      HeldAt(view', i, if l < k then l else l + 1);
    }
  }

  lemma InsertKeepsLayout(view: seq<Span>, k: nat, s: Span)
    requires Layout(view) && k <= |view| && SpanOk(s)
    requires k > 0 ==> view[k - 1].End() + 0x3000 < s.begin
    requires k < |view| ==> s.End() + 0x3000 < view[k].begin
    ensures Layout(view[..k] + [s] + view[k..])
  {
    hide SpanOk;
    forall a | 0 <= a < k
      ensures view[a].End() + 0x3000 < s.begin
    {
      if a < k - 1 {
        assert view[a].End() + 0x3000 < view[k - 1].begin;
      }
    }
    forall b | k <= b < |view|
      ensures s.End() + 0x3000 < view[b].begin
    {
      if k < b {
        assert view[k].End() + 0x3000 < view[b].begin;
      }
    }
  }

  // ---- From a stripe's own indices to those of the map ----

  ghost predicate LiftedIn(m: map<nat, nat>, offset: nat, i: nat) {
    offset <= i && i - offset in m
  }

  ghost function LiftedKeys(m: map<nat, nat>, offset: nat): set<nat> {
    set j | j in m :: j + offset
  }

  lemma KeysAreLifted(m: map<nat, nat>, offset: nat, i: nat)
    ensures i in LiftedKeys(m, offset) <==> LiftedIn(m, offset, i)
  {
    if LiftedIn(m, offset, i) {
      var j: nat := i - offset;
      assert j in m && j + offset == i;
    }
  }

  ghost function LiftedValue(m: map<nat, nat>, offset: nat, i: nat): nat {
    if LiftedIn(m, offset, i) then m[i - offset] else 0
  }

  ghost function Lifted(m: map<nat, nat>, offset: nat): map<nat, nat> {
    map i | i in LiftedKeys(m, offset) :: LiftedValue(m, offset, i)
  }

  lemma LiftedAt(m: map<nat, nat>, offset: nat, i: nat)
    ensures i in Lifted(m, offset) <==> LiftedIn(m, offset, i)
    ensures i in Lifted(m, offset) ==> Lifted(m, offset)[i] == m[i - offset]
  {
    KeysAreLifted(m, offset, i);
  }

  lemma Spliced(view: seq<Span>, was: seq<Span>, i: nat, s: Span)
    requires |view| == |was| + 1 && i <= |was| && view[i] == s
    requires forall l :: 0 <= l < |view| && l != i ==> view[l] == was[if l < i then l else l - 1]
    ensures view == was[..i] + [s] + was[i..]
  {
  }

  lemma SpanIs(s: Stripe)
    requires s.layer.Valid()
    ensures SpanOf(s) == Span(s.begin, s.layer.GetLength(), Lifted(s.layer.Contents(), s.begin))
  {
  }

  lemma SpanSet(s: Stripe, was: Span, contents: map<nat, nat>, j: nat, value: nat)
    requires s.layer.Valid() && s.layer.Contents() == contents[j := value]
    requires was == Span(s.begin, s.layer.GetLength(), Lifted(contents, s.begin))
    ensures SpanOf(s) == was.(contents := was.contents[s.begin + j := value])
  {
    hide CompressedHashLayer.Valid, CompressedHashLayer.Contents;
    LiftedSet(contents, s.begin, j, value);
  }

  lemma LiftedSet(m: map<nat, nat>, offset: nat, j: nat, value: nat)
    ensures Lifted(m[j := value], offset) == Lifted(m, offset)[offset + j := value]
  {
    hide Lifted;
    var l, r := Lifted(m[j := value], offset), Lifted(m, offset)[offset + j := value];
    forall i: nat
      ensures i in l <==> i in r
      ensures i in l ==> l[i] == r[i]
    {
      LiftedAt(m, offset, i);
      LiftedAt(m[j := value], offset, i);
    }
    assert l.Keys == r.Keys;
  }

  lemma LiftedUnset(m: map<nat, nat>, offset: nat, j: nat)
    ensures Lifted(m - {j}, offset) == Lifted(m, offset) - {offset + j}
  {
    hide Lifted;
    var l, r := Lifted(m - {j}, offset), Lifted(m, offset) - {offset + j};
    forall i: nat
      ensures i in l <==> i in r
      ensures i in l ==> l[i] == r[i]
    {
      LiftedAt(m, offset, i);
      LiftedAt(m - {j}, offset, i);
    }
    assert l.Keys == r.Keys;
  }

  lemma LiftedOverlay(m: map<nat, nat>, mine: map<nat, nat>, theirs: map<nat, nat>, offset: nat, distance: nat)
    requires IsOverlay(m, mine, theirs, distance)
    ensures Lifted(m, offset) == Lifted(mine, offset) + Lifted(theirs, offset + distance)
  {
    hide Lifted;
    var l, r := Lifted(m, offset), Lifted(mine, offset) + Lifted(theirs, offset + distance);
    forall i: nat
      ensures i in l <==> i in r
      ensures i in l ==> l[i] == r[i]
    {
      LiftedAt(m, offset, i);
      LiftedAt(mine, offset, i);
      LiftedAt(theirs, offset + distance, i);
      assert i - offset in m <==> i - offset in mine || (distance <= i - offset && i - offset - distance in theirs);
    }
    assert l.Keys == r.Keys;
  }

  ghost function SpanOf(s: Stripe): Span
    requires s.layer.Valid()
    reads s.layer
  {
    Span(s.begin, s.layer.GetLength(), Lifted(s.layer.Contents(), s.begin))
  }

  /** Where the stripes begin and end. */
  ghost function Bounds(view: seq<Span>): (b: seq<(nat, nat)>)
    ensures |b| == |view| && forall k :: 0 <= k < |b| ==> b[k] == (view[k].begin, view[k].End())
  {
    seq(|view|, k requires 0 <= k < |view| => (view[k].begin, view[k].End()))
  }

  /** The bounds after a granule that begins at g has found its place before stripe i. */
  ghost function Placed(b: seq<(nat, nat)>, i: nat, g: nat, mergePrev: bool, mergeNext: bool): seq<(nat, nat)>
    requires i <= |b| && (mergePrev ==> 0 < i) && (mergeNext ==> i < |b|)
  {
    var left := if mergePrev then b[..i - 1] else b[..i];
    var right := if mergeNext then b[i + 1..] else b[i..];
    left + [(if mergePrev then b[i - 1].0 else g, if mergeNext then b[i].1 else g + 0x1000)] + right
  }

  /** The bounds when stripe k and the next have become one. */
  ghost function Joined(b: seq<(nat, nat)>, k: nat): (r: seq<(nat, nat)>)
    requires k + 1 < |b|
    ensures |r| == |b| - 1 && r[k] == (b[k].0, b[k + 1].1)
  {
    b[..k] + [(b[k].0, b[k + 1].1)] + b[k + 2..]
  }

  ghost function Inserted(b: seq<(nat, nat)>, i: nat, begin: nat, end: nat): seq<(nat, nat)>
    requires i <= |b|
  {
    b[..i] + [(begin, end)] + b[i..]
  }

  lemma PlacedCases(b: seq<(nat, nat)>, i: nat, g: nat, mergePrev: bool, mergeNext: bool)
    requires i <= |b| && (mergePrev ==> 0 < i) && (mergeNext ==> i < |b|)
    ensures mergePrev && mergeNext ==> Placed(b, i, g, true, true) == Joined(b, i - 1)
    ensures mergePrev && !mergeNext ==> Placed(b, i, g, true, false) == b[i - 1 := (b[i - 1].0, g + 0x1000)]
    ensures !mergePrev && mergeNext ==> Placed(b, i, g, false, true) == b[i := (g, b[i].1)]
    ensures !mergePrev && !mergeNext ==> Placed(b, i, g, false, false) == Inserted(b, i, g, g + 0x1000)
  {
  }

  lemma BoundsReplaced(view: seq<Span>, k: nat, s: Span)
    requires k < |view|
    ensures Bounds(view[k := s]) == Bounds(view)[k := (s.begin, s.End())]
  {
  }

  lemma BoundsJoined(view: seq<Span>, k: nat, s: Span)
    requires k + 1 < |view| && s.begin == view[k].begin && s.End() == view[k + 1].End()
    ensures Bounds(view[..k] + [s] + view[k + 2..]) == Joined(Bounds(view), k)
  {
  }

  lemma BoundsInserted(view: seq<Span>, i: nat, s: Span)
    requires i <= |view|
    ensures Bounds(view[..i] + [s] + view[i..]) == Inserted(Bounds(view), i, s.begin, s.End())
  {
  }

  /** One stripe covers every index of the type. */
  ghost predicate WholeRange(b: seq<(nat, nat)>) {
    b == [(0, LIMIT)]
  }

  /** The first stripe that does not begin before the index. */
  ghost function FirstFrom(b: seq<(nat, nat)>, index: nat): (i: nat)
    ensures i <= |b| && (i < |b| ==> index <= b[i].0) && forall k :: 0 <= k < i ==> b[k].0 < index
  {
    if b == [] || index <= b[0].0 then 0 else 1 + FirstFrom(b[1..], index)
  }

  lemma {:induction false} FirstFromIs(b: seq<(nat, nat)>, index: nat, i: nat)
    requires i <= |b| && (i < |b| ==> index <= b[i].0) && forall k :: 0 <= k < i ==> b[k].0 < index
    ensures FirstFrom(b, index) == i
  {
    if 0 < i {
      assert b[0].0 < index;
      FirstFromIs(b[1..], index, i - 1);
    }
  }

  ghost predicate Inside(b: seq<(nat, nat)>, index: nat) {
    exists k :: 0 <= k < |b| && b[k].0 <= index < b[k].1
  }

  /** The way from the begin of stripe k to the end of the next, in 32 bits. */
  ghost function Gap(b: seq<(nat, nat)>, k: nat): int
    requires k + 1 < |b|
  {
    (b[k + 1].1 - b[k].0) % LIMIT
  }

  /** The first of the stripes for which that is shortest. */
  ghost predicate IsShortestGap(b: seq<(nat, nat)>, k: nat) {
    && k + 1 < |b|
    && forall l :: 0 <= l < |b| - 1 ==> Gap(b, k) <= Gap(b, l) && (l < k ==> Gap(b, k) < Gap(b, l))
  }

  /** The index lies in no stripe nor near one, and there are as many as there may be. */
  ghost predicate NeedsRoom(b: seq<(nat, nat)>, index: nat) {
    var i, g := FirstFrom(b, index), index / 0x1000 * 0x1000;
    !Inside(b, index) && !JoinsPrev(b, i, g) && !JoinsNext(b, i, g) && MAX_STRIPES <= |b|
  }

  /** Where the stripes lie after an index has been set, when no room has to be made for it. */
  ghost function WithIndex(b: seq<(nat, nat)>, index: nat): seq<(nat, nat)> {
    var i, g := FirstFrom(b, index), index / 0x1000 * 0x1000;
    if Inside(b, index) then b else Placed(b, i, g, JoinsPrev(b, i, g), JoinsNext(b, i, g))
  }

  /** The stripes with the shortest gap have been joined. */
  ghost predicate GapClosed(b: seq<(nat, nat)>, b': seq<(nat, nat)>) {
    exists k :: IsShortestGap(b, k) && b' == Joined(b, k)
  }

  /** Where they lie after any: when there must be room for it, the shortest gap is closed first. */
  ghost predicate SetBounds(b: seq<(nat, nat)>, index: nat, b': seq<(nat, nat)>) {
    if NeedsRoom(b, index) then exists c :: GapClosed(b, c) && b' == WithIndex(c, index)
    else b' == WithIndex(b, index)
  }

  ghost predicate JoinsPrev(b: seq<(nat, nat)>, i: nat, g: nat) {
    0 < i <= |b| && g - b[i - 1].1 <= 0x3000
  }

  ghost predicate JoinsNext(b: seq<(nat, nat)>, i: nat, g: nat) {
    i < |b| && b[i].0 - (g + 0x1000) <= 0x3000
  }

  /** Setting this index leaves one stripe that covers every index of the type. */
  ghost predicate Completes(b: seq<(nat, nat)>, index: nat) {
    WholeRange(WithIndex(b, index))
  }

  lemma CompletesOutside(b: seq<(nat, nat)>, index: nat, i: nat)
    requires i <= |b| && (i < |b| ==> index < b[i].0) && forall k :: 0 <= k < i ==> b[k].0 < index
    requires forall k :: 0 <= k < |b| ==> index < b[k].0 || b[k].1 <= index
    ensures var g := index / 0x1000 * 0x1000; var prev, next := JoinsPrev(b, i, g), JoinsNext(b, i, g);
            && WithIndex(b, index) == Placed(b, i, g, prev, next)
            && Completes(b, index) == WholeRange(Placed(b, i, g, prev, next))
            && (NeedsRoom(b, index) <==> !prev && !next && MAX_STRIPES <= |b|)
  {
    FirstFromIs(b, index, i);
  }

  /** The bounds on the way: room has been made only where it is needed. */
  ghost predicate RoomMade(b: seq<(nat, nat)>, index: nat, c: seq<(nat, nat)>) {
    c == b || (NeedsRoom(b, index) && GapClosed(b, c))
  }

  lemma RoomIsMade(b: seq<(nat, nat)>, index: nat, c: seq<(nat, nat)>)
    requires c != b ==> NeedsRoom(b, index) && GapClosed(b, c)
    ensures RoomMade(b, index, c)
  {
  }

  lemma BoundsAre(before: seq<(nat, nat)>, c: seq<(nat, nat)>, index: nat, after: seq<(nat, nat)>)
    requires RoomMade(before, index, c) && !NeedsRoom(c, index)
    requires after == WithIndex(c, index)
    ensures SetBounds(before, index, after)
  {
  }

  lemma InsideStays(b: seq<(nat, nat)>, index: nat)
    requires Inside(b, index)
    ensures WithIndex(b, index) == b && !NeedsRoom(b, index)
  {
  }

  // ---- The map ----

  class CompressedHashLayerSparse {
    const lzo: Codec
    var data: seq<Stripe>
    /** The finite map this object stands for. */
    ghost var model: map<nat, nat>

    ghost function Layers(): set<CompressedHashLayer>
      reads this`data
    {
      set k | 0 <= k < |data| :: data[k].layer
    }

    ghost predicate LayersOk()
      reads this`data, Layers()
    {
      && lzo.Valid()
      && (forall k, l :: 0 <= k < l < |data| ==> data[k].layer != data[l].layer)
      && forall k :: 0 <= k < |data| ==> data[k].layer.Valid()
    }

    ghost function View(): (view: seq<Span>)
      requires LayersOk()
      reads this`data, Layers()
      ensures |view| == |data| && forall k :: 0 <= k < |view| ==> view[k] == SpanOf(data[k])
    {
      ViewOf(data)
    }

    ghost function Extents(): (b: seq<(nat, nat)>)
      requires LayersOk()
      reads this`data, Layers()
      ensures |b| == |data|
    {
      Bounds(View())
    }

    ghost predicate Valid()
      reads this, Layers()
    {
      LayersOk() && |data| <= MAX_STRIPES && Layout(View()) && Models(View(), model)
    }

    constructor (lzo: Codec)
      requires lzo.Valid()
      ensures Valid() && model == map[] && fresh(Layers())
    {
      this.lzo := lzo;
      data, model := [], map[];
    }

    /** Where stripe k ends. */
    function EndOf(k: nat): nat
      requires k < |data|
      reads this`data, data[k].layer
    {
      data[k].begin + data[k].layer.GetLength()
    }

    /** Sets an index inside stripe k. */
    method SetAt(k: nat, index: nat, value: nat)
      requires Valid() && k < |data| && data[k].begin <= index < EndOf(k)
      modifies this`model, data[k].layer
      ensures Valid() && model == old(model)[index := value] && Extents() == old(Extents())
    {
      hide Layout, Models, Lifted, CompressedHashLayer.Valid, CompressedHashLayer.Contents, Codec.Valid, ViewOf,
           LayersOk, Bounds, SpanOf;
      LayerOk(k);
      SpanIs(data[k]);
      ghost var before := View();
      var j := index - data[k].begin;
      data[k].layer.Set(j, value);
      SpanSet(data[k], before[k], old(data[k].layer.Contents()), j, value);
      OthersKeep(k);
      ViewChanged(k, before, before[k].(contents := before[k].contents[index := value]));
      SetModels(before, model, k, index, value);
      model := model[index := value];
    }

    lemma LayerOk(k: nat)
      requires LayersOk() && k < |data|
      ensures data[k].layer.Valid() && data[k].layer in Layers()
      ensures forall l :: 0 <= l < |data| && l != k ==> data[l].layer != data[k].layer
      ensures lzo.Valid()
    {
    }

    /** Touching one stripe's array leaves the other stripes as they were. */
    twostate lemma OthersKeep(k: nat)
      requires old(LayersOk()) && data == old(data) && k < |data| && data[k].layer.Valid()
      requires forall l :: 0 <= l < |data| && l != k ==> unchanged(data[l].layer)
      ensures LayersOk() && forall l :: 0 <= l < |data| && l != k ==> View()[l] == old(View()[l])
    {
      forall l | 0 <= l < |data|
        ensures data[l].layer.Valid()
      {
        if l != k {
          assert old(data[l].layer.Valid());
        }
      }
      forall l | 0 <= l < |data| && l != k
        ensures View()[l] == old(View()[l])
      {
        assert SpanOf(data[l]) == old(SpanOf(data[l]));
      }
    }

    /** The view after a change to one stripe, and where its stripes begin and end. */
    lemma ViewChanged(k: nat, before: seq<Span>, s: Span)
      requires LayersOk() && |before| == |data| && k < |data| && SpanOf(data[k]) == s
      requires forall l :: 0 <= l < |data| && l != k ==> View()[l] == before[l]
      ensures View() == before[k := s] && Extents() == Bounds(before)[k := (s.begin, s.End())]
      ensures (s.begin, s.End()) == (before[k].begin, before[k].End()) ==> Extents() == Bounds(before)
    {
      hide SpanOf, ViewOf, CompressedHashLayer.Valid;
      assert View() == before[k := s];
    }

    method UnsetAt(k: nat, index: nat)
      requires Valid() && k < |data| && data[k].begin <= index < EndOf(k)
      modifies this`model, data[k].layer
      ensures Valid() && model == old(model) - {index}
    {
      hide Layout, Models, Lifted, CompressedHashLayer.Valid, CompressedHashLayer.Contents, Codec.Valid, ViewOf,
           LayersOk, Bounds;
      LayerOk(k);
      ghost var before := View();
      var j := index - data[k].begin;
      data[k].layer.Unset(j);
      LiftedUnset(old(data[k].layer.Contents()), data[k].begin, j);
      OthersKeep(k);
      ViewChanged(k, before, before[k].(contents := before[k].contents - {index}));
      UnsetModels(before, model, k, index);
      model := model - {index};
    }

    /** Lengthens stripe k to end at newEnd. */
    method ExtendAt(k: nat, newEnd: nat)
      requires Valid() && k < |data| && newEnd % 0x1000 == 0 && EndOf(k) <= newEnd <= LIMIT
      requires k + 1 < |data| ==> newEnd + 0x3000 < data[k + 1].begin
      modifies data[k].layer
      ensures Valid() && var b := old(Extents()); Extents() == b[k := (b[k].0, newEnd)]
    {
      hide Layout, Models, Lifted, CompressedHashLayer.Valid, CompressedHashLayer.Contents, Codec.Valid, ViewOf,
           LayersOk, SpanOk;
      LayerOk(k);
      ghost var before := View();
      PartsAreSound(before, model, k);
      AlignedLength(before[k], newEnd);
      data[k].layer.Resize(newEnd - data[k].begin);
      OthersKeep(k);
      ViewChanged(k, before, before[k].(length := newEnd - before[k].begin));
      ExtendModels(before, model, k, newEnd - before[k].begin);
    }

    /** The index lies before stripe i, apart from all stripes. */
    ghost predicate Outside(i: nat, index: nat)
      reads this`data, Layers()
    {
      && i <= |data|
      && (forall k :: 0 <= k < i ==> data[k].begin < index)
      && (i > 0 ==> EndOf(i - 1) <= index)
      && (i < |data| ==> index < data[i].begin)
    }

    /** Where an index belongs: the first stripe not before it, and the stripe that contains it, if one does. */
    method Locate(index: nat) returns (i: nat, found: int)
      requires Valid()
      ensures i <= |data| && -1 <= found < |data|
      ensures (forall k :: 0 <= k < i ==> data[k].begin < index) && (i < |data| ==> index <= data[i].begin)
      ensures found >= 0 ==> data[found].begin <= index < EndOf(found)
      ensures found < 0 ==> index !in model && Outside(i, index)
    {
      hide Models, Lifted, CompressedHashLayer.Valid, CompressedHashLayer.Contents, Codec.Valid, ViewOf;
      i := 0;
      while i < |data| && data[i].begin < index
        invariant i <= |data| && forall k :: 0 <= k < i ==> data[k].begin < index
      {
        i := i + 1;
      }
      found := -1;
      if i < |data| && data[i].begin == index {
        assert SpanOk(View()[i]);
        found := i;
      } else if i > 0 && index >= data[i - 1].begin && data[i - 1].begin + data[i - 1].layer.GetLength() > index {
        found := i - 1;
      } else {
        BetweenIsOutside(View(), i, index);
        OutsideIsAbsent(View(), model, index);
      }
    }

    method Has(index: nat) returns (r: bool)
      requires Valid()
      ensures r <==> index in model
    {
      hide Layout, Models, CompressedHashLayer.Valid, CompressedHashLayer.Contents, Codec.Valid, ViewOf;
      var i, found := Locate(index);
      r := false;
      if found >= 0 {
        HeldHere(found, index);
        data[found].layer.HasIsLive(index - data[found].begin);
        r := data[found].layer.Has(index - data[found].begin);
      }
    }

    /** An index inside a stripe is live in the map exactly when it is in the stripe. */
    lemma HeldHere(k: nat, index: nat)
      requires Valid() && k < |data| && data[k].begin <= index < EndOf(k)
      ensures index in model <==> index - data[k].begin in data[k].layer.Contents()
      ensures index in model ==> model[index] == data[k].layer.Contents()[index - data[k].begin]
    {
      hide Layout, Models, Lifted, CompressedHashLayer.Valid, CompressedHashLayer.Contents, Codec.Valid, ViewOf, SpanOk;
      LiftedAt(data[k].layer.Contents(), data[k].begin, index);
      PartsAreSound(View(), model, k);
      if index in model {
        var l := Holder(View(), model, index);
        OnlyHere(View(), k, l, index);
      }
    }

    /** The value of a live index; the cache of one stripe may change, the map does not. */
    method Extract(index: nat, result0: nat) returns (result: nat)
      requires Valid()
      modifies Layers()
      ensures Valid() && model == old(model) && data == old(data)
      ensures index in model ==> result == model[index]
    {
      hide Layout, Models, CompressedHashLayer.Valid, CompressedHashLayer.Contents, Codec.Valid, ViewOf, LayersOk;
      var i, found := Locate(index);
      result := result0;
      if found >= 0 {
        LayerOk(found);
        HeldHere(found, index);
        result := ExtractAt(found, index);
      }
    }

    method ExtractAt(k: nat, index: nat) returns (result: nat)
      requires Valid() && k < |data| && data[k].begin <= index < EndOf(k)
      modifies data[k].layer
      ensures Valid()
      ensures var j := index - data[k].begin;
              j in old(data[k].layer.Contents()) ==> result == old(data[k].layer.Contents())[j]
    {
      hide Layout, Models, Lifted, CompressedHashLayer.Valid, CompressedHashLayer.Contents, Codec.Valid, ViewOf,
           LayersOk, TableOf;
      LayerOk(k);
      ghost var before := View();
      result := data[k].layer.Extract(index - data[k].begin);
      OthersKeep(k);
      assert View() == before;
    }

    method Unset(index: nat)
      requires Valid()
      modifies this`model, Layers()
      ensures Valid() && model == old(model) - {index}
    {
      hide Layout, Models, CompressedHashLayer.Valid, CompressedHashLayer.Contents, Codec.Valid, ViewOf, LayersOk;
      var i, found := Locate(index);
      if found >= 0 {
        LayerOk(found);
        UnsetAt(found, index);
      }
    }

    /** Merges stripe k + 1, and the gap before it, into stripe k. */
    method JoinNext(k: nat)
      requires Valid() && k + 1 < |data|
      modifies this`data, data[k].layer, data[k + 1].layer
      ensures Valid() && data == old(data)[..k + 1] + old(data)[k + 2..] && Layers() <= old(Layers())
      ensures Extents() == Joined(old(Extents()), k)
    {
      hide Layout, Models, Lifted, CompressedHashLayer.Valid, CompressedHashLayer.Contents, Codec.Valid, ViewOf, SpanOk,
           Bounds, Joined, LayersOk, SpanOf;
      ghost var before := View();
      MergeNext(k);
      LayerOk(k);
      ghost var s, stripes := SpanOf(data[k]), data;
      DropsNext(stripes, before, k);
      data := data[..k + 1] + data[k + 2..];
      ViewIs(before[..k] + [s] + before[k + 2..]);
      JoinModels(before, model, k, s);
      BoundsJoined(before, k, s);
    }

    /** Merges the array of stripe k + 1 into that of stripe k. */
    method MergeNext(k: nat)
      requires Valid() && k + 1 < |data|
      modifies data[k].layer, data[k + 1].layer
      ensures LayersOk() && Joins(old(View()), k, SpanOf(data[k]))
      ensures forall l :: 0 <= l < |data| && l != k && l != k + 1 ==> SpanOf(data[l]) == old(View()[l])
    {
      hide Layout, Models, Lifted, CompressedHashLayer.Valid, CompressedHashLayer.Contents, Codec.Valid, ViewOf, SpanOk,
           IsOverlay, Bounds;
      ghost var before := View();
      GapAhead(before, k);
      PartsAreSound(before, model, k);
      PartsAreSound(before, model, k + 1);
      var distance := data[k + 1].begin - data[k].begin;
      JoinedLength(before[k], before[k + 1]);
      data[k].layer.Merge(data[k + 1].layer, distance);
      LiftedOverlay(data[k].layer.Contents(), old(data[k].layer.Contents()), old(data[k + 1].layer.Contents()),
                    data[k].begin, distance);
      OthersStillOk(k);
    }

    /** Without stripe k + 1 the others are still in order. */
    lemma DropsNext(stripes: seq<Stripe>, before: seq<Span>, k: nat)
      requires LayersOk() && stripes == data && k + 1 < |data| == |before|
      requires forall l :: 0 <= l < |data| && l != k && l != k + 1 ==> SpanOf(data[l]) == before[l]
      ensures var fewer, view := stripes[..k + 1] + stripes[k + 2..], before[..k] + [SpanOf(data[k])] + before[k + 2..];
              && |fewer| == |view| && SameStripes(fewer, view)
              && forall l :: 0 <= l < |fewer| ==> fewer[l].layer in Layers()
    {
      hide CompressedHashLayer.Valid, SpanOf, Codec.Valid;
      var fewer := stripes[..k + 1] + stripes[k + 2..];
      assert forall l :: 0 <= l < |fewer| ==> fewer[l] == data[if l <= k then l else l + 1];
    }

    /** Stripes of different arrays, all in order, that look like this. */
    ghost predicate SameStripes(stripes: seq<Stripe>, view: seq<Span>)
      requires |stripes| == |view|
      reads set l | 0 <= l < |stripes| :: stripes[l].layer
    {
      && lzo.Valid()
      && (forall k, l :: 0 <= k < l < |stripes| ==> stripes[k].layer != stripes[l].layer)
      && forall l :: 0 <= l < |stripes| ==> stripes[l].layer.Valid() && SpanOf(stripes[l]) == view[l]
    }

    lemma ViewIs(view: seq<Span>)
      requires |data| == |view| && SameStripes(data, view)
      ensures LayersOk() && View() == view
    {
      hide CompressedHashLayer.Valid, SpanOf, Codec.Valid;
    }

    /** Merging two stripes' arrays leaves the others as they were. */
    twostate lemma OthersStillOk(k: nat)
      requires old(LayersOk()) && data == old(data) && k + 1 < |data| && data[k].layer.Valid()
               && data[k + 1].layer.Valid()
      requires forall l :: 0 <= l < |data| && l != k && l != k + 1 ==> unchanged(data[l].layer)
      ensures LayersOk() && forall l :: 0 <= l < |data| && l != k && l != k + 1 ==>
                SpanOf(data[l]) == old(SpanOf(data[l]))
    {
      forall l | 0 <= l < |data|
        ensures data[l].layer.Valid()
      {
        if l != k && l != k + 1 {
          assert old(data[l].layer.Valid());
        }
      }
    }

    /** From the begin of stripe k to the end of the next, in 32 bits. */
    function GapLength(k: nat): nat
      requires k + 1 < |data|
      reads this`data, Layers()
    {
      (data[k + 1].begin + data[k + 1].layer.GetLength() - data[k].begin) % LIMIT
    }

    /** The stripe whose gap to the next, counted with the next one's end in 32 bits, is shortest. */
    method ShortestGap() returns (prev: nat)
      requires Valid() && 2 <= |data|
      ensures prev + 1 < |data|
      ensures forall k :: 0 <= k < |data| - 1 ==> GapLength(prev) <= GapLength(k)
      ensures forall k :: 0 <= k < prev ==> GapLength(prev) < GapLength(k)
    {
      hide Layout, Models, LayersOk, GapLength;
      prev := 0;
      var first, shortestGap := true, 0;
      for i := 0 to |data| - 1
        invariant prev + 1 < |data| && first == (i == 0)
        invariant !first ==> shortestGap == GapLength(prev) && forall k :: 0 <= k < i ==> shortestGap <= GapLength(k)
        invariant prev <= i && (!first ==> forall k :: 0 <= k < prev ==> shortestGap < GapLength(k))
      {
        var gapLength := GapLength(i);
        if first || gapLength < shortestGap {
          shortestGap, first, prev := gapLength, false, i;
        }
      }
    }

    /** A new array of one granule that holds one value. */
    method NewArray(begin: nat, index: nat, value: nat) returns (s: Stripe)
      requires lzo.Valid() && begin <= index < begin + 0x1000
      ensures fresh(s.layer) && s.layer.Valid() && SpanOf(s) == Span(begin, 0x1000, map[index := value])
    {
      hide Codec.Valid, CompressedHashLayer.Contents, Lifted;
      var layer := new CompressedHashLayer(lzo, 0x1000);
      LiftedSet(map[], begin, index - begin, value);
      NothingLifted(begin);
      layer.Set(index - begin, value);
      s := Stripe(begin, layer);
    }

    twostate lemma InsertedView(i: nat, new s: Stripe)
      requires old(LayersOk()) && i <= old(|data|) && data == old(data)[..i] + [s] + old(data)[i..]
      requires s.layer.Valid() && s.layer !in old(Layers())
      requires forall l :: 0 <= l < old(|data|) ==> unchanged(old(data[l]).layer)
      ensures LayersOk() && View() == old(View())[..i] + [SpanOf(s)] + old(View())[i..]
      ensures Extents() == Inserted(old(Extents()), i, SpanOf(s).begin, SpanOf(s).End())
      ensures Layers() <= old(Layers()) + {s.layer}
    {
      hide CompressedHashLayer.Valid, SpanOf, ViewOf, Bounds, Inserted;
      BoundsInserted(old(View()), i, SpanOf(s));
      assert forall l :: 0 <= l < |data| ==> data[l] == if l == i then s else old(data[if l < i then l else l - 1]);
      forall l | 0 <= l < old(|data|)
        ensures old(data[l]).layer in old(Layers())
      {
      }
      forall l | 0 <= l < |data|
        ensures data[l].layer.Valid()
        ensures l != i ==> SpanOf(data[l]) == old(View()[if l < i then l else l - 1])
      {
        if l != i {
          assert old(data[if l < i then l else l - 1].layer.Valid());
        }
      }
      Spliced(View(), old(View()), i, SpanOf(s));
    }

    twostate lemma ReplacedView(i: nat, new s: Stripe)
      requires old(LayersOk()) && i < old(|data|) && data == old(data)[i := s]
      requires s.layer.Valid() && fresh(s.layer) && forall l :: 0 <= l < old(|data|) && l != i ==>
                 unchanged(old(data[l]).layer)
      ensures LayersOk() && View() == old(View())[i := SpanOf(s)]
      ensures fresh(Layers() - old(Layers()))
    {
      hide CompressedHashLayer.Valid, SpanOf, ViewOf;
      forall l | 0 <= l < |data|
        ensures data[l].layer.Valid()
        ensures l != i ==> SpanOf(data[l]) == old(View()[l])
      {
        if l != i {
          assert old(data[l].layer.Valid());
        }
      }
    }

    /** Puts a new stripe at position i. */
    method InsertAt(i: nat, begin: nat, index: nat, value: nat)
      requires Valid() && i <= |data| < MAX_STRIPES && begin <= index < begin + 0x1000 <= LIMIT && begin % 0x1000 == 0
      requires index !in model
      requires i > 0 ==> EndOf(i - 1) + 0x3000 < begin
      requires i < |data| ==> begin + 0x4000 < data[i].begin
      modifies this`data, this`model
      ensures Valid() && model == old(model)[index := value] && fresh(Layers() - old(Layers()))
      ensures Extents() == Inserted(old(Extents()), i, begin, begin + 0x1000)
    {
      hide Layout, Models, Lifted, CompressedHashLayer.Valid, CompressedHashLayer.Contents, Codec.Valid, ViewOf, Bounds;
      var s := NewArray(begin, index, value);
      InsertStripe(i, s, index, value);
    }

    method InsertStripe(i: nat, s: Stripe, index: nat, value: nat)
      requires Valid() && i <= |data| < MAX_STRIPES && s.layer.Valid() && s.layer !in Layers() && index !in model
      requires SpanOf(s) == Span(s.begin, 0x1000, map[index := value]) && SpanOk(SpanOf(s))
      requires i > 0 ==> EndOf(i - 1) + 0x3000 < s.begin
      requires i < |data| ==> s.begin + 0x4000 < data[i].begin
      modifies this`data, this`model
      ensures Valid() && model == old(model)[index := value] && Layers() <= old(Layers()) + {s.layer}
      ensures Extents() == Inserted(old(Extents()), i, s.begin, s.begin + 0x1000)
    {
      hide Layout, Models, CompressedHashLayer.Valid, CompressedHashLayer.Contents, Codec.Valid, ViewOf, Bounds,
           LayersOk, SpanOk, Lifted;
      ghost var before := View();
      InsertModels(before, model, i, SpanOf(s), index, value);
      data := data[..i] + [s] + data[i..];
      InsertedView(i, s);
      model := model[index := value];
    }

    /** A new array that holds one value and all that stripe t holds further on. */
    method NewMerged(begin: nat, index: nat, value: nat, t: Stripe) returns (s: Stripe)
      requires lzo.Valid() && t.layer.Valid() && SpanOk(SpanOf(t)) && begin % 0x1000 == 0
      requires begin <= index < begin + 0x1000 <= t.begin
      modifies t.layer
      ensures fresh(s.layer) && s.layer.Valid()
      ensures SpanOf(s) == Span(begin, t.begin - begin + old(SpanOf(t).length),
                                map[index := value] + old(SpanOf(t).contents))
    {
      hide Lifted, CompressedHashLayer.Valid, CompressedHashLayer.Contents, Codec.Valid, IsOverlay, SpanOk;
      ghost var span := SpanOf(t);
      s := NewArray(begin, index, value);
      var distance := t.begin - begin;
      AlignedDistance(begin, span);
      ghost var single, theirs := s.layer.Contents(), t.layer.Contents();
      s.layer.Merge(t.layer, distance);
      LiftedOverlay(s.layer.Contents(), single, theirs, begin, distance);
      assert Lifted(s.layer.Contents(), begin) == map[index := value] + span.contents;
    }

    /** Puts a new stripe before stripe i and merges that one into it. */
    method PrependTo(i: nat, begin: nat, index: nat, value: nat)
      requires Valid() && i < |data| && begin <= index < begin + 0x1000 && begin % 0x1000 == 0
      requires index !in model && begin + 0x1000 <= data[i].begin
      requires i > 0 ==> EndOf(i - 1) + 0x3000 < begin
      modifies this`data, this`model, data[i].layer
      ensures Valid() && model == old(model)[index := value] && fresh(Layers() - old(Layers()))
      ensures var b := old(Extents()); Extents() == b[i := (begin, b[i].1)]
    {
      hide Layout, Models, Lifted, CompressedHashLayer.Valid, CompressedHashLayer.Contents, Codec.Valid, ViewOf, SpanOk,
           LayersOk;
      LayerOk(i);
      ghost var before := View();
      PartsAreSound(before, model, i);
      var s := NewMerged(begin, index, value, data[i]);
      PrependModels(before, model, i, SpanOf(s), index, value);
      data := data[i := s];
      ReplacedView(i, s);
      BoundsReplaced(before, i, SpanOf(s));
      model := model[index := value];
    }

    lemma GapIsShortest(prev: nat)
      requires LayersOk() && prev + 1 < |data|
      requires forall k :: 0 <= k < |data| - 1 ==> GapLength(prev) <= GapLength(k)
      requires forall k :: 0 <= k < prev ==> GapLength(prev) < GapLength(k)
      ensures IsShortestGap(Extents(), prev)
    {
      hide LayersOk, GapLength, Gap, Extents;
      forall k | 0 <= k < |data| - 1
        ensures GapLength(k) == Gap(Extents(), k)
      {
        GapOfExtents(k);
      }
    }

    lemma GapOfExtents(k: nat)
      requires LayersOk() && k + 1 < |data|
      ensures GapLength(k) == Gap(Extents(), k)
    {
      hide LayersOk, ViewOf, CompressedHashLayer.Valid, CompressedHashLayer.Contents, Lifted;
      ExtentOf(k);
      ExtentOf(k + 1);
    }

    lemma ExtentOf(k: nat)
      requires LayersOk() && k < |data|
      ensures Extents()[k] == (data[k].begin, EndOf(k))
    {
      hide LayersOk, ViewOf, CompressedHashLayer.Valid, CompressedHashLayer.Contents, Lifted;
      LayerOk(k);
      assert View()[k] == SpanOf(data[k]);
    }

    /** Merges the two stripes that the shortest gap separates. */
    method CloseShortestGap()
      requires Valid() && 2 <= |data|
      modifies this`data, Layers()
      ensures Valid() && Layers() <= old(Layers()) && |data| == old(|data|) - 1
      ensures GapClosed(old(Extents()), Extents())
    {
      hide Layout, Models, Lifted, CompressedHashLayer.Valid, CompressedHashLayer.Contents, Codec.Valid, ViewOf, SpanOk,
           LayersOk, Bounds, IsShortestGap, Joined;
      var prev := ShortestGap();
      GapIsShortest(prev);
      LayerOk(prev);
      LayerOk(prev + 1);
      JoinNext(prev);
    }

    /** Stripe k contains the index. */
    ghost predicate Holds(k: int, index: nat)
      reads this`data, Layers()
    {
      0 <= k < |data| && data[k].begin <= index < EndOf(k)
    }

    /** The index is not live and lies before stripe i, apart from all stripes; which neighbours it joins is known. */
    ghost predicate Near(i: nat, index: nat, mergePrev: bool, mergeNext: bool)
      reads this, Layers()
    {
      var g := index / 0x1000 * 0x1000;
      && i <= |data| && index !in model
      && (forall k :: 0 <= k < i ==> data[k].begin < index)
      && (i > 0 ==> EndOf(i - 1) <= g)
      && (i < |data| ==> g + 0x1000 <= data[i].begin)
      && (mergePrev <==> i > 0 && g - EndOf(i - 1) <= 0x3000)
      && (mergeNext <==> i < |data| && data[i].begin - (g + 0x1000) <= 0x3000)
    }

    /** Which neighbours the granule of a new index joins. */
    method Neighbours(i: nat, index: nat) returns (mergePrev: bool, mergeNext: bool)
      requires Valid() && index < LIMIT && index !in model && Outside(i, index)
      ensures Near(i, index, mergePrev, mergeNext)
      ensures NeedsRoom(Extents(), index) <==> !mergePrev && !mergeNext && MAX_STRIPES <= |data|
    {
      hide Layout, Models, Lifted, CompressedHashLayer.Valid, CompressedHashLayer.Contents, Codec.Valid, ViewOf, SpanOk,
           LayersOk, Bounds, Placed, NeedsRoom;
      var newBegin := index / 0x1000 * 0x1000;
      var newEnd := newBegin + 0x1000;
      GranuleBetween(View(), i, index);
      mergePrev := i > 0 && newBegin - (data[i - 1].begin + data[i - 1].layer.GetLength()) <= 0x3000;
      mergeNext := i < |data| && data[i].begin - newEnd <= 0x3000;
      RoomIsNeeded(i, index, mergePrev, mergeNext);
    }

    /** Where the index belongs and which neighbours it joins. When it joins none and the stripes are at their limit,
        the shortest gap is closed and the search starts again. */
    method MakeRoom(index: nat) returns (i: nat, found: int, mergePrev: bool, mergeNext: bool)
      requires Valid() && index < LIMIT
      modifies this`data, Layers()
      ensures Valid() && Layers() <= old(Layers()) && RoomMade(old(Extents()), index, Extents())
      ensures Extents() == old(Extents()) || |data| == MAX_STRIPES - 1
      ensures if found >= 0 then Holds(found, index)
              else Near(i, index, mergePrev, mergeNext) && (mergePrev || mergeNext || |data| < MAX_STRIPES)
    {
      hide Layout, Models, Lifted, CompressedHashLayer.Valid, CompressedHashLayer.Contents, Codec.Valid, ViewOf, SpanOk,
           LayersOk, Bounds, Placed, NeedsRoom, GapClosed, RoomMade, Near,
           Outside;
      ghost var before := Extents();
      RoomIsMade(before, index, before);
      mergePrev, mergeNext := false, false;
      while true
        invariant Valid() && Layers() <= old(Layers()) && RoomMade(before, index, Extents())
        invariant Extents() == before || |data| == MAX_STRIPES - 1
        decreases |data|
      {
        i, found := Locate(index);
        if found >= 0 {
          return;
        }
        mergePrev, mergeNext := Neighbours(i, index);
        if mergePrev || mergeNext || |data| < MAX_STRIPES {
          return;
        }
        CloseShortestGap();
        RoomIsMade(before, index, Extents());
      }
    }

    /** set. A new index joins a stripe at most three granules away. The last index of the type has no successor in
        it: it is kept out of a stripe that covers the whole type, where marking it live fails. */
    method Set(index: nat, value: nat)
      requires Valid() && index < LIMIT
      requires index == LIMIT - 1 || LIMIT - 1 in model ==> !Completes(Extents(), index)
      modifies this, Layers()
      ensures Valid() && model == old(model)[index := value] && fresh(Layers() - old(Layers()))
      ensures SetBounds(old(Extents()), index, Extents())
      ensures LIMIT - 1 in model ==> !WholeRange(Extents())
    {
      hide Layout, Models, Lifted, CompressedHashLayer.Valid, CompressedHashLayer.Contents, Codec.Valid, ViewOf, SpanOk,
           LayersOk, Bounds, Placed, Completes, WholeRange, NeedsRoom, WithIndex, GapClosed, SetBounds, RoomMade, Near;
      ghost var before := Extents();
      var i, found, mergePrev, mergeNext := MakeRoom(index);
      ghost var c := Extents();
      if found >= 0 {
        SetInside(found, index, value);
      } else {
        RoomIsNeeded(i, index, mergePrev, mergeNext);
        AddOutside(i, index, value, mergePrev, mergeNext);
      }
      BoundsAre(before, c, index, Extents());
    }

    /** A new index outside all stripes; only with at most two stripes can this leave one that covers everything. */
    method AddOutside(i: nat, index: nat, value: nat, mergePrev: bool, mergeNext: bool)
      requires Valid() && index < LIMIT && Near(i, index, mergePrev, mergeNext)
      requires mergePrev || mergeNext || |data| < MAX_STRIPES
      requires |data| <= 2 && (index == LIMIT - 1 || LIMIT - 1 in model) ==> !Completes(Extents(), index)
      modifies this, Layers()
      ensures Valid() && model == old(model)[index := value] && fresh(Layers() - old(Layers()))
      ensures Extents() == WithIndex(old(Extents()), index)
      ensures LIMIT - 1 in model ==> !WholeRange(Extents())
    {
      hide Layout, Models, Lifted, CompressedHashLayer.Valid, CompressedHashLayer.Contents, Codec.Valid, ViewOf, SpanOk,
           LayersOk, Bounds, Placed, Completes, WholeRange, WithIndex, NeedsRoom;
      var newBegin := index / 0x1000 * 0x1000;
      NewCompletes(i, index, newBegin, mergePrev, mergeNext);
      AddNear(i, newBegin, index, value, mergePrev, mergeNext);
    }

    method SetInside(k: nat, index: nat, value: nat)
      requires Valid() && k < |data| && data[k].begin <= index < EndOf(k)
      modifies this`model, Layers()
      ensures Valid() && model == old(model)[index := value] && data == old(data) && Extents() == old(Extents())
      ensures Extents() == WithIndex(Extents(), index) && !NeedsRoom(Extents(), index)
      ensures WholeRange(Extents()) ==> |data| == 1 && Completes(Extents(), index)
    {
      hide Layout, Models, Lifted, CompressedHashLayer.Valid, CompressedHashLayer.Contents, Codec.Valid, ViewOf, SpanOk,
           LayersOk, Bounds, Completes, WholeRange, WithIndex, NeedsRoom;
      LayerOk(k);
      FoundCompletes(k, index);
      SetAt(k, index, value);
    }

    /** An index inside a stripe moves no bound. */
    lemma FoundCompletes(k: nat, index: nat)
      requires Valid() && k < |data| && data[k].begin <= index < EndOf(k)
      ensures Extents() == WithIndex(Extents(), index) && !NeedsRoom(Extents(), index)
      ensures WholeRange(Extents()) ==> |data| == 1 && Completes(Extents(), index)
    {
      hide LayersOk, Layout, Models, WithIndex, NeedsRoom;
      assert Extents()[k].0 <= index < Extents()[k].1;
      InsideStays(Extents(), index);
    }

    lemma RoomIsNeeded(i: nat, index: nat, mergePrev: bool, mergeNext: bool)
      requires LayersOk() && Layout(View()) && Near(i, index, mergePrev, mergeNext)
      ensures NeedsRoom(Extents(), index) <==> !mergePrev && !mergeNext && MAX_STRIPES <= |data|
    {
      hide LayersOk, SpanOk, Layout, Completes, WithIndex, NeedsRoom, ViewOf, CompressedHashLayer.Valid, Lifted,
           CompressedHashLayer.Contents;
      BetweenIsOutside(View(), i, index);
      CompletesOutside(Extents(), index, i);
    }

    lemma NewCompletes(i: nat, index: nat, g: nat, mergePrev: bool, mergeNext: bool)
      requires LayersOk() && Layout(View()) && i <= |data| && forall k :: 0 <= k < i ==> data[k].begin < index
      requires i < |data| ==> index < data[i].begin
      requires i > 0 ==> EndOf(i - 1) <= index
      requires g == index / 0x1000 * 0x1000
      requires var b := Bounds(View()); (mergePrev <==> JoinsPrev(b, i, g)) && (mergeNext <==> JoinsNext(b, i, g))
      ensures WholeRange(Placed(Bounds(View()), i, g, mergePrev, mergeNext)) ==>
                |data| <= 2 && Completes(Bounds(View()), index)
      ensures WithIndex(Bounds(View()), index) == Placed(Bounds(View()), i, g, mergePrev, mergeNext)
    {
      hide LayersOk, SpanOk, Layout, Bounds, Completes, WithIndex, NeedsRoom;
      BetweenIsOutside(View(), i, index);
      CompletesOutside(Bounds(View()), index, i);
    }

    /** The four ways a new index finds a place. */
    method AddNear(i: nat, newBegin: nat, index: nat, value: nat, mergePrev: bool, mergeNext: bool)
      requires Valid() && i <= |data| && newBegin % 0x1000 == 0 && newBegin <= index < newBegin + 0x1000 <= LIMIT
      requires index !in model
      requires i > 0 ==> EndOf(i - 1) <= newBegin
      requires i < |data| ==> newBegin + 0x1000 <= data[i].begin
      requires mergePrev <==> i > 0 && newBegin - EndOf(i - 1) <= 0x3000
      requires mergeNext <==> i < |data| && data[i].begin - (newBegin + 0x1000) <= 0x3000
      requires mergePrev || mergeNext || |data| < MAX_STRIPES
      modifies this, Layers()
      ensures Valid() && model == old(model)[index := value] && fresh(Layers() - old(Layers()))
      ensures Extents() == Placed(old(Extents()), i, newBegin, mergePrev, mergeNext)
    {
      hide Layout, Models, Lifted, CompressedHashLayer.Valid, CompressedHashLayer.Contents, Codec.Valid, ViewOf, SpanOk,
           LayersOk, Bounds, Placed, Joined, Inserted;
      PlacedCases(Extents(), i, newBegin, mergePrev, mergeNext);
      if i > 0 {
        LayerOk(i - 1);
      }
      if i < |data| {
        LayerOk(i);
      }
      if mergePrev && mergeNext {
        JoinNext(i - 1);
        SetAt(i - 1, index, value);
      } else if mergePrev {
        ExtendAt(i - 1, newBegin + 0x1000);
        SetAt(i - 1, index, value);
      } else if mergeNext {
        PrependTo(i, newBegin, index, value);
      } else {
        InsertAt(i, newBegin, index, value);
      }
    }
  }

  /** Between two stripes no stripe contains the index. */
  lemma BetweenIsOutside(view: seq<Span>, i: nat, index: nat)
    requires Layout(view) && i <= |view|
    requires i > 0 ==> view[i - 1].End() <= index
    requires i < |view| ==> index < view[i].begin
    ensures forall k :: 0 <= k < |view| ==> index < view[k].begin || view[k].End() <= index
  {
    hide SpanOk;
    forall k | 0 <= k < |view|
      ensures index < view[k].begin || view[k].End() <= index
    {
      if k < i - 1 {
        assert view[k].End() + 0x3000 < view[i - 1].begin;
      } else if i < k {
        assert view[i].End() + 0x3000 < view[k].begin;
      }
    }
  }

  lemma GapAhead(view: seq<Span>, k: nat)
    requires Layout(view) && k + 1 < |view|
    ensures view[k].End() + 0x3000 < view[k + 1].begin
  {
  }

  lemma JoinedLength(s: Span, t: Span)
    requires SpanOk(s) && SpanOk(t) && s.End() <= t.begin
    ensures var length := t.begin - s.begin + t.length;
            s.length <= length && CalcBuckets(length) * 0x1000 == length
  {
  }

  /** The granule of an index between two stripes overlaps neither. */
  lemma GranuleBetween(view: seq<Span>, i: nat, index: nat)
    requires Layout(view) && i <= |view| && index < LIMIT
    requires i > 0 ==> view[i - 1].End() <= index
    requires i < |view| ==> index < view[i].begin
    ensures var begin := index / 0x1000 * 0x1000;
            && begin % 0x1000 == 0 && begin <= index < begin + 0x1000 <= LIMIT
            && (i > 0 ==> view[i - 1].End() <= begin) && (i < |view| ==> begin + 0x1000 <= view[i].begin)
  {
    assert i > 0 ==> SpanOk(view[i - 1]);
    assert i < |view| ==> SpanOk(view[i]);
  }

  lemma NothingLifted(offset: nat)
    ensures Lifted(map[], offset) == map[]
  {
  }

  lemma AlignedDistance(begin: nat, s: Span)
    requires SpanOk(s) && begin % 0x1000 == 0 && begin + 0x1000 <= s.begin
    ensures CalcBuckets(s.begin - begin + s.length) * 0x1000 == s.begin - begin + s.length
    ensures CalcBuckets(s.begin - begin + s.length) >= CalcBuckets(0x1000)
  {
  }

  /** Stripe i begins earlier and also holds one new index. */
  lemma PrependModels(view: seq<Span>, m: map<nat, nat>, i: nat, s: Span, index: nat, value: nat)
    requires Layout(view) && Models(view, m) && i < |view| && index !in m
    requires s.begin < view[i].begin && s.End() == view[i].End() && s.begin % 0x1000 == 0 && s.begin <= index < s.End()
    requires s.contents == map[index := value] + view[i].contents
    requires i > 0 ==> view[i - 1].End() + 0x3000 < s.begin
    ensures Layout(view[i := s]) && Models(view[i := s], m[index := value])
  {
    hide Layout, Models, SpanOk;
    PartsAreSound(view, m, i);
    PrependLayout(view, i, s, index);
    AbsentEverywhere(view, m, index);
    ReplaceModels(view, m, i, s, m[index := value], index);
  }

  lemma AbsentEverywhere(view: seq<Span>, m: map<nat, nat>, index: nat)
    requires Models(view, m) && index !in m
    ensures forall l :: 0 <= l < |view| ==> index !in view[l].contents
  {
    forall l | 0 <= l < |view|
      ensures index !in view[l].contents
    {
      assert PartOf(view[l].contents, m);
    }
  }

  lemma PrependLayout(view: seq<Span>, i: nat, s: Span, index: nat)
    requires Layout(view) && i < |view| && s.begin < view[i].begin && s.End() == view[i].End() && s.begin % 0x1000 == 0
    requires s.begin <= index < s.End() && forall k :: k in s.contents ==> k == index || k in view[i].contents
    requires i > 0 ==> view[i - 1].End() + 0x3000 < s.begin
    ensures Layout(view[i := s])
  {
    assert SpanOk(view[i]);
    assert SpanOk(s);
    hide SpanOk;
    forall l | 0 <= l < i
      ensures view[l].End() + 0x3000 < s.begin
    {
      if l < i - 1 {
        assert view[l].End() + 0x3000 < view[i - 1].begin;
      }
    }
  }

  lemma AlignedLength(s: Span, newEnd: nat)
    requires SpanOk(s) && newEnd % 0x1000 == 0 && s.End() <= newEnd
    ensures (newEnd - s.begin) % 0x1000 == 0
    ensures CalcBuckets(newEnd - s.begin) * 0x1000 == newEnd - s.begin
    ensures CalcBuckets(newEnd - s.begin) * 0x1000 >= s.length
  {
  }

  ghost function ViewOf(data: seq<Stripe>): (view: seq<Span>)
    requires forall k :: 0 <= k < |data| ==> data[k].layer.Valid()
    reads set k | 0 <= k < |data| :: data[k].layer
    ensures |view| == |data| && forall k :: 0 <= k < |view| ==> view[k] == SpanOf(data[k])
  {
    if data == [] then [] else
      assert forall k :: 0 <= k < |data| - 1 ==> data[..|data| - 1][k] == data[k];
      ViewOf(data[..|data| - 1]) + [SpanOf(data[|data| - 1])]
  }
}
