// lib/range.tcc and lib/rangeset.tcc: a set of indices, kept as the places where membership changes.
module RangeSet {

  /** A changepoint: from this key on, up to the next one, indices are in the set or not. */
  datatype Node = Node(key: nat, live: bool)

  ghost predicate Sorted(data: seq<Node>) {
    forall i, j :: 0 <= i < j < |data| ==> data[i].key < data[j].key
  }

  predicate Alternates(data: seq<Node>, first: bool) {
    forall i :: 0 <= i < |data| ==> data[i].live == (if i % 2 == 0 then first else !first)
  }

  /** No changepoint without a change, and the last one is nil. */
  ghost predicate Canonical(data: seq<Node>) {
    Sorted(data) && Alternates(data, true) && |data| % 2 == 0
  }

  /** lower_bound: how many changepoints are before k. */
  function Below(data: seq<Node>, k: nat): (i: nat)
    ensures i <= |data| && (i < |data| ==> k <= data[i].key)
    ensures forall j :: 0 <= j < i ==> data[j].key < k
  {
    if data == [] || k <= data[0].key then 0 else 1 + Below(data[1..], k)
  }

  /** What the changepoint before place i says. */
  predicate Before(data: seq<Node>, i: nat)
    requires i <= |data|
  {
    0 < i && data[i - 1].live
  }

  /** Whether v is in the set. */
  ghost predicate At(data: seq<Node>, v: nat) {
    Before(data, Below(data, v + 1))
  }

  // ---- set and erase, which differ in the value they give to a range ----

  predicate KeyAt(data: seq<Node>, i: nat, k: nat) {
    i < |data| && data[i].key == k
  }

  /** Sees to it that what follows the range goes on as it was. */
  function WithEnd(data: seq<Node>, up: nat, val: bool): seq<Node> {
    var i := Below(data, up);
    if KeyAt(data, i, up) then
      if data[i].live == val then data[..i] + data[i + 1..] else data
    else if Before(data, i) != val then
      data[..i] + [Node(up, Before(data, i))] + data[i..]
    else
      data
  }

  /** Erases the changepoints inside the range. */
  function Without(data: seq<Node>, lo: nat, up: nat): seq<Node> {
    var a, b := Below(data, lo), Below(data, up);
    if a <= b then data[..a] + data[b..] else data
  }

  /** Begins the range, unless it continues what comes before. Nothing is inserted at a key that exists. */
  function WithStart(data: seq<Node>, lo: nat, val: bool): seq<Node> {
    var a := Below(data, lo);
    if Before(data, a) != val && !KeyAt(data, a, lo) then data[..a] + [Node(lo, val)] + data[a..] else data
  }

  function Changed(data: seq<Node>, lo: nat, up: nat, val: bool): seq<Node> {
    WithStart(Without(WithEnd(data, up, val), lo, up), lo, val)
  }

  // ---- What the changepoints say ----

  /** The place that separates smaller keys from the others is the lower bound. */
  lemma {:induction false} BelowIs(data: seq<Node>, k: nat, i: nat)
    requires i <= |data| && forall j :: 0 <= j < i ==> data[j].key < k
    requires i < |data| ==> k <= data[i].key
    ensures Below(data, k) == i
  {
    if 0 < i {
      assert data[0].key < k;
      BelowIs(data[1..], k, i - 1);
    }
  }

  lemma AtIs(data: seq<Node>, v: nat, i: nat)
    requires i <= |data| && forall j :: 0 <= j < i ==> data[j].key <= v
    requires i < |data| ==> v < data[i].key
    ensures At(data, v) == Before(data, i)
  {
    BelowIs(data, v + 1, i);
  }

  /** The changepoints from up on, after the range. */
  function Tail(data: seq<Node>, up: nat, val: bool): seq<Node> {
    var b := Below(data, up);
    if KeyAt(data, b, up) then
      if data[b].live == val then data[b + 1..] else data[b..]
    else if Before(data, b) != val then
      [Node(up, Before(data, b))] + data[b..]
    else
      data[b..]
  }

  function Start(data: seq<Node>, lo: nat, val: bool): seq<Node> {
    if Before(data, Below(data, lo)) != val then [Node(lo, val)] else []
  }

  lemma {:induction false} BelowGrows(data: seq<Node>, lo: nat, up: nat)
    requires lo <= up
    ensures Below(data, lo) <= Below(data, up)
  {
    if data != [] && data[0].key < lo {
      BelowGrows(data[1..], lo, up);
    }
  }

  lemma EndIs(data: seq<Node>, up: nat, val: bool)
    ensures WithEnd(data, up, val) == data[..Below(data, up)] + Tail(data, up, val)
  {
    hide Below;
  }

  ghost predicate AllBelow(data: seq<Node>, k: nat) {
    forall j :: 0 <= j < |data| ==> data[j].key < k
  }

  ghost predicate AllFrom(data: seq<Node>, k: nat) {
    forall j :: 0 <= j < |data| ==> k <= data[j].key
  }

  lemma BelowJoin(left: seq<Node>, right: seq<Node>, k: nat)
    requires AllBelow(left, k) && AllFrom(right, k)
    ensures Below(left + right, k) == |left|
  {
    BelowIs(left + right, k, |left|);
  }

  lemma InsideErased(left: seq<Node>, middle: seq<Node>, right: seq<Node>, lo: nat, up: nat)
    requires lo < up && AllBelow(left, lo) && AllFrom(middle, lo) && AllBelow(middle, up) && AllFrom(right, up)
    ensures Without(left + middle + right, lo, up) == left + right
  {
    BelowJoin(left, middle + right, lo);
    BelowJoin(left + middle, right, up);
    hide Below;
    assert left + (middle + right) == left + middle + right;
  }

  lemma RangeBegun(left: seq<Node>, right: seq<Node>, lo: nat, val: bool)
    requires AllBelow(left, lo) && AllFrom(right, lo + 1)
    ensures WithStart(left + right, lo, val)
            == left + (if Before(left, |left|) != val then [Node(lo, val)] else []) + right
  {
    BelowJoin(left, right, lo);
    hide Below;
  }

  /** Where the changepoints lie on either side of the two ends. */
  lemma PartsLie(data: seq<Node>, lo: nat, up: nat)
    requires Sorted(data) && lo < up
    ensures var a, b := Below(data, lo), Below(data, up);
            && a <= b && AllBelow(data[..a], lo) && AllFrom(data[a..b], lo) && AllBelow(data[a..b], up)
  {
    BelowGrows(data, lo, up);
    hide Below;
  }

  lemma TailIsLater(data: seq<Node>, lo: nat, up: nat, val: bool)
    requires Sorted(data) && lo < up
    ensures AllFrom(Tail(data, up, val), up) && AllFrom(Tail(data, up, val), lo + 1)
  {
    TailSorted(data, up, val);
    hide Below, Tail;
  }

  lemma StartIs(data: seq<Node>, lo: nat, val: bool)
    ensures var left := data[..Below(data, lo)];
            (if Before(left, |left|) != val then [Node(lo, val)] else []) == Start(data, lo, val)
  {
    hide Below;
  }

  /** All three steps together. */
  lemma ChangedIs(data: seq<Node>, lo: nat, up: nat, val: bool)
    requires Sorted(data) && lo < up
    ensures Below(data, lo) <= Below(data, up)
    ensures Changed(data, lo, up, val) == data[..Below(data, lo)] + Start(data, lo, val) + Tail(data, up, val)
  {
    hide Below, WithEnd, Without, Tail, WithStart, Start, Before, Sorted, AllBelow, AllFrom;
    var a, b, tail := Below(data, lo), Below(data, up), Tail(data, up, val);
    PartsLie(data, lo, up);
    EndIs(data, up, val);
    TailIsLater(data, lo, up, val);
    assert data[..b] == data[..a] + data[a..b];
    InsideErased(data[..a], data[a..b], tail, lo, up);
    RangeBegun(data[..a], tail, lo, val);
    StartIs(data, lo, val);
  }

  /** What a list of changepoints says past its first part. */
  lemma AtJoin(left: seq<Node>, right: seq<Node>, v: nat)
    requires Sorted(right) && forall j :: 0 <= j < |left| ==> left[j].key <= v
    ensures At(left + right, v) == if right != [] && right[0].key <= v then At(right, v) else Before(left, |left|)
  {
    var n := Below(right, v + 1);
    hide Below;
    if n == |right| || v + 1 <= right[n].key {
      AtIs(left + right, v, |left| + n);
    }
    if right != [] && right[0].key <= v {
      assert n > 0;
    } else {
      AtIs(left + right, v, |left|);
    }
  }

  lemma AtPrefix(left: seq<Node>, right: seq<Node>, v: nat)
    requires forall j :: 0 <= j < |right| ==> v < right[j].key
    ensures At(left + right, v) == At(left, v)
  {
    var n := Below(left, v + 1);
    hide Below;
    AtIs(left + right, v, n);
  }

  lemma TailSorted(data: seq<Node>, up: nat, val: bool)
    requires Sorted(data)
    ensures var tail := Tail(data, up, val); Sorted(tail) && forall j :: 0 <= j < |tail| ==> up <= tail[j].key
  {
    hide Below;
  }

  /** The part after the range begins at the other value, and says what the whole said. */
  lemma TailDenotes(data: seq<Node>, up: nat, val: bool, v: nat)
    requires Sorted(data) && up <= v
    ensures var tail := Tail(data, up, val);
            At(data, v) == if tail != [] && tail[0].key <= v then At(tail, v) else val
  {
    var b := Below(data, up);
    hide Below, At;
    assert data == data[..b] + data[b..];
    AtJoin(data[..b], data[b..], v);
    if KeyAt(data, b, up) {
      assert data[b..] == [data[b]] + data[b + 1..];
      AtJoin([data[b]], data[b + 1..], v);
    } else {
      AtJoin([Node(up, Before(data, b))], data[b..], v);
    }
  }

  /** The part up to the range ends with the value of the range. */
  lemma StartSorted(data: seq<Node>, lo: nat, val: bool)
    requires Sorted(data)
    ensures var head := data[..Below(data, lo)] + Start(data, lo, val);
            && Sorted(head) && Before(head, |head|) == val && forall j :: 0 <= j < |head| ==> head[j].key <= lo
  {
    hide Below;
  }

  lemma StartDenotes(data: seq<Node>, lo: nat, val: bool, v: nat)
    requires Sorted(data) && v < lo
    ensures At(data[..Below(data, lo)] + Start(data, lo, val), v) == At(data, v)
  {
    var a, start := Below(data, lo), Start(data, lo, val);
    hide Below, At, Sorted;
    AtPrefix(data[..a], start, v);
    assert data == data[..a] + data[a..];
    RestIsLater(data, lo);
    AtPrefix(data[..a], data[a..], v);
  }

  lemma RestIsLater(data: seq<Node>, lo: nat)
    requires Sorted(data)
    ensures AllFrom(data[Below(data, lo)..], lo)
  {
    hide Below;
  }

  lemma SortedJoin(left: seq<Node>, right: seq<Node>, k: nat)
    requires Sorted(left) && Sorted(right)
    requires (forall j :: 0 <= j < |left| ==> left[j].key <= k) && forall j :: 0 <= j < |right| ==> k < right[j].key
    ensures Sorted(left + right)
  {
  }

  lemma ChangeKeepsSorted(data: seq<Node>, lo: nat, up: nat, val: bool)
    requires Sorted(data) && lo < up
    ensures Sorted(Changed(data, lo, up, val))
  {
    ChangedIs(data, lo, up, val);
    TailSorted(data, up, val);
    StartSorted(data, lo, val);
    hide Below, Changed, Start, Tail, At, Sorted;
    SortedJoin(data[..Below(data, lo)] + Start(data, lo, val), Tail(data, up, val), lo);
  }

  /** Setting or erasing a range changes the membership of exactly the indices of the range. */
  lemma ChangeDenotes(data: seq<Node>, lo: nat, up: nat, val: bool, v: nat)
    requires Sorted(data) && lo < up
    ensures At(Changed(data, lo, up, val), v) == if lo <= v < up then val else At(data, v)
  {
    ChangedIs(data, lo, up, val);
    TailSorted(data, up, val);
    StartSorted(data, lo, val);
    hide Below, Changed, Start, Tail, At, Sorted;
    if up <= v {
      TailDenotes(data, up, val, v);
    }
    var head, tail := data[..Below(data, lo)] + Start(data, lo, val), Tail(data, up, val);
    if v < lo {
      StartDenotes(data, lo, val, v);
      AtPrefix(head, tail, v);
    } else {
      AtJoin(head, tail, v);
    }
  }

  // ---- No changepoint without a change ----

  lemma AlternatesJoin(left: seq<Node>, right: seq<Node>, first: bool)
    requires Alternates(left, first) && Alternates(right, if |left| % 2 == 0 then first else !first)
    ensures Alternates(left + right, first)
  {
    forall i | 0 <= i < |left + right|
      ensures (left + right)[i].live == (if i % 2 == 0 then first else !first)
    {
      if |left| <= i {
        assert (left + right)[i] == right[i - |left|];
      }
    }
  }

  lemma AlternatesFrom(data: seq<Node>, b: nat)
    requires Alternates(data, true) && b <= |data|
    ensures Alternates(data[b..], b % 2 == 0) && Before(data, b) == (b % 2 == 1)
  {
    forall i | 0 <= i < |data[b..]|
      ensures data[b..][i].live == (if i % 2 == 0 then b % 2 == 0 else !(b % 2 == 0))
    {
      assert data[b..][i] == data[b + i];
    }
  }

  lemma EvenRest(n: nat, b: nat)
    requires n % 2 == 0 && b <= n
    ensures (n - b) % 2 == b % 2 && (n - b + 1) % 2 == 1 - b % 2 && (b < n ==> (n - b - 1) % 2 == 1 - b % 2)
  {
  }

  lemma TailAlternates(data: seq<Node>, up: nat, val: bool)
    requires Alternates(data, true) && |data| % 2 == 0
    ensures var tail := Tail(data, up, val); Alternates(tail, !val) && |tail| % 2 == if val then 1 else 0
  {
    var b := Below(data, up);
    var node := [Node(up, Before(data, b))];
    assert Alternates(node, Before(data, b));
    assert b < |data| ==> data[b].live == (b % 2 == 0);
    hide Below, Alternates;
    AlternatesFrom(data, b);
    EvenRest(|data|, b);
    if KeyAt(data, b, up) {
      AlternatesFrom(data, b + 1);
    } else {
      AlternatesJoin(node, data[b..], Before(data, b));
    }
  }

  lemma StartAlternates(data: seq<Node>, lo: nat, val: bool)
    requires Alternates(data, true)
    ensures var head := data[..Below(data, lo)] + Start(data, lo, val);
            Alternates(head, true) && |head| % 2 == if val then 1 else 0
  {
    hide Below;
  }

  lemma HalvesJoin(head: seq<Node>, tail: seq<Node>, val: bool)
    requires Alternates(head, true) && |head| % 2 == if val then 1 else 0
    requires Alternates(tail, !val) && |tail| % 2 == if val then 1 else 0
    ensures Alternates(head + tail, true) && |head + tail| % 2 == 0
  {
    hide Alternates;
    AlternatesJoin(head, tail, true);
  }

  /** set and erase leave no changepoint without a change. */
  lemma ChangeKeepsCanonical(data: seq<Node>, lo: nat, up: nat, val: bool)
    requires Canonical(data) && lo < up
    ensures Canonical(Changed(data, lo, up, val))
  {
    ChangeKeepsSorted(data, lo, up, val);
    ChangedIs(data, lo, up, val);
    hide Sorted, Below, Changed, Start, Tail, At, Alternates;
    TailAlternates(data, up, val);
    StartAlternates(data, lo, val);
    HalvesJoin(data[..Below(data, lo)] + Start(data, lo, val), Tail(data, up, val), val);
  }

  // ---- Ranges ----

  ghost predicate Covers(data: seq<Node>, k: nat, v: nat) {
    2 * k + 1 < |data| && data[2 * k].key <= v < data[2 * k + 1].key
  }

  lemma LiveIsCovered(data: seq<Node>, v: nat)
    requires Canonical(data) && At(data, v)
    ensures exists k: nat :: Covers(data, k, v)
  {
    var n := Below(data, v + 1);
    hide Below;
    assert data[n - 1].live == ((n - 1) % 2 == 0);
    assert Covers(data, (n - 1) / 2, v);
  }

  lemma CoveredIsLive(data: seq<Node>, k: nat, v: nat)
    requires Canonical(data) && Covers(data, k, v)
    ensures At(data, v)
  {
    hide Below, At;
    assert data[2 * k].live == (2 * k % 2 == 0);
    AtIs(data, v, 2 * k + 1);
  }

  /** The ranges an iterator visits, from each live changepoint to the next, hold exactly the set. */
  lemma RangesAreTheSet(data: seq<Node>, v: nat)
    requires Canonical(data)
    ensures At(data, v) <==> exists k: nat :: Covers(data, k, v)
  {
    hide At, Covers, Canonical;
    if At(data, v) {
      LiveIsCovered(data, v);
    }
    if k: nat :| Covers(data, k, v) {
      CoveredIsLive(data, k, v);
    }
  }

  /** Equal sets have equal changepoints, which operator== relies on. */
  lemma {:induction false} OneFormOnly(data: seq<Node>, other: seq<Node>, n: nat)
    requires Canonical(data) && Canonical(other) && forall v: nat :: At(data, v) == At(other, v)
    requires n <= |data| && n <= |other| && data[..n] == other[..n]
    ensures data == other
    decreases |data| - n
  {
    hide Below, At;
    if n < |data| {
      NextNoLater(data, other, n);
      NextNoLater(other, data, n);
      assert data[n].live == (n % 2 == 0) && other[n].live == (n % 2 == 0);
      assert data[..n + 1] == data[..n] + [data[n]] && other[..n + 1] == other[..n] + [other[n]];
      OneFormOnly(data, other, n + 1);
    } else {
      if n < |other| {
        NextNoLater(other, data, n);
      }
      assert data == data[..n] && other == other[..n];
    }
  }

  /** When one list goes on, the other one does, no later. */
  lemma NextNoLater(data: seq<Node>, other: seq<Node>, n: nat)
    requires Canonical(data) && Canonical(other) && forall v: nat :: At(data, v) == At(other, v)
    requires n < |data| && n <= |other| && data[..n] == other[..n]
    ensures n < |other| && other[n].key <= data[n].key
  {
    hide Below, At;
    if n == |other| || data[n].key < other[n].key {
      DiffersAt(data, other, n);
    }
  }

  lemma DiffersAt(data: seq<Node>, other: seq<Node>, n: nat)
    requires Canonical(data) && Canonical(other)
    requires n < |data| && n <= |other| && data[..n] == other[..n] && (n < |other| ==> data[n].key < other[n].key)
    ensures At(data, data[n].key) != At(other, data[n].key)
  {
    hide Below, At;
    forall j | 0 <= j < n
      ensures other[j] == data[j]
    {
      assert other[j] == other[..n][j];
    }
    AtIs(data, data[n].key, n + 1);
    AtIs(other, data[n].key, n);
    assert data[n].live == (n % 2 == 0);
  }

  // ---- The last index of the type ----

  lemma ZeroIsLive(data: seq<Node>)
    requires Canonical(data)
    ensures At(data, 0) <==> data != [] && data[0].key == 0
  {
    if data != [] && data[0].key == 0 {
      AtIs(data, 0, 1);
    } else {
      AtIs(data, 0, 0);
    }
  }

  /** Setting the last index passes the wrapped number 0 for the end of the range. */
  lemma LastIndexSteps(data: seq<Node>, last: nat)
    requires Canonical(data) && 0 < last && !At(data, 0)
    ensures Changed(data, last, 0, true) == WithStart([Node(0, false)] + data, last, true)
  {
    ZeroIsLive(data);
    BelowIs(data, 0, 0);
    hide Below, At;
    var ended := [Node(0, false)] + data;
    assert WithEnd(data, 0, true) == ended;
    BelowIs(ended, 0, 0);
    assert Without(ended, last, 0) == ended;
  }

  lemma NilInFrontSame(data: seq<Node>, v: nat)
    requires Sorted(data)
    ensures At([Node(0, false)] + data, v) == At(data, v)
  {
    AtJoin([Node(0, false)], data, v);
    AtJoin([], data, v);
    assert [] + data == data;
  }

  lemma LastIndexLosesRange(data: seq<Node>, last: nat)
    requires Canonical(data) && 0 < last && At(data, 0)
    ensures !At(Changed(data, last, 0, true), 0)
  {
    ZeroIsLive(data);
    BelowIs(data, 0, 0);
    hide Below, At;
    var ended := data[1..];
    assert WithEnd(data, 0, true) == ended;
    BelowIs(ended, 0, 0);
    assert Without(ended, last, 0) == ended;
    AtIs(WithStart(ended, last, true), 0, 0);
  }

  /** Where the range begins, its first index is live; only a changepoint that ends there stays as it is. */
  lemma StartLive(data: seq<Node>, last: nat)
    requires Sorted(data) && Alternates(data, false) && data != [] && data[0].key < last
    ensures At(WithStart(data, last, true), last) == (At(data, last) || !At(data, last - 1))
  {
    var a := Below(data, last);
    hide Below;
    if !Before(data, a) {
      assert 0 < a && !data[a - 1].live;
      if KeyAt(data, a, last) {
        AtIs(data, last, a + 1);
      } else {
        AtIs(data[..a] + [Node(last, true)] + data[a..], last, a + 1);
      }
    }
  }

  lemma StartKeepsOthers(data: seq<Node>, last: nat, v: nat)
    requires Sorted(data) && v < last
    ensures At(WithStart(data, last, true), v) == At(data, v)
  {
    var a := Below(data, last);
    hide Below, At;
    assert data == data[..a] + data[a..];
    AtPrefix(data[..a], data[a..], v);
    AtPrefix(data[..a], [Node(last, true)] + data[a..], v);
    assert data[..a] + [Node(last, true)] + data[a..] == data[..a] + ([Node(last, true)] + data[a..]);
  }

  lemma NilInFront(data: seq<Node>)
    requires Canonical(data) && !At(data, 0)
    ensures Sorted([Node(0, false)] + data) && Alternates([Node(0, false)] + data, false)
  {
    ZeroIsLive(data);
    AlternatesJoin([Node(0, false)], data, false);
  }

  lemma LastIndexElsewhere(data: seq<Node>, last: nat, v: nat)
    requires Canonical(data) && 0 < last && !At(data, 0) && v <= last
    ensures At(Changed(data, last, 0, true), v)
            == if v < last then At(data, v) else At(data, last) || !At(data, last - 1)
  {
    LastIndexSteps(data, last);
    NilInFront(data);
    NilInFrontSame(data, v);
    NilInFrontSame(data, last - 1);
    NilInFrontSame(data, last);
    hide At, WithEnd, Changed, WithStart, Sorted, Alternates;
    if v < last {
      StartKeepsOthers([Node(0, false)] + data, last, v);
    } else {
      StartLive([Node(0, false)] + data, last);
    }
  }

  /** Setting the last index of the type adds just that index exactly when neither index 0 is live, nor a range
      that ends before the last index. */
  lemma LastIndexExact(data: seq<Node>, last: nat)
    requires Canonical(data) && 0 < last
    ensures (forall v: nat :: v <= last ==> At(Changed(data, last, 0, true), v) == (At(data, v) || v == last)) <==>
            !At(data, 0) && (At(data, last) || !At(data, last - 1))
  {
    hide At, Changed;
    if At(data, 0) {
      LastIndexLosesRange(data, last);
    } else {
      forall v: nat | v <= last
        ensures At(Changed(data, last, 0, true), v)
                == if v < last then At(data, v) else At(data, last) || !At(data, last - 1)
      {
        LastIndexElsewhere(data, last, v);
      }
    }
  }

  /** Two neighbours at the end of the type, set one after the other: the second one is lost. */
  lemma LastIndexIsLost()
    ensures var data := Changed([], 0xFFFF_FFFE, 0xFFFF_FFFF, true);
            Canonical(data) && !At(Changed(data, 0xFFFF_FFFF, 0, true), 0xFFFF_FFFF)
  {
    var data := Changed([], 0xFFFF_FFFE, 0xFFFF_FFFF, true);
    ChangeKeepsCanonical([], 0xFFFF_FFFE, 0xFFFF_FFFF, true);
    ChangeDenotes([], 0xFFFF_FFFE, 0xFFFF_FFFF, true, 0);
    ChangeDenotes([], 0xFFFF_FFFE, 0xFFFF_FFFF, true, 0xFFFF_FFFE);
    ChangeDenotes([], 0xFFFF_FFFE, 0xFFFF_FFFF, true, 0xFFFF_FFFF);
    hide Changed, At;
    LastIndexElsewhere(data, 0xFFFF_FFFF, 0xFFFF_FFFF);
  }

  /** A range begins at this very index. */
  ghost predicate BeginsAt(data: seq<Node>, last: nat) {
    var a := Below(data, last);
    KeyAt(data, a, last) && data[a].live
  }

  /** Erasing the last index passes the wrapped number 0 for the end as well: at most a nil in front goes. */
  function Ended(data: seq<Node>): seq<Node> {
    if data != [] && data[0] == Node(0, false) then data[1..] else data
  }

  lemma LastEraseSteps(data: seq<Node>, last: nat)
    ensures Changed(data, last, 0, false) == WithStart(Ended(data), last, false)
  {
    BelowIs(data, 0, 0);
    BelowIs(Ended(data), 0, 0);
    hide Below;
    assert WithEnd(data, 0, false) == Ended(data);
    assert Without(Ended(data), last, 0) == Ended(data);
  }

  lemma EndedIsSame(data: seq<Node>, last: nat, v: nat)
    requires Sorted(data) && 0 < last
    ensures Sorted(Ended(data)) && At(Ended(data), v) == At(data, v)
    ensures BeginsAt(Ended(data), last) <==> BeginsAt(data, last)
  {
    if Ended(data) != data {
      assert data == [Node(0, false)] + Ended(data);
      hide At, BeginsAt;
      NilInFrontSame(Ended(data), v);
      NilInFrontBegins(Ended(data), last);
    }
  }

  lemma NilInFrontBegins(data: seq<Node>, last: nat)
    requires 0 < last
    ensures BeginsAt([Node(0, false)] + data, last) <==> BeginsAt(data, last)
  {
    var whole := [Node(0, false)] + data;
    assert whole[1..] == data;
  }

  lemma LastEraseAt(data: seq<Node>, last: nat, v: nat)
    requires Sorted(data) && 0 < last && v <= last
    ensures At(Changed(data, last, 0, false), v) == if v < last then At(data, v) else BeginsAt(data, last)
  {
    LastEraseSteps(data, last);
    EndedIsSame(data, last, v);
    hide Changed, WithStart, Ended, At, BeginsAt;
    if v < last {
      EndKeepsOthers(Ended(data), last, v);
    } else {
      EndAtLast(Ended(data), last);
    }
  }

  lemma EndKeepsOthers(data: seq<Node>, last: nat, v: nat)
    requires Sorted(data) && v < last
    ensures At(WithStart(data, last, false), v) == At(data, v)
  {
    var a := Below(data, last);
    hide Below, At;
    assert data == data[..a] + data[a..];
    AtPrefix(data[..a], data[a..], v);
    AtPrefix(data[..a], [Node(last, false)] + data[a..], v);
    assert data[..a] + [Node(last, false)] + data[a..] == data[..a] + ([Node(last, false)] + data[a..]);
  }

  lemma EndAtLast(data: seq<Node>, last: nat)
    requires Sorted(data)
    ensures At(WithStart(data, last, false), last) == BeginsAt(data, last)
  {
    var a := Below(data, last);
    hide Below;
    if KeyAt(data, a, last) {
      AtIs(data, last, a + 1);
    } else if Before(data, a) {
      AtIs(data[..a] + [Node(last, false)] + data[a..], last, a + 1);
    } else {
      AtIs(data, last, a);
    }
  }

  /** Erasing the last index of the type removes just that index exactly when no range begins with it. */
  lemma LastEraseExact(data: seq<Node>, last: nat)
    requires Sorted(data) && 0 < last
    ensures (forall v: nat :: v <= last ==> At(Changed(data, last, 0, false), v) == (At(data, v) && v != last)) <==>
            !BeginsAt(data, last)
  {
    hide At, Changed, BeginsAt;
    forall v: nat | v <= last
      ensures At(Changed(data, last, 0, false), v) == if v < last then At(data, v) else BeginsAt(data, last)
    {
      LastEraseAt(data, last, v);
    }
    assert At(Changed(data, last, 0, false), last) == BeginsAt(data, last);
  }

  lemma NilThenLive(last: nat)
    requires 0 < last
    ensures WithStart([Node(0, false)], last, true) == [Node(0, false), Node(last, true)]
  {
    BelowIs([Node(0, false)], last, 1);
    hide Below;
  }

  lemma LastIndexAlone(last: nat)
    requires 0 < last
    ensures Changed([], last, 0, true) == [Node(0, false), Node(last, true)]
  {
    LastIndexSteps([], last);
    NilThenLive(last);
    hide *;
    assert [Node(0, false)] + [] == [Node(0, false)];
  }

  /** The last index, set and erased again, is still there. */
  lemma LastIndexStays(last: nat)
    requires 0 < last
    ensures At(Changed(Changed([], last, 0, true), last, 0, false), last)
  {
    hide Changed, WithStart;
    var data := Changed([], last, 0, true);
    LastIndexAlone(last);
    BelowIs(data, last, 1);
    assert Sorted(data) && BeginsAt(data, last);
    LastEraseAt(data, last, last);
  }

  // ---- The collection ----

  lemma ChangedUnfolds(data: seq<Node>, lo: nat, up: nat, val: bool)
    ensures Changed(data, lo, up, val) == WithStart(Without(WithEnd(data, up, val), lo, up), lo, val)
  {
  }

  /** The changepoints from lo on have gone, as far as the one before n. */
  ghost predicate Erasing(was: seq<Node>, now: seq<Node>, lo: nat, up: nat, n: nat) {
    var i := Below(was, lo);
    && i <= n <= |was| && now == was[..i] + was[n..] && (n <= Below(was, up) || n == i)
  }

  lemma EraseNext(was: seq<Node>, now: seq<Node>, lo: nat, up: nat, n: nat)
    requires Erasing(was, now, lo, up, n) && Below(was, lo) < |now| && now[Below(was, lo)].key < up
    ensures var i := Below(was, lo); Erasing(was, now[..i] + now[i + 1..], lo, up, n + 1)
  {
    hide Below;
  }

  lemma EraseDone(was: seq<Node>, now: seq<Node>, lo: nat, up: nat, n: nat)
    requires Erasing(was, now, lo, up, n) && (Below(was, lo) < |now| ==> up <= now[Below(was, lo)].key)
    ensures now == Without(was, lo, up)
  {
    hide Below;
  }

  class RangeSet {
    var data: seq<Node>

    constructor ()
      ensures data == []
    {
      data := [];
    }

    /** set(lo, up). */
    method Set(lo: nat, up: nat)
      modifies this
      ensures data == Changed(old(data), lo, up, true)
    {
      hide *;
      BeginNext(up);
      EraseInside(lo, up);
      Continue(lo);
      ChangedUnfolds(old(data), lo, up, true);
    }

    method BeginNext(up: nat)
      modifies this
      ensures data == WithEnd(old(data), up, true)
    {
      var next := Below(data, up);
      if KeyAt(data, next, up) {
        if data[next].live {
          data := data[..next] + data[next + 1..];
        }
      } else if next == 0 {
        data := [Node(up, false)] + data;
      } else if !data[next - 1].live {
        data := data[..next] + [Node(up, data[next - 1].live)] + data[next..];
      }
    }

    method Continue(lo: nat)
      modifies this
      ensures data == WithStart(old(data), lo, true)
    {
      var prev := Below(data, lo);
      if prev == 0 || !data[prev - 1].live {
        if !KeyAt(data, prev, lo) {
          data := data[..prev] + [Node(lo, true)] + data[prev..];
        }
      }
    }

    /** erase(lo, up), which does nothing where the world begins after the range. */
    method Erase(lo: nat, up: nat)
      modifies this
      ensures data == Changed(old(data), lo, up, false)
    {
      hide *;
      BeginNextOfErased(up);
      EraseInside(lo, up);
      Discontinue(lo);
      ChangedUnfolds(old(data), lo, up, false);
    }

    method BeginNextOfErased(up: nat)
      modifies this
      ensures data == WithEnd(old(data), up, false)
    {
      var next := Below(data, up);
      if KeyAt(data, next, up) {
        if !data[next].live {
          data := data[..next] + data[next + 1..];
        }
      } else if next != 0 && data[next - 1].live {
        data := data[..next] + [Node(up, data[next - 1].live)] + data[next..];
      }
    }

    method Discontinue(lo: nat)
      modifies this
      ensures data == WithStart(old(data), lo, false)
    {
      var prev := Below(data, lo);
      if prev != 0 && data[prev - 1].live {
        if !KeyAt(data, prev, lo) {
          data := data[..prev] + [Node(lo, false)] + data[prev..];
        }
      }
    }

    /** Erases the changepoints from lo on that are before up. */
    method EraseInside(lo: nat, up: nat)
      modifies this
      ensures data == Without(old(data), lo, up)
    {
      var i := Below(data, lo);
      ghost var n: nat := i;
      while i < |data| && data[i].key < up
        invariant Erasing(old(data), data, lo, up, n)
        decreases |data|
      {
        EraseNext(old(data), data, lo, up, n);
        hide Erasing, Below;
        n := n + 1;
        data := data[..i] + data[i + 1..];
      }
      EraseDone(old(data), data, lo, up, n);
    }

    /** find: whether v is in the set. Past the last changepoint nothing is found. */
    method Find(v: nat) returns (r: bool)
      requires Sorted(data)
      ensures r <==> At(data, v) && v <= data[|data| - 1].key
      ensures Canonical(data) ==> (r <==> At(data, v))
    {
      var tmp := Below(data, v);
      if tmp == |data| {
        return false;
      }
      if data[tmp].key > v {
        if tmp == 0 {
          return false;
        }
        tmp := tmp - 1;
      }
      r := data[tmp].live;
    }
  }
}
