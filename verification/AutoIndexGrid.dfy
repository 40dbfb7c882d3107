// lib/cromfs-blockifier.cc: which offsets of a growing fblock are offered to the block index.
module AutoIndexGrid {
  import opened Arithmetic

  /** C++ division: towards zero. */
  function TruncDiv(a: int, b: nat): int
    requires 0 < b
  {
    if a >= 0 then a / b else -((-a) / b)
  }

  /** CalcAutoIndexCount. */
  function CalcAutoIndexCount(rawSize: nat, bsize: nat, period: nat): int {
    if period == 0 then 0 else TruncDiv(rawSize - bsize + period, period)
  }

  /** std::max(CalcAutoIndexCount(...), 0). */
  function IndexCount(rawSize: nat, bsize: nat, period: nat): nat {
    var n := CalcAutoIndexCount(rawSize, bsize, period);
    if n < 0 then 0 else n
  }

  /** The count is the number of multiples of the period at which a whole block fits. */
  lemma CountsWhatFits(rawSize: nat, bsize: nat, period: nat, k: nat)
    requires 0 < period
    ensures k < IndexCount(rawSize, bsize, period) <==> k * period + bsize <= rawSize
  {
    CountIs(rawSize, bsize, period);
    hide IndexCount;
    var a := rawSize - bsize + period;
    OneMoreMultiple(k, period);
    if a >= 0 {
      QuotientCounts(a, period, k + 1);
    }
  }

  lemma CountIs(rawSize: nat, bsize: nat, period: nat)
    requires 0 < period
    ensures var a := rawSize - bsize + period; IndexCount(rawSize, bsize, period) == if a < 0 then 0 else a / period
  {
    var a := rawSize - bsize + period;
    if a < 0 {
      assert (-a) / period >= 0;
    }
  }

  /** Every multiple of the period at which a block fits in rawSize bytes, in order. */
  function Grid(rawSize: nat, bsize: nat, period: nat): (g: seq<nat>)
    ensures |g| == IndexCount(rawSize, bsize, period)
    ensures forall k :: 0 <= k < |g| ==> g[k] == k * period
  {
    seq(IndexCount(rawSize, bsize, period), (k: nat) => k * period)
  }

  /** Each fitting multiple of the period occurs in the grid exactly once, and nothing else does. */
  lemma GridIsExact(rawSize: nat, bsize: nat, period: nat, x: nat)
    requires 0 < period
    ensures x in Grid(rawSize, bsize, period) <==> x % period == 0 && x + bsize <= rawSize
    ensures var g := Grid(rawSize, bsize, period); forall i, j :: 0 <= i < j < |g| ==> g[i] < g[j]
  {
    var g := Grid(rawSize, bsize, period);
    forall i, j | 0 <= i < j < |g|
      ensures g[i] < g[j]
    {
      MulOrder(i, j, period);
    }
    var k := x / period;
    CountsWhatFits(rawSize, bsize, period, k);
    if x % period == 0 && x + bsize <= rawSize {
      assert g[k] == x;
    }
    if x in g {
      var i :| 0 <= i < |g| && g[i] == x;
      CountsWhatFits(rawSize, bsize, period, i);
      MultipleHasNoRest(i, period);
    }
  }

  /** What one AutoIndex call adds: the fitting multiples from the old count on. */
  function Offers(oldSize: nat, newSize: nat, bsize: nat, period: nat): seq<nat> {
    var n := IndexCount(oldSize, bsize, period);
    if n < IndexCount(newSize, bsize, period) then Grid(newSize, bsize, period)[n..] else []
  }

  lemma CountGrows(oldSize: nat, newSize: nat, bsize: nat, period: nat)
    requires oldSize <= newSize
    ensures IndexCount(oldSize, bsize, period) <= IndexCount(newSize, bsize, period)
  {
    var n := IndexCount(oldSize, bsize, period);
    if 0 < period && 0 < n {
      CountsWhatFits(oldSize, bsize, period, n - 1);
      CountsWhatFits(newSize, bsize, period, n - 1);
    }
  }

  /** Successive calls leave no gap and repeat nothing: together they offer the grid of the last size. */
  lemma OffersCompose(oldSize: nat, newSize: nat, bsize: nat, period: nat)
    requires oldSize <= newSize
    ensures Grid(oldSize, bsize, period) + Offers(oldSize, newSize, bsize, period) == Grid(newSize, bsize, period)
  {
    CountGrows(oldSize, newSize, bsize, period);
    var old_, new_ := Grid(oldSize, bsize, period), Grid(newSize, bsize, period);
    assert old_ == new_[..|old_|];
  }

  /** It adds exactly the multiples at which a block fits now and did not fit before. */
  lemma OffersAreNew(oldSize: nat, newSize: nat, bsize: nat, period: nat, x: nat)
    requires 0 < period && oldSize <= newSize
    ensures x in Offers(oldSize, newSize, bsize, period) <==> x % period == 0 && oldSize < x + bsize <= newSize
  {
    OffersCompose(oldSize, newSize, bsize, period);
    GridIsExact(oldSize, bsize, period, x);
    GridIsExact(newSize, bsize, period, x);
    hide *;
    InOneHalf(Grid(oldSize, bsize, period), Offers(oldSize, newSize, bsize, period), x);
  }

  lemma InOneHalf(a: seq<nat>, b: seq<nat>, x: nat)
    requires var c := a + b; forall i, j :: 0 <= i < j < |c| ==> c[i] < c[j]
    ensures x in b <==> x in a + b && x !in a
  {
    var c := a + b;
    forall i, j | 0 <= i < |a| && 0 <= j < |b|
      ensures a[i] != b[j]
    {
      assert c[i] == a[i] && c[|a| + j] == b[j];
    }
  }

  /** The concatenated offers of a run of calls, each from the size of the one before. */
  function RunOffers(sizes: seq<nat>, bsize: nat, period: nat): seq<nat>
    requires 0 < |sizes|
    decreases |sizes|
  {
    if |sizes| == 1 then Offers(0, sizes[0], bsize, period)
    else
      var last := |sizes| - 1;
      RunOffers(sizes[..last], bsize, period) + Offers(sizes[last - 1], sizes[last], bsize, period)
  }

  /** Whatever the intermediate sizes, a run offers exactly the grid of its last size. */
  lemma {:induction false} RunOffersGrid(sizes: seq<nat>, bsize: nat, period: nat)
    requires 0 < |sizes| && 0 < bsize && forall i, j :: 0 <= i < j < |sizes| ==> sizes[i] <= sizes[j]
    ensures RunOffers(sizes, bsize, period) == Grid(sizes[|sizes| - 1], bsize, period)
    decreases |sizes|
  {
    if |sizes| == 1 {
      NothingFits(bsize, period);
      OffersCompose(0, sizes[0], bsize, period);
    } else {
      var last := |sizes| - 1;
      RunOffersGrid(sizes[..last], bsize, period);
      OffersCompose(sizes[last - 1], sizes[last], bsize, period);
    }
  }

  lemma NothingFits(bsize: nat, period: nat)
    requires 0 < bsize
    ensures Grid(0, bsize, period) == []
  {
    if 0 < period {
      CountsWhatFits(0, bsize, period, 0);
    }
  }
}
