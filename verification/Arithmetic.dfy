// Small functions shared by the modules, and the facts about products and quotients that block counts, offsets and
// unit sizes need. Each fact is a lemma of its own, so that no proof about data has a product of variables in its
// context: elsewhere only literals are multiplied, or a lemma from here is called.
module Arithmetic {
  function Min(a: int, b: int): int {
    if a < b then a else b
  }

  function Max(a: int, b: int): int {
    if a < b then b else a
  }

  ghost predicate NoRepeats(s: seq<nat>) {
    forall i, j :: 0 <= i < j < |s| ==> s[i] != s[j]
  }

  lemma {:induction false} MulNonNegative(d: nat, p: nat)
    ensures 0 <= d * p
  {
    if d > 0 {
      MulNonNegative(d - 1, p);
      assert d * p == (d - 1) * p + p;
    }
  }

  lemma MulLess(a: int, b: int, p: nat)
    requires 0 < p && a < b
    ensures a * p + p <= b * p
  {
    var d: nat := b - a - 1;
    MulNonNegative(d, p);
    assert b * p == (a + 1 + d) * p == a * p + p + d * p;
  }

  lemma MulOrder(a: int, b: int, p: nat)
    requires 0 < p
    ensures a <= b <==> a * p <= b * p
    ensures a < b <==> a * p < b * p
  {
    if a < b {
      MulLess(a, b, p);
    } else if b < a {
      MulLess(b, a, p);
    }
  }

  lemma OneMoreMultiple(k: nat, p: nat)
    ensures (k + 1) * p == k * p + p && 0 <= k * p
  {
    MulNonNegative(k, p);
  }

  lemma QuotientCounts(a: nat, p: nat, k: nat)
    requires 0 < p
    ensures k <= a / p <==> k * p <= a
  {
    var q := a / p;
    assert a == q * p + a % p;
    MulOrder(k, q, p);
    if q < k {
      MulLess(q, k, p);
    }
  }

  lemma MultipleHasNoRest(i: nat, p: nat)
    requires 0 < p
    ensures i * p % p == 0
  {
    var q, r := i * p / p, i * p % p;
    assert (i - q) * p == r;
    MulOrder(i - q, 1, p);
    MulOrder(-1, i - q, p);
  }

  lemma DivUnique(p: nat, b: nat, q: nat, r: nat)
    requires 0 < b && p == b * q + r && r < b
    ensures p / b == q && p % b == r
  {
    Multiples(b, p / b - q);
    assert b * (p / b - q) == r - p % b;
  }

  lemma Multiples(b: nat, d: int)
    requires 0 < b
    ensures d >= 1 ==> b * d >= b
    ensures d <= -1 ==> b * d <= 0 - b
  {
  }

  /** CalcSizeInBlocks of lib/cromfs-inodefun.cc. */
  function CalcSizeInBlocks(filesize: nat, bsize: nat): nat
    requires 0 < bsize
  {
    (filesize + bsize - 1) / bsize
  }

  /** Block i of a file exists exactly when its first byte does. */
  lemma BlockExists(filesize: nat, bsize: nat, i: nat)
    requires 0 < bsize
    ensures i < CalcSizeInBlocks(filesize, bsize) <==> i * bsize < filesize
  {
    QuotientCounts(filesize + bsize - 1, bsize, i + 1);
    OneMoreMultiple(i, bsize);
  }
}
