// What it means to find a needle in a haystack.
module SearchSpec {
  // With the two shift tables the Boyer-Moore family relies on, stated without reference to how they are
  // built.


  type Byte = b: int | 0 <= b < 256

  /** The needle occurs in the haystack at position p. */
  ghost predicate OccursAt(haystack: seq<Byte>, needle: seq<Byte>, p: nat) {
    && p + |needle| <= |haystack|
    && forall k :: 0 <= k < |needle| ==> needle[k] == haystack[p + k]
  }

  /** r is the least position of an occurrence, or the haystack length when there is none. */
  ghost predicate IsLeast(haystack: seq<Byte>, needle: seq<Byte>, r: nat) {
    && (r == |haystack| || OccursAt(haystack, needle, r))
    && NoneBefore(haystack, needle, r)
  }

  ghost predicate NoneBefore(haystack: seq<Byte>, needle: seq<Byte>, bound: nat) {
    forall p: nat :: p < bound ==> !OccursAt(haystack, needle, p)
  }

  lemma LeastUnique(haystack: seq<Byte>, needle: seq<Byte>, a: nat, b: nat)
    requires 0 < |needle| && IsLeast(haystack, needle, a) && IsLeast(haystack, needle, b)
    ensures a == b
  {
    assert a < b ==> !OccursAt(haystack, needle, a);
    assert b < a ==> !OccursAt(haystack, needle, b);
  }

  // ---- Bad-character table ----

  /** d is the distance from the last needle byte back to the nearest earlier occurrence of c,
      or the needle length when c does not occur before the last byte. */
  ghost predicate IsOcc(needle: seq<Byte>, c: Byte, d: nat) {
    && (0 < |needle| ==> 1 <= d)
    && d <= |needle|
    && (d < |needle| ==> needle[|needle| - 1 - d] == c)
    && forall a :: |needle| - 1 - d < a < |needle| - 1 && 0 <= a ==> needle[a] != c
  }

  ghost predicate OccTable(occ: seq<nat>, needle: seq<Byte>) {
    |occ| == 256 && forall c: Byte :: IsOcc(needle, c, occ[c])
  }

  // ---- Good-suffix table ----

  /** Shifting the needle by s puts an equal byte, or none, under position k. */
  predicate ShiftAgrees(needle: seq<Byte>, s: nat, k: int) {
    s <= k < |needle| ==> needle[k - s] == needle[k]
  }

  /** Shifting the needle by s agrees over positions lo..hi, as far as it still covers them. */
  ghost predicate ShiftAgreesOver(needle: seq<Byte>, s: nat, lo: int, hi: int) {
    forall k :: lo <= k < hi ==> ShiftAgrees(needle, s, k)
  }

  /** Shifting by s agrees with the needle's own suffix after position j, and puts at
      position j either nothing or a byte other than needle[j] (the strong rule). */
  ghost predicate GoodShift(needle: seq<Byte>, j: nat, s: nat) {
    && 1 <= s
    && ShiftAgreesOver(needle, s, j + 1, |needle|)
    && (s <= j ==> !ShiftAgrees(needle, s, j))
  }

  ghost predicate IsLeastGoodShift(needle: seq<Byte>, j: nat, s: nat) {
    GoodShift(needle, j, s) && forall t :: 1 <= t < s ==> !GoodShift(needle, j, t)
  }

  ghost predicate SkipTable(skip: seq<nat>, needle: seq<Byte>) {
    && |skip| == |needle|
    && forall j :: 0 <= j < |needle| ==> IsLeastGoodShift(needle, j, skip[j])
  }

  predicate ShiftsInRange(skip: seq<nat>, needle: seq<Byte>) {
    |skip| == |needle| && forall j :: 0 <= j < |skip| ==> 1 <= skip[j] <= |needle|
  }

  lemma LeastShiftsInRange(skip: seq<nat>, needle: seq<Byte>)
    requires SkipTable(skip, needle)
    ensures ShiftsInRange(skip, needle)
  {
    forall j | 0 <= j < |skip|
      ensures 1 <= skip[j] <= |needle|
    {
      assert IsLeastGoodShift(needle, j, skip[j]);
      assert GoodShift(needle, j, |needle|);
    }
  }

  /** Both tables of one needle. */
  ghost predicate Tables(occ: seq<nat>, skip: seq<nat>, needle: seq<Byte>) {
    0 < |needle| && OccTable(occ, needle) && SkipTable(skip, needle) && ShiftsInRange(skip, needle)
  }

  // ---- Why the shifts are safe ----

  /** The alignment at hpos matches the last `matched` needle bytes and fails just before them. */
  ghost predicate Mismatch(haystack: seq<Byte>, needle: seq<Byte>, hpos: nat, matched: nat) {
    && matched < |needle|
    && hpos + |needle| <= |haystack|
    && (forall k :: |needle| - matched <= k < |needle| ==> needle[k] == haystack[hpos + k])
    && needle[|needle| - 1 - matched] != haystack[hpos + |needle| - 1 - matched]
  }

  /** Any later occurrence that overlaps a mismatching alignment is a good shift of it. */
  lemma OccurrenceIsGoodShift(haystack: seq<Byte>, needle: seq<Byte>, hpos: nat, matched: nat, s: nat)
    requires Mismatch(haystack, needle, hpos, matched)
    requires 1 <= s && OccursAt(haystack, needle, hpos + s)
    ensures GoodShift(needle, |needle| - 1 - matched, s)
  {
    var j := |needle| - 1 - matched;
    forall k | j < k < |needle|
      ensures ShiftAgrees(needle, s, k)
    {
      if s <= k {
        assert needle[k - s] == haystack[hpos + s + (k - s)];
      }
    }
    if s <= j {
      assert needle[j - s] == haystack[hpos + s + (j - s)];
    }
  }

  /** No occurrence lies closer than the good-suffix shift. */
  lemma GoodSuffixSafe(haystack: seq<Byte>, needle: seq<Byte>, skip: seq<nat>, hpos: nat, matched: nat, s: nat)
    requires SkipTable(skip, needle)
    requires Mismatch(haystack, needle, hpos, matched)
    requires 1 <= s && OccursAt(haystack, needle, hpos + s)
    ensures skip[|needle| - 1 - matched] <= s
  {
    OccurrenceIsGoodShift(haystack, needle, hpos, matched, s);
    assert IsLeastGoodShift(needle, |needle| - 1 - matched, skip[|needle| - 1 - matched]);
  }

  /** No occurrence lies closer than the bad-character shift. */
  lemma BadCharacterSafe(haystack: seq<Byte>, needle: seq<Byte>, occ: seq<nat>, hpos: nat, matched: nat, s: nat)
    requires OccTable(occ, needle)
    requires matched < |needle| && hpos + |needle| <= |haystack|
    requires 1 <= s && OccursAt(haystack, needle, hpos + s)
    ensures occ[haystack[hpos + |needle| - 1 - matched]] as int - matched <= s
  {
    var j := |needle| - 1 - matched;
    var c := haystack[hpos + j];
    assert IsOcc(needle, c, occ[c]);
    if s <= j {
      assert needle[j - s] == haystack[hpos + s + (j - s)] == c;
    }
  }

  /** Two shifts t < s that agree on the bytes after i, with s no longer than that stretch, agree at i. */
  lemma TwoPeriods(needle: seq<Byte>, i: nat, t: nat, s: nat)
    requires 1 <= t < s && t <= i && i + s < |needle|
    requires ShiftAgreesOver(needle, t, i + 1, |needle|) && ShiftAgreesOver(needle, s, i + 1, |needle|)
    ensures ShiftAgrees(needle, t, i)
  {
    assert ShiftAgrees(needle, s, i + s) && ShiftAgrees(needle, t, i + s) && ShiftAgrees(needle, s, i + s - t);
    assert i + s - t - s == i - t;
  }

  /** When the good-suffix shift still covers the mismatching position, an occurrence within
      the matched length can only be that shift. */
  lemma NearOccurrenceIsGoodSuffix(haystack: seq<Byte>, needle: seq<Byte>, skip: seq<nat>,
                                   hpos: nat, matched: nat, s: nat)
    requires SkipTable(skip, needle)
    requires Mismatch(haystack, needle, hpos, matched)
    requires 1 <= s <= matched && OccursAt(haystack, needle, hpos + s)
    requires skip[|needle| - 1 - matched] <= |needle| - 1 - matched
    ensures s == skip[|needle| - 1 - matched]
  {
    var i := |needle| - 1 - matched;
    GoodSuffixSafe(haystack, needle, skip, hpos, matched, s);
    OccurrenceIsGoodShift(haystack, needle, hpos, matched, s);
    assert GoodShift(needle, i, skip[i]) by {
      assert IsLeastGoodShift(needle, i, skip[i]);
    }
    if skip[i] < s {
      TwoPeriods(needle, i, skip[i], s);
    }
  }
}
