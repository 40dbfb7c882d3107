// lib/boyermoore.cc: the shift tables and the exact searches that use them.
module BoyerMoore {
  import opened Arithmetic
  import opened SearchSpec

  // ---- Matching from the end ----

  /** How many bytes before a[aEnd] and b[bEnd] agree, counting up from r and stopping at max. */
  function BackMatch(a: seq<Byte>, aEnd: nat, b: seq<Byte>, bEnd: nat, max: nat, r: nat): (len: nat)
    requires r <= max <= aEnd <= |a| && max <= bEnd <= |b|
    ensures r <= len <= max
    decreases max - r
  {
    if r < max && a[aEnd - 1 - r] == b[bEnd - 1 - r] then BackMatch(a, aEnd, b, bEnd, max, r + 1) else r
  }

  /** The bytes t + 1 before the two ends are equal. */
  predicate SameBefore(a: seq<Byte>, aEnd: nat, b: seq<Byte>, bEnd: nat, t: nat)
    requires t < aEnd <= |a| && t < bEnd <= |b|
  {
    a[aEnd - 1 - t] == b[bEnd - 1 - t]
  }

  /** Everything counted agrees, and counting stops only at max or at a difference. */
  lemma {:induction false} BackMatchCounts(a: seq<Byte>, aEnd: nat, b: seq<Byte>, bEnd: nat, max: nat, r: nat)
    requires r <= max <= aEnd <= |a| && max <= bEnd <= |b|
    ensures var len := BackMatch(a, aEnd, b, bEnd, max, r);
            && (forall t :: r <= t < len ==> SameBefore(a, aEnd, b, bEnd, t))
            && (len < max ==> !SameBefore(a, aEnd, b, bEnd, len))
    decreases max - r
  {
    if r < max && a[aEnd - 1 - r] == b[bEnd - 1 - r] {
      BackMatchCounts(a, aEnd, b, bEnd, max, r + 1);
    }
  }

  method BackwardsMatchLen(a: seq<Byte>, aEnd: nat, b: seq<Byte>, bEnd: nat, max: nat, min: nat) returns (len: nat)
    requires min <= max <= aEnd <= |a| && max <= bEnd <= |b|
    ensures len == BackMatch(a, aEnd, b, bEnd, max, min)
  {
    len := min;
    while len < max && a[aEnd - (len + 1)] == b[bEnd - (len + 1)]
      invariant min <= len <= max
      invariant BackMatch(a, aEnd, b, bEnd, max, min) == BackMatch(a, aEnd, b, bEnd, max, len)
    {
      len := len + 1;
    }
  }

  // ---- Table construction ----

  method InitOcc(occ: array<nat>, needle: seq<Byte>)
    requires occ.Length == 256
    modifies occ
    ensures OccTable(occ[..], needle)
  {
    for a := 0 to 256
      invariant forall c :: 0 <= c < a ==> occ[c] == |needle|
    {
      occ[a] := |needle|;
    }
    if |needle| <= 1 {
      return;
    }
    var last := |needle| - 1;
    for a := 0 to last
      invariant forall c: Byte :: 1 <= occ[c] <= |needle|
      invariant forall c: Byte :: occ[c] < |needle| ==> needle[last - occ[c]] == c && last - occ[c] < a
      invariant forall c: Byte, k :: 0 <= k < a && last - occ[c] < k ==> needle[k] != c
    {
      occ[needle[a]] := last - a;
    }
    forall c: Byte ensures IsOcc(needle, c, occ[..][c]) {
    }
  }

  /** needle[g..i] is a suffix of the needle. */
  ghost predicate SharesDownTo(needle: seq<Byte>, i: nat, g: nat) {
    g <= i <= |needle| && ShiftAgreesOver(needle, |needle| - i, |needle| - (i - g), |needle|)
  }

  /** len is the longest common suffix of needle[..i] and the whole needle. */
  ghost predicate IsCommonSuffix(needle: seq<Byte>, i: nat, len: nat) {
    && len <= i <= |needle|
    && SharesDownTo(needle, i, i - len)
    && (len < i ==> !ShiftAgrees(needle, |needle| - i, |needle| - 1 - len))
  }

  /** A shift after which everything that still overlaps agrees. */
  ghost predicate Border(needle: seq<Byte>, s: nat) {
    1 <= s && ShiftAgreesOver(needle, s, s, |needle|)
  }

  lemma CommonSuffixUnique(needle: seq<Byte>, i: nat, a: nat, b: nat)
    requires IsCommonSuffix(needle, i, a) && IsCommonSuffix(needle, i, b)
    ensures a == b
  {
  }

  /** The prefix needle[..i] is wholly a suffix exactly when |needle| - i is a border. */
  lemma FullCommonSuffixIsBorder(needle: seq<Byte>, i: nat, len: nat)
    requires i < |needle| && IsCommonSuffix(needle, i, len)
    ensures len == i <==> Border(needle, |needle| - i)
  {
  }

  /** Splits the good shifts of position j: borders past j, and prefixes whose common suffix ends at j. */
  lemma GoodShiftCases(needle: seq<Byte>, j: nat, s: nat, len: nat)
    requires j < |needle| && 1 <= s < |needle|
    requires IsCommonSuffix(needle, |needle| - s, len)
    ensures s <= j ==> (GoodShift(needle, j, s) <==> j == |needle| - 1 - len)
    ensures j < s ==> (GoodShift(needle, j, s) <==> Border(needle, s))
  {
    if s <= j && GoodShift(needle, j, s) {
      assert IsCommonSuffix(needle, |needle| - s, |needle| - 1 - j);
      CommonSuffixUnique(needle, |needle| - s, len, |needle| - 1 - j);
    }
    if j < s && Border(needle, s) {
      assert ShiftAgreesOver(needle, s, j + 1, |needle|);
    }
  }

  /** s is the least border larger than j. */
  ghost predicate IsLeastBorderPast(needle: seq<Byte>, j: nat, s: nat) {
    j < s && Border(needle, s) && forall t :: j < t < s ==> !Border(needle, t)
  }

  /** The window found by an earlier comparison: the bytes from g on repeat f later, to the needle's end. */
  ghost predicate Window(needle: seq<Byte>, f: nat, g: nat, i: nat) {
    1 <= f && g < i && i + f < |needle| && ShiftAgreesOver(needle, f, g + f, |needle|)
  }

  /** Inside the window, the common suffix of a prefix is that of the prefix f later,
      as far as the window reaches. */
  lemma CommonSuffixInWindow(needle: seq<Byte>, f: nat, g: nat, i: nat, len: nat)
    requires Window(needle, f, g, i) && IsCommonSuffix(needle, i + f, len)
    ensures len < i - g ==> IsCommonSuffix(needle, i, len)
    ensures i - g <= len ==> SharesDownTo(needle, i, g)
  {
    var n := |needle|;
    var far, near := n - i, n - (i + f);
    forall k | n - (i - g) <= k < n
      ensures ShiftAgrees(needle, far, k) == ShiftAgrees(needle, near, k)
    {
      assert ShiftAgrees(needle, f, k - near);
      assert k - near - f == k - far;
    }
  }

  /** Comparing backwards from g extends a common suffix that already reaches down to g. */
  lemma CommonSuffixExtended(needle: seq<Byte>, i: nat, g: nat, len: nat)
    requires i < |needle| && SharesDownTo(needle, i, g)
    requires len == BackMatch(needle, g, needle, |needle| - i + g, g, 0)
    ensures IsCommonSuffix(needle, i, i - (g - len))
  {
    var n, d := |needle|, |needle| - i;
    BackMatchCounts(needle, g, needle, d + g, g, 0);
    forall k | n - (i - (g - len)) <= k < n
      ensures ShiftAgrees(needle, d, k)
    {
      if k < n - (i - g) {
        assert SameBefore(needle, g, needle, d + g, g - 1 - (k - d));
      }
    }
  }

  /** A computed common suffix serves as the window for the shorter prefixes. */
  lemma CommonSuffixIsWindow(needle: seq<Byte>, i: nat, len: nat)
    requires 0 < i < |needle| && IsCommonSuffix(needle, i, len)
    ensures 1 < i && 1 < len ==> Window(needle, |needle| - i, i - len, i - 1)
  {
  }

  /** The search for borders so far: those up to done are in the table, none is left below limit. */
  ghost predicate BordersRecorded(skip: seq<nat>, needle: seq<Byte>, done: nat, limit: nat) {
    && |skip| == |needle| && done < limit
    && (forall p :: 0 <= p < done && p < |needle| ==> IsLeastBorderPast(needle, p, skip[p]))
    && (forall p :: done <= p < |needle| ==> skip[p] == |needle|)
    && (forall t :: done < t < limit ==> !Border(needle, t))
  }

  /** The table during the last loop: every entry is a good shift, and a smaller one is still to come. */
  ghost predicate SmallerShiftsPending(skip: seq<nat>, needle: seq<Byte>, limit: nat) {
    && |skip| == |needle|
    && forall p :: 0 <= p < |needle| ==>
         && GoodShift(needle, p, skip[p])
         && forall t :: 1 <= t < skip[p] && GoodShift(needle, p, t) ==> t <= p && t < limit
  }

  lemma BordersArePending(skip: seq<nat>, needle: seq<Byte>, done: nat)
    requires BordersRecorded(skip, needle, done, |needle|)
    ensures SmallerShiftsPending(skip, needle, |needle|)
  {
    forall p | 0 <= p < |needle|
      ensures IsLeastBorderPast(needle, p, skip[p])
    {
    }
    forall p, t | 0 <= p < |needle| && 1 <= t < skip[p] && GoodShift(needle, p, t)
      ensures t <= p && t < |needle|
    {
      assert p < t ==> Border(needle, t);
    }
  }

  /** Storing shift s at the position where its common suffix stops settles shift s for all positions. */
  lemma PendingStep(skip: seq<nat>, needle: seq<Byte>, s: nat, len: nat)
    requires 1 <= s < |needle| && SmallerShiftsPending(skip, needle, s + 1)
    requires IsCommonSuffix(needle, |needle| - s, len)
    ensures SmallerShiftsPending(skip[|needle| - 1 - len := s], needle, s)
  {
    var n := |needle|;
    FullCommonSuffixIsBorder(needle, n - s, len);
    forall p | 0 <= p < n {
      GoodShiftCases(needle, p, s, len);
    }
  }

  /** The border loop of the first phase: entries j..f still hold the default and get f. */
  method RecordBorder(skip: array<nat>, needle: seq<Byte>, j: nat, f: nat) returns (j': nat)
    requires BordersRecorded(skip[..], needle, j, f) && Border(needle, f) && f <= |needle|
    modifies skip
    ensures BordersRecorded(skip[..], needle, j', f + 1)
  {
    j' := j;
    while j' < f
      invariant j <= j' <= f
      invariant forall p :: 0 <= p < j' ==> IsLeastBorderPast(needle, p, skip[p])
      invariant forall p :: j' <= p < |needle| ==> skip[p] == |needle|
    {
      skip[j'] := f;
      j' := j' + 1;
    }
  }

  /** The common suffixes of all prefixes longer than i are known. */
  ghost predicate SuffixesKnown(suff: seq<nat>, needle: seq<Byte>, i: nat) {
    |suff| == |needle| + 1 && forall p :: i < p < |needle| ==> IsCommonSuffix(needle, p, suff[p])
  }

  method ExtendSuffix(needle: seq<Byte>, i: nat, g: nat) returns (g': nat)
    requires i < |needle| && SharesDownTo(needle, i, g)
    ensures g' <= i && IsCommonSuffix(needle, i, i - g')
  {
    var f := |needle| - i;
    var matchLen := BackwardsMatchLen(needle, g, needle, f + g, g, 0);
    CommonSuffixExtended(needle, i, g, matchLen);
    g' := g - matchLen;
  }

  /** One step of the first phase: the common suffix of needle[..i], read off the window when it ends
      inside it, and found by comparing otherwise. */
  method SuffixStep(needle: seq<Byte>, suff: array<nat>, i: nat, f: nat, g: nat)
    returns (len: nat, f': nat, g': nat, copied: bool)
    requires 0 < i < |needle| && SuffixesKnown(suff[..], needle, i)
    requires g < i ==> Window(needle, f, g, i)
    ensures IsCommonSuffix(needle, i, len)
    ensures 0 < i - 1 && g' < i - 1 ==> Window(needle, f', g', i - 1)
    ensures if copied then len < i else f' == |needle| - i && g' == i - len
  {
    f', g' := f, g;
    if g < i {
      var tmp := suff[i + f];
      assert IsCommonSuffix(needle, i + f, suff[..][i + f]);
      CommonSuffixInWindow(needle, f, g, i, tmp);
      if i - g > tmp {
        if tmp == i {
          assert false;  // the branch the source asks about: tmp < i - g <= i
        }
        return tmp, f, g, true;
      }
    } else {
      g' := i;
    }
    f' := |needle| - i;
    g' := ExtendSuffix(needle, i, g');
    len := i - g';
    copied := false;
    CommonSuffixIsWindow(needle, i, len);
  }

  /** First phase: the common suffix of every proper prefix, recording borders on the way. */
  method InitSuff(skip: array<nat>, needle: seq<Byte>) returns (suff: array<nat>, ghost done: nat)
    requires 1 < |needle| == skip.Length
    requires forall k :: 0 <= k < skip.Length ==> skip[k] == |needle|
    modifies skip
    ensures fresh(suff) && SuffixesKnown(suff[..], needle, 0)
    ensures BordersRecorded(skip[..], needle, done, |needle|)
  {
    var n := |needle|;
    suff := new nat[n + 1];
    suff[n] := n;
    var j: nat := 0;
    var f: nat, g: nat, i: nat := n - 1, n, n - 1;
    while i > 0
      invariant 0 <= i < n
      invariant SuffixesKnown(suff[..], needle, i)
      invariant 0 < i && g < i ==> Window(needle, f, g, i)
      invariant BordersRecorded(skip[..], needle, j, n - i)
    {
      var len, copied;
      len, f, g, copied := SuffixStep(needle, suff, i, f, g);
      FullCommonSuffixIsBorder(needle, i, len);
      ghost var known := suff[..];
      suff[i] := len;
      assert suff[..] == known[i := len];
      if !copied && g == 0 {
        j := RecordBorder(skip, needle, j, f);
      }
      i := i - 1;
    }
    done := j;
  }

  /** Expects skip to be sized to the needle and filled with its length, as the source does. */
  method InitSkip(skip: array<nat>, needle: seq<Byte>)
    requires skip.Length == |needle|
    requires forall k :: 0 <= k < skip.Length ==> skip[k] == |needle|
    modifies skip
    ensures SkipTable(skip[..], needle) && ShiftsInRange(skip[..], needle)
  {
    var n := |needle|;
    if n <= 1 {
      forall k | 0 <= k < n ensures IsLeastGoodShift(needle, k, skip[..][k]) {
      }
      LeastShiftsInRange(skip[..], needle);
      return;
    }
    var suff, done := InitSuff(skip, needle);
    BordersArePending(skip[..], needle, done);
    for i := 0 to n - 1
      modifies skip
      invariant SmallerShiftsPending(skip[..], needle, n - i)
    {
      PendingStep(skip[..], needle, n - 1 - i, suff[i + 1]);
      ghost var next := skip[..][n - 1 - suff[i + 1] := n - 1 - i];
      skip[n - 1 - suff[i + 1]] := n - 1 - i;
      assert skip[..] == next;
    }
    LeastShiftsInRange(skip[..], needle);
  }

  // ---- Searching ----

  /** A backward count over the window at hpos that stopped short found a mismatch;
      one that did not found an occurrence. */
  lemma BackMatchAtWindow(haystack: seq<Byte>, needle: seq<Byte>, hpos: nat, r: nat, max: nat)
    requires hpos + |needle| <= |haystack| && r <= max <= |needle|
    requires forall k :: |needle| - r <= k < |needle| ==> needle[k] == haystack[hpos + k]
    ensures var len := BackMatch(needle, |needle|, haystack, hpos + |needle|, max, r);
            && (forall k :: |needle| - len <= k < |needle| ==> needle[k] == haystack[hpos + k])
            && (len == |needle| ==> OccursAt(haystack, needle, hpos))
            && (len < max ==> Mismatch(haystack, needle, hpos, len))
  {
    var m := |needle|;
    BackMatchCounts(needle, m, haystack, hpos + m, max, r);
    forall k | m - BackMatch(needle, m, haystack, hpos + m, max, r) <= k < m
      ensures needle[k] == haystack[hpos + k]
    {
      if k < m - r {
        assert SameBefore(needle, m, haystack, hpos + m, m - 1 - k);
      }
    }
  }

  /** The first position of c, or the length: for a one-byte needle this is the whole search. */
  method MemChr(haystack: seq<Byte>, c: Byte) returns (r: nat)
    ensures r <= |haystack| && (r < |haystack| ==> haystack[r] == c) && c !in haystack[..r]
    ensures IsLeast(haystack, [c], r)
  {
    r := 0;
    while r < |haystack| && haystack[r] != c
      invariant r <= |haystack| && c !in haystack[..r]
    {
      r := r + 1;
    }
    forall p: nat | p < r
      ensures !OccursAt(haystack, [c], p)
    {
      assert haystack[..r][p] != c;
      assert [c][0] == c;
    }
  }

  /** Past the last alignment that fits there is no occurrence. */
  lemma NoRoomLeft(haystack: seq<Byte>, needle: seq<Byte>, hpos: nat)
    requires NoneBefore(haystack, needle, hpos) && |haystack| < hpos + |needle|
    ensures IsLeast(haystack, needle, |haystack|)
  {
  }

  /** Comparing the last byte and then the rest decides an occurrence. */
  lemma PrefixComparison(haystack: seq<Byte>, needle: seq<Byte>, p: nat)
    requires 0 < |needle| && p + |needle| <= |haystack|
    ensures var last := |needle| - 1;
            OccursAt(haystack, needle, p) <==>
            needle[last] == haystack[p + last] && needle[..last] == haystack[p..p + last]
  {
    var last := |needle| - 1;
    if needle[..last] == haystack[p..p + last] {
      assert forall k :: 0 <= k < last ==>
               needle[k] == needle[..last][k] == haystack[p..p + last][k] == haystack[p + k];
    }
  }

  method SearchInHorspool(haystack: seq<Byte>, occ: seq<nat>, needle: seq<Byte>) returns (r: nat)
    requires 0 < |needle| && OccTable(occ, needle)
    ensures IsLeast(haystack, needle, r)
  {
    if |needle| > |haystack| {
      return |haystack|;
    }
    if |needle| == 1 {
      r := MemChr(haystack, needle[0]);
      assert needle == [needle[0]];
      return;
    }
    var last := |needle| - 1;
    var hpos: nat := 0;
    while hpos <= |haystack| - |needle|
      invariant NoneBefore(haystack, needle, hpos)
      decreases |haystack| - hpos
    {
      var c := haystack[hpos + last];
      if needle[last] == c && needle[..last] == haystack[hpos..hpos + last] {
        PrefixComparison(haystack, needle, hpos);
        return hpos;
      }
      assert IsOcc(needle, c, occ[c]);
      forall p: nat | hpos <= p < hpos + occ[c]
        ensures !OccursAt(haystack, needle, p)
      {
        if p == hpos {
          PrefixComparison(haystack, needle, hpos);
        } else if OccursAt(haystack, needle, p) {
          BadCharacterSafe(haystack, needle, occ, hpos, 0, p - hpos);
        }
      }
      hpos := hpos + occ[c];
    }
    NoRoomLeft(haystack, needle, hpos);
    return |haystack|;
  }

  /** Both classical shifts are safe, so the larger one is. */
  lemma LargerShiftSafe(haystack: seq<Byte>, needle: seq<Byte>, occ: seq<nat>, skip: seq<nat>,
                        hpos: nat, matched: nat, p: nat)
    requires Tables(occ, skip, needle) && Mismatch(haystack, needle, hpos, matched)
    requires hpos <= p && OccursAt(haystack, needle, p)
    ensures hpos + Max(skip[|needle| - 1 - matched],
                       occ[haystack[hpos + |needle| - 1 - matched]] - matched) <= p
  {
    assert needle[|needle| - 1 - matched] != haystack[hpos + |needle| - 1 - matched];
    if hpos < p {
      GoodSuffixSafe(haystack, needle, skip, hpos, matched, p - hpos);
      BadCharacterSafe(haystack, needle, occ, hpos, matched, p - hpos);
    }
  }

  method SearchIn(haystack: seq<Byte>, occ: seq<nat>, skip: seq<nat>, needle: seq<Byte>) returns (r: nat)
    requires Tables(occ, skip, needle)
    ensures IsLeast(haystack, needle, r)
  {
    if |needle| > |haystack| {
      return |haystack|;
    }
    if |needle| == 1 {
      r := MemChr(haystack, needle[0]);
      assert needle == [needle[0]];
      return;
    }
    var last := |needle| - 1;
    var hpos: nat := 0;
    while hpos <= |haystack| - |needle|
      invariant NoneBefore(haystack, needle, hpos)
      decreases |haystack| - hpos
    {
      var matched: nat := 0;
      if needle[last] == haystack[hpos + last] {
        matched := BackwardsMatchLen(needle, |needle|, haystack, hpos + |needle|, |needle|, 0);
        BackMatchAtWindow(haystack, needle, hpos, 0, |needle|);
        if matched == |needle| {
          return hpos;
        }
      }
      var mpos := last - matched;
      var bcShift := occ[haystack[hpos + mpos]] - matched;
      var shift := Max(skip[mpos], bcShift);
      forall p: nat | hpos <= p < hpos + shift
        ensures !OccursAt(haystack, needle, p)
      {
        if OccursAt(haystack, needle, p) {
          LargerShiftSafe(haystack, needle, occ, skip, hpos, matched, p);
        }
      }
      hpos := hpos + shift;
    }
    NoRoomLeft(haystack, needle, hpos);
    return |haystack|;
  }
}
