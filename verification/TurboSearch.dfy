// lib/boyermoore.cc, SearchInTurbo.
module TurboSearch {
  // The search remembers what the last alignment matched. The remembered bytes and the turbo shift are
  // sound. The final `ignore_num + 1` adjustment is not: some needles make it step over an occurrence.
  // TurboTrap is the exact condition on the needle.

  import opened Arithmetic
  import opened SearchSpec
  import opened BoyerMoore

  /** Loop state: the alignment, how many bytes may be skipped over, and the shift that led here. */
  datatype TurboState = TurboState(hpos: nat, ignored: nat, shift: nat)

  predicate WellSized(needle: seq<Byte>, st: TurboState) {
    0 < st.ignored ==> st.shift + st.ignored <= |needle|
  }

  function TurboMatched(haystack: seq<Byte>, needle: seq<Byte>, st: TurboState): (matched: nat)
    requires 0 < |needle| && st.hpos + |needle| <= |haystack| && WellSized(needle, st)
    ensures matched <= |needle|
  {
    var m, end := |needle|, st.hpos + |needle|;
    if needle[m - 1] != haystack[end - 1] then 0
    else if st.ignored == 0 then BackMatch(needle, m, haystack, end, m, 0)
    else
      var newBytes := BackMatch(needle, m, haystack, end, st.shift, 0);
      if newBytes == st.shift then BackMatch(needle, m, haystack, end, m, st.shift + st.ignored) else newBytes
  }

  function TurboNext(haystack: seq<Byte>, occ: seq<nat>, skip: seq<nat>, needle: seq<Byte>,
                     st: TurboState, matched: nat): (next: TurboState)
    requires |occ| == 256 && |skip| == |needle| && matched < |needle|
    requires st.hpos + |needle| <= |haystack|
    requires 1 <= skip[|needle| - 1 - matched] <= |needle|
    ensures st.hpos < next.hpos && WellSized(needle, next)
  {
    var mpos := |needle| - 1 - matched;
    var bcShift := occ[haystack[st.hpos + mpos]] - matched;
    var gcShift := skip[mpos];
    var turboShift := st.ignored - matched;
    var shift := Max(Max(gcShift, bcShift), turboShift);
    if shift == gcShift then
      TurboState(st.hpos + shift, Min(|needle| - shift, matched), shift)
    else if turboShift < bcShift && st.ignored >= shift then
      TurboState(st.hpos + st.ignored + 1, 0, st.ignored + 1)
    else
      TurboState(st.hpos + shift, 0, shift)
  }

  function TurboRun(haystack: seq<Byte>, occ: seq<nat>, skip: seq<nat>, needle: seq<Byte>, st: TurboState): (r: nat)
    requires 0 < |needle| && |occ| == 256 && WellSized(needle, st)
    requires ShiftsInRange(skip, needle)
    ensures r == |haystack| || st.hpos <= r < |haystack|
    decreases |haystack| + 1 - st.hpos
  {
    if st.hpos + |needle| > |haystack| then |haystack|
    else
      var matched := TurboMatched(haystack, needle, st);
      if matched == |needle| then st.hpos
      else TurboRun(haystack, occ, skip, needle, TurboNext(haystack, occ, skip, needle, st, matched))
  }

  function TurboResult(haystack: seq<Byte>, occ: seq<nat>, skip: seq<nat>, needle: seq<Byte>): (r: nat)
    requires 0 < |needle| && |occ| == 256
    requires ShiftsInRange(skip, needle)
  {
    TurboRun(haystack, occ, skip, needle, TurboState(0, 0, |needle|))
  }

  // ---- What is remembered ----

  /** The state came from an alignment that matched `before` bytes and shifted by the good suffix. */
  ghost predicate Remembers(haystack: seq<Byte>, occ: seq<nat>, skip: seq<nat>, needle: seq<Byte>,
                            st: TurboState, before: nat)
    requires Tables(occ, skip, needle)
  {
    && before < |needle| && st.shift <= st.hpos
    && Mismatch(haystack, needle, st.hpos - st.shift, before)
    && st.shift == skip[|needle| - 1 - before]
    && st.ignored == Min(|needle| - st.shift, before)
    && occ[haystack[st.hpos - st.shift + |needle| - 1 - before]] <= st.shift + before
  }

  ghost predicate Memory(haystack: seq<Byte>, occ: seq<nat>, skip: seq<nat>, needle: seq<Byte>, st: TurboState)
    requires Tables(occ, skip, needle)
  {
    && WellSized(needle, st)
    && (0 < st.ignored ==> exists before :: Remembers(haystack, occ, skip, needle, st, before))
  }

  /** The good-suffix shift makes the remembered suffix repeat `shift` bytes earlier. */
  lemma SuffixRepeats(haystack: seq<Byte>, occ: seq<nat>, skip: seq<nat>, needle: seq<Byte>,
                      st: TurboState, before: nat, k: nat)
    requires Tables(occ, skip, needle) && WellSized(needle, st) && 0 < st.ignored
    requires Remembers(haystack, occ, skip, needle, st, before)
    requires |needle| - st.ignored <= k < |needle|
    ensures needle[k - st.shift] == needle[k]
  {
    assert IsLeastGoodShift(needle, |needle| - 1 - before, st.shift);
    assert ShiftAgrees(needle, st.shift, k);
  }

  /** The skipped bytes do match at the new alignment. */
  lemma RememberedBytesMatch(haystack: seq<Byte>, occ: seq<nat>, skip: seq<nat>, needle: seq<Byte>,
                             st: TurboState, before: nat)
    requires Tables(occ, skip, needle) && WellSized(needle, st) && 0 < st.ignored
    requires Remembers(haystack, occ, skip, needle, st, before)
    requires st.hpos + |needle| <= |haystack|
    ensures forall j :: |needle| - st.shift - st.ignored <= j < |needle| - st.shift
              ==> needle[j] == haystack[st.hpos + j]
  {
    var m, sh := |needle|, st.shift;
    forall j | m - sh - st.ignored <= j < m - sh
      ensures needle[j] == haystack[st.hpos + j]
    {
      SuffixRepeats(haystack, occ, skip, needle, st, before, j + sh);
      assert needle[j + sh] == haystack[st.hpos - sh + (j + sh)];
    }
  }

  /** The count at an alignment with memory: below `shift`, or resumed past the remembered bytes. */
  lemma CountAcrossMemory(haystack: seq<Byte>, needle: seq<Byte>, hpos: nat, shift: nat, ignored: nat)
    requires 0 < |needle| && hpos + |needle| <= |haystack| && 0 < ignored && shift + ignored <= |needle|
    requires forall j :: |needle| - shift - ignored <= j < |needle| - shift ==> needle[j] == haystack[hpos + j]
    ensures var m, end := |needle|, hpos + |needle|;
            var newBytes := BackMatch(needle, m, haystack, end, shift, 0);
            if newBytes < shift then Mismatch(haystack, needle, hpos, newBytes)
            else
              var all := BackMatch(needle, m, haystack, end, m, shift + ignored);
              if all == m then OccursAt(haystack, needle, hpos) else Mismatch(haystack, needle, hpos, all)
  {
    BackMatchAtWindow(haystack, needle, hpos, 0, shift);
    if BackMatch(needle, |needle|, haystack, hpos + |needle|, shift, 0) == shift {
      BackMatchAtWindow(haystack, needle, hpos, shift + ignored, |needle|);
    }
  }

  /** Not comparing bytes that are known to match loses nothing. */
  lemma MatchedDespiteSkipping(haystack: seq<Byte>, needle: seq<Byte>, st: TurboState)
    requires 0 < |needle| && st.hpos + |needle| <= |haystack| && WellSized(needle, st)
    requires 0 < st.ignored ==>
               forall j :: |needle| - st.shift - st.ignored <= j < |needle| - st.shift
                 ==> needle[j] == haystack[st.hpos + j]
    ensures var matched := TurboMatched(haystack, needle, st);
            if matched == |needle| then OccursAt(haystack, needle, st.hpos)
            else Mismatch(haystack, needle, st.hpos, matched)
    ensures var matched := TurboMatched(haystack, needle, st);
            0 < st.ignored ==> matched < st.shift || st.shift + st.ignored <= matched
  {
    if st.ignored == 0 {
      BackMatchAtWindow(haystack, needle, st.hpos, 0, |needle|);
    } else {
      CountAcrossMemory(haystack, needle, st.hpos, st.shift, st.ignored);
    }
  }

  lemma TurboMatchedCorrect(haystack: seq<Byte>, occ: seq<nat>, skip: seq<nat>, needle: seq<Byte>, st: TurboState)
    requires Tables(occ, skip, needle) && Memory(haystack, occ, skip, needle, st)
    requires st.hpos + |needle| <= |haystack|
    ensures var matched := TurboMatched(haystack, needle, st);
            if matched == |needle| then OccursAt(haystack, needle, st.hpos)
            else Mismatch(haystack, needle, st.hpos, matched)
    ensures var matched := TurboMatched(haystack, needle, st);
            0 < st.ignored ==> matched < st.shift || st.shift + st.ignored <= matched
  {
    if 0 < st.ignored {
      var before :| Remembers(haystack, occ, skip, needle, st, before);
      RememberedBytesMatch(haystack, occ, skip, needle, st, before);
    }
    MatchedDespiteSkipping(haystack, needle, st);
  }

  /** Under an occurrence closer than the turbo shift, two haystack bytes `shift` apart would lie in
      the repeating suffix, so the byte at the mismatching position would match after all. */
  lemma TurboOverlap(haystack: seq<Byte>, occ: seq<nat>, skip: seq<nat>, needle: seq<Byte>,
                     st: TurboState, before: nat, matched: nat, s: nat)
    requires Tables(occ, skip, needle) && WellSized(needle, st) && 0 < st.ignored
    requires Remembers(haystack, occ, skip, needle, st, before)
    requires matched < st.shift && matched + s < st.ignored && st.hpos + |needle| <= |haystack|
    requires 1 <= s && OccursAt(haystack, needle, st.hpos + s)
    ensures haystack[st.hpos + |needle| - 1 - matched] == needle[|needle| - 1 - matched]
  {
    var i := |needle| - 1 - matched;
    RememberedBytesMatch(haystack, occ, skip, needle, st, before);
    SuffixRepeats(haystack, occ, skip, needle, st, before, i);
    SuffixRepeats(haystack, occ, skip, needle, st, before, i - s);
    assert needle[i - st.shift] == haystack[st.hpos + (i - st.shift)];
    assert needle[i - s - st.shift] == haystack[st.hpos + s + (i - s - st.shift)];
    assert needle[i - s] == haystack[st.hpos + s + (i - s)];
  }

  /** The turbo shift never steps over an occurrence. */
  lemma TurboShiftSafe(haystack: seq<Byte>, occ: seq<nat>, skip: seq<nat>, needle: seq<Byte>,
                       st: TurboState, matched: nat, s: nat)
    requires Tables(occ, skip, needle) && Memory(haystack, occ, skip, needle, st)
    requires Mismatch(haystack, needle, st.hpos, matched)
    requires 0 < st.ignored ==> matched < st.shift || st.shift + st.ignored <= matched
    requires 1 <= s && OccursAt(haystack, needle, st.hpos + s)
    ensures st.ignored - matched <= s
  {
    if s < st.ignored - matched {
      var before :| Remembers(haystack, occ, skip, needle, st, before);
      TurboOverlap(haystack, occ, skip, needle, st, before, matched, s);
    }
  }

  // ---- Steps over the haystack ----

  /** The branch of the source that raises the shift to ignored + 1. */
  predicate Adjusts(haystack: seq<Byte>, occ: seq<nat>, skip: seq<nat>, needle: seq<Byte>, st: TurboState, matched: nat)
    requires |occ| == 256 && |skip| == |needle| && matched < |needle|
    requires st.hpos + |needle| <= |haystack|
  {
    var bcShift := occ[haystack[st.hpos + |needle| - 1 - matched]] - matched;
    && skip[|needle| - 1 - matched] < bcShift
    && st.ignored - matched < bcShift <= st.ignored
  }

  /** An occurrence that a step passes lies within the ignored length, and the step adjusted. */
  lemma PassedWithinIgnored(haystack: seq<Byte>, occ: seq<nat>, skip: seq<nat>, needle: seq<Byte>, st: TurboState,
                            matched: nat, p: nat)
    requires Tables(occ, skip, needle) && Memory(haystack, occ, skip, needle, st)
    requires Mismatch(haystack, needle, st.hpos, matched) && 1 <= skip[|needle| - 1 - matched] <= |needle|
    requires 0 < st.ignored ==> matched < st.shift || st.shift + st.ignored <= matched
    requires st.hpos <= p < TurboNext(haystack, occ, skip, needle, st, matched).hpos && OccursAt(haystack, needle, p)
    ensures Adjusts(haystack, occ, skip, needle, st, matched) && st.hpos < p <= st.hpos + st.ignored
  {
    LargerShiftSafe(haystack, needle, occ, skip, st.hpos, matched, p);
    TurboShiftSafe(haystack, occ, skip, needle, st, matched, p - st.hpos);
    hide OccursAt, Mismatch, Memory, OccTable, SkipTable;
  }

  /** After a step whose alignment failed the state remembers that alignment, if anything. */
  lemma StepRemembers(haystack: seq<Byte>, occ: seq<nat>, skip: seq<nat>, needle: seq<Byte>, st: TurboState,
                      matched: nat)
    requires Tables(occ, skip, needle) && Mismatch(haystack, needle, st.hpos, matched)
    requires 1 <= skip[|needle| - 1 - matched] <= |needle|
    ensures Memory(haystack, occ, skip, needle, TurboNext(haystack, occ, skip, needle, st, matched))
  {
    hide SkipTable;
    var next := TurboNext(haystack, occ, skip, needle, st, matched);
    if 0 < next.ignored {
      assert Remembers(haystack, occ, skip, needle, next, matched);
    }
  }

  /** Without the adjustment a step keeps the memory and passes no occurrence; with it, every
      occurrence passed lies within the ignored length. */
  lemma TurboStep(haystack: seq<Byte>, occ: seq<nat>, skip: seq<nat>, needle: seq<Byte>, st: TurboState, matched: nat)
    requires Tables(occ, skip, needle) && Memory(haystack, occ, skip, needle, st)
    requires st.hpos + |needle| <= |haystack| && matched < |needle|
    requires matched == TurboMatched(haystack, needle, st)
    requires 1 <= skip[|needle| - 1 - matched] <= |needle|
    ensures var next := TurboNext(haystack, occ, skip, needle, st, matched);
            && Memory(haystack, occ, skip, needle, next)
            && forall p :: st.hpos <= p < next.hpos && OccursAt(haystack, needle, p)
                 ==> Adjusts(haystack, occ, skip, needle, st, matched) && st.hpos < p <= st.hpos + st.ignored
  {
    hide TurboMatched, TurboNext, Adjusts, Mismatch, Memory;
    TurboMatchedCorrect(haystack, occ, skip, needle, st);
    StepRemembers(haystack, occ, skip, needle, st, matched);
    var next := TurboNext(haystack, occ, skip, needle, st, matched);
    forall p | st.hpos <= p < next.hpos && OccursAt(haystack, needle, p)
      ensures Adjusts(haystack, occ, skip, needle, st, matched) && st.hpos < p <= st.hpos + st.ignored
    {
      PassedWithinIgnored(haystack, occ, skip, needle, st, matched, p);
    }
  }

  /** Whatever the needle, the result is a real occurrence or the haystack length. */
  lemma {:induction false} TurboSound(haystack: seq<Byte>, occ: seq<nat>, skip: seq<nat>, needle: seq<Byte>,
                                      st: TurboState)
    requires Tables(occ, skip, needle) && Memory(haystack, occ, skip, needle, st)
    ensures var r := TurboRun(haystack, occ, skip, needle, st);
            r == |haystack| || OccursAt(haystack, needle, r)
    decreases |haystack| + 1 - st.hpos
  {
    if st.hpos + |needle| <= |haystack| {
      TurboMatchedCorrect(haystack, occ, skip, needle, st);
      var matched := TurboMatched(haystack, needle, st);
      if matched < |needle| {
        TurboStep(haystack, occ, skip, needle, st, matched);
        TurboSound(haystack, occ, skip, needle, TurboNext(haystack, occ, skip, needle, st, matched));
      }
    }
  }

  // ---- When the adjustment goes wrong ----

  /** An occurrence s ahead agrees with all bytes seen by two alignments `shift` apart: the first matched
      `before` bytes and then read x, the second matched `matched` bytes. */
  ghost predicate Overlay(needle: seq<Byte>, before: nat, shift: nat, matched: nat, s: nat, x: Byte) {
    var m := |needle|;
    && before < m && shift <= m && 1 <= s && matched + s < m
    && ShiftAgreesOver(needle, s, m - matched, m)
    && ShiftAgreesOver(needle, s, m - shift - Min(m - shift, before), m - shift)
    && (s <= m - 1 - before - shift ==> needle[m - 1 - before - shift - s] == x)
  }

  /** Reading x after `before` matching bytes makes the search remember `ignored` bytes, and reading c after
      `matched` more, under an occurrence s ahead, makes the bad-character shift win without exceeding `ignored`. */
  ghost predicate TriggersAdjustment(occ: seq<nat>, skip: seq<nat>, needle: seq<Byte>,
                                     before: nat, matched: nat, s: nat, x: Byte)
    requires |occ| == 256 && |skip| == |needle|
  {
    var m := |needle|;
    && before < m && matched + s < m
    && var shift := skip[m - 1 - before];
    && var ignored := Min(m - shift, before);
    && var c := needle[m - 1 - matched - s];
    && x != needle[m - 1 - before] && occ[x] <= shift + before
    && c != needle[m - 1 - matched]
    && skip[m - 1 - matched] < occ[c] - matched <= ignored < occ[c]
    && matched < ignored && matched < shift && s <= ignored
  }

  /** Some text triggers the adjustment above an occurrence that it then steps over. */
  ghost predicate TurboTrap(occ: seq<nat>, skip: seq<nat>, needle: seq<Byte>, before: nat, matched: nat, s: nat,
                            x: Byte)
    requires |occ| == 256 && |skip| == |needle|
  {
    && TriggersAdjustment(occ, skip, needle, before, matched, s, x)
    && Overlay(needle, before, skip[|needle| - 1 - before], matched, s, x)
  }

  /** No such text exists: a condition on the needle and its tables alone. */
  ghost predicate TurboSafe(occ: seq<nat>, skip: seq<nat>, needle: seq<Byte>)
    requires |occ| == 256 && |skip| == |needle|
  {
    forall before, matched, s, x :: !TurboTrap(occ, skip, needle, before, matched, s, x)
  }

  lemma OccurrenceIsOverlay(haystack: seq<Byte>, needle: seq<Byte>, hpos: nat,
                            before: nat, shift: nat, matched: nat, s: nat)
    requires shift <= hpos && shift <= |needle|
    requires Mismatch(haystack, needle, hpos - shift, before) && Mismatch(haystack, needle, hpos, matched)
    requires forall j :: |needle| - shift - Min(|needle| - shift, before) <= j < |needle| - shift
               ==> needle[j] == haystack[hpos + j]
    requires 1 <= s && matched + s < |needle| && OccursAt(haystack, needle, hpos + s)
    ensures Overlay(needle, before, shift, matched, s, haystack[hpos - shift + |needle| - 1 - before])
    ensures needle[|needle| - 1 - matched - s] == haystack[hpos + |needle| - 1 - matched]
  {
    var m := |needle|;
    var i, q := m - 1 - matched, m - 1 - before - shift;
    forall k | m - shift - Min(m - shift, before) <= k < m - shift || m - matched <= k < m
      ensures ShiftAgrees(needle, s, k)
    {
      if s <= k {
        assert needle[k - s] == haystack[hpos + s + (k - s)];
      }
    }
    assert needle[i - s] == haystack[hpos + s + (i - s)];
    if s <= q {
      assert needle[q - s] == haystack[hpos + s + (q - s)];
    }
  }

  /** When the adjustment fires and passes an occurrence, fewer bytes matched than were remembered. */
  lemma AdjustedMatchIsShort(haystack: seq<Byte>, occ: seq<nat>, skip: seq<nat>, needle: seq<Byte>,
                             st: TurboState, matched: nat, s: nat)
    requires Tables(occ, skip, needle) && Mismatch(haystack, needle, st.hpos, matched)
    requires Adjusts(haystack, occ, skip, needle, st, matched)
    requires 1 <= s <= st.ignored && OccursAt(haystack, needle, st.hpos + s)
    ensures matched < st.ignored
  {
    var c := haystack[st.hpos + |needle| - 1 - matched];
    BadCharacterSafe(haystack, needle, occ, st.hpos, matched, s);
    assert IsOcc(needle, c, occ[c]);
    if st.ignored <= matched {
      NearOccurrenceIsGoodSuffix(haystack, needle, skip, st.hpos, matched, s);
    }
  }

  /** An occurrence ahead of a remembering alignment is an overlay. */
  lemma RememberedIsOverlay(haystack: seq<Byte>, occ: seq<nat>, skip: seq<nat>, needle: seq<Byte>,
                            st: TurboState, before: nat, matched: nat, s: nat)
    requires Tables(occ, skip, needle) && WellSized(needle, st) && 0 < st.ignored
    requires Remembers(haystack, occ, skip, needle, st, before) && Mismatch(haystack, needle, st.hpos, matched)
    requires matched < st.ignored && (matched < st.shift || st.shift + st.ignored <= matched)
    requires 1 <= s <= st.ignored && OccursAt(haystack, needle, st.hpos + s)
    ensures matched + s < |needle|
    ensures Overlay(needle, before, st.shift, matched, s, haystack[st.hpos - st.shift + |needle| - 1 - before])
    ensures needle[|needle| - 1 - matched - s] == haystack[st.hpos + |needle| - 1 - matched]
  {
    hide SkipTable, Overlay;
    RememberedBytesMatch(haystack, occ, skip, needle, st, before);
    OccurrenceIsOverlay(haystack, needle, st.hpos, before, st.shift, matched, s);
  }

  /** The bytes read at the two alignments trigger the adjustment. */
  lemma OccurrenceTriggers(haystack: seq<Byte>, occ: seq<nat>, skip: seq<nat>, needle: seq<Byte>,
                           st: TurboState, before: nat, matched: nat, s: nat)
    requires Tables(occ, skip, needle) && WellSized(needle, st) && 0 < st.ignored
    requires Remembers(haystack, occ, skip, needle, st, before) && Mismatch(haystack, needle, st.hpos, matched)
    requires matched < st.ignored && (matched < st.shift || st.shift + st.ignored <= matched)
    requires Adjusts(haystack, occ, skip, needle, st, matched) && 1 <= s <= st.ignored && matched + s < |needle|
    requires needle[|needle| - 1 - matched - s] == haystack[st.hpos + |needle| - 1 - matched]
    ensures var x := haystack[st.hpos - st.shift + |needle| - 1 - before];
            TriggersAdjustment(occ, skip, needle, before, matched, s, x)
  {
    hide SkipTable;
  }

  /** Any occurrence the adjustment steps over exhibits a trap. */
  lemma SkippedOccurrenceIsTrap(haystack: seq<Byte>, occ: seq<nat>, skip: seq<nat>, needle: seq<Byte>,
                                st: TurboState, before: nat, matched: nat, s: nat)
    requires Tables(occ, skip, needle) && WellSized(needle, st) && 0 < st.ignored
    requires Remembers(haystack, occ, skip, needle, st, before)
    requires Mismatch(haystack, needle, st.hpos, matched)
    requires matched < st.shift || st.shift + st.ignored <= matched
    requires Adjusts(haystack, occ, skip, needle, st, matched)
    requires 1 <= s <= st.ignored && OccursAt(haystack, needle, st.hpos + s)
    ensures TurboTrap(occ, skip, needle, before, matched, s, haystack[st.hpos - st.shift + |needle| - 1 - before])
  {
    hide OccursAt, Overlay, TriggersAdjustment, SkipTable;
    AdjustedMatchIsShort(haystack, occ, skip, needle, st, matched, s);
    RememberedIsOverlay(haystack, occ, skip, needle, st, before, matched, s);
    OccurrenceTriggers(haystack, occ, skip, needle, st, before, matched, s);
  }

  /** For a safe needle the search is exact. */
  lemma {:induction false} TurboExact(haystack: seq<Byte>, occ: seq<nat>, skip: seq<nat>, needle: seq<Byte>,
                                      st: TurboState)
    requires Tables(occ, skip, needle) && TurboSafe(occ, skip, needle)
    requires Memory(haystack, occ, skip, needle, st) && NoneBefore(haystack, needle, st.hpos)
    ensures IsLeast(haystack, needle, TurboRun(haystack, occ, skip, needle, st))
    decreases |haystack| + 1 - st.hpos
  {
    if st.hpos + |needle| > |haystack| {
      NoRoomLeft(haystack, needle, st.hpos);
      return;
    }
    TurboMatchedCorrect(haystack, occ, skip, needle, st);
    var matched := TurboMatched(haystack, needle, st);
    if matched == |needle| {
      return;
    }
    TurboStep(haystack, occ, skip, needle, st, matched);
    var next := TurboNext(haystack, occ, skip, needle, st, matched);
    forall p: nat | p < next.hpos
      ensures !OccursAt(haystack, needle, p)
    {
      if st.hpos <= p && OccursAt(haystack, needle, p) {
        var before :| Remembers(haystack, occ, skip, needle, st, before);
        SkippedOccurrenceIsTrap(haystack, occ, skip, needle, st, before, matched, p - st.hpos);
      }
    }
    TurboExact(haystack, occ, skip, needle, next);
  }

  /** A haystack that springs the trap: the remembered alignment, overlaid with the needle. */
  function TrapHaystack(needle: seq<Byte>, before: nat, shift: nat, s: nat, x: Byte): (h: seq<Byte>)
    ensures |h| == shift + s + |needle|
  {
    var m := |needle|;
    seq(shift + s, k requires 0 <= k < shift + s =>
      if m - 1 - before < k < m then needle[k] else if k == m - 1 - before then x else 0) + needle
  }

  /** The text shows both alignments, with x and c where they fail, under the occurrence. */
  ghost predicate TrapText(h: seq<Byte>, needle: seq<Byte>, before: nat, shift: nat, matched: nat, s: nat, x: Byte) {
    && matched + s < |needle|
    && Mismatch(h, needle, 0, before) && h[|needle| - 1 - before] == x
    && Mismatch(h, needle, shift, matched)
    && h[shift + |needle| - 1 - matched] == needle[|needle| - 1 - matched - s]
    && OccursAt(h, needle, shift + s)
  }

  /** The haystack shows the first alignment: the remembered bytes and the occurrence agree where they meet. */
  lemma TrapFirstAlignment(needle: seq<Byte>, before: nat, shift: nat, matched: nat, s: nat, x: Byte)
    requires Overlay(needle, before, shift, matched, s, x)
    requires GoodShift(needle, |needle| - 1 - before, shift)
    requires x != needle[|needle| - 1 - before]
    ensures var h := TrapHaystack(needle, before, shift, s, x);
            Mismatch(h, needle, 0, before) && h[|needle| - 1 - before] == x
  {
    var m := |needle|;
    var h := TrapHaystack(needle, before, shift, s, x);
    forall k | m - before <= k < m
      ensures needle[k] == h[k]
    {
      if shift + s <= k {
        assert ShiftAgrees(needle, s, k - shift) && ShiftAgrees(needle, shift, k);
      }
    }
  }

  /** It also shows the second alignment and the occurrence. */
  lemma TrapSecondAlignment(needle: seq<Byte>, before: nat, shift: nat, matched: nat, s: nat, x: Byte)
    requires Overlay(needle, before, shift, matched, s, x)
    requires needle[|needle| - 1 - matched - s] != needle[|needle| - 1 - matched]
    ensures var h := TrapHaystack(needle, before, shift, s, x);
            && Mismatch(h, needle, shift, matched)
            && h[shift + |needle| - 1 - matched] == needle[|needle| - 1 - matched - s]
            && OccursAt(h, needle, shift + s)
  {
    var m := |needle|;
    var h := TrapHaystack(needle, before, shift, s, x);
    assert OccursAt(h, needle, shift + s);
    forall k | m - matched <= k < m
      ensures needle[k] == h[shift + k]
    {
      assert ShiftAgrees(needle, s, k);
    }
  }

  lemma TrapHaystackIsText(needle: seq<Byte>, before: nat, shift: nat, matched: nat, s: nat, x: Byte)
    requires Overlay(needle, before, shift, matched, s, x)
    requires GoodShift(needle, |needle| - 1 - before, shift)
    requires x != needle[|needle| - 1 - before]
    requires needle[|needle| - 1 - matched - s] != needle[|needle| - 1 - matched]
    ensures TrapText(TrapHaystack(needle, before, shift, s, x), needle, before, shift, matched, s, x)
  {
    TrapFirstAlignment(needle, before, shift, matched, s, x);
    TrapSecondAlignment(needle, before, shift, matched, s, x);
  }

  /** An alignment has one match length, and the search computes it. */
  lemma TurboMatchedIs(haystack: seq<Byte>, occ: seq<nat>, skip: seq<nat>, needle: seq<Byte>, st: TurboState,
                       matched: nat)
    requires Tables(occ, skip, needle) && Memory(haystack, occ, skip, needle, st)
    requires Mismatch(haystack, needle, st.hpos, matched)
    ensures TurboMatched(haystack, needle, st) == matched
  {
    TurboMatchedCorrect(haystack, occ, skip, needle, st);
    var got := TurboMatched(haystack, needle, st);
    var m := |needle|;
    assert needle[m - 1 - matched] != haystack[st.hpos + (m - 1 - matched)];
    assert got < m ==> needle[m - 1 - got] != haystack[st.hpos + (m - 1 - got)];
  }

  /** The state after an alignment that matched `before` bytes and shifted by the good suffix. */
  function StateAfter(skip: seq<nat>, needle: seq<Byte>, before: nat): TurboState
    requires ShiftsInRange(skip, needle) && before < |needle|
  {
    var shift := skip[|needle| - 1 - before];
    TurboState(shift, Min(|needle| - shift, before), shift)
  }

  /** The first alignment, reached without memory, makes the search remember. */
  lemma FirstStep(haystack: seq<Byte>, occ: seq<nat>, skip: seq<nat>, needle: seq<Byte>, before: nat)
    requires 0 < |needle| && |occ| == 256 && |needle| <= |haystack| && before < |needle|
    requires ShiftsInRange(skip, needle)
    requires occ[haystack[|needle| - 1 - before]] <= skip[|needle| - 1 - before] + before
    requires TurboMatched(haystack, needle, TurboState(0, 0, |needle|)) == before
    ensures TurboResult(haystack, occ, skip, needle)
            == TurboRun(haystack, occ, skip, needle, StateAfter(skip, needle, before))
  {
  }

  lemma AdjustedNext(haystack: seq<Byte>, occ: seq<nat>, skip: seq<nat>, needle: seq<Byte>, st: TurboState,
                     matched: nat)
    requires |occ| == 256 && |skip| == |needle| && matched < |needle|
    requires st.hpos + |needle| <= |haystack|
    requires 1 <= skip[|needle| - 1 - matched] <= |needle|
    requires Adjusts(haystack, occ, skip, needle, st, matched)
    ensures TurboNext(haystack, occ, skip, needle, st, matched)
            == TurboState(st.hpos + st.ignored + 1, 0, st.ignored + 1)
  {
  }

  /** The second alignment makes it adjust, so the result lies past hpos + ignored. */
  lemma AdjustedStep(haystack: seq<Byte>, occ: seq<nat>, skip: seq<nat>, needle: seq<Byte>, st: TurboState,
                     matched: nat)
    requires 0 < |needle| && |occ| == 256 && matched < |needle| && WellSized(needle, st)
    requires ShiftsInRange(skip, needle)
    requires st.hpos + |needle| <= |haystack| && TurboMatched(haystack, needle, st) == matched
    requires Adjusts(haystack, occ, skip, needle, st, matched)
    ensures var r := TurboRun(haystack, occ, skip, needle, st);
            r == |haystack| || st.hpos + st.ignored < r
  {
    AdjustedNext(haystack, occ, skip, needle, st, matched);
  }

  lemma PastOccurrence(haystack: seq<Byte>, needle: seq<Byte>, p: nat, r: nat)
    requires OccursAt(haystack, needle, p) && p < r
    ensures !IsLeast(haystack, needle, r)
  {
  }

  /** The haystack shows two alignments that trigger the adjustment above an occurrence. */
  ghost predicate ShowsTrap(haystack: seq<Byte>, occ: seq<nat>, skip: seq<nat>, needle: seq<Byte>,
                            before: nat, matched: nat, s: nat)
    requires |occ| == 256 && ShiftsInRange(skip, needle)
  {
    && before < |needle|
    && var st := StateAfter(skip, needle, before);
    && Mismatch(haystack, needle, 0, before)
    && occ[haystack[|needle| - 1 - before]] <= st.shift + before
    && Mismatch(haystack, needle, st.hpos, matched)
    && Adjusts(haystack, occ, skip, needle, st, matched)
    && s <= st.ignored && OccursAt(haystack, needle, st.hpos + s)
  }

  /** The search sees those two alignments. */
  lemma ShownAlignmentsAreSeen(haystack: seq<Byte>, occ: seq<nat>, skip: seq<nat>, needle: seq<Byte>,
                               before: nat, matched: nat)
    requires Tables(occ, skip, needle) && before < |needle|
    requires Mismatch(haystack, needle, 0, before)
    requires var st := StateAfter(skip, needle, before);
             && occ[haystack[|needle| - 1 - before]] <= st.shift + before
             && Mismatch(haystack, needle, st.hpos, matched)
    ensures TurboMatched(haystack, needle, TurboState(0, 0, |needle|)) == before
    ensures TurboMatched(haystack, needle, StateAfter(skip, needle, before)) == matched
  {
    var st := StateAfter(skip, needle, before);
    TurboMatchedIs(haystack, occ, skip, needle, TurboState(0, 0, |needle|), before);
    assert Remembers(haystack, occ, skip, needle, st, before);
    TurboMatchedIs(haystack, occ, skip, needle, st, matched);
  }

  /** So it steps over the occurrence. */
  lemma StepsOver(haystack: seq<Byte>, occ: seq<nat>, skip: seq<nat>, needle: seq<Byte>,
                  before: nat, matched: nat, s: nat)
    requires 0 < |needle| && |occ| == 256 && ShiftsInRange(skip, needle)
    requires ShowsTrap(haystack, occ, skip, needle, before, matched, s)
    requires TurboMatched(haystack, needle, TurboState(0, 0, |needle|)) == before
    requires TurboMatched(haystack, needle, StateAfter(skip, needle, before)) == matched
    ensures var r := TurboResult(haystack, occ, skip, needle);
            r == |haystack| || skip[|needle| - 1 - before] + s < r
  {
    FirstStep(haystack, occ, skip, needle, before);
    AdjustedStep(haystack, occ, skip, needle, StateAfter(skip, needle, before), matched);
  }

  lemma AlignmentsShowTrap(haystack: seq<Byte>, occ: seq<nat>, skip: seq<nat>, needle: seq<Byte>,
                           before: nat, matched: nat, s: nat, x: Byte)
    requires |occ| == 256 && ShiftsInRange(skip, needle)
    requires TriggersAdjustment(occ, skip, needle, before, matched, s, x)
    requires TrapText(haystack, needle, before, skip[|needle| - 1 - before], matched, s, x)
    ensures ShowsTrap(haystack, occ, skip, needle, before, matched, s)
  {
  }

  lemma TrapHaystackShows(occ: seq<nat>, skip: seq<nat>, needle: seq<Byte>, before: nat, matched: nat, s: nat, x: Byte)
    requires |occ| == 256 && ShiftsInRange(skip, needle)
    requires TurboTrap(occ, skip, needle, before, matched, s, x)
    requires GoodShift(needle, |needle| - 1 - before, skip[|needle| - 1 - before])
    ensures exists h :: ShowsTrap(h, occ, skip, needle, before, matched, s)
  {
    var shift := skip[|needle| - 1 - before];
    TrapHaystackIsText(needle, before, shift, matched, s, x);
    AlignmentsShowTrap(TrapHaystack(needle, before, shift, s, x), occ, skip, needle, before, matched, s, x);
  }

  /** The least occurrence is not the result on a haystack that shows a trap. */
  lemma ShownTrapSprings(haystack: seq<Byte>, occ: seq<nat>, skip: seq<nat>, needle: seq<Byte>,
                         before: nat, matched: nat, s: nat)
    requires Tables(occ, skip, needle) && ShowsTrap(haystack, occ, skip, needle, before, matched, s)
    ensures !IsLeast(haystack, needle, TurboResult(haystack, occ, skip, needle))
  {
    hide SkipTable, Adjusts, TurboRun, TurboMatched, IsLeast;
    ShownAlignmentsAreSeen(haystack, occ, skip, needle, before, matched);
    StepsOver(haystack, occ, skip, needle, before, matched, s);
    PastOccurrence(haystack, needle, skip[|needle| - 1 - before] + s, TurboResult(haystack, occ, skip, needle));
  }

  /** For a needle with a trap there is a haystack whose first occurrence the search misses. */
  lemma TrapSprings(occ: seq<nat>, skip: seq<nat>, needle: seq<Byte>, before: nat, matched: nat, s: nat, x: Byte)
    requires Tables(occ, skip, needle)
    requires TurboTrap(occ, skip, needle, before, matched, s, x)
    ensures exists haystack :: !IsLeast(haystack, needle, TurboResult(haystack, occ, skip, needle))
  {
    assert IsLeastGoodShift(needle, |needle| - 1 - before, skip[|needle| - 1 - before]);
    TrapHaystackShows(occ, skip, needle, before, matched, s, x);
    var h :| ShowsTrap(h, occ, skip, needle, before, matched, s);
    ShownTrapSprings(h, occ, skip, needle, before, matched, s);
  }

  /** SearchInTurbo finds the least occurrence in every haystack if and only if the needle has no trap. */
  lemma TurboExactIffSafe(occ: seq<nat>, skip: seq<nat>, needle: seq<Byte>)
    requires Tables(occ, skip, needle)
    ensures TurboSafe(occ, skip, needle) <==>
            forall haystack :: IsLeast(haystack, needle, TurboResult(haystack, occ, skip, needle))
  {
    if TurboSafe(occ, skip, needle) {
      forall haystack
        ensures IsLeast(haystack, needle, TurboResult(haystack, occ, skip, needle))
      {
        TurboExact(haystack, occ, skip, needle, TurboState(0, 0, |needle|));
      }
    } else {
      var before, matched, s, x :| TurboTrap(occ, skip, needle, before, matched, s, x);
      TrapSprings(occ, skip, needle, before, matched, s, x);
    }
  }

  method MatchAlignment(haystack: seq<Byte>, needle: seq<Byte>, st: TurboState) returns (matched: nat)
    requires 0 < |needle| && st.hpos + |needle| <= |haystack| && WellSized(needle, st)
    ensures matched == TurboMatched(haystack, needle, st)
  {
    var m, end := |needle|, st.hpos + |needle|;
    matched := 0;
    if needle[m - 1] == haystack[end - 1] {
      if st.ignored == 0 {
        matched := BackwardsMatchLen(needle, m, haystack, end, m, 0);
      } else {
        matched := BackwardsMatchLen(needle, m, haystack, end, st.shift, 0);
        if matched == st.shift {
          matched := BackwardsMatchLen(needle, m, haystack, end, m, st.shift + st.ignored);
        }
      }
    }
  }

  /** The shift taken after a mismatch, and what the search remembers of the alignment. */
  method ShiftAlignment(haystack: seq<Byte>, occ: seq<nat>, skip: seq<nat>, needle: seq<Byte>, st: TurboState,
                        matched: nat) returns (ignored: nat, shift: nat)
    requires |occ| == 256 && |skip| == |needle| && matched < |needle|
    requires st.hpos + |needle| <= |haystack|
    requires 1 <= skip[|needle| - 1 - matched] <= |needle|
    ensures 0 < shift && WellSized(needle, TurboState(st.hpos + shift, ignored, shift))
    ensures TurboState(st.hpos + shift, ignored, shift) == TurboNext(haystack, occ, skip, needle, st, matched)
  {
    var mpos := |needle| - 1 - matched;
    var bcShift := occ[haystack[st.hpos + mpos]] - matched;
    var gcShift := skip[mpos];
    var turboShift := st.ignored - matched;
    shift := Max(Max(gcShift, bcShift), turboShift);
    if shift == gcShift {
      ignored := Min(|needle| - shift, matched);
    } else {
      if turboShift < bcShift && st.ignored >= shift {
        shift := st.ignored + 1;
      }
      ignored := 0;
    }
  }

  /** The loop of the search, for needles of at least two bytes. */
  method TurboLoop(haystack: seq<Byte>, occ: seq<nat>, skip: seq<nat>, needle: seq<Byte>) returns (r: nat)
    requires 0 < |needle| <= |haystack| && |occ| == 256 && ShiftsInRange(skip, needle)
    ensures r == TurboResult(haystack, occ, skip, needle)
  {
    var hpos: nat, ignored: nat, shift: nat := 0, 0, |needle|;
    while hpos <= |haystack| - |needle|
      invariant WellSized(needle, TurboState(hpos, ignored, shift))
      invariant TurboResult(haystack, occ, skip, needle)
                == TurboRun(haystack, occ, skip, needle, TurboState(hpos, ignored, shift))
      decreases |haystack| - hpos
    {
      hide TurboMatched, TurboNext, TurboResult;
      var st := TurboState(hpos, ignored, shift);
      var matched := MatchAlignment(haystack, needle, st);
      if matched >= |needle| {
        return hpos;
      }
      ignored, shift := ShiftAlignment(haystack, occ, skip, needle, st, matched);
      hpos := hpos + shift;
    }
    return |haystack|;
  }

  /** A one-byte needle is safe, so its least occurrence is also the loop's result. */
  lemma OneByteNeedle(haystack: seq<Byte>, occ: seq<nat>, skip: seq<nat>, needle: seq<Byte>, r: nat)
    requires Tables(occ, skip, needle) && |needle| == 1 && IsLeast(haystack, needle, r)
    ensures r == TurboResult(haystack, occ, skip, needle)
  {
    TurboExact(haystack, occ, skip, needle, TurboState(0, 0, 1));
    LeastUnique(haystack, needle, r, TurboResult(haystack, occ, skip, needle));
  }

  /** The search always ends on an occurrence or at the end, and is exact for a safe needle. */
  method SearchInTurbo(haystack: seq<Byte>, occ: seq<nat>, skip: seq<nat>, needle: seq<Byte>) returns (r: nat)
    requires Tables(occ, skip, needle)
    ensures r == TurboResult(haystack, occ, skip, needle)
    ensures r == |haystack| || OccursAt(haystack, needle, r)
    ensures TurboSafe(occ, skip, needle) ==> IsLeast(haystack, needle, r)
  {
    TurboSound(haystack, occ, skip, needle, TurboState(0, 0, |needle|));
    if TurboSafe(occ, skip, needle) {
      TurboExact(haystack, occ, skip, needle, TurboState(0, 0, |needle|));
    }
    if |needle| > |haystack| {
      r := |haystack|;
    } else if |needle| == 1 {
      r := MemChr(haystack, needle[0]);
      assert needle == [needle[0]];
      OneByteNeedle(haystack, occ, skip, needle, r);
    } else {
      r := TurboLoop(haystack, occ, skip, needle);
    }
  }

  // ---- The shortest failure ----

  /** Spells babcbbab, with a, b, c for 1, 2, 3. */
  const TRAPPED_NEEDLE: seq<Byte> := [2, 1, 2, 3, 2, 2, 1, 2]

  lemma TrappedNeedleTables(occ: seq<nat>, skip: seq<nat>)
    requires Tables(occ, skip, TRAPPED_NEEDLE)
    ensures skip[4] == 5 && skip[6] == 2 && occ[3] == 4
  {
    var needle := TRAPPED_NEEDLE;
    assert skip[4] == 5 by {
      assert IsLeastGoodShift(needle, 4, skip[4]) && GoodShift(needle, 4, 5);
      assert !ShiftAgrees(needle, 1, 6) && !ShiftAgrees(needle, 2, 5);
      assert !ShiftAgrees(needle, 3, 6) && !ShiftAgrees(needle, 4, 5);
    }
    assert skip[6] == 2 by {
      assert IsLeastGoodShift(needle, 6, skip[6]) && GoodShift(needle, 6, 2);
      assert !ShiftAgrees(needle, 1, 7);
    }
    assert occ[3] == 4 by {
      assert IsOcc(needle, 3, occ[3]) && needle[3] == 3;
    }
  }

  /** zzzzcbab followed by the needle. */
  const TRAPPED_HAYSTACK: seq<Byte> := [0, 0, 0, 0, 3, 2, 1, 2, 2, 1, 2, 3, 2, 2, 1, 2]

  /** Any tables of that needle make the search miss its occurrence at position 8. */
  lemma TurboMissesAnOccurrence(occ: seq<nat>, skip: seq<nat>)
    requires Tables(occ, skip, TRAPPED_NEEDLE)
    ensures OccursAt(TRAPPED_HAYSTACK, TRAPPED_NEEDLE, 8)
    ensures TurboResult(TRAPPED_HAYSTACK, occ, skip, TRAPPED_NEEDLE) == |TRAPPED_HAYSTACK|
  {
    TrappedNeedleTables(occ, skip);
    assert ShowsTrap(TRAPPED_HAYSTACK, occ, skip, TRAPPED_NEEDLE, 3, 1, 3);
    ShownAlignmentsAreSeen(TRAPPED_HAYSTACK, occ, skip, TRAPPED_NEEDLE, 3, 1);
    StepsOver(TRAPPED_HAYSTACK, occ, skip, TRAPPED_NEEDLE, 3, 1, 3);
    TurboSound(TRAPPED_HAYSTACK, occ, skip, TRAPPED_NEEDLE, TurboState(0, 0, |TRAPPED_NEEDLE|));
  }
}
