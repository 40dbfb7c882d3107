// lib/boyermooreneedle.hh, lib/stringsearchutil.cc and lib/append.cc.
module AppendSearch {
  // Where in a growing buffer a block can be stored, possibly overlapping the buffer's tail.

  import opened Arithmetic
  import opened SearchSpec
  import opened BoyerMoore
  import opened TurboSearch

  /** A needle with its tables; immutable once built. */
  datatype Needle = Needle(bytes: seq<Byte>, occ: seq<nat>, skip: seq<nat>) {
    ghost predicate Valid() {
      0 < |bytes| ==> Tables(occ, skip, bytes)
    }
  }

  method MakeNeedle(bytes: seq<Byte>) returns (needle: Needle)
    ensures needle.Valid() && needle.bytes == bytes
  {
    var occ := new nat[256];
    InitOcc(occ, bytes);
    var skip := new nat[|bytes|](_ => |bytes|);
    InitSkip(skip, bytes);
    needle := Needle(bytes, occ[..], skip[..]);
  }

  // ---- Tail overlaps ----

  /** Everything from p to the end of the haystack is a beginning of the needle. */
  ghost predicate TailMatches(haystack: seq<Byte>, needle: seq<Byte>, p: nat) {
    && p <= |haystack| <= p + |needle|
    && forall k :: 0 <= k < |haystack| - p ==> needle[k] == haystack[p + k]
  }

  /** A tail match with an overlap strictly greater than minimumOverlap. */
  ghost predicate Overlaps(haystack: seq<Byte>, needle: seq<Byte>, minimumOverlap: nat, p: nat) {
    TailMatches(haystack, needle, p) && minimumOverlap < |haystack| - p
  }

  /** a is 0, g, 2g, ... */
  predicate Multiple(a: nat, g: nat)
    requires 0 < g
  {
    a == 0 || (g <= a && Multiple(a - g, g))
  }

  /** p lies a multiple of the granularity after the first position where the needle could hang over. */
  ghost predicate OnGrid(haystack: seq<Byte>, needle: seq<Byte>, granularity: nat, p: nat)
    requires 0 < granularity
  {
    var start: nat := |haystack| - Min(|haystack|, |needle|);
    start <= p && Multiple(p - start, granularity)
  }

  ghost predicate NoOverlapBefore(haystack: seq<Byte>, needle: seq<Byte>, minimumOverlap: nat,
                                  granularity: nat, bound: nat)
    requires 0 < granularity
  {
    forall p: nat :: p < bound && OnGrid(haystack, needle, granularity, p)
      ==> !Overlaps(haystack, needle, minimumOverlap, p)
  }

  /** r is the first grid position with a large enough overlap, or the haystack length. */
  ghost predicate IsFirstOverlap(haystack: seq<Byte>, needle: seq<Byte>, minimumOverlap: nat, granularity: nat,
                                 r: nat) {
    && 0 < granularity && r <= |haystack|
    && (r < |haystack| ==> OnGrid(haystack, needle, granularity, r) && Overlaps(haystack, needle, minimumOverlap, r))
    && NoOverlapBefore(haystack, needle, minimumOverlap, granularity, r)
  }

  lemma {:induction false} MultiplesDiffer(a: nat, b: nat, g: nat)
    requires 0 < g && Multiple(a, g) && a <= b
    ensures Multiple(b, g) <==> Multiple(b - a, g)
  {
    if a != 0 {
      MultiplesDiffer(a - g, b - g, g);
    }
  }

  lemma NextMultiple(a: nat, g: nat)
    requires 0 < g && Multiple(a, g)
    ensures forall b: nat :: a < b < a + g ==> !Multiple(b, g)
  {
    forall b: nat | a < b < a + g
      ensures !Multiple(b, g)
    {
      MultiplesDiffer(a, b, g);
    }
  }

  /** The grid seen from one of its positions. */
  lemma GridFrom(haystack: seq<Byte>, needle: seq<Byte>, granularity: nat, begin: nat, p: nat)
    requires 0 < granularity && begin <= p && OnGrid(haystack, needle, granularity, begin)
    ensures OnGrid(haystack, needle, granularity, p) <==> Multiple(p - begin, granularity)
  {
    var start: nat := |haystack| - Min(|haystack|, |needle|);
    MultiplesDiffer(begin - start, p - start, granularity);
  }

  /** What a scan from a grid position settles: no overlap before the byte it found, or none at all. */
  lemma ScanSettles(haystack: seq<Byte>, needle: seq<Byte>, minimumOverlap: nat, granularity: nat,
                    begin: nat, end: nat, bound: nat)
    requires 0 < |needle| && 0 < granularity && begin <= |haystack|
    requires OnGrid(haystack, needle, granularity, begin)
    requires NoOverlapBefore(haystack, needle, minimumOverlap, granularity, begin)
    requires bound <= |haystack| && (bound <= end || |haystack| - end <= minimumOverlap)
    requires forall p :: begin <= p < end && p < |haystack| && Multiple(p - begin, granularity) ==>
               haystack[p] != needle[0]
    ensures NoOverlapBefore(haystack, needle, minimumOverlap, granularity, bound)
  {
    forall p: nat | begin <= p < bound && OnGrid(haystack, needle, granularity, p)
      ensures !Overlaps(haystack, needle, minimumOverlap, p)
    {
      GridFrom(haystack, needle, granularity, begin, p);
      if p < end {
        assert haystack[p + 0] != needle[0];
      }
    }
  }

  /** After a failed comparison at a grid position, the next candidate is one step on. */
  lemma StepSettles(haystack: seq<Byte>, needle: seq<Byte>, minimumOverlap: nat, granularity: nat, at: nat)
    requires 0 < granularity && OnGrid(haystack, needle, granularity, at)
    requires NoOverlapBefore(haystack, needle, minimumOverlap, granularity, at)
    requires !Overlaps(haystack, needle, minimumOverlap, at)
    ensures OnGrid(haystack, needle, granularity, at + granularity)
    ensures NoOverlapBefore(haystack, needle, minimumOverlap, granularity, at + granularity)
  {
    var start := |haystack| - Min(|haystack|, |needle|);
    NextMultiple(at - start, granularity);
    forall p: nat | at < p < at + granularity
      ensures !OnGrid(haystack, needle, granularity, p)
    {
      assert !Multiple(p - start, granularity);
    }
  }

  /** The first byte equal to c among positions begin, begin + granularity, ... within count bytes. */
  method ScanByte(haystack: seq<Byte>, begin: nat, c: Byte, count: nat, granularity: nat)
    returns (found: bool, at: nat)
    requires begin + count <= |haystack| && 0 < granularity
    ensures found ==> begin <= at < begin + count && Multiple(at - begin, granularity) && haystack[at] == c
    ensures forall p :: begin <= p < (if found then at else begin + count) && Multiple(p - begin, granularity)
              ==> haystack[p] != c
  {
    at := begin;
    var remaining := count;
    while 1 <= remaining
      invariant begin <= at && remaining <= count
      invariant 1 <= remaining ==> at + remaining == begin + count && Multiple(at - begin, granularity)
      invariant forall p :: begin <= p < (if 1 <= remaining then at else begin + count) ==>
                  Multiple(p - begin, granularity) ==> haystack[p] != c
    {
      if haystack[at] == c {
        return true, at;
      }
      NextMultiple(at - begin, granularity);
      if remaining <= granularity {
        remaining := 0;
      } else {
        at := at + granularity;
        remaining := remaining - granularity;
      }
    }
    found := false;
  }

  method SearchInWithAppendOnly(haystack: seq<Byte>, needle: seq<Byte>, minimumOverlap: nat, granularity: nat)
    returns (r: nat)
    requires 0 < granularity
    ensures IsFirstOverlap(haystack, needle, minimumOverlap, granularity, r)
  {
    var hlen := |haystack|;
    if 0 < |needle| {
      var remain := Min(hlen, |needle|);
      while minimumOverlap <= remain && 0 < remain
        invariant 0 <= remain <= Min(hlen, |needle|)
        invariant OnGrid(haystack, needle, granularity, hlen - remain)
        invariant NoOverlapBefore(haystack, needle, minimumOverlap, granularity, hlen - remain)
      {
        var start := hlen - remain;
        var found, at := ScanByte(haystack, start, needle[0], remain - minimumOverlap, granularity);
        if !found {
          ScanSettles(haystack, needle, minimumOverlap, granularity, start, hlen - minimumOverlap, hlen);
          return hlen;
        }
        ScanSettles(haystack, needle, minimumOverlap, granularity, start, at, at);
        GridFrom(haystack, needle, granularity, start, at);
        TailComparison(haystack, needle, at);
        if needle[..hlen - at] == haystack[at..] {
          return at;
        }
        StepSettles(haystack, needle, minimumOverlap, granularity, at);
        if hlen - at < granularity {
          return hlen;
        }
        remain := hlen - at - granularity;
      }
    }
    return hlen;
  }

  lemma TailComparison(haystack: seq<Byte>, needle: seq<Byte>, p: nat)
    requires p <= |haystack| <= p + |needle|
    ensures TailMatches(haystack, needle, p) <==> needle[..|haystack| - p] == haystack[p..]
  {
    if needle[..|haystack| - p] == haystack[p..] {
      assert forall k :: 0 <= k < |haystack| - p ==> needle[k] == needle[..|haystack| - p][k] == haystack[p..][k];
    }
  }

  // ---- The combined search ----

  /** An occurrence, or the first overlap, or the end when overlaps are not looked for. */
  ghost predicate Settled(haystack: seq<Byte>, needle: seq<Byte>, minimumOverlap: nat, granularity: nat, r: nat) {
    || (granularity == 0 && r == |haystack|)
    || IsFirstOverlap(haystack, needle, minimumOverlap, granularity, r)
    || OccursAt(haystack, needle, r)
  }

  /** The turbo search's answer when it has one, and otherwise the first tail overlap. */
  method SearchInTurboWithAppend(needle: Needle, haystack: seq<Byte>, minimumOverlap: nat, granularity: nat)
    returns (r: nat)
    requires needle.Valid() && 0 < |needle.bytes|
    ensures var full := TurboResult(haystack, needle.occ, needle.skip, needle.bytes);
            if full < |haystack| || granularity == 0 then r == full
            else IsFirstOverlap(haystack, needle.bytes, minimumOverlap, granularity, r)
    ensures r <= |haystack|
    ensures OccursAt(haystack, needle.bytes, r) || TailMatches(haystack, needle.bytes, r)
    ensures Settled(haystack, needle.bytes, minimumOverlap, granularity, r)
  {
    r := SearchInTurbo(haystack, needle.occ, needle.skip, needle.bytes);
    if r == |haystack| && granularity != 0 {
      r := SearchInWithAppendOnly(haystack, needle.bytes, minimumOverlap, granularity);
    }
  }

  method SearchInWithAppend(needle: Needle, haystack: seq<Byte>, minimumOverlap: nat, granularity: nat)
    returns (r: nat)
    requires needle.Valid() && 0 < |needle.bytes|
    ensures if exists p: nat :: OccursAt(haystack, needle.bytes, p) then
              OccursAt(haystack, needle.bytes, r) && IsLeast(haystack, needle.bytes, r)
            else if granularity == 0 then r == |haystack|
            else IsFirstOverlap(haystack, needle.bytes, minimumOverlap, granularity, r)
  {
    r := SearchIn(haystack, needle.occ, needle.skip, needle.bytes);
    if r == |haystack| && granularity != 0 {
      r := SearchInWithAppendOnly(haystack, needle.bytes, minimumOverlap, granularity);
    }
  }

  // ---- Where to append ----

  /** How a block goes into a buffer of oldSize bytes: at baseOffset, growing it to appendedSize. */
  datatype AppendInfo = AppendInfo(oldSize: nat, baseOffset: nat, appendedSize: nat)

  function AppendAt(oldSize: nat, offset: nat, dataSize: nat): AppendInfo {
    AppendInfo(oldSize, offset, Max(oldSize, offset + dataSize))
  }

  /** The buffer already agrees with the block wherever the block would overlap it. */
  ghost predicate Fits(info: AppendInfo, haystack: seq<Byte>, block: seq<Byte>) {
    && info == AppendAt(|haystack|, info.baseOffset, |block|)
    && info.baseOffset <= |haystack|
    && forall k :: 0 <= k < |block| && info.baseOffset + k < |haystack| ==> block[k] == haystack[info.baseOffset + k]
  }

  /** From p on the buffer ends in a beginning of the block longer than minimumOverlap, on the grid of the search. */
  ghost predicate OverlapFrom(haystack: seq<Byte>, block: seq<Byte>, minimumPos: nat, minimumOverlap: nat,
                              granularity: nat, p: nat)
  {
    && 0 < granularity && minimumPos <= p < |haystack|
    && OnGrid(haystack[minimumPos..], block, granularity, p - minimumPos)
    && Overlaps(haystack[minimumPos..], block, minimumOverlap, p - minimumPos)
  }

  method AnalyzeAppend(needle: Needle, minimumPos: nat, minimumOverlap: nat, granularity: nat, haystack: seq<Byte>)
    returns (info: AppendInfo)
    requires needle.Valid() && 0 < |needle.bytes|
    ensures Fits(info, haystack, needle.bytes)
    ensures info.baseOffset == |haystack| || minimumPos <= info.baseOffset
    ensures |haystack| <= minimumPos ==> info.baseOffset == |haystack|
    ensures forall p: nat :: OverlapFrom(haystack, needle.bytes, minimumPos, minimumOverlap, granularity, p) ==>
              info.baseOffset <= p
    ensures info.baseOffset + |needle.bytes| <= |haystack| || info.baseOffset == |haystack|
            || OverlapFrom(haystack, needle.bytes, minimumPos, minimumOverlap, granularity, info.baseOffset)
    ensures var tailStart := |haystack| - Min(|haystack|, |needle.bytes|);
            minimumPos < |haystack| && tailStart < minimumPos ==>
              if granularity == 0 then info.baseOffset == |haystack|
              else IsFirstOverlap(haystack[minimumPos..], needle.bytes, minimumOverlap, granularity,
                                  info.baseOffset - minimumPos)
    ensures var tailStart := |haystack| - Min(|haystack|, |needle.bytes|);
            minimumPos < |haystack| && minimumPos <= tailStart ==>
              var rest := haystack[minimumPos..];
              var full := TurboResult(rest, needle.occ, needle.skip, needle.bytes);
              if full < |rest| || granularity == 0 then info.baseOffset == minimumPos + full
              else IsFirstOverlap(rest, needle.bytes, minimumOverlap, granularity, info.baseOffset - minimumPos)
  {
    var hlen := |haystack|;
    info := AppendAt(hlen, hlen, |needle.bytes|);
    if minimumPos < hlen {
      var rest := haystack[minimumPos..];
      var r;
      if minimumPos > hlen - Min(hlen, |needle.bytes|) {
        if granularity == 0 {
          r := hlen - minimumPos;
        } else {
          r := SearchInWithAppendOnly(rest, needle.bytes, minimumOverlap, granularity);
        }
        assert TailMatches(rest, needle.bytes, r);
        assert Settled(rest, needle.bytes, minimumOverlap, granularity, r);
      } else {
        r := SearchInTurboWithAppend(needle, rest, minimumOverlap, granularity);
      }
      info := AppendAt(hlen, r + minimumPos, |needle.bytes|);
      PlaceFound(haystack, needle.bytes, minimumPos, minimumOverlap, granularity, r);
      FitsFromRest(haystack, needle.bytes, minimumPos, r);
    }
  }

  /** Nothing is found past the first overlap there is: neither a full occurrence nor another overlap. */
  lemma PlaceFound(haystack: seq<Byte>, block: seq<Byte>, minimumPos: nat, minimumOverlap: nat, granularity: nat,
                   r: nat)
    requires minimumPos < |haystack|
    requires Settled(haystack[minimumPos..], block, minimumOverlap, granularity, r)
    ensures forall p: nat :: OverlapFrom(haystack, block, minimumPos, minimumOverlap, granularity, p) ==>
              r + minimumPos <= p
    ensures r + minimumPos + |block| <= |haystack| || r + minimumPos == |haystack|
            || OverlapFrom(haystack, block, minimumPos, minimumOverlap, granularity, r + minimumPos)
  {
    hide OnGrid;
  }

  /** A match found past minimumPos is one in the whole buffer. */
  lemma FitsFromRest(haystack: seq<Byte>, block: seq<Byte>, minimumPos: nat, r: nat)
    requires minimumPos + r <= |haystack|
    requires OccursAt(haystack[minimumPos..], block, r) || TailMatches(haystack[minimumPos..], block, r)
    ensures Fits(AppendAt(|haystack|, r + minimumPos, |block|), haystack, block)
  {
    var rest := haystack[minimumPos..];
    forall k | 0 <= k < |block| && r + minimumPos + k < |haystack|
      ensures block[k] == haystack[r + minimumPos + k]
    {
      assert rest[r + k] == haystack[r + minimumPos + k];
    }
  }
}
