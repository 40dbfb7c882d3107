// CMatchFinder of lib/lzma/C/LzFind.c: the object with its sliding buffer, hash heads and references,
// whose methods take the transitions of LzFinder and LzRuns.
module LzMachine {
  import opened SearchSpec
  import opened LzHash
  import opened LzTree
  import opened LzDescent
  import opened LzFinder
  import opened LzIndex
  import opened LzRuns
  import opened LzShort
  import opened LzWalks
  import M = LzMatches
  import H = LzChain
  import opened Wrappers

  class MatchFinder {
    const c: Config
    const mode: Mode
    const bufferBase: array<Byte>
    const hash: array<UInt32>
    const son: array<UInt32>
    var buffer: nat
    var pos: UInt32
    var posLimit: UInt32
    var streamPos: UInt32
    var lenLimit: nat
    var cyclicBufferPos: nat
    var streamEndWasReached: bool
    var failed: bool
    var taken: nat

    ghost predicate Shape() {
      && c.Valid() && bufferBase.Length == c.blockSize
      && hash.Length == FIX4 + Pow2(c.hashBits) && son.Length == mode.Sons(c)
      && hash != son && bufferBase as object != hash as object && bufferBase as object != son as object
    }

    /** The fields as a state of the transition system. */
    ghost function Snap(): Finder
      reads this, hash, son
    {
      Finder(buffer, pos, posLimit, streamPos, lenLimit, cyclicBufferPos, hash[..], son[..], streamEndWasReached,
             failed, taken)
    }

    /** The stream has been read up to `taken`, and the buffer shows it. */
    ghost predicate Filled()
      reads this, hash, son, bufferBase
    {
      && Shape() && taken <= |c.input| && buffer + Snap().Avail() <= c.blockSize
      && Holds(bufferBase[..], buffer, Snap().Avail(), c.input, Snap().Cursor())
    }

    /** Before every call the buffer shows the stream and the references mean what LzIndex says. */
    ghost predicate Valid()
      reads this, hash, son, bufferBase
    {
      Filled() && Sound(mode, c, Snap()) && Current(c, Snap())
    }

    /** One read of the stream into the free end of the buffer. */
    method ReadInto(dest: nat, size: nat)
      requires Filled() && dest == buffer + Snap().Avail() && size <= c.blockSize - dest && taken + size <= |c.input|
      modifies this`streamPos, this`taken, bufferBase
      ensures Filled()
      ensures Snap() == old(Snap()).(streamPos := Add32(old(streamPos), size), taken := old(taken) + size)
      ensures Snap().Avail() == old(Snap().Avail()) + size
    {
      hide Holds, Pow2, Sub32, Add32;
      AddSub32(streamPos, pos, size);
      ghost var was, s := bufferBase[..], Snap();
      forall k | 0 <= k < size {
        bufferBase[dest + k] := c.input[taken + k];
      }
      assert Snap() == s;
      HoldsAfterRead(was, bufferBase[..], buffer, s.Avail(), c.input, s.Cursor(), size);
      streamPos, taken := Add32(streamPos, size), taken + size;
    }

    /** One turn of the reading loop; done when the source returns. */
    method ReadOnce() returns (done: bool)
      requires Filled()
      modifies this`streamPos, this`taken, this`streamEndWasReached, this`failed, bufferBase
      ensures Filled()
      ensures ReadTurn(c, old(Snap()), Snap(), done)
    {
      hide Holds, ReadLoop, Pow2;
      ghost var s := Snap();
      ReadLoopUnfolds(c, s);
      var dest := buffer + Sub32(streamPos, pos);
      var size := c.blockSize - dest;
      if size == 0 {
        return true;
      }
      var chunk := c.reader(taken, size);
      if chunk.Failed? {
        failed := true;
        return true;
      }
      size := chunk.count;
      if size == 0 {
        streamEndWasReached := true;
        return true;
      }
      ReadInto(dest, size);
      done := Sub32(streamPos, pos) > c.keepAfter;
    }

    method ReadBlock()
      requires Filled()
      modifies this`streamPos, this`taken, this`streamEndWasReached, this`failed, bufferBase
      ensures Filled() && Snap() == LzFinder.ReadBlock(c, old(Snap()))
    {
      hide ReadLoop, Holds, Pow2;
      if streamEndWasReached || failed {
        return;
      }
      var done := ReadOnce();
      while !done
        invariant Filled()
        invariant done ==> Snap() == ReadLoop(c, old(Snap()))
        invariant !done ==> ReadLoop(c, Snap()) == ReadLoop(c, old(Snap()))
        decreases !done, c.blockSize - buffer - Snap().Avail()
      {
        done := ReadOnce();
      }
    }
  
    method MoveBlock()
      requires Filled() && c.keepBefore <= buffer && Snap().Avail() <= c.keepAfter
      modifies this`buffer, bufferBase
      ensures Filled() && Snap() == old(Snap()).(buffer := c.keepBefore)
    {
      hide Pow2, Holds;
      ghost var was := bufferBase[..];
      var from := buffer - c.keepBefore;
      var n := Sub32(streamPos, pos) + c.keepBefore;
      for i := 0 to n
        modifies bufferBase
        invariant forall k :: 0 <= k < i ==> bufferBase[k] == was[from + k]
        invariant forall k :: i <= k < bufferBase.Length ==> bufferBase[k] == was[k]
      {
        bufferBase[i] := bufferBase[from + i];
      }
      HoldsAfterMove(was, bufferBase[..], buffer, Snap().Avail(), c.input, Snap().Cursor(), from);
      buffer := c.keepBefore;
    }

    method CheckAndMoveAndRead()
      requires Filled() && Snap().Avail() <= c.keepAfter
      modifies this`buffer, this`streamPos, this`taken, this`streamEndWasReached, this`failed, bufferBase
      ensures Filled() && Snap() == MoveAndRead(c, old(Snap()))
    {
      hide Pow2, Holds, LzFinder.ReadBlock;
      if c.blockSize - buffer <= c.keepAfter {
        MoveBlock();
      }
      ReadBlock();
    }

    method SetLimits()
      requires Shape() && cyclicBufferPos <= c.Size()
      modifies this`lenLimit, this`posLimit
      ensures Snap() == LzFinder.SetLimits(c, old(Snap()))
    {
      var limit := MAX_POS - pos;
      var limit2 := c.Size() - cyclicBufferPos;
      if limit2 < limit {
        limit := limit2;
      }
      limit2 := Sub32(streamPos, pos);
      if limit2 <= c.keepAfter {
        if limit2 > 0 {
          limit2 := 1;
        }
      } else {
        limit2 := limit2 - c.keepAfter;
      }
      if limit2 < limit {
        limit := limit2;
      }
      lenLimit := Sub32(streamPos, pos);
      if lenLimit > c.matchMaxLen {
        lenLimit := c.matchMaxLen;
      }
      posLimit := pos + limit;
    }

    static method Normalize3(subValue: UInt32, items: array<UInt32>)
      modifies items
      ensures items[..] == LoweredAll(old(items[..]), subValue)
    {
      for i := 0 to items.Length
        invariant forall k :: 0 <= k < i ==> items[k] == Lowered(old(items[k]), subValue)
        invariant forall k :: i <= k < items.Length ==> items[k] == old(items[k])
      {
        var value := items[i];
        items[i] := if value <= subValue then 0 else value - subValue;
      }
    }

    method Normalize()
      requires Shape() && c.Size() <= pos
      modifies this`pos, this`posLimit, this`streamPos, hash, son
      ensures Snap() == LzFinder.Normalize(c, old(Snap()))
    {
      hide Pow2;
      var subValue := SubValue(c, pos);
      Normalize3(subValue, hash);
      Normalize3(subValue, son);
      posLimit := Sub32(posLimit, subValue);
      pos := pos - subValue;
      streamPos := Sub32(streamPos, subValue);
    }

    method CheckLimits()
      requires Filled() && c.Size() <= pos && cyclicBufferPos <= c.Size()
      modifies this, hash, son, bufferBase
      ensures Filled() && Snap() == LzFinder.CheckLimits(c, old(Snap()))
    {
      hide Pow2, Holds, LzFinder.Normalize, MoveAndRead, LzFinder.SetLimits;
      if pos == MAX_POS {
        NormalizeKeepsReading(c, Snap());
        Normalize();
      }
      if !streamEndWasReached && c.keepAfter == Sub32(streamPos, pos) {
        CheckAndMoveAndRead();
      }
      if cyclicBufferPos == c.Size() {
        cyclicBufferPos := 0;
      }
      SetLimits();
    }

    method MovePos()
      requires Filled() && c.Size() <= pos < MAX_POS && cyclicBufferPos < c.Size() && 0 < Snap().Avail()
      modifies this, hash, son, bufferBase
      ensures Filled() && Snap() == LzFinder.MovePos(c, old(Snap()))
    {
      hide Pow2, LzFinder.CheckLimits;
      cyclicBufferPos, buffer, pos := cyclicBufferPos + 1, buffer + 1, pos + 1;
      if pos == posLimit {
        CheckLimits();
      }
    }

    static method EmptyHeads(hash: array<UInt32>)
      modifies hash
      ensures forall k :: 0 <= k < hash.Length ==> hash[k] == 0
    {
      for i := 0 to hash.Length
        invariant forall k :: 0 <= k < i ==> hash[k] == 0
      {
        hash[i] := 0;
      }
    }

    /** MatchFinder_Init on buffers of any content: the references need no initial value. */
    constructor (c: Config, mode: Mode, bufferBase: array<Byte>, hash: array<UInt32>, son: array<UInt32>)
      requires c.Valid() && bufferBase.Length == c.blockSize
      requires hash.Length == FIX4 + Pow2(c.hashBits) && son.Length == mode.Sons(c)
      requires hash != son && bufferBase as object != hash as object && bufferBase as object != son as object
      modifies hash, bufferBase
      ensures this.c == c && this.mode == mode && this.bufferBase == bufferBase && this.hash == hash && this.son == son
      ensures Valid() && Snap() == M.Init(c, old(son[..])) && Snap().Cursor() == 0
    {
      this.c, this.mode, this.bufferBase, this.hash, this.son := c, mode, bufferBase, hash, son;
      buffer, pos, posLimit, streamPos, lenLimit, cyclicBufferPos := 0, c.Size(), 0, c.Size(), 0, 0;
      streamEndWasReached, failed, taken := false, false, 0;
      new;
      hide Pow2, Sound, Current, M.Init;
      EmptyHeads(hash);
      assert hash[..] == seq(FIX4 + Pow2(c.hashBits), i => 0);
      Start();
    }

    /** The first read. */
    method Start()
      requires Filled() && Snap() == M.Blank(c, son[..])
      modifies this`streamPos, this`taken, this`streamEndWasReached, this`failed, this`lenLimit, this`posLimit,
               bufferBase
      ensures Valid() && Snap() == M.Init(c, old(son[..])) && Snap().Cursor() == 0
    {
      hide Pow2, LzFinder.ReadBlock, LzFinder.SetLimits, Sound, Current, Holds, M.WindowOk;
      ReadBlock();
      SetLimits();
      InitSound(mode, c, old(son[..]));
      InitCurrent(c, old(son[..]));
    }

    // ---- Match calls ----

    /** HASH4_CALC on the next four bytes. */
    method HashCalc() returns (hash2Value: nat, hash3Value: nat, hashValue: nat)
      requires Filled() && 4 <= Snap().Avail() && 0 <= Snap().Cursor()
      ensures hash2Value == Hash2At(c, Snap().Cursor()) && hash3Value == Hash3At(c, Snap().Cursor())
      ensures hashValue == Hash4At(c, Snap().Cursor())
    {
      hide Holds, Hash2, Hash3, Hash4, At, Pow2;
      ghost var cursor, ahead := Snap().Cursor(), Snap().Avail();
      HeldByte(bufferBase, buffer, ahead, c.input, cursor, 0);
      HeldByte(bufferBase, buffer, ahead, c.input, cursor, 1);
      HeldByte(bufferBase, buffer, ahead, c.input, cursor, 2);
      HeldByte(bufferBase, buffer, ahead, c.input, cursor, 3);
      hash2Value := Hash2(c.crc, bufferBase[buffer], bufferBase[buffer + 1]);
      hash3Value := Hash3(c.crc, bufferBase[buffer], bufferBase[buffer + 1], bufferBase[buffer + 2]);
      hashValue := Hash4(c.crc, c.hashBits, bufferBase[buffer], bufferBase[buffer + 1], bufferBase[buffer + 2],
                         bufferBase[buffer + 3]);
    }

    /** A short distance back is inside the buffer, and its first byte is the stream's. */
    lemma HeadByte(delta: UInt32)
      requires Filled() && M.WindowOk(c, Snap()) && 0 < Snap().Avail()
      requires delta < c.Size() ==> delta <= Snap().Cursor()
      ensures Snap().Cursor() >= 0
      ensures delta < c.Size() ==>
                delta <= buffer < bufferBase.Length
                && bufferBase[buffer - delta] == At(c.input, Snap().Cursor() - delta)
                && bufferBase[buffer] == At(c.input, Snap().Cursor())
    {
      hide At, Pow2, Holds;
      if delta < c.Size() {
        HeldByte(bufferBase, buffer, Snap().Avail(), c.input, Snap().Cursor(), 0 - delta);
        HeldByte(bufferBase, buffer, Snap().Avail(), c.input, Snap().Cursor(), 0);
      }
    }

    /** Which short distances hit, by their first bytes alone, and the one to be measured. */
    method FirstHits(delta2: UInt32, delta3: UInt32) returns (distances: seq<Match>, maxLen: nat, delta: UInt32)
      requires Filled() && M.WindowOk(c, Snap()) && 4 <= lenLimit
      requires delta2 < c.Size() ==> delta2 <= Snap().Cursor()
      requires delta3 < c.Size() ==> delta3 <= Snap().Cursor()
      ensures AreFirstHits(c, M.EnvOf(c, Snap()), delta2, delta3, distances, maxLen, delta)
      ensures distances != [] ==> delta < c.Size() && delta <= buffer
    {
      hide At, Pow2, Holds;
      HeadByte(delta2);
      HeadByte(delta3);
      maxLen, distances := 1, [];
      delta := delta2;
      if delta2 < c.Size() && bufferBase[buffer - delta2] == bufferBase[buffer] {
        maxLen := 2;
        distances := [Match(2, Sub32(delta2, 1))];
      }
      if delta2 != delta3 && delta3 < c.Size() && bufferBase[buffer - delta3] == bufferBase[buffer] {
        maxLen := 3;
        distances := distances + [Match(3, Sub32(delta3, 1))];
        delta := delta3;
      }
    }

    /** The short matches of Bt4 and Hc4, from the distances their heads gave. */
    method ShortHits(delta2: UInt32, delta3: UInt32) returns (distances: seq<Match>, maxLen: nat)
      requires Filled() && M.WindowOk(c, Snap()) && 4 <= lenLimit
      requires delta2 < c.Size() ==> delta2 <= Snap().Cursor()
      requires delta3 < c.Size() ==> delta3 <= Snap().Cursor()
      ensures M.Short(distances, maxLen) == M.ShortHits(c, M.EnvOf(c, Snap()), delta2, delta3, lenLimit)
    {
      hide At, Pow2, Holds, Extend, M.HeadHits, M.ShortHits, AreFirstHits;
      var delta;
      distances, maxLen, delta := FirstHits(delta2, delta3);
      ghost var env, ahead := M.EnvOf(c, Snap()), Snap().Avail();
      FirstHitsMeasured(c, env, delta2, delta3, lenLimit, distances, maxLen, delta);
      assert lenLimit <= ahead && Holds(bufferBase[..], buffer, ahead, c.input, env.cursor);
      hide M.WindowOk, Filled;
      if distances != [] {
        maxLen := Compare(bufferBase, buffer, delta, maxLen, lenLimit, ahead, c.input, env.cursor);
        distances := distances[..|distances| - 1] + [Match(maxLen, Sub32(delta, 1))];
      }
    }

    /** Reads the three heads of the current position and makes them name it. */
    method TakeHeads() returns (delta2: UInt32, delta3: UInt32, curMatch: UInt32)
      requires Filled() && M.WindowOk(c, Snap()) && 4 <= lenLimit
      modifies hash
      ensures Snap() == old(Snap()).(hash := Hashed(c, M.EnvOf(c, old(Snap())), old(hash[..])))
      ensures delta2 == Sub32(pos, old(hash[..])[Hash2At(c, Snap().Cursor())])
      ensures delta3 == Sub32(pos, old(hash[..])[FIX3 + Hash3At(c, Snap().Cursor())])
      ensures curMatch == old(hash[..])[FIX4 + Hash4At(c, Snap().Cursor())]
    {
      hide Holds, Hash2At, Hash3At, Hash4At, At, Pow2;
      var hash2Value, hash3Value, hashValue := HashCalc();
      delta2 := Sub32(pos, hash[hash2Value]);
      delta3 := Sub32(pos, hash[FIX3 + hash3Value]);
      curMatch := hash[FIX4 + hashValue];
      hash[hash2Value] := pos;
      hash[FIX3 + hash3Value] := pos;
      hash[FIX4 + hashValue] := pos;
    }

    /** Between the header and MOVE_POS of Bt4_MatchFinder_GetMatches. */
    method Bt4Insert(ghost s: Finder, ghost s1: Finder) returns (distances: seq<Match>)
      requires Valid() && mode.Bt4? && s == Snap() && Ready(mode, c, s) && 4 <= lenLimit && IsInserted(mode, c, s, s1)
      modifies hash, son
      ensures Filled() && Snap() == s1 && distances == M.Bt4Walk(c, s).found
    {
      hide Sub32, Sound, Current, Holds, Pow2, At, Hash2At, Hash3At, Hash4At, Hashed, Hunt, Descend, Visits,
           M.ShortHits;
      ghost var env := M.EnvOf(c, s);
      ghost var tree := StartTree(mode, c, s);
      HeadsInside(mode, c, s);
      var delta2, delta3, curMatch := TakeHeads();
      var maxLen: nat;
      distances, maxLen := ShortHits(delta2, delta3);
      if maxLen == lenLimit {
        SkipMatchesSpec(lenLimit, curMatch, pos, bufferBase, buffer, son, cyclicBufferPos, c.Size(), c.cutValue,
                        env, c.input, s.Avail(), tree);
      } else {
        distances := GetMatchesSpec1(lenLimit, curMatch, pos, bufferBase, buffer, son, cyclicBufferPos, c.Size(),
                                     c.cutValue, distances, if maxLen < 3 then 3 else maxLen, env, c.input,
                                     s.Avail(), tree);
      }
    }

    method Bt4GetMatches() returns (distances: seq<Match>)
      requires Valid() && mode.Bt4? && 0 < Snap().Avail()
      modifies this, hash, son, bufferBase
      ensures Valid() && Ready(mode, c, old(Snap()))
      ensures M.Reply(Snap(), distances) == Answer(mode, c, old(Snap()))
    {
      ghost var s := Snap();
      ghost var s1 := CallUnfolds(mode, c, s);
      hide Sound, Current, Filled, Pow2, IsInserted, LzFinder.MovePos, M.Bt4Walk, Answer, M.WindowOk;
      distances := [];
      if 4 <= lenLimit {
        distances := Bt4Insert(s, s1);
      }
      MovePos();
    }

    /** Between the header and MOVE_POS of Bt4_MatchFinder_Skip. */
    method Bt4InsertQuietly(ghost s: Finder, ghost s1: Finder)
      requires Valid() && mode.Bt4? && s == Snap() && Ready(mode, c, s) && 4 <= lenLimit && IsInserted(mode, c, s, s1)
      modifies hash, son
      ensures Filled() && Snap() == s1
    {
      hide Sound, Current, Holds, Pow2, At, Hash2At, Hash3At, Hash4At, Hashed, Hunt, Descend, Visits, M.Bt4Walk;
      ghost var env := M.EnvOf(c, s);
      ghost var tree := StartTree(mode, c, s);
      var _, _, curMatch := TakeHeads();
      SkipMatchesSpec(lenLimit, curMatch, pos, bufferBase, buffer, son, cyclicBufferPos, c.Size(), c.cutValue,
                      env, c.input, s.Avail(), tree);
      M.WalkRebuilds(c, s);
    }

    method Bt4SkipOne()
      requires Valid() && mode.Bt4? && 0 < Snap().Avail()
      modifies this, hash, son, bufferBase
      ensures Valid() && Ready(mode, c, old(Snap())) && Snap() == Skipped(mode, c, old(Snap()))
    {
      ghost var s := Snap();
      ghost var s1 := CallUnfolds(mode, c, s);
      hide Sound, Current, Filled, Pow2, IsInserted, LzFinder.MovePos, Skipped, M.WindowOk;
      if 4 <= lenLimit {
        Bt4InsertQuietly(s, s1);
      }
      MovePos();
    }

    /** Between the header and MOVE_POS of Hc4_MatchFinder_GetMatches. */
    method Hc4Insert(ghost s: Finder, ghost s1: Finder) returns (distances: seq<Match>)
      requires Valid() && mode.Hc4? && s == Snap() && Ready(mode, c, s) && 4 <= lenLimit && IsInserted(mode, c, s, s1)
      modifies hash, son
      ensures Filled() && Snap() == s1 && distances == H.Hc4Walk(c, s)
    {
      hide Sub32, Sound, Current, Holds, Pow2, At, Hash2At, Hash3At, Hash4At, Hashed, H.Follow, H.Linked, M.ShortHits;
      ghost var env := M.EnvOf(c, s);
      ghost var chain := StartChain(mode, c, s);
      HeadsInside(mode, c, s);
      var delta2, delta3, curMatch := TakeHeads();
      var maxLen: nat;
      distances, maxLen := ShortHits(delta2, delta3);
      if maxLen == lenLimit {
        son[cyclicBufferPos] := curMatch;
      } else {
        distances := FollowChain(lenLimit, curMatch, pos, bufferBase, buffer, son, cyclicBufferPos, c.Size(),
                                 c.cutValue, distances, if maxLen < 3 then 3 else maxLen, env, c.input,
                                 s.Avail(), chain);
      }
    }

    method Hc4GetMatches() returns (distances: seq<Match>)
      requires Valid() && mode.Hc4? && 0 < Snap().Avail()
      modifies this, hash, son, bufferBase
      ensures Valid() && Ready(mode, c, old(Snap()))
      ensures M.Reply(Snap(), distances) == Answer(mode, c, old(Snap()))
    {
      ghost var s := Snap();
      ghost var s1 := CallUnfolds(mode, c, s);
      hide Sound, Current, Filled, Pow2, IsInserted, LzFinder.MovePos, H.Hc4Walk, Answer, M.WindowOk;
      distances := [];
      if 4 <= lenLimit {
        distances := Hc4Insert(s, s1);
      }
      MovePos();
    }

    /** Between the header and MOVE_POS of Hc4_MatchFinder_Skip. */
    method Hc4InsertQuietly(ghost s: Finder, ghost s1: Finder)
      requires Valid() && mode.Hc4? && s == Snap() && Ready(mode, c, s) && 4 <= lenLimit && IsInserted(mode, c, s, s1)
      modifies hash, son
      ensures Filled() && Snap() == s1
    {
      hide Sound, Current, Holds, Pow2, At, Hash2At, Hash3At, Hash4At, Hashed;
      var _, _, curMatch := TakeHeads();
      son[cyclicBufferPos] := curMatch;
    }

    method Hc4SkipOne()
      requires Valid() && mode.Hc4? && 0 < Snap().Avail()
      modifies this, hash, son, bufferBase
      ensures Valid() && Ready(mode, c, old(Snap())) && Snap() == Skipped(mode, c, old(Snap()))
    {
      ghost var s := Snap();
      ghost var s1 := CallUnfolds(mode, c, s);
      hide Sound, Current, Filled, Pow2, IsInserted, LzFinder.MovePos, Skipped, M.WindowOk;
      if 4 <= lenLimit {
        Hc4InsertQuietly(s, s1);
      }
      MovePos();
    }

    /** The vtable's GetMatches: every answer holds only true matches inside the window. */
    method GetMatches() returns (distances: seq<Match>)
      requires Valid() && 0 < Snap().Avail()
      modifies this, hash, son, bufferBase
      ensures Valid() && Ready(mode, c, old(Snap()))
      ensures M.Reply(Snap(), distances) == Answer(mode, c, old(Snap()))
      ensures TrueReport(c, old(Snap().Cursor()), Report(old(Snap().Cursor()), old(lenLimit), distances))
      ensures ShortReport(c, Report(old(Snap().Cursor()), old(lenLimit), distances))
    {
      hide Sound, Holds, Answer, TrueReport, M.WindowOk, Pow2, Current, ShortFound;
      ghost var s := Snap();
      SoundIsReady(mode, c, s);
      AnswerFindsShort(mode, c, s);
      StepReportsTrueMatches(mode, c, s, Call.GetMatches);
      if mode.Bt4? {
        distances := Bt4GetMatches();
      } else {
        distances := Hc4GetMatches();
      }
    }

    /** The vtable's Skip: the positions skipped are inserted one by one. */
    method Skip(num: nat)
      requires Valid() && 1 <= num <= Snap().Avail()
      modifies this, hash, son, bufferBase
      ensures Valid() && SkippedTo(mode, c, old(Snap()), num, Snap())
    {
      hide Sound, Current, Holds, Skipped, M.WindowOk, Pow2, SkippedTo;
      var left := num;
      SkippedNone(mode, c, Snap());
      while left != 0
        invariant left <= num && Valid() && left <= Snap().Avail()
        invariant SkippedTo(mode, c, old(Snap()), num - left, Snap())
        decreases left
      {
        ghost var s := Snap();
        StepKeepsSound(mode, c, s, Call.Skip);
        if mode.Bt4? {
          Bt4SkipOne();
        } else {
          Hc4SkipOne();
        }
        left := left - 1;
        SkippedOneMore(mode, c, old(Snap()), num - left - 1, s, Snap());
      }
    }
  }

  // ---- What Valid gives ----

  /** Each distance that hits is reported by the bytes its hash settles; delta is the last of them. */
  ghost predicate AreFirstHits(c: Config, env: Env, delta2: UInt32, delta3: UInt32, distances: seq<Match>, maxLen: nat,
                               delta: UInt32)
  {
    var hit2, hit3 := M.HeadHits(c, env, delta2), delta2 != delta3 && M.HeadHits(c, env, delta3);
    && distances == (if hit2 then [Match(2, Sub32(delta2, 1))] else [])
                    + (if hit3 then [Match(3, Sub32(delta3, 1))] else [])
    && maxLen == (if hit3 then 3 else if hit2 then 2 else 1) && delta == (if hit3 then delta3 else delta2)
  }

  /** Measuring the last hit gives the short matches. */
  lemma FirstHitsMeasured(c: Config, env: Env, delta2: UInt32, delta3: UInt32, limit: nat, distances: seq<Match>,
                          maxLen: nat, delta: UInt32)
    requires 4 <= limit && AreFirstHits(c, env, delta2, delta3, distances, maxLen, delta)
    ensures if distances == [] then M.ShortHits(c, env, delta2, delta3, limit) == M.Short([], 1) && maxLen == 1
            else
              var len := Extend(c.input, env.cursor - delta, env.cursor, maxLen, limit);
              M.ShortHits(c, env, delta2, delta3, limit)
              == M.Short(distances[..|distances| - 1] + [Match(len, Sub32(delta, 1))], len)
    ensures distances != [] ==> 2 <= maxLen <= 3
  {
    hide At, Extend, Sub32;
  }

  /** A call is MovePos after an insertion, and what it leaves is sound again. */
  lemma CallUnfolds(mode: Mode, c: Config, s: Finder) returns (s1: Finder)
    requires Sound(mode, c, s) && Current(c, s) && 0 < s.Avail()
    ensures Ready(mode, c, s) && c.Size() <= s.pos < MAX_POS && s.cyc < c.Size() && 0 <= s.Cursor()
    ensures if s.lenLimit < 4 then s1 == s else IsInserted(mode, c, s, s1)
    ensures CanMove(c, s1)
    ensures Sound(mode, c, LzFinder.MovePos(c, s1)) && Current(c, LzFinder.MovePos(c, s1))
    ensures Skipped(mode, c, s) == LzFinder.MovePos(c, s1)
    ensures Answer(mode, c, s)
            == M.Reply(LzFinder.MovePos(c, s1),
                       if s.lenLimit < 4 then [] else if mode.Bt4? then M.Bt4Walk(c, s).found else H.Hc4Walk(c, s))
  {
    StepKeepsSound(mode, c, s, Call.GetMatches);
    StepKeepsCurrent(mode, c, s);
    hide *;
    s1 := AnswerUnfolds(mode, c, s);
  }

  /** What the answer is made of, for any state a call may be made in. */
  lemma AnswerUnfolds(mode: Mode, c: Config, s: Finder) returns (s1: Finder)
    requires Ready(mode, c, s)
    ensures c.Size() <= s.pos < MAX_POS && s.cyc < c.Size() && 0 <= s.Cursor() && CanMove(c, s1)
    ensures if s.lenLimit < 4 then s1 == s else IsInserted(mode, c, s, s1)
    ensures Answer(mode, c, s)
            == M.Reply(LzFinder.MovePos(c, s1),
                       if s.lenLimit < 4 then [] else if mode.Bt4? then M.Bt4Walk(c, s).found else H.Hc4Walk(c, s))
  {
    hide M.Bt4Walk, H.Hc4Walk, Hashed, LzFinder.MovePos, Pow2;
    s1 := if s.lenLimit < 4 then s else s.(hash := Hashed(c, M.EnvOf(c, s), s.hash), son := Inserted(mode, c, s));
  }

  ghost predicate CanMove(c: Config, s: Finder) {
    && c.Valid() && c.Size() <= s.pos < MAX_POS && s.cyc < c.Size()
    && s.taken <= |c.input| && 0 < s.Avail() && s.buffer + s.Avail() <= c.blockSize
  }

  /** s1 is s with the current position inserted. */
  ghost predicate IsInserted(mode: Mode, c: Config, s: Finder, s1: Finder)
    requires Ready(mode, c, s) && 4 <= s.lenLimit
  {
    s1 == s.(hash := Hashed(c, M.EnvOf(c, s), s.hash), son := Inserted(mode, c, s))
  }

  /** The references after inserting the current position. */
  ghost function Inserted(mode: Mode, c: Config, s: Finder): seq<UInt32>
    requires Ready(mode, c, s) && 4 <= s.lenLimit
  {
    if mode.Bt4? then M.Bt4Walk(c, s).son else s.son[s.cyc := H.CurMatch(c, s)]
  }

  /** The tree of the current slot, ready to be walked. */
  lemma StartTree(mode: Mode, c: Config, s: Finder) returns (tree: Tree)
    requires mode.Bt4? && Sound(mode, c, s) && 4 <= s.lenLimit
    ensures M.WindowOk(c, s) && |s.hash| == FIX4 + Pow2(c.hashBits)
    ensures Visits(c.input, M.EnvOf(c, s), StartPoint(c, M.EnvOf(c, s), s.hash, s.son), tree, s.lenLimit, None, None)
  {
    hide HeadsOk, TreeOk, Visits, Hash4At, Pow2;
    var forest :| M.StateOk(c, s, forest);
    var env, h := M.EnvOf(c, s), Hash4At(c, s.Cursor());
    tree := forest[h];
    StartVisits(c, env, s.son, s.hash[FIX4 + h], tree, h, s.lenLimit);
  }

  lemma StartChain(mode: Mode, c: Config, s: Finder) returns (chain: seq<nat>)
    requires mode.Hc4? && Sound(mode, c, s) && 4 <= s.lenLimit
    ensures M.WindowOk(c, s) && |s.hash| == FIX4 + Pow2(c.hashBits) && |s.son| == c.Size()
    ensures H.Linked(s.son, M.EnvOf(c, s), s.hash[FIX4 + Hash4At(c, s.Cursor())], chain)
  {
    hide HeadsOk, H.Linked, Hash4At, Pow2;
    var chains :| H.StateOk(c, s, chains);
    chain := chains[Hash4At(c, s.Cursor())];
  }

  /** A head inside the window names a real position. */
  lemma HeadsInside(mode: Mode, c: Config, s: Finder)
    requires Sound(mode, c, s) && 4 <= s.lenLimit
    ensures M.WindowOk(c, s) && |s.hash| == FIX4 + Pow2(c.hashBits)
    ensures var delta := Sub32(s.pos, s.hash[Hash2At(c, s.Cursor())]); delta < c.Size() ==> delta <= s.Cursor()
    ensures var delta := Sub32(s.pos, s.hash[FIX3 + Hash3At(c, s.Cursor())]); delta < c.Size() ==> delta <= s.Cursor()
  {
    hide TreesOk, H.ChainsOk, Hash2At, Hash3At, Hash4At, Pow2;
    var env := M.EnvOf(c, s);
    assert HeadsOk(c, env, s.hash);
    assert Head2Ok(c, env, s.hash, Hash2At(c, s.Cursor())) && Head3Ok(c, env, s.hash, Hash3At(c, s.Cursor()));
  }

  /** s' is reached from s by skipping num positions. */
  ghost predicate SkippedTo(mode: Mode, c: Config, s: Finder, num: nat, s': Finder)
    decreases num
  {
    if num == 0 then s' == s
    else Ready(mode, c, s) && SkippedTo(mode, c, Skipped(mode, c, s), num - 1, s')
  }

  lemma SkippedNone(mode: Mode, c: Config, s: Finder)
    ensures SkippedTo(mode, c, s, 0, s)
  {
  }

  lemma {:induction false} SkippedOneMore(mode: Mode, c: Config, s: Finder, num: nat, mid: Finder, s': Finder)
    requires SkippedTo(mode, c, s, num, mid) && Ready(mode, c, mid) && s' == Skipped(mode, c, mid)
    ensures SkippedTo(mode, c, s, num + 1, s')
    decreases num
  {
    hide Ready, Skipped;
    if num == 0 {
      SkippedNone(mode, c, s');
    } else {
      SkippedOneMore(mode, c, Skipped(mode, c, s), num - 1, mid, s');
    }
  }

  lemma HoldsAfterRead(base: seq<Byte>, base': seq<Byte>, buffer: nat, ahead: nat, text: seq<Byte>, cursor: int,
                       size: nat)
    requires Holds(base, buffer, ahead, text, cursor) && |base'| == |base| && buffer + ahead + size <= |base|
    requires cursor + ahead + size <= |text|
    requires forall k :: 0 <= k < buffer + ahead ==> base'[k] == base[k]
    requires forall k :: buffer + ahead <= k < buffer + ahead + size ==> base'[k] == text[cursor - buffer + k]
    ensures Holds(base', buffer, ahead + size, text, cursor)
  {
  }

  lemma HoldsAfterMove(base: seq<Byte>, base': seq<Byte>, buffer: nat, ahead: nat, text: seq<Byte>, cursor: int,
                       from: nat)
    requires Holds(base, buffer, ahead, text, cursor) && |base'| == |base| && from <= buffer
    requires forall k :: 0 <= k < buffer - from + ahead ==> base'[k] == base[from + k]
    ensures Holds(base', buffer - from, ahead, text, cursor)
  {
    forall k | 0 <= k < buffer - from + ahead
      ensures base'[k] == At(text, cursor - (buffer - from) + k)
    {
      assert base[from + k] == At(text, cursor - buffer + (from + k));
    }
  }

  /** Lowering the references moves neither the cursor nor what has been read ahead. */
  lemma NormalizeKeepsReading(c: Config, s: Finder)
    requires c.Valid() && s.pos == MAX_POS
    ensures var s' := LzFinder.Normalize(c, s);
            && s'.Avail() == s.Avail() && s'.Cursor() == s.Cursor()
            && s'.buffer == s.buffer && s'.taken == s.taken && s'.cyc == s.cyc && c.Size() <= s'.pos
            && |s'.hash| == |s.hash| && |s'.son| == |s.son| && s'.ended == s.ended
  {
  }

  predicate CanRead(c: Config, s: Finder) {
    s.taken <= |c.input| && s.buffer + s.Avail() <= c.blockSize
  }

  ghost predicate ReadTurn(c: Config, s: Finder, s': Finder, done: bool)
  {
    c.Valid() && CanRead(c, s) && CanRead(c, s')
    && (if done then s' == ReadLoop(c, s)
        else s.Avail() < s'.Avail() && s.buffer == s'.buffer && ReadLoop(c, s') == ReadLoop(c, s))
  }

  lemma ReadLoopUnfolds(c: Config, s: Finder)
    requires c.Valid() && CanRead(c, s)
    ensures var room := c.blockSize - s.buffer - s.Avail();
            var chunk := c.reader(s.taken, room);
            && (chunk.Got? ==> chunk.count <= room && s.taken + chunk.count <= |c.input|)
            && (if room == 0 then ReadLoop(c, s) == s
                else if chunk.Failed? then ReadLoop(c, s) == s.(failed := true)
                else if chunk.count == 0 then ReadLoop(c, s) == s.(ended := true)
                else
                  var s1 := s.(streamPos := Add32(s.streamPos, chunk.count), taken := s.taken + chunk.count);
                  && s1.Avail() == s.Avail() + chunk.count
                  && ReadLoop(c, s) == if s1.Avail() > c.keepAfter then s1 else ReadLoop(c, s1))
  {
    var room := c.blockSize - s.buffer - s.Avail();
    var chunk := c.reader(s.taken, room);
    if chunk.Got? {
      AddSub32(s.streamPos, s.pos, chunk.count);
    }
  }
}
