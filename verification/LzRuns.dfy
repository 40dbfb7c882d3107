// lib/lzma/C/LzFind.c: whole runs of match calls, with either match finder.
module LzRuns {
  import opened Arithmetic
  import opened LzHash
  import opened LzTree
  import opened LzDescent
  import opened LzFinder
  import opened LzIndex
  import M = LzMatches
  import H = LzChain

  /** btMode with numHashBytes 4, or hash chains. */
  datatype Mode = Bt4 | Hc4 {
    /** numSons. */
    function Sons(c: Config): nat {
      if Bt4? then 2 * c.Size() else c.Size()
    }
  }

  datatype Call = GetMatches | Skip

  /** Some forest, or some family of chains, explains the state. */
  ghost predicate Sound(mode: Mode, c: Config, s: Finder) {
    match mode
    case Bt4 => exists forest :: M.StateOk(c, s, forest)
    case Hc4 => exists chains :: H.StateOk(c, s, chains)
  }

  ghost predicate Ready(mode: Mode, c: Config, s: Finder) {
    M.WindowOk(c, s) && 0 < s.Avail() && |s.son| == mode.Sons(c) && |s.hash| == FIX4 + Pow2(c.hashBits)
  }

  function Answer(mode: Mode, c: Config, s: Finder): M.Reply
    requires Ready(mode, c, s)
  {
    if mode.Bt4? then M.Bt4GetMatches(c, s) else H.Hc4GetMatches(c, s)
  }

  function Skipped(mode: Mode, c: Config, s: Finder): Finder
    requires Ready(mode, c, s)
  {
    if mode.Bt4? then M.Bt4Skip(c, s) else H.Hc4Skip(c, s)
  }

  function Step(mode: Mode, c: Config, s: Finder, call: Call): M.Reply
    requires Ready(mode, c, s)
  {
    if call.GetMatches? then Answer(mode, c, s) else M.Reply(Skipped(mode, c, s), [])
  }

  /** Init leads to a sound state, whatever the son array held. */
  lemma InitSound(mode: Mode, c: Config, son: seq<UInt32>)
    requires c.Valid() && |son| == mode.Sons(c)
    ensures Sound(mode, c, M.Init(c, son)) && M.Init(c, son).Cursor() == 0 && M.WindowOk(c, M.Init(c, son))
  {
    if mode.Bt4? {
      M.InitOk(c, son);
      assert M.StateOk(c, M.Init(c, son), M.NoTrees(c));
    } else {
      H.InitOk(c, son);
      assert H.StateOk(c, M.Init(c, son), H.NoChains(c));
    }
  }

  lemma SoundIsReady(mode: Mode, c: Config, s: Finder)
    requires Sound(mode, c, s)
    ensures M.WindowOk(c, s) && (0 < s.Avail() ==> Ready(mode, c, s))
  {
    hide HeadsOk, TreesOk, H.ChainsOk, Pow2;
  }

  /** Every call, of either kind, keeps the state sound and moves on by one byte; both kinds leave the same state. */
  lemma StepKeepsSound(mode: Mode, c: Config, s: Finder, call: Call)
    requires Sound(mode, c, s) && 0 < s.Avail()
    ensures Ready(mode, c, s)
    ensures var s' := Step(mode, c, s, call).state;
            && Sound(mode, c, s') && s' == Skipped(mode, c, s)
            && s'.Cursor() == s.Cursor() + 1 && s.Avail() - 1 <= s'.Avail()
  {
    SoundIsReady(mode, c, s);
    hide HeadsOk, TreesOk, H.ChainsOk, M.Bt4GetMatches, M.Bt4Skip, H.Hc4GetMatches, H.Hc4Skip, Pow2, M.WindowOk;
    if mode.Bt4? {
      var forest :| M.StateOk(c, s, forest);
      M.SkipKeepsState(c, s, forest);
      M.SkipMatchesGet(c, s);
    } else {
      var chains :| H.StateOk(c, s, chains);
      H.SkipKeepsState(c, s, chains);
      H.SkipMatchesGet(c, s);
    }
  }

  /** A match call made at stream position `cursor` with `limit` bytes to look at, and its answer. */
  datatype Report = Report(cursor: int, limit: nat, found: seq<Match>)

  /** The reports of a run. The caller stops when no byte lies ahead. */
  ghost function Run(mode: Mode, c: Config, s: Finder, calls: seq<Call>): seq<Report>
    requires Sound(mode, c, s)
    decreases calls
  {
    if calls == [] || s.Avail() == 0 then []
    else
      StepKeepsSound(mode, c, s, calls[0]);
      var reply := Step(mode, c, s, calls[0]);
      [Report(s.Cursor(), s.lenLimit, reply.found)] + Run(mode, c, reply.state, calls[1..])
  }

  /** Reports from stream position `first` on, one per byte, all of them true inside the window. */
  ghost predicate TrueReports(c: Config, first: int, reports: seq<Report>) {
    forall i :: 0 <= i < |reports| ==> TrueReport(c, first + i, reports[i])
  }

  ghost predicate TrueReport(c: Config, at: int, r: Report) {
    r.cursor == at && 0 <= at && at + r.limit <= |c.input|
    && GoodMatches(c.input, at, at - c.historySize, r.found, r.limit)
  }

  lemma StepReportsTrueMatches(mode: Mode, c: Config, s: Finder, call: Call)
    requires Sound(mode, c, s) && 0 < s.Avail() && Ready(mode, c, s)
    ensures TrueReport(c, s.Cursor(), Report(s.Cursor(), s.lenLimit, Step(mode, c, s, call).found))
  {
    hide HeadsOk, TreesOk, H.ChainsOk, M.Bt4GetMatches, H.Hc4GetMatches, Pow2, GoodMatches;
    if mode.Bt4? {
      var forest :| M.StateOk(c, s, forest);
      M.GetReportsTrueMatches(c, s, forest);
    } else {
      var chains :| H.StateOk(c, s, chains);
      H.GetReportsTrueMatches(c, s, chains);
    }
    M.NothingIsGood(c.input, s.Cursor(), s.Cursor() - c.historySize, s.lenLimit);
  }

  lemma {:induction false} RunReportsTrueMatches(mode: Mode, c: Config, s: Finder, calls: seq<Call>)
    requires Sound(mode, c, s)
    ensures TrueReports(c, s.Cursor(), Run(mode, c, s, calls))
    decreases calls
  {
    hide Step, TrueReport, Sound, M.WindowOk;
    if calls != [] && s.Avail() != 0 {
      StepKeepsSound(mode, c, s, calls[0]);
      StepReportsTrueMatches(mode, c, s, calls[0]);
      var reply := Step(mode, c, s, calls[0]);
      RunReportsTrueMatches(mode, c, reply.state, calls[1..]);
      var rest := Run(mode, c, reply.state, calls[1..]);
      forall i | 0 <= i < |Run(mode, c, s, calls)|
        ensures TrueReport(c, s.Cursor() + i, Run(mode, c, s, calls)[i])
      {
        if i > 0 {
          assert TrueReport(c, reply.state.Cursor() + (i - 1), rest[i - 1]);
        }
      }
    }
  }

  /** Every report of every run from Init is true, whatever the son array held and however the stream is read. */
  lemma EveryRunIsTrue(mode: Mode, c: Config, son: seq<UInt32>, calls: seq<Call>)
    requires c.Valid() && |son| == mode.Sons(c)
    ensures Sound(mode, c, M.Init(c, son))
    ensures TrueReports(c, 0, Run(mode, c, M.Init(c, son), calls))
  {
    InitSound(mode, c, son);
    RunReportsTrueMatches(mode, c, M.Init(c, son), calls);
  }

  // ---- What the calls look at ----

  /** The stream gives something wherever it has more. */
  ghost predicate Delivers(c: Config) {
    forall offset: nat, room: nat :: offset < |c.input| && 0 < room ==>
                                       c.reader(offset, room).Got? && 0 < c.reader(offset, room).count
  }

  /** Then every call can look at as many bytes as a match may have, or at all the stream has left. */
  lemma LooksAhead(c: Config, s: Finder)
    requires M.WindowOk(c, s) && Delivers(c)
    ensures s.lenLimit == Min(|c.input| - s.Cursor(), c.matchMaxLen)
    ensures s.Avail() == 0 <==> s.Cursor() == |c.input|
  {
    if s.ended {
      var room: nat :| 0 < room && c.reader(s.taken, room) == Got(0);
    } else if s.failed {
      var room: nat :| 0 < room && c.reader(s.taken, room) == Failed;
    }
  }

  /** One report for each call while bytes are left, each with such a limit. */
  ghost predicate SeesAll(c: Config, first: int, calls: nat, reports: seq<Report>)
    requires 0 <= first <= |c.input|
  {
    && |reports| == Min(calls, |c.input| - first)
    && forall i :: 0 <= i < |reports| ==> reports[i].limit == Min(|c.input| - first - i, c.matchMaxLen)
  }

  lemma {:induction false} RunSeesAll(mode: Mode, c: Config, s: Finder, calls: seq<Call>)
    requires Sound(mode, c, s) && Delivers(c)
    ensures 0 <= s.Cursor() <= |c.input| && SeesAll(c, s.Cursor(), |calls|, Run(mode, c, s, calls))
    decreases calls
  {
    hide *;
    CanLook(mode, c, s);
    if calls == [] || s.Avail() == 0 {
      RunEnds(mode, c, s, calls);
      NoneLeft(c, s.Cursor(), |calls|);
    } else {
      var rest := RunBegins(mode, c, s, calls);
      RunSeesAll(mode, c, rest, calls[1..]);
      OneMoreSeen(c, s.Cursor(), |calls|, Run(mode, c, s, calls)[0], Run(mode, c, rest, calls[1..]));
    }
  }

  lemma RunEnds(mode: Mode, c: Config, s: Finder, calls: seq<Call>)
    requires Sound(mode, c, s) && (calls == [] || s.Avail() == 0)
    ensures Run(mode, c, s, calls) == []
  {
    hide Sound;
  }

  lemma RunBegins(mode: Mode, c: Config, s: Finder, calls: seq<Call>) returns (rest: Finder)
    requires Sound(mode, c, s) && 0 < s.Avail() && calls != []
    ensures Sound(mode, c, rest) && rest.Cursor() == s.Cursor() + 1 && Run(mode, c, s, calls) != []
    ensures Run(mode, c, s, calls)[0].limit == s.lenLimit
    ensures Run(mode, c, s, calls) == [Run(mode, c, s, calls)[0]] + Run(mode, c, rest, calls[1..])
  {
    hide Step, Sound, Ready, Skipped, M.WindowOk;
    StepKeepsSound(mode, c, s, calls[0]);
    rest := Step(mode, c, s, calls[0]).state;
  }

  lemma CanLook(mode: Mode, c: Config, s: Finder)
    requires Sound(mode, c, s) && Delivers(c)
    ensures 0 <= s.Cursor() <= |c.input| && s.lenLimit == Min(|c.input| - s.Cursor(), c.matchMaxLen)
    ensures s.Avail() == 0 <==> s.Cursor() == |c.input|
  {
    SoundIsReady(mode, c, s);
    LooksAhead(c, s);
  }

  lemma NoneLeft(c: Config, first: int, calls: nat)
    requires 0 <= first <= |c.input| && (calls == 0 || first == |c.input|)
    ensures SeesAll(c, first, calls, [])
  {
  }

  lemma OneMoreSeen(c: Config, first: int, calls: nat, r: Report, rest: seq<Report>)
    requires 0 <= first < |c.input| && 0 < calls && r.limit == Min(|c.input| - first, c.matchMaxLen)
    requires SeesAll(c, first + 1, calls - 1, rest)
    ensures SeesAll(c, first, calls, [r] + rest)
  {
  }

  /** From Init on, a run over such a stream answers one call for each byte, to the last. */
  lemma EveryRunSeesAll(mode: Mode, c: Config, son: seq<UInt32>, calls: seq<Call>)
    requires c.Valid() && |son| == mode.Sons(c) && Delivers(c)
    ensures Sound(mode, c, M.Init(c, son)) && SeesAll(c, 0, |calls|, Run(mode, c, M.Init(c, son), calls))
  {
    InitSound(mode, c, son);
    RunSeesAll(mode, c, M.Init(c, son), calls);
  }
}
