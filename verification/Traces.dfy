/** Traces of events, the blocks a per-process signature sees, and the order in which the engine
    replays process logs. */
module Traces {
  import opened PyModel

  /** The maximal run of events of one process that ends the trace. */
  ghost function LastBlock<C>(t: seq<Event<C>>): (b: seq<Event<C>>)
    ensures t != [] ==> b != [] && Last(b) == Last(t)
  {
    if |t| <= 1 then t
    else if t[|t| - 2].proc == Last(t).proc then LastBlock(Front(t)) + [Last(t)]
    else [Last(t)]
  }

  /** The block that an event of process p would continue. */
  ghost function BlockBefore<C>(t: seq<Event<C>>, p: Process): seq<Event<C>> {
    if t != [] && Last(t).proc == p then LastBlock(t) else []
  }

  /** How one more event changes the last block: it joins the block of its own process or opens a
      new one. */
  lemma LastBlockSnoc<C>(t: seq<Event<C>>, e: Event<C>)
    ensures LastBlock(t + [e]) == BlockBefore(t, e.proc) + [e]
  {
    assert Front(t + [e]) == t;
    assert [] + [e] == [e];
  }

  ghost predicate Uniform<C>(b: seq<Event<C>>, p: Process) {
    forall i :: 0 <= i < |b| ==> b[i].proc == p
  }

  ghost predicate IsMaximalRun<C>(t: seq<Event<C>>, b: seq<Event<C>>) {
    && |b| <= |t|
    && t[|t| - |b|..] == b
    && (t != [] ==> b != [] && Uniform(b, Last(t).proc))
    && (|b| < |t| ==> t[|t| - |b| - 1].proc != Last(t).proc)
  }

  lemma {:induction false} LastBlockIsRun<C>(t: seq<Event<C>>)
    ensures IsMaximalRun(t, LastBlock(t))
  {
    if |t| > 1 && t[|t| - 2].proc == Last(t).proc { LastBlockIsRun(Front(t)); }
  }

  lemma MaximalRunUnique<C>(t: seq<Event<C>>, b: seq<Event<C>>, c: seq<Event<C>>)
    requires IsMaximalRun(t, b) && IsMaximalRun(t, c)
    ensures b == c
  {
    assert |b| == |c|;
  }

  /** `LastBlock` is the maximal same-process suffix, and nothing else is. */
  lemma LastBlockIsMaximalRun<C>(t: seq<Event<C>>, b: seq<Event<C>>)
    ensures IsMaximalRun(t, b) <==> b == LastBlock(t)
  {
    LastBlockIsRun(t);
    if IsMaximalRun(t, b) { MaximalRunUnique(t, b, LastBlock(t)); }
  }

  /** A block is its own last block, so restarting a signature on it loses nothing. */
  lemma LastBlockIdempotent<C>(t: seq<Event<C>>)
    ensures LastBlock(LastBlock(t)) == LastBlock(t)
  {
    LastBlockIsMaximalRun(t, LastBlock(t));
    LastBlockIsMaximalRun(LastBlock(t), LastBlock(t));
  }

  /** Everything a block-local signature gets to look at while the trace is streamed: the block seen
      so far, after each event. */
  ghost function Views<C>(t: seq<Event<C>>): set<seq<Event<C>>> {
    set k | 0 < k <= |t| :: LastBlock(t[..k])
  }

  lemma ViewsSnoc<C>(t: seq<Event<C>>, e: Event<C>)
    ensures Views(t + [e]) == Views(t) + {LastBlock(t + [e])}
  {
    hide LastBlock;
    var u := t + [e];
    forall v | v in Views(t) ensures v in Views(u) {
      var k :| 0 < k <= |t| && v == LastBlock(t[..k]);
      assert u[..k] == t[..k];
    }
    assert u[..|u|] == u;
    forall v | v in Views(u) ensures v in Views(t) + {LastBlock(u)} {
      var k :| 0 < k <= |u| && v == LastBlock(u[..k]);
      if k <= |t| { assert u[..k] == t[..k]; }
    }
  }

  /** The trace cut into its maximal same-process runs. */
  ghost function Blocks<C>(t: seq<Event<C>>): (bs: seq<seq<Event<C>>>)
    ensures t != [] ==> bs != []
  {
    if t == [] then []
    else if |t| > 1 && t[|t| - 2].proc == Last(t).proc then
      var bs := Blocks(Front(t));
      Front(bs) + [Last(bs) + [Last(t)]]
    else Blocks(Front(t)) + [[Last(t)]]
  }

  lemma {:induction false} BlocksEndInLastBlock<C>(t: seq<Event<C>>)
    requires t != []
    ensures Last(Blocks(t)) == LastBlock(t)
  {
    if |t| > 1 && t[|t| - 2].proc == Last(t).proc { BlocksEndInLastBlock(Front(t)); }
  }

  ghost function Concat<C>(bs: seq<seq<Event<C>>>): seq<Event<C>> {
    if bs == [] then [] else Concat(Front(bs)) + Last(bs)
  }

  lemma ConcatSnoc<C>(bs: seq<seq<Event<C>>>, b: seq<Event<C>>)
    ensures Concat(bs + [b]) == Concat(bs) + b
  {
    assert Front(bs + [b]) == bs;
  }

  lemma ConcatExtend<C>(bs: seq<seq<Event<C>>>, e: Event<C>)
    requires bs != []
    ensures Concat(Front(bs) + [Last(bs) + [e]]) == Concat(bs) + [e]
  {
    ConcatSnoc(Front(bs), Last(bs) + [e]);
  }

  /** The nonempty prefixes of the given blocks. */
  ghost function Prefixes<C>(bs: seq<seq<Event<C>>>): set<seq<Event<C>>> {
    set i, j | 0 <= i < |bs| && 0 < j <= |bs[i]| :: bs[i][..j]
  }

  lemma PrefixesSnoc<C>(bs: seq<seq<Event<C>>>, b: seq<Event<C>>)
    ensures Prefixes(bs + [b]) == Prefixes(bs) + Prefixes([b])
  {
    var cs := bs + [b];
    forall v | v in Prefixes(cs) ensures v in Prefixes(bs) + Prefixes([b]) {
      var i, j :| 0 <= i < |cs| && 0 < j <= |cs[i]| && v == cs[i][..j];
      if i < |bs| {
        assert bs[i][..j] == v;
      } else {
        assert [b][0][..j] == v;
      }
    }
    forall v | v in Prefixes(bs) ensures v in Prefixes(cs) {
      var i, j :| 0 <= i < |bs| && 0 < j <= |bs[i]| && v == bs[i][..j];
      assert cs[i][..j] == v;
    }
    forall v | v in Prefixes([b]) ensures v in Prefixes(cs) {
      var i, j :| 0 <= i < 1 && 0 < j <= |[b][i]| && v == [b][i][..j];
      assert cs[|bs|][..j] == v;
    }
  }

  lemma PrefixesExtend<C>(b: seq<Event<C>>, e: Event<C>)
    ensures Prefixes([b + [e]]) == Prefixes([b]) + {b + [e]}
  {
    var c := b + [e];
    assert [c][0][..|c|] == c;
    forall v | v in Prefixes([c]) ensures v in Prefixes([b]) + {c} {
      var i, j :| 0 <= i < 1 && 0 < j <= |[c][i]| && v == [c][i][..j];
      if j <= |b| { assert [b][0][..j] == v; }
    }
    forall v | v in Prefixes([b]) ensures v in Prefixes([c]) {
      var i, j :| 0 <= i < 1 && 0 < j <= |[b][i]| && v == [b][i][..j];
      assert [c][0][..j] == v;
    }
  }

  /** Every block is a nonempty run of one process, and the next block is another process's. */
  ghost predicate AreRuns<C>(bs: seq<seq<Event<C>>>) {
    && (forall i :: 0 <= i < |bs| ==> bs[i] != [] && Uniform(bs[i], Last(bs[i]).proc))
    && (forall i, j :: 0 <= i && j == i + 1 && j < |bs| ==> Last(bs[i]).proc != Last(bs[j]).proc)
  }

  /** The blocks are the maximal runs of the trace, in order. */
  lemma BlocksPartition<C>(t: seq<Event<C>>)
    ensures Concat(Blocks(t)) == t && AreRuns(Blocks(t))
  {
    BlocksConcat(t);
    BlocksAreRuns(t);
  }

  lemma {:induction false} BlocksAreRuns<C>(t: seq<Event<C>>)
    ensures AreRuns(Blocks(t))
    ensures t != [] ==> Last(Last(Blocks(t))) == Last(t)
  {
    if t != [] {
      BlocksAreRuns(Front(t));
      var bs, e := Blocks(Front(t)), Last(t);
      if |t| > 1 && t[|t| - 2].proc == e.proc {
        RunsGrow(bs, e);
      } else {
        RunsOpen(bs, e);
      }
    }
  }

  lemma RunsGrow<C>(bs: seq<seq<Event<C>>>, e: Event<C>)
    requires bs != [] && AreRuns(bs) && Last(Last(bs)).proc == e.proc
    ensures AreRuns(Front(bs) + [Last(bs) + [e]])
  {
  }

  lemma RunsOpen<C>(bs: seq<seq<Event<C>>>, e: Event<C>)
    requires AreRuns(bs) && (bs != [] ==> Last(bs) != [] && Last(Last(bs)).proc != e.proc)
    ensures AreRuns(bs + [[e]])
  {
  }

  lemma {:induction false} BlocksConcat<C>(t: seq<Event<C>>)
    ensures Concat(Blocks(t)) == t
  {
    if t != [] {
      BlocksConcat(Front(t));
      var bs, e := Blocks(Front(t)), Last(t);
      assert t == Front(t) + [e];
      assert Blocks(t) == if |t| > 1 && t[|t| - 2].proc == e.proc then Front(bs) + [Last(bs) + [e]] else bs + [[e]];
      hide Blocks, Concat;
      if |t| > 1 && t[|t| - 2].proc == e.proc {
        ConcatExtend(bs, e);
      } else {
        ConcatSnoc(bs, [e]);
      }
    }
  }

  lemma PrefixesOpenBlock<C>(bs: seq<seq<Event<C>>>, e: Event<C>)
    ensures Prefixes(bs + [[e]]) == Prefixes(bs) + {[e]}
  {
    var nothing: seq<Event<C>> := [];
    PrefixesSnoc(bs, [e]);
    PrefixesExtend(nothing, e);
    assert Prefixes([nothing]) == {};
    assert [] + [e] == [e];
  }

  lemma PrefixesGrowBlock<C>(bs: seq<seq<Event<C>>>, e: Event<C>)
    requires bs != []
    ensures Prefixes(Front(bs) + [Last(bs) + [e]]) == Prefixes(bs) + {Last(bs) + [e]}
  {
    assert bs == Front(bs) + [Last(bs)];
    PrefixesSnoc(Front(bs), Last(bs));
    PrefixesSnoc(Front(bs), Last(bs) + [e]);
    PrefixesExtend(Last(bs), e);
  }

  /** Block locality: what a block-local signature sees over the whole trace is exactly what it sees
      when every block is replayed on its own. */
  lemma {:induction false} BlockLocality<C>(t: seq<Event<C>>)
    ensures Views(t) == Prefixes(Blocks(t))
  {
    if t != [] {
      var u, e := Front(t), Last(t);
      BlockLocality(u);
      assert u + [e] == t;
      ViewsSnoc(u, e);
      BlocksEndInLastBlock(t);
      if |t| > 1 && t[|t| - 2].proc == e.proc {
        PrefixesGrowBlock(Blocks(u), e);
      } else {
        PrefixesOpenBlock(Blocks(u), e);
      }
    }
  }

  // ---- the engine's replay order ----

  ghost function LogEvents<C>(log: ProcessLog<C>): seq<Event<C>> {
    seq(|log.calls|, i requires 0 <= i < |log.calls| => Event(log.proc, log.calls[i]))
  }

  ghost function AllLogs<C>(logs: seq<ProcessLog<C>>): seq<seq<Event<C>>> {
    seq(|logs|, i requires 0 <= i < |logs| => LogEvents(logs[i]))
  }

  /** The trace the engine streams: process after process, each with its calls in order. */
  ghost function Replayed<C>(logs: seq<ProcessLog<C>>): seq<Event<C>> {
    if logs == [] then [] else Replayed(Front(logs)) + LogEvents(Last(logs))
  }

  /** The engine keeps one entry per process id. */
  ghost predicate DistinctProcesses<C>(logs: seq<ProcessLog<C>>) {
    forall i, j :: 0 <= i < j < |logs| ==> logs[i].proc != logs[j].proc
  }

  lemma {:induction false} ReplayedComesFromLogs<C>(logs: seq<ProcessLog<C>>, p: Process)
    requires forall i :: 0 <= i < |logs| ==> logs[i].proc != p
    ensures forall i :: 0 <= i < |Replayed(logs)| ==> Replayed(logs)[i].proc != p
  {
    if logs != [] { ReplayedComesFromLogs(Front(logs), p); }
  }

  lemma LastBlockAppend<C>(t: seq<Event<C>>, b: seq<Event<C>>, p: Process)
    requires Uniform(b, p) && b != []
    requires t == [] || Last(t).proc != p
    ensures LastBlock(t + b) == b
  {
    assert IsMaximalRun(t + b, b);
    LastBlockIsMaximalRun(t + b, b);
  }

  lemma ViewsAppendEvent<C>(t: seq<Event<C>>, b: seq<Event<C>>, e: Event<C>)
    requires Views(t + b) == Views(t) + Prefixes([b])
    requires LastBlock(t + (b + [e])) == b + [e]
    ensures Views(t + (b + [e])) == Views(t) + Prefixes([b + [e]])
  {
    ViewsSnoc(t + b, e);
    PrefixesExtend(b, e);
    assert t + (b + [e]) == (t + b) + [e];
  }

  lemma {:induction false} ViewsAppendLog<C>(t: seq<Event<C>>, b: seq<Event<C>>, p: Process)
    requires Uniform(b, p)
    requires t == [] || Last(t).proc != p
    ensures Views(t + b) == Views(t) + Prefixes([b])
  {
    if b == [] {
      assert t + b == t;
      assert Prefixes([b]) == {};
    } else {
      ViewsAppendLog(t, Front(b), p);
      assert Front(b) + [Last(b)] == b;
      LastBlockAppend(t, b, p);
      ViewsAppendEvent(t, Front(b), Last(b));
    }
  }

  /** What a block-local signature sees in the engine: the nonempty prefixes of each process's own
      log, whatever the other processes did. */
  lemma {:induction false} EngineLocality<C>(logs: seq<ProcessLog<C>>)
    requires DistinctProcesses(logs)
    ensures Views(Replayed(logs)) == Prefixes(AllLogs(logs))
  {
    if logs != [] {
      var front, log := Front(logs), Last(logs);
      EngineLocality(front);
      ReplayedComesFromLogs(front, log.proc);
      ViewsAppendLog(Replayed(front), LogEvents(log), log.proc);
      assert AllLogs(logs) == AllLogs(front) + [LogEvents(log)];
      PrefixesSnoc(AllLogs(front), LogEvents(log));
    }
  }

  lemma BlocksSnoc<C>(t: seq<Event<C>>, e: Event<C>)
    ensures var bs := Blocks(t);
      Blocks(t + [e]) ==
      if t != [] && Last(t).proc == e.proc then Front(bs) + [Last(bs) + [e]] else bs + [[e]]
  {
    assert Front(t + [e]) == t;
  }

  lemma {:induction false} BlocksAppendLog<C>(t: seq<Event<C>>, b: seq<Event<C>>, p: Process)
    requires Uniform(b, p) && b != []
    requires t == [] || Last(t).proc != p
    ensures Blocks(t + b) == Blocks(t) + [b]
  {
    hide Blocks;
    var f, e := Front(b), Last(b);
    assert t + b == (t + f) + [e] && f + [e] == b;
    BlocksSnoc(t + f, e);
    if f == [] {
      assert t + f == t;
    } else {
      BlocksAppendLog(t, f, p);
      assert Last(t + f) == Last(f);
    }
  }

  ghost function NonEmpty<C>(bs: seq<seq<Event<C>>>): seq<seq<Event<C>>> {
    if bs == [] then [] else if Last(bs) == [] then NonEmpty(Front(bs)) else NonEmpty(Front(bs)) + [Last(bs)]
  }

  /** The blocks of the replayed trace are the logs that hold any call. */
  lemma {:induction false} BlocksOfReplay<C>(logs: seq<ProcessLog<C>>)
    requires DistinctProcesses(logs)
    ensures Blocks(Replayed(logs)) == NonEmpty(AllLogs(logs))
  {
    if logs != [] {
      var front, log := Front(logs), Last(logs);
      BlocksOfReplay(front);
      ReplayedComesFromLogs(front, log.proc);
      assert Front(AllLogs(logs)) == AllLogs(front) && Last(AllLogs(logs)) == LogEvents(log);
      if log.calls != [] {
        BlocksAppendLog(Replayed(front), LogEvents(log), log.proc);
      } else {
        assert Replayed(logs) == Replayed(front);
      }
    }
  }

  // ---- the call that ends a run ----

  /** The shortest nonempty prefix of the block that fires has m events. */
  ghost predicate FirstIn<C>(fires: seq<Event<C>> -> bool, b: seq<Event<C>>, m: nat) {
    0 < m <= |b| && fires(b[..m]) && forall n: nat :: 0 < n < m ==> !fires(b[..n])
  }

  ghost predicate Never<C>(fires: seq<Event<C>> -> bool, b: seq<Event<C>>) {
    forall n: nat :: 0 < n <= |b| ==> !fires(b[..n])
  }

  /** Call m of log i ends the run: its log is the first one with a firing prefix, and it completes
      the shortest one. */
  ghost predicate FirstInRun<C>(fires: seq<Event<C>> -> bool, logs: seq<ProcessLog<C>>, i: nat, m: nat) {
    && i < |logs| && FirstIn(fires, LogEvents(logs[i]), m)
    && forall j: nat :: j < i ==> Never(fires, LogEvents(logs[j]))
  }

  /** A run reports what its first firing prefix calls for, and nothing without one. */
  ghost predicate Outcome<C, R(!new)>(fires: seq<Event<C>> -> bool, reports: (seq<Event<C>>, R) -> bool,
                                logs: seq<ProcessLog<C>>, matched: bool, data: seq<R>)
  {
    if matched
    then exists i: nat, m: nat, r :: FirstInRun(fires, logs, i, m) && reports(LogEvents(logs[i])[..m], r) && data == [r]
    else data == [] && forall i: nat :: i < |logs| ==> Never(fires, LogEvents(logs[i]))
  }

  lemma NeverSnoc<C>(fires: seq<Event<C>> -> bool, b: seq<Event<C>>, m: nat)
    requires m < |b|
    ensures Never(fires, b[..m + 1]) <==> Never(fires, b[..m]) && !fires(b[..m + 1])
    ensures Never(fires, b[..m]) && fires(b[..m + 1]) ==> FirstIn(fires, b, m + 1)
  {
    var c, d := b[..m], b[..m + 1];
    assert forall n: nat :: n <= m ==> c[..n] == d[..n];
    assert forall n: nat :: n <= m + 1 ==> b[..n] == d[..n];
    assert d[..m + 1] == d;
  }

  lemma LogEventsMeaning<C>(log: ProcessLog<C>)
    ensures |LogEvents(log)| == |log.calls|
    ensures forall j :: 0 <= j < |log.calls| ==> LogEvents(log)[j] == Event(log.proc, log.calls[j])
  {
  }

  /** There is at most one call that can end a run. */
  lemma FirstInRunUnique<C>(fires: seq<Event<C>> -> bool, logs: seq<ProcessLog<C>>, i: nat, m: nat, j: nat, n: nat)
    requires FirstInRun(fires, logs, i, m) && FirstInRun(fires, logs, j, n)
    ensures i == j && m == n
  {
  }

  /** So verdict and report are determined by the logs, as long as a block calls for only one report. */
  lemma OutcomeUnique<C, R(!new)>(fires: seq<Event<C>> -> bool, reports: (seq<Event<C>>, R) -> bool,
                                  logs: seq<ProcessLog<C>>, matched: bool, data: seq<R>, found: bool, report: seq<R>)
    requires Outcome(fires, reports, logs, matched, data) && Outcome(fires, reports, logs, found, report)
    requires forall b, r, q :: reports(b, r) && reports(b, q) ==> r == q
    ensures matched == found && data == report
  {
    if matched && found {
      var i: nat, m: nat, r :| FirstInRun(fires, logs, i, m) && reports(LogEvents(logs[i])[..m], r) && data == [r];
      var j: nat, n: nat, q :| FirstInRun(fires, logs, j, n) && reports(LogEvents(logs[j])[..n], q) && report == [q];
      FirstInRunUnique(fires, logs, i, m, j, n);
    }
  }

  /** The block a signature sees after the first m calls of a log is just these calls. */
  lemma LogPrefixIsBlock<C>(t: seq<Event<C>>, log: ProcessLog<C>, m: nat)
    requires 0 < m <= |log.calls|
    requires t == [] || Last(t).proc != log.proc
    ensures LastBlock(t + LogEvents(log)[..m]) == LogEvents(log)[..m]
  {
    LastBlockAppend(t, LogEvents(log)[..m], log.proc);
  }

  /** The first firing call over the logs is the first firing call of the replayed trace, and it is
      seen with the same block. */
  lemma FirstInReplay<C>(fires: seq<Event<C>> -> bool, logs: seq<ProcessLog<C>>, i: nat, m: nat)
    requires DistinctProcesses(logs) && FirstInRun(fires, logs, i, m)
    ensures var t, k := Replayed(logs[..i]) + LogEvents(logs[i]), |Replayed(logs[..i])| + m;
      && t <= Replayed(logs) && LastBlock(t[..k]) == LogEvents(logs[i])[..m]
      && forall n: nat :: 0 < n < k ==> !fires(LastBlock(t[..n]))
  {
    hide LastBlock, Views, Replayed, LogEvents;
    var before, b := Replayed(logs[..i]), LogEvents(logs[i]);
    ReplayedThrough(logs, i);
    ReplayedComesFromLogs(logs[..i], logs[i].proc);
    ViewInLog(before, logs[i], |before| + m);
    forall n: nat | 0 < n < |before| + m ensures !fires(LastBlock((before + b)[..n])) {
      if n <= |before| {
        assert (before + b)[..n] == before[..n];
        var j, l := ViewOfReplay(logs[..i], n);
      } else {
        ViewInLog(before, logs[i], n);
      }
    }
  }

  lemma ReplayedThrough<C>(logs: seq<ProcessLog<C>>, i: nat)
    requires i < |logs|
    ensures Replayed(logs[..i]) + LogEvents(logs[i]) <= Replayed(logs)
    ensures |LogEvents(logs[i])| == |logs[i].calls|
  {
    ReplayedPrefix(logs, i + 1);
    assert Front(logs[..i + 1]) == logs[..i];
  }

  lemma ViewInLog<C>(t: seq<Event<C>>, log: ProcessLog<C>, n: nat)
    requires |t| < n <= |t| + |log.calls|
    requires t == [] || Last(t).proc != log.proc
    ensures LastBlock((t + LogEvents(log))[..n]) == LogEvents(log)[..n - |t|]
  {
    LogPrefixIsBlock(t, log, n - |t|);
    assert (t + LogEvents(log))[..n] == t + LogEvents(log)[..n - |t|];
  }

  lemma ViewOfReplay<C>(logs: seq<ProcessLog<C>>, n: nat) returns (j: nat, m: nat)
    requires DistinctProcesses(logs) && 0 < n <= |Replayed(logs)|
    ensures j < |logs| && 0 < m <= |LogEvents(logs[j])|
    ensures LastBlock(Replayed(logs)[..n]) == LogEvents(logs[j])[..m]
  {
    EngineLocality(logs);
    assert LastBlock(Replayed(logs)[..n]) in Prefixes(AllLogs(logs));
    j, m :| 0 <= j < |AllLogs(logs)| && 0 < m <= |AllLogs(logs)[j]| && LastBlock(Replayed(logs)[..n]) == AllLogs(logs)[j][..m];
  }

  lemma {:induction false} ReplayedPrefix<C>(logs: seq<ProcessLog<C>>, i: nat)
    requires i <= |logs|
    ensures Replayed(logs[..i]) <= Replayed(logs)
  {
    if i == |logs| {
      assert logs[..i] == logs;
    } else {
      ReplayedPrefix(Front(logs), i);
      assert Front(logs)[..i] == logs[..i];
    }
  }

  /** Some call ends the run exactly when some process, looked at alone, has a firing prefix; so
      exactly when the replayed trace has a firing view. */
  lemma RunEndsIffView<C>(fires: seq<Event<C>> -> bool, logs: seq<ProcessLog<C>>)
    requires DistinctProcesses(logs)
    ensures (exists i: nat, m: nat :: FirstInRun(fires, logs, i, m)) <==> exists b :: b in Views(Replayed(logs)) && fires(b)
  {
    EngineLocality(logs);
    if b :| b in Views(Replayed(logs)) && fires(b) {
      var i, m :| 0 <= i < |AllLogs(logs)| && 0 < m <= |AllLogs(logs)[i]| && b == AllLogs(logs)[i][..m];
      assert !Never(fires, LogEvents(logs[i]));
      var j, n := FirstInRunExists(fires, logs, i);
    }
    if i: nat, m: nat :| FirstInRun(fires, logs, i, m) {
      assert AllLogs(logs)[i][..m] in Prefixes(AllLogs(logs));
    }
  }

  lemma {:induction false} FirstInRunExists<C>(fires: seq<Event<C>> -> bool, logs: seq<ProcessLog<C>>, i: nat)
    returns (j: nat, n: nat)
    requires i < |logs| && !Never(fires, LogEvents(logs[i]))
    ensures FirstInRun(fires, logs, j, n)
  {
    if k: nat :| k < i && !Never(fires, LogEvents(logs[k])) {
      j, n := FirstInRunExists(fires, logs, k);
    } else {
      j := i;
      var m: nat :| 0 < m <= |LogEvents(logs[i])| && fires(LogEvents(logs[i])[..m]);
      n := FirstInExists(fires, LogEvents(logs[i]), m);
    }
  }

  lemma {:induction false} FirstInExists<C>(fires: seq<Event<C>> -> bool, b: seq<Event<C>>, m: nat) returns (n: nat)
    requires 0 < m <= |b| && fires(b[..m])
    ensures FirstIn(fires, b, n)
  {
    if k: nat :| 0 < k < m && fires(b[..k]) {
      n := FirstInExists(fires, b, k);
    } else {
      n := m;
    }
  }
}
