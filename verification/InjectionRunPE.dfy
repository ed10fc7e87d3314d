/** The RunPE recogniser: one preparation step on a tracked process or thread, then writes, then the
    resume that starts the injected code. */
module InjectionRunPE {
  import opened PyModel
  import opened Traces

  /** The call kinds the signature tells apart. A handle or pid argument may be absent: Python's None
      is a legal set member and map key, so it is tracked like any other handle. */
  datatype Call =
    | Create(process: Value, thread: Value, pid: Value)  // CreateProcessInternalW
    | Prepare(process: Value)                            // NtUnmapViewOfSection, NtAllocateVirtualMemory
    | GetContext(thread: Value)                          // NtGetContextThread
    | Write(process: Value)                              // the three memory writes, NtMapViewOfSection
    | SetContext(thread: Value)                          // NtSetContextThread
    | ResumeThread(thread: Value)                        // NtResumeThread
    | ResumeProcess(process: Value)                      // NtResumeProcess
    | Other

  datatype Report = Report(source: Process, target: Value)

  type Trace = seq<Event<Call>>

  // ---- trace-level specification ----

  ghost predicate CreatesProcess(c: Call, h: Value) { c.Create? && c.process == h }

  ghost predicate CreatesThread(c: Call, h: Value) { c.Create? && c.thread == h }

  ghost predicate TrackedProcess(b: Trace, h: Value) {
    exists i :: 0 <= i < |b| && CreatesProcess(b[i].call, h)
  }

  ghost predicate TrackedThread(b: Trace, h: Value) {
    exists i :: 0 <= i < |b| && CreatesThread(b[i].call, h)
  }

  /** The pid of the most recent creation that returned process handle h. */
  ghost predicate ProcessPid(b: Trace, h: Value, pid: Value) {
    exists i :: 0 <= i < |b| && CreatesProcess(b[i].call, h) && b[i].call.pid == pid
                && forall j :: i < j < |b| ==> !CreatesProcess(b[j].call, h)
  }

  ghost predicate ThreadPid(b: Trace, h: Value, pid: Value) {
    exists i :: 0 <= i < |b| && CreatesThread(b[i].call, h) && b[i].call.pid == pid
                && forall j :: i < j < |b| ==> !CreatesThread(b[j].call, h)
  }

  /** The process table the block calls for: its keys are the process handles created in the block,
      each with the pid of the latest creation. */
  ghost predicate IsProcessMap(b: Trace, m: map<Value, Value>) {
    && (forall h :: h in m <==> TrackedProcess(b, h))
    && (forall h :: h in m ==> ProcessPid(b, h, m[h]))
  }

  ghost predicate IsThreadMap(b: Trace, m: map<Value, Value>) {
    && (forall h :: h in m <==> TrackedThread(b, h))
    && (forall h :: h in m ==> ThreadPid(b, h, m[h]))
  }

  /** Call c, made after block b, prepares a tracked process or thread. */
  ghost predicate Prepares(b: Trace, c: Call) {
    || (c.Prepare? && TrackedProcess(b, c.process))
    || (c.GetContext? && TrackedThread(b, c.thread))
  }

  ghost predicate Writes(b: Trace, c: Call) {
    || (c.Write? && TrackedProcess(b, c.process))
    || (c.SetContext? && TrackedThread(b, c.thread))
  }

  ghost predicate Resumes(b: Trace, c: Call) {
    || (c.ResumeThread? && TrackedThread(b, c.thread))
    || (c.ResumeProcess? && TrackedProcess(b, c.process))
  }

  ghost predicate PreparesAt(b: Trace, i: nat) { i < |b| && Prepares(b[..i], b[i].call) }

  ghost predicate WritesAt(b: Trace, i: nat) { i < |b| && Writes(b[..i], b[i].call) }

  ghost predicate IsFirstPrepare(b: Trace, k: nat) {
    PreparesAt(b, k) && forall i: nat :: i < k ==> !PreparesAt(b, i)
  }

  ghost function WritesAfter(b: Trace, k: nat): set<nat> {
    set j: nat | k < j < |b| && WritesAt(b, j)
  }

  /** The stage counter in closed form: 0 before the first preparation, then one more than the number
      of later tracked writes, which are counted up to two. */
  ghost predicate IsStage(b: Trace, n: nat) {
    if exists k: nat :: IsFirstPrepare(b, k) then
      exists k: nat :: IsFirstPrepare(b, k) && n == 1 + (if |WritesAfter(b, k)| < 2 then |WritesAfter(b, k)| else 2)
    else n == 0
  }

  /** The block fires with its last call: a tracked resume, with a preparation and a write before it. */
  ghost predicate Fires(b: Trace) {
    && b != [] && Resumes(Front(b), Last(b).call)
    && exists k: nat, j: nat :: k < j && PreparesAt(Front(b), k) && WritesAt(Front(b), j)
  }

  ghost predicate TargetOf(b: Trace, pid: Value) {
    && b != []
    && ((Last(b).call.ResumeThread? && ThreadPid(Front(b), Last(b).call.thread, pid))
        || (Last(b).call.ResumeProcess? && ProcessPid(Front(b), Last(b).call.process, pid)))
  }

  // ---- the same in full ----

  /** One of the first n calls created this process, or this thread. */
  ghost predicate MadeProcess(b: Trace, n: nat, h: Value) {
    exists i: nat :: i < n && i < |b| && b[i].call.Create? && b[i].call.process == h
  }

  ghost predicate MadeThread(b: Trace, n: nat, h: Value) {
    exists i: nat :: i < n && i < |b| && b[i].call.Create? && b[i].call.thread == h
  }

  lemma MadeIsTracked(b: Trace, n: nat)
    requires n <= |b|
    ensures forall h :: MadeProcess(b, n, h) <==> TrackedProcess(b[..n], h)
    ensures forall h :: MadeThread(b, n, h) <==> TrackedThread(b[..n], h)
  {
    assert forall i: nat :: i < n ==> b[..n][i] == b[i];
    forall h ensures MadeProcess(b, n, h) <==> TrackedProcess(b[..n], h) {
      if MadeProcess(b, n, h) {
        var i: nat :| i < n && b[i].call.Create? && b[i].call.process == h;
        assert CreatesProcess(b[..n][i].call, h);
      }
    }
    forall h ensures MadeThread(b, n, h) <==> TrackedThread(b[..n], h) {
      if MadeThread(b, n, h) {
        var i: nat :| i < n && b[i].call.Create? && b[i].call.thread == h;
        assert CreatesThread(b[..n][i].call, h);
      }
    }
  }

  lemma StepsInFull(b: Trace, k: nat)
    requires k < |b|
    ensures PreparesAt(b, k) <==>
      || (b[k].call.Prepare? && MadeProcess(b, k, b[k].call.process))
      || (b[k].call.GetContext? && MadeThread(b, k, b[k].call.thread))
    ensures WritesAt(b, k) <==>
      || (b[k].call.Write? && MadeProcess(b, k, b[k].call.process))
      || (b[k].call.SetContext? && MadeThread(b, k, b[k].call.thread))
  {
    MadeIsTracked(b, k);
  }

  /** Process hollowing, call by call: a created process or its thread is prepared, later one is written
      to, and the last call resumes one. */
  lemma FiresInFull(b: Trace)
    ensures Fires(b) <==>
      && b != []
      && (var c, n := b[|b| - 1].call, |b| - 1;
          (c.ResumeThread? && MadeThread(b, n, c.thread)) || (c.ResumeProcess? && MadeProcess(b, n, c.process)))
      && exists k: nat, j: nat ::
        && k < j < |b| - 1
        && (|| (b[k].call.Prepare? && MadeProcess(b, k, b[k].call.process))
            || (b[k].call.GetContext? && MadeThread(b, k, b[k].call.thread)))
        && (|| (b[j].call.Write? && MadeProcess(b, j, b[j].call.process))
            || (b[j].call.SetContext? && MadeThread(b, j, b[j].call.thread)))
  {
    hide MadeProcess, MadeThread, TrackedProcess, TrackedThread, PreparesAt, WritesAt;
    if b != [] {
      var f := Front(b);
      MadeIsTracked(b, |f|);
      forall k: nat | k < |f| ensures (PreparesAt(f, k) <==> PreparesAt(b, k)) && (WritesAt(f, k) <==> WritesAt(b, k)) {
        PrefixSteps(b, k);
      }
      forall k: nat | k < |f| { StepsInFull(b, k); }
      BoundedSteps(f);
    }
  }

  lemma PrefixSteps(b: Trace, k: nat)
    requires b != [] && k < |b| - 1
    ensures (PreparesAt(Front(b), k) <==> PreparesAt(b, k)) && (WritesAt(Front(b), k) <==> WritesAt(b, k))
  {
    assert Front(b)[..k] == b[..k];
  }

  lemma BoundedSteps(f: Trace)
    ensures forall k: nat :: PreparesAt(f, k) ==> k < |f|
    ensures forall k: nat :: WritesAt(f, k) ==> k < |f|
  {
  }

  /** The report in full: the process that resumes, and the pid of the latest creation of what it
      resumes. */
  lemma TargetInFull(b: Trace, i: nat, n: nat)
    requires n == |b| - 1 && i < n && b[i].call.Create?
    ensures b[n].call.ResumeThread? && b[i].call.thread == b[n].call.thread
            && (forall j :: i < j < n && b[j].call.Create? ==> b[j].call.thread != b[n].call.thread)
            ==> TargetOf(b, b[i].call.pid)
    ensures b[n].call.ResumeProcess? && b[i].call.process == b[n].call.process
            && (forall j :: i < j < n && b[j].call.Create? ==> b[j].call.process != b[n].call.process)
            ==> TargetOf(b, b[i].call.pid)
  {
    var f := Front(b);
    assert f[i] == b[i] && forall j :: 0 <= j < n ==> f[j] == b[j];
    if b[n].call.ResumeThread? && b[i].call.thread == b[n].call.thread { assert CreatesThread(f[i].call, b[n].call.thread); }
    if b[n].call.ResumeProcess? && b[i].call.process == b[n].call.process { assert CreatesProcess(f[i].call, b[n].call.process); }
  }

  // ---- one more event ----

  lemma ProcessMapSnoc(b: Trace, e: Event<Call>, m: map<Value, Value>)
    requires IsProcessMap(b, m)
    ensures IsProcessMap(b + [e], if e.call.Create? then m[e.call.process := e.call.pid] else m)
  {
    var c := b + [e];
    var n := if e.call.Create? then m[e.call.process := e.call.pid] else m;
    forall h ensures h in n <==> TrackedProcess(c, h) {
      if i :| 0 <= i < |b| && CreatesProcess(b[i].call, h) { assert CreatesProcess(c[i].call, h); }
      if CreatesProcess(e.call, h) { assert CreatesProcess(c[|b|].call, h); }
    }
    forall h | h in n ensures ProcessPid(c, h, n[h]) {
      if CreatesProcess(e.call, h) {
        assert CreatesProcess(c[|b|].call, h);
      } else {
        var i :| 0 <= i < |b| && CreatesProcess(b[i].call, h) && b[i].call.pid == m[h]
                 && forall j :: i < j < |b| ==> !CreatesProcess(b[j].call, h);
        assert CreatesProcess(c[i].call, h);
      }
    }
  }

  lemma ThreadMapSnoc(b: Trace, e: Event<Call>, m: map<Value, Value>)
    requires IsThreadMap(b, m)
    ensures IsThreadMap(b + [e], if e.call.Create? then m[e.call.thread := e.call.pid] else m)
  {
    var c := b + [e];
    var n := if e.call.Create? then m[e.call.thread := e.call.pid] else m;
    forall h ensures h in n <==> TrackedThread(c, h) {
      if i :| 0 <= i < |b| && CreatesThread(b[i].call, h) { assert CreatesThread(c[i].call, h); }
      if CreatesThread(e.call, h) { assert CreatesThread(c[|b|].call, h); }
    }
    forall h | h in n ensures ThreadPid(c, h, n[h]) {
      if CreatesThread(e.call, h) {
        assert CreatesThread(c[|b|].call, h);
      } else {
        var i :| 0 <= i < |b| && CreatesThread(b[i].call, h) && b[i].call.pid == m[h]
                 && forall j :: i < j < |b| ==> !CreatesThread(b[j].call, h);
        assert CreatesThread(c[i].call, h);
      }
    }
  }

  lemma AtSnoc(b: Trace, e: Event<Call>)
    ensures forall i: nat :: i < |b| ==> (PreparesAt(b + [e], i) <==> PreparesAt(b, i))
    ensures forall i: nat :: i < |b| ==> (WritesAt(b + [e], i) <==> WritesAt(b, i))
    ensures PreparesAt(b + [e], |b|) <==> Prepares(b, e.call)
    ensures WritesAt(b + [e], |b|) <==> Writes(b, e.call)
  {
    var c := b + [e];
    assert c[..|b|] == b;
    forall i: nat | i < |b| ensures c[..i] == b[..i] && c[i] == b[i] {}
  }

  lemma FirstPrepareUnique(b: Trace, k: nat, l: nat)
    requires IsFirstPrepare(b, k) && IsFirstPrepare(b, l)
    ensures k == l
  {
    assert !(k < l) && !(l < k);
  }

  lemma {:induction false} FirstPrepareExists(b: Trace, i: nat) returns (k: nat)
    requires PreparesAt(b, i)
    ensures IsFirstPrepare(b, k) && k <= i
  {
    k := i;
    if j: nat :| j < i && PreparesAt(b, j) {
      k := FirstPrepareExists(b, j);
    }
  }

  lemma StageUnique(b: Trace, n: nat, m: nat)
    requires IsStage(b, n) && IsStage(b, m)
    ensures n == m
  {
    if k: nat :| IsFirstPrepare(b, k) {
      forall l: nat | IsFirstPrepare(b, l) ensures l == k { FirstPrepareUnique(b, k, l); }
    }
  }

  lemma WritesAfterSnoc(b: Trace, e: Event<Call>, k: nat)
    requires k < |b|
    ensures |WritesAfter(b + [e], k)| == |WritesAfter(b, k)| + if Writes(b, e.call) then 1 else 0
  {
    hide PreparesAt, WritesAt, Writes;
    AtSnoc(b, e);
    var was, now := WritesAfter(b, k), WritesAfter(b + [e], k);
    assert now == was + (if Writes(b, e.call) then {|b| as nat} else {});
    assert |b| !in was;
  }

  lemma StageAfterPrepare(b: Trace, e: Event<Call>, n: nat, k: nat)
    requires IsStage(b, n) && IsFirstPrepare(b, k)
    ensures 1 <= n <= 3
    ensures IsStage(b + [e], if n <= 2 && Writes(b, e.call) then n + 1 else n)
  {
    hide PreparesAt, WritesAt, Writes, Prepares, WritesAfter;
    forall l: nat | IsFirstPrepare(b, l) ensures l == k { FirstPrepareUnique(b, k, l); }
    FirstPrepareSnoc(b, e, k);
    WritesAfterSnoc(b, e, k);
  }

  lemma FirstPrepareSnoc(b: Trace, e: Event<Call>, k: nat)
    requires IsFirstPrepare(b, k)
    ensures k < |b| && IsFirstPrepare(b + [e], k)
  {
    AtSnoc(b, e);
  }

  lemma StageBeforePrepare(b: Trace, e: Event<Call>, n: nat)
    requires IsStage(b, n) && forall k: nat :: !IsFirstPrepare(b, k)
    ensures n == 0
    ensures IsStage(b + [e], if Prepares(b, e.call) then 1 else 0)
  {
    hide Prepares, WritesAt, Writes;
    AtSnoc(b, e);
    forall i: nat ensures !PreparesAt(b, i) {
      if PreparesAt(b, i) { var k := FirstPrepareExists(b, i); }
    }
    if Prepares(b, e.call) {
      assert IsFirstPrepare(b + [e], |b|);
      assert WritesAfter(b + [e], |b|) == {};
    } else {
      assert forall i: nat :: !PreparesAt(b + [e], i);
    }
  }

  /** The stage counter moves exactly as the closed form says: a preparation starts it, the first two
      writes after that raise it, nothing else changes it. */
  lemma StageSnoc(b: Trace, e: Event<Call>, n: nat)
    requires IsStage(b, n)
    ensures IsStage(b + [e],
      if n == 0 && Prepares(b, e.call) then 1 else if 1 <= n <= 2 && Writes(b, e.call) then n + 1 else n)
  {
    hide IsStage, IsFirstPrepare, Prepares, Writes;
    if k: nat :| IsFirstPrepare(b, k) {
      StageAfterPrepare(b, e, n, k);
    } else {
      StageBeforePrepare(b, e, n);
    }
  }

  /** Stages 2 and 3 are exactly the histories with a write after a preparation. */
  lemma WriteAfterPrepare(b: Trace, n: nat)
    requires IsStage(b, n)
    ensures n >= 2 <==> exists k: nat, j: nat :: k < j && PreparesAt(b, k) && WritesAt(b, j)
  {
    if n >= 2 {
      var k :| IsFirstPrepare(b, k) && n == 1 + (if |WritesAfter(b, k)| < 2 then |WritesAfter(b, k)| else 2);
      assert WritesAfter(b, k) != {};
      var j :| j in WritesAfter(b, k);
      assert PreparesAt(b, k) && WritesAt(b, j);
    }
    if k: nat, j: nat :| k < j && PreparesAt(b, k) && WritesAt(b, j) {
      var first := FirstPrepareExists(b, k);
      forall l: nat | IsFirstPrepare(b, l) ensures l == first { FirstPrepareUnique(b, first, l); }
      assert j in WritesAfter(b, first);
    }
  }

  ghost predicate Describes(b: Trace, n: nat, processMap: map<Value, Value>, threadMap: map<Value, Value>) {
    IsStage(b, n) && IsProcessMap(b, processMap) && IsThreadMap(b, threadMap)
  }

  lemma DescribesEmpty()
    ensures Describes([], 0, map[], map[])
  {
  }

  lemma DescribesSnoc(b: Trace, e: Event<Call>, n: nat, pm: map<Value, Value>, tm: map<Value, Value>)
    requires Describes(b, n, pm, tm)
    ensures n <= 3
    ensures Describes(b + [e],
      if n == 0 && Prepares(b, e.call) then 1 else if 1 <= n <= 2 && Writes(b, e.call) then n + 1 else n,
      if e.call.Create? then pm[e.call.process := e.call.pid] else pm,
      if e.call.Create? then tm[e.call.thread := e.call.pid] else tm)
  {
    StageSnoc(b, e, n);
    ProcessMapSnoc(b, e, pm);
    ThreadMapSnoc(b, e, tm);
  }

  lemma AfterCreate(b: Trace, e: Event<Call>, n: nat, pm: map<Value, Value>, tm: map<Value, Value>)
    requires Describes(b, n, pm, tm) && e.call.Create?
    ensures Describes(b + [e], n, pm[e.call.process := e.call.pid], tm[e.call.thread := e.call.pid])
    ensures !Fires(b + [e])
  {
    assert Front(b + [e]) == b;
    DescribesSnoc(b, e, n, pm, tm);
  }

  /** The stage after a call that neither creates nor resumes, decided by looking handles up in the
      tables. */
  lemma AfterStep(b: Trace, e: Event<Call>, n: nat, pm: map<Value, Value>, tm: map<Value, Value>, m: nat)
    requires Describes(b, n, pm, tm) && !e.call.Create? && !e.call.ResumeThread? && !e.call.ResumeProcess?
    requires m ==
      if n == 0 && ((e.call.Prepare? && e.call.process in pm) || (e.call.GetContext? && e.call.thread in tm)) then 1
      else if 1 <= n <= 2 && ((e.call.Write? && e.call.process in pm) || (e.call.SetContext? && e.call.thread in tm)) then n + 1
      else n
    ensures Describes(b + [e], m, pm, tm)
    ensures !Fires(b + [e])
  {
    assert Front(b + [e]) == b;
    DescribesSnoc(b, e, n, pm, tm);
  }

  /** A resume fires exactly at stages 2 and 3, on a handle found in the table. */
  lemma AfterResume(b: Trace, e: Event<Call>, n: nat, pm: map<Value, Value>, tm: map<Value, Value>)
    requires Describes(b, n, pm, tm) && (e.call.ResumeThread? || e.call.ResumeProcess?)
    ensures Describes(b + [e], n, pm, tm)
    ensures e.call.ResumeThread? ==> (Fires(b + [e]) <==> 2 <= n <= 3 && e.call.thread in tm)
    ensures e.call.ResumeProcess? ==> (Fires(b + [e]) <==> 2 <= n <= 3 && e.call.process in pm)
    ensures e.call.ResumeThread? && e.call.thread in tm ==> TargetOf(b + [e], tm[e.call.thread])
    ensures e.call.ResumeProcess? && e.call.process in pm ==> TargetOf(b + [e], pm[e.call.process])
  {
    assert Front(b + [e]) == b;
    DescribesSnoc(b, e, n, pm, tm);
    WriteAfterPrepare(b, n);
  }

  // ---- the signature ----

  class InjectionRunPE {
    var lastprocess: Option<Process>
    var sequence: nat
    var processHandles: set<Value>
    var threadHandles: set<Value>
    var processMap: map<Value, Value>
    var threadMap: map<Value, Value>
    var data: seq<Report>
    ghost var history: Trace

    /** Handle sets and maps always have the same keys, namely the handles created in the current
        block, and the maps hold the pid of the latest creation; so no lookup can miss. */
    ghost predicate Valid()
      reads this
    {
      && lastprocess == (if history == [] then None else Some(Last(history).proc))
      && processHandles == processMap.Keys && threadHandles == threadMap.Keys
      && Describes(LastBlock(history), sequence, processMap, threadMap)
    }

    constructor ()
      ensures Valid() && history == [] && data == []
    {
      lastprocess, sequence, data, history := None, 0, [], [];
      processHandles, threadHandles, processMap, threadMap := {}, {}, map[], map[];
    }

    /** The fields describe the block that an event of process p would continue. */
    ghost predicate Ready(p: Process)
      reads this
    {
      && lastprocess == Some(p)
      && processHandles == processMap.Keys && threadHandles == threadMap.Keys
      && Describes(BlockBefore(history, p), sequence, processMap, threadMap)
    }

    /** Forgets everything about the previous process when another one takes over. */
    method EnterBlock(p: Process)
      requires Valid()
      modifies this
      ensures history == old(history) && data == old(data) && Ready(p)
    {
      if lastprocess != Some(p) {
        sequence := 0;
        processHandles, threadHandles, processMap, threadMap := {}, {}, map[], map[];
        lastprocess := Some(p);
        DescribesEmpty();
      }
    }

    method OnCreate(e: Event<Call>)
      requires Ready(e.proc) && e.call.Create?
      modifies this
      ensures Valid() && history == old(history) + [e] && data == old(data)
      ensures !Fires(LastBlock(history))
    {
      hide Describes, Fires, LastBlock, BlockBefore;
      AfterCreate(BlockBefore(history, e.proc), e, sequence, processMap, threadMap);
      LastBlockSnoc(history, e);
      history := history + [e];
      processHandles, processMap := processHandles + {e.call.process}, processMap[e.call.process := e.call.pid];
      threadHandles, threadMap := threadHandles + {e.call.thread}, threadMap[e.call.thread := e.call.pid];
    }

    /** The branches that move the stage. */
    method OnStep(e: Event<Call>)
      requires Ready(e.proc) && !e.call.Create? && !e.call.ResumeThread? && !e.call.ResumeProcess?
      modifies this
      ensures Valid() && history == old(history) + [e] && data == old(data)
      ensures !Fires(LastBlock(history))
    {
      hide Describes, Fires, LastBlock, BlockBefore;
      if e.call.Prepare? && sequence == 0 {
        if e.call.process in processHandles { sequence := 1; }
      } else if e.call.GetContext? && sequence == 0 {
        if e.call.thread in threadHandles { sequence := 1; }
      } else if e.call.Write? && (sequence == 1 || sequence == 2) {
        if e.call.process in processHandles { sequence := sequence + 1; }
      } else if e.call.SetContext? && (sequence == 1 || sequence == 2) {
        if e.call.thread in threadHandles { sequence := sequence + 1; }
      }
      AfterStep(BlockBefore(history, e.proc), e, old(sequence), processMap, threadMap, sequence);
      LastBlockSnoc(history, e);
      history := history + [e];
    }

    /** The branches that match. */
    method OnResume(e: Event<Call>) returns (v: Verdict)
      requires Ready(e.proc) && (e.call.ResumeThread? || e.call.ResumeProcess?)
      modifies this
      ensures Valid() && history == old(history) + [e]
      ensures v == if Fires(LastBlock(history)) then Matched else Streaming
      ensures v.Streaming? ==> data == old(data)
      ensures v.Matched? ==> exists pid :: TargetOf(LastBlock(history), pid) && data == old(data) + [Report(e.proc, pid)]
    {
      hide Describes, Fires, TargetOf, LastBlock, BlockBefore;
      AfterResume(BlockBefore(history, e.proc), e, sequence, processMap, threadMap);
      LastBlockSnoc(history, e);
      history := history + [e];
      v := Streaming;
      if e.call.ResumeThread? && (sequence == 2 || sequence == 3) {
        if e.call.thread in threadHandles {
          data := data + [Report(e.proc, threadMap[e.call.thread])];
          v := Matched;
        }
      } else if e.call.ResumeProcess? && (sequence == 2 || sequence == 3) {
        if e.call.process in processHandles {
          data := data + [Report(e.proc, processMap[e.call.process])];
          v := Matched;
        }
      }
    }

    method OnCall(e: Event<Call>) returns (v: Verdict)
      requires Valid()
      modifies this
      ensures Valid() && history == old(history) + [e]
      ensures v == if Fires(LastBlock(history)) then Matched else Streaming
      ensures v.Streaming? ==> data == old(data)
      ensures v.Matched? ==> exists pid :: TargetOf(LastBlock(history), pid) && data == old(data) + [Report(e.proc, pid)]
    {
      hide Describes, Fires, TargetOf, LastBlock;
      v := Streaming;
      EnterBlock(e.proc);
      if e.call.Create? {
        OnCreate(e);
      } else if e.call.ResumeThread? || e.call.ResumeProcess? {
        v := OnResume(e);
      } else {
        OnStep(e);
      }
    }
  }

  lemma MapsUnique(b: Trace, pm: map<Value, Value>, qm: map<Value, Value>, tm: map<Value, Value>, um: map<Value, Value>)
    requires IsProcessMap(b, pm) && IsProcessMap(b, qm) && IsThreadMap(b, tm) && IsThreadMap(b, um)
    ensures pm == qm && tm == um
  {
    assert pm.Keys == qm.Keys && tm.Keys == um.Keys;
    forall h | h in pm ensures pm[h] == qm[h] { }
    forall h | h in tm ensures tm[h] == um[h] { }
  }

  /** Block locality of the state: a signature that has seen only the last block is in the same state as
      one that has seen the whole trace. */
  lemma SameAsOnBlock(a: InjectionRunPE, b: InjectionRunPE)
    requires a.Valid() && b.Valid() && b.history == LastBlock(a.history)
    ensures a.lastprocess == b.lastprocess && a.sequence == b.sequence
    ensures a.processHandles == b.processHandles && a.threadHandles == b.threadHandles
    ensures a.processMap == b.processMap && a.threadMap == b.threadMap
  {
    hide IsStage, IsProcessMap, IsThreadMap;
    LastBlockIdempotent(a.history);
    StageUnique(b.history, a.sequence, b.sequence);
    MapsUnique(b.history, a.processMap, b.processMap, a.threadMap, b.threadMap);
  }

  // ---- the engine ----

  ghost predicate ReportOf(b: Trace, r: Report) {
    b != [] && exists pid :: TargetOf(b, pid) && r == Report(Last(b).proc, pid)
  }

  /** A resume has only one possible report. */
  lemma ReportUnique(b: Trace, r: Report, q: Report)
    requires ReportOf(b, r) && ReportOf(b, q)
    ensures r == q
  {
  }

  /** The logs determine the verdict and the report. */
  lemma OneOutcome(logs: seq<ProcessLog<Call>>, matched: bool, data: seq<Report>, found: bool, report: seq<Report>)
    requires Outcome(Fires, ReportOf, logs, matched, data) && Outcome(Fires, ReportOf, logs, found, report)
    ensures matched == found && data == report
  {
    hide Fires, ReportOf;
    forall b, r, q | ReportOf(b, r) && ReportOf(b, q) ensures r == q { ReportUnique(b, r, q); }
    OutcomeUnique(Fires, ReportOf, logs, matched, data, found, report);
  }

  /** Streams one process log. The call that matches is the last one to reach the signature: the
      history ends with the shortest firing prefix of the log, and the report is that prefix's. */
  method StreamLog(sig: InjectionRunPE, log: ProcessLog<Call>) returns (matched: bool)
    requires sig.Valid() && sig.data == []
    requires sig.history == [] || Last(sig.history).proc != log.proc
    modifies sig
    ensures sig.Valid()
    ensures !matched ==> sig.history == old(sig.history) + LogEvents(log)
    ensures !matched ==> sig.data == [] && Never(Fires, LogEvents(log))
    ensures matched ==> exists m: nat, r :: FirstIn(Fires, LogEvents(log), m) && ReportOf(LogEvents(log)[..m], r)
                                            && sig.history == old(sig.history) + LogEvents(log)[..m] && sig.data == [r]
  {
    hide Fires, TargetOf, LastBlock, LogEvents;
    ghost var t, b := sig.history, LogEvents(log);
    LogEventsMeaning(log);
    assert t + b[..0] == t;
    for j := 0 to |log.calls|
      invariant sig.Valid() && sig.history == t + b[..j]
      invariant sig.data == [] && Never(Fires, b[..j])
    {
      var e := Event(log.proc, log.calls[j]);
      LogPrefixIsBlock(t, log, j + 1);
      NeverSnoc(Fires, b, j);
      assert t + b[..j + 1] == sig.history + [e];
      var v := sig.OnCall(e);
      if v.Matched? {
        return true;
      }
    }
    assert b[..|b|] == b;
    return false;
  }

  /** The engine run over all process logs: the signature matches exactly when some process, looked
      at alone, prepares, writes and resumes a process it created. The report is made for the first
      log that does, at its first such resume, and names that process and the pid of the creation. */
  method Evaluate(logs: seq<ProcessLog<Call>>) returns (matched: bool, data: seq<Report>)
    requires DistinctProcesses(logs)
    ensures Outcome(Fires, ReportOf, logs, matched, data)
  {
    hide Fires, ReportOf, LogEvents;
    var sig := new InjectionRunPE();
    for i := 0 to |logs|
      invariant sig.Valid() && fresh(sig)
      invariant sig.history == Replayed(logs[..i]) && sig.data == []
      invariant forall k: nat :: k < i ==> Never(Fires, LogEvents(logs[k]))
    {
      assert Front(logs[..i + 1]) == logs[..i];
      ReplayedComesFromLogs(logs[..i], logs[i].proc);
      matched := StreamLog(sig, logs[i]);
      if matched {
        return true, sig.data;
      }
    }
    return false, [];
  }
}
