/** The CreateRemoteThread recogniser: a mapped section, or an allocation followed by a write, in a
    process opened by the same process, and then one of three ways to start code there. */
module InjectionCRT {
  import opened PyModel
  import opened Traces

  /** The call kinds the signature tells apart. `status` is true only for the value True; `address` is
      None when the argument does not parse as a hexadecimal number. */
  datatype Call =
    | Open(status: bool, pid: Value, handle: Value)                      // OpenProcess, NtOpenProcess
    | MapView(process: Value)                                            // NtMapViewOfSection
    | Allocate(process: Value)                                           // VirtualAllocEx, NtAllocateVirtualMemory
    | Write(process: Value, address: Option<int>, buffer: Value)         // the three memory writes
    | CreateThread(process: Value)                                       // CreateRemoteThread, NtCreateThread*
    | QueueApc(pid: Value)                                               // NtQueueApcThread*
    | Other

  datatype Report =
    | Remote(source: Process, target: string)
    | Apc(source: Process, named: Process)

  type Trace = seq<Event<Call>>

  const HOOK_LOW := 0x7C900000
  const HOOK_HIGH := 0x80000000

  // ---- trace-level specification ----

  /** A successful open of something the signature does not take for the process itself. A pid passed
      as text never equals the numeric process id, so textual self-opens are counted too. */
  predicate Opens(e: Event<Call>) {
    e.call.Open? && e.call.status && e.call.pid != Number(e.proc.id)
  }

  predicate OpensHandle(e: Event<Call>, h: Value) { Opens(e) && e.call.handle == h }

  ghost predicate Tracked(b: Trace, h: Value) {
    exists i :: 0 <= i < |b| && OpensHandle(b[i], h)
  }

  /** The pid of the most recent open that returned handle h. */
  ghost predicate HandlePid(b: Trace, h: Value, pid: string) {
    exists i :: 0 <= i < |b| && OpensHandle(b[i], h) && Str(b[i].call.pid) == pid
                && forall j :: i < j < |b| ==> !OpensHandle(b[j], h)
  }

  ghost predicate OpenedPid(b: Trace, pid: string) {
    exists i :: 0 <= i < |b| && Opens(b[i]) && Str(b[i].call.pid) == pid
  }

  ghost predicate IsHandleMap(b: Trace, m: map<Value, string>) {
    && (forall h :: h in m <==> Tracked(b, h))
    && (forall h :: h in m ==> HandlePid(b, h, m[h]))
  }

  ghost predicate IsPidSet(b: Trace, s: set<string>) {
    forall p :: p in s <==> OpenedPid(b, p)
  }

  /** Call c, made after block b, gives the process room in an opened process. */
  ghost predicate Enters(b: Trace, c: Call) {
    (c.MapView? || c.Allocate?) && Tracked(b, c.process)
  }

  ghost predicate Writes(b: Trace, c: Call) {
    c.Write? && Tracked(b, c.process)
  }

  ghost predicate EntersAt(b: Trace, i: nat) { i < |b| && Enters(b[..i], b[i].call) }

  ghost predicate WritesAt(b: Trace, i: nat) { i < |b| && Writes(b[..i], b[i].call) }

  ghost predicate IsFirstEntry(b: Trace, k: nat) {
    EntersAt(b, k) && forall i: nat :: i < k ==> !EntersAt(b, i)
  }

  ghost predicate WrittenAfter(b: Trace, k: nat) {
    exists j: nat :: k < j && WritesAt(b, j)
  }

  /** The stage in closed form: 0 without an entry; 2 when the first entry was a mapping, or was an
      allocation with a later tracked write; 1 otherwise. */
  ghost predicate IsStage(b: Trace, n: nat) {
    if exists k: nat :: IsFirstEntry(b, k) then
      exists k: nat :: IsFirstEntry(b, k) && n == (if b[k].call.MapView? || WrittenAfter(b, k) then 2 else 1)
    else n == 0
  }

  predicate PatchesLibrary(c: Call) {
    && c.Write? && c.address.Some? && HOOK_LOW <= c.address.value < HOOK_HIGH
    && c.buffer.Text? && StartsWith(c.buffer.s, "\\xe9")
  }

  /** The ways to start code in an opened process. */
  ghost predicate Starts(b: Trace, c: Call) {
    || (PatchesLibrary(c) && Tracked(b, c.process))
    || (c.CreateThread? && Tracked(b, c.process))
    || (c.QueueApc? && OpenedPid(b, Str(c.pid)))
  }

  ghost predicate Fires(b: Trace) {
    b != [] && IsStage(Front(b), 2) && Starts(Front(b), Last(b).call)
  }

  /** What a match reports: the process and the pid behind the handle. An APC match names the current
      process twice, because `lastprocess` has just been set to it. */
  ghost predicate ReportOf(b: Trace, r: Report) {
    && b != []
    && match Last(b).call
       case QueueApc(_) => r == Apc(Last(b).proc, Last(b).proc)
       case Write(h, _, _) => r.Remote? && r.source == Last(b).proc && HandlePid(Front(b), h, r.target)
       case CreateThread(h) => r.Remote? && r.source == Last(b).proc && HandlePid(Front(b), h, r.target)
       case _ => false
  }

  // ---- the same in full ----

  /** One of the first n calls is a successful open, returning this handle, of something that is not the
      number of the calling process. */
  ghost predicate HasOpened(b: Trace, n: nat, h: Value) {
    exists i: nat :: && i < n && i < |b| && b[i].call.Open? && b[i].call.status && b[i].call.handle == h
                     && b[i].call.pid != Number(b[i].proc.id)
  }

  lemma TrackedInFull(b: Trace, n: nat)
    requires n <= |b|
    ensures forall h :: Tracked(b[..n], h) <==> HasOpened(b, n, h)
  {
    assert forall i: nat :: i < n ==> b[..n][i] == b[i];
    forall h ensures Tracked(b[..n], h) <==> HasOpened(b, n, h) {
      if HasOpened(b, n, h) {
        var i: nat :| i < n && b[i].call.Open? && b[i].call.status && b[i].call.handle == h && b[i].call.pid != Number(b[i].proc.id);
        assert OpensHandle(b[..n][i], h);
      }
    }
  }

  lemma EntersInFull(b: Trace, k: nat)
    requires k < |b|
    ensures EntersAt(b, k) <==> (b[k].call.MapView? || b[k].call.Allocate?) && HasOpened(b, k, b[k].call.process)
    ensures WritesAt(b, k) <==> b[k].call.Write? && HasOpened(b, k, b[k].call.process)
  {
    TrackedInFull(b, k);
  }

  /** Stage 2 in full: the first mapping or allocation in an opened process is a mapping, or a write to an
      opened process follows it. */
  lemma StageTwoInFull(b: Trace)
    ensures IsStage(b, 2) <==>
      exists k: nat ::
        && k < |b| && (b[k].call.MapView? || b[k].call.Allocate?) && HasOpened(b, k, b[k].call.process)
        && (forall i: nat :: i < k && (b[i].call.MapView? || b[i].call.Allocate?) ==> !HasOpened(b, i, b[i].call.process))
        && (b[k].call.MapView? || exists j: nat :: k < j < |b| && b[j].call.Write? && HasOpened(b, j, b[j].call.process))
  {
    hide HasOpened, EntersAt, WritesAt, IsFirstEntry;
    BoundedSteps(b);
    StageTwo(b);
    if k: nat :| IsFirstEntry(b, k) && (b[k].call.MapView? || WrittenAfter(b, k)) {
      FirstEntryInFull(b, k);
      WrittenInFull(b, k);
    }
    if k: nat :|
      && k < |b| && (b[k].call.MapView? || b[k].call.Allocate?) && HasOpened(b, k, b[k].call.process)
      && (forall i: nat :: i < k && (b[i].call.MapView? || b[i].call.Allocate?) ==> !HasOpened(b, i, b[i].call.process))
      && (b[k].call.MapView? || exists j: nat :: k < j < |b| && b[j].call.Write? && HasOpened(b, j, b[j].call.process))
    {
      FirstEntryInFull(b, k);
      WrittenInFull(b, k);
    }
  }

  lemma StageTwo(b: Trace)
    ensures IsStage(b, 2) <==> exists k: nat :: IsFirstEntry(b, k) && (b[k].call.MapView? || WrittenAfter(b, k))
    ensures forall k: nat :: IsFirstEntry(b, k) ==> k < |b|
  {
    hide WrittenAfter, EntersAt;
    BoundedSteps(b);
    if k: nat :| IsFirstEntry(b, k) {
      forall l: nat | IsFirstEntry(b, l) ensures l == k { FirstEntryUnique(b, k, l); }
    }
  }

  lemma FirstEntryInFull(b: Trace, k: nat)
    requires k < |b|
    ensures IsFirstEntry(b, k) <==>
      && (b[k].call.MapView? || b[k].call.Allocate?) && HasOpened(b, k, b[k].call.process)
      && forall i: nat :: i < k && (b[i].call.MapView? || b[i].call.Allocate?) ==> !HasOpened(b, i, b[i].call.process)
  {
    hide HasOpened, EntersAt, WritesAt;
    forall i: nat | i <= k
      ensures EntersAt(b, i) <==> (b[i].call.MapView? || b[i].call.Allocate?) && HasOpened(b, i, b[i].call.process)
    {
      EntersInFull(b, i);
    }
  }

  lemma WrittenInFull(b: Trace, k: nat)
    ensures WrittenAfter(b, k) <==> exists j: nat :: k < j < |b| && b[j].call.Write? && HasOpened(b, j, b[j].call.process)
  {
    hide HasOpened, EntersAt, WritesAt;
    BoundedSteps(b);
    forall j: nat | j < |b| ensures WritesAt(b, j) <==> b[j].call.Write? && HasOpened(b, j, b[j].call.process) {
      EntersInFull(b, j);
    }
  }

  lemma BoundedSteps(b: Trace)
    ensures forall k: nat :: EntersAt(b, k) ==> k < |b|
    ensures forall k: nat :: WritesAt(b, k) ==> k < |b|
  {
  }

  /** A write fires exactly when it puts a jump, as the logged text \xe9, at the start of the bytes it
      writes to the address range of the system libraries, in an opened process, at stage 2. */
  lemma PatchInFull(b: Trace, e: Event<Call>)
    requires e.call.Write?
    ensures Fires(b + [e]) <==>
      && IsStage(b, 2) && HasOpened(b, |b|, e.call.process)
      && e.call.address.Some? && 0x7C900000 <= e.call.address.value < 0x80000000
      && e.call.buffer.Text? && |e.call.buffer.s| >= 4
      && e.call.buffer.s[0] == '\\' && e.call.buffer.s[1] == 'x' && e.call.buffer.s[2] == 'e' && e.call.buffer.s[3] == '9'
  {
    hide IsStage;
    assert Front(b + [e]) == b && b[..|b|] == b;
    TrackedInFull(b, |b|);
    if e.call.buffer.Text? && |e.call.buffer.s| >= 4 {
      var s := e.call.buffer.s[..4];
      assert s == "\\xe9" <==> s[0] == '\\' && s[1] == 'x' && s[2] == 'e' && s[3] == '9';
    }
  }

  /** The other two ways to start code, and what cannot match. */
  lemma StartInFull(b: Trace, e: Event<Call>)
    requires !e.call.Write?
    ensures Fires(b + [e]) <==>
      && IsStage(b, 2)
      && (|| (e.call.CreateThread? && HasOpened(b, |b|, e.call.process))
          || (e.call.QueueApc? && exists i: nat :: && i < |b| && b[i].call.Open? && b[i].call.status
                                                   && b[i].call.pid != Number(b[i].proc.id)
                                                   && Str(b[i].call.pid) == Str(e.call.pid)))
  {
    hide IsStage, Str;
    assert Front(b + [e]) == b && b[..|b|] == b;
    TrackedInFull(b, |b|);
    if e.call.QueueApc? {
      if i: nat :| i < |b| && b[i].call.Open? && b[i].call.status && b[i].call.pid != Number(b[i].proc.id)
                   && Str(b[i].call.pid) == Str(e.call.pid) {
        assert Opens(b[i]);
      }
    }
  }

  /** The report in full: the process, and the text of the pid of the latest open that returned the handle
      code is started through. */
  lemma TargetInFull(b: Trace, i: nat, n: nat, h: Value)
    requires n == |b| - 1 && i < n && (b[n].call.Write? || b[n].call.CreateThread?) && b[n].call.process == h
    requires b[i].call.Open? && b[i].call.status && b[i].call.handle == h && b[i].call.pid != Number(b[i].proc.id)
    requires forall j :: i < j < n && b[j].call.Open? && b[j].call.status && b[j].call.handle == h ==>
               b[j].call.pid == Number(b[j].proc.id)
    ensures ReportOf(b, Remote(b[n].proc, Str(b[i].call.pid)))
  {
    var f := Front(b);
    assert f[i] == b[i] && forall j :: 0 <= j < n ==> f[j] == b[j];
    assert OpensHandle(f[i], h);
  }

  // ---- one more event ----

  lemma TrackedSnoc(b: Trace, e: Event<Call>, h: Value)
    ensures Tracked(b + [e], h) <==> Tracked(b, h) || OpensHandle(e, h)
  {
    var c := b + [e];
    if i :| 0 <= i < |b| && OpensHandle(b[i], h) { assert OpensHandle(c[i], h); }
    if OpensHandle(e, h) { assert OpensHandle(c[|b|], h); }
  }

  lemma HandlePidSnoc(b: Trace, e: Event<Call>, h: Value, pid: string)
    requires if OpensHandle(e, h) then Str(e.call.pid) == pid else HandlePid(b, h, pid)
    ensures HandlePid(b + [e], h, pid)
  {
    var c := b + [e];
    if OpensHandle(e, h) {
      assert OpensHandle(c[|b|], h);
    } else {
      var i :| 0 <= i < |b| && OpensHandle(b[i], h) && Str(b[i].call.pid) == pid
               && forall j :: i < j < |b| ==> !OpensHandle(b[j], h);
      assert OpensHandle(c[i], h);
    }
  }

  lemma HandleMapSnoc(b: Trace, e: Event<Call>, m: map<Value, string>)
    requires IsHandleMap(b, m)
    ensures IsHandleMap(b + [e], if Opens(e) then m[e.call.handle := Str(e.call.pid)] else m)
  {
    var n := if Opens(e) then m[e.call.handle := Str(e.call.pid)] else m;
    forall h ensures h in n <==> Tracked(b + [e], h) { TrackedSnoc(b, e, h); }
    forall h | h in n ensures HandlePid(b + [e], h, n[h]) { HandlePidSnoc(b, e, h, n[h]); }
  }

  lemma OpenedPidSnoc(b: Trace, e: Event<Call>, p: string)
    ensures OpenedPid(b + [e], p) <==> OpenedPid(b, p) || (Opens(e) && Str(e.call.pid) == p)
  {
    var c := b + [e];
    if i :| 0 <= i < |b| && Opens(b[i]) && Str(b[i].call.pid) == p { assert Opens(c[i]); }
    if Opens(e) { assert c[|b|] == e; }
  }

  lemma PidSetSnoc(b: Trace, e: Event<Call>, s: set<string>)
    requires IsPidSet(b, s)
    ensures IsPidSet(b + [e], if Opens(e) then s + {Str(e.call.pid)} else s)
  {
    forall p { OpenedPidSnoc(b, e, p); }
  }

  lemma AtSnoc(b: Trace, e: Event<Call>)
    ensures forall i: nat :: i < |b| ==> (EntersAt(b + [e], i) <==> EntersAt(b, i))
    ensures forall i: nat :: i < |b| ==> (WritesAt(b + [e], i) <==> WritesAt(b, i))
    ensures EntersAt(b + [e], |b|) <==> Enters(b, e.call)
    ensures WritesAt(b + [e], |b|) <==> Writes(b, e.call)
  {
    var c := b + [e];
    assert c[..|b|] == b;
    forall i: nat | i < |b| ensures c[..i] == b[..i] && c[i] == b[i] {}
  }

  lemma FirstEntryUnique(b: Trace, k: nat, l: nat)
    requires IsFirstEntry(b, k) && IsFirstEntry(b, l)
    ensures k == l
  {
    assert !(k < l) && !(l < k);
  }

  lemma {:induction false} FirstEntryExists(b: Trace, i: nat) returns (k: nat)
    requires EntersAt(b, i)
    ensures IsFirstEntry(b, k) && k <= i
  {
    k := i;
    if j: nat :| j < i && EntersAt(b, j) {
      k := FirstEntryExists(b, j);
    }
  }

  lemma StageUnique(b: Trace, n: nat, m: nat)
    requires IsStage(b, n) && IsStage(b, m)
    ensures n == m
  {
    if k: nat :| IsFirstEntry(b, k) {
      forall l: nat | IsFirstEntry(b, l) ensures l == k { FirstEntryUnique(b, k, l); }
    }
  }

  lemma StageAfterEntry(b: Trace, e: Event<Call>, n: nat, k: nat)
    requires IsStage(b, n) && IsFirstEntry(b, k)
    ensures IsStage(b + [e], if n == 1 && Writes(b, e.call) then 2 else n)
    ensures 1 <= n <= 2
  {
    var c := b + [e];
    AtSnoc(b, e);
    forall l: nat | IsFirstEntry(b, l) ensures l == k { FirstEntryUnique(b, k, l); }
    assert IsFirstEntry(c, k);
    assert WrittenAfter(c, k) <==> WrittenAfter(b, k) || Writes(b, e.call) by {
      if j: nat :| k < j && WritesAt(b, j) { assert WritesAt(c, j); }
      if j: nat :| k < j && WritesAt(c, j) { assert j < |b| ==> WritesAt(b, j); }
    }
  }

  lemma StageBeforeEntry(b: Trace, e: Event<Call>, n: nat)
    requires IsStage(b, n) && forall k: nat :: !IsFirstEntry(b, k)
    ensures n == 0
    ensures IsStage(b + [e], if !Enters(b, e.call) then 0 else if e.call.MapView? then 2 else 1)
  {
    var c := b + [e];
    AtSnoc(b, e);
    forall i: nat ensures !EntersAt(b, i) {
      if EntersAt(b, i) { var k := FirstEntryExists(b, i); }
    }
    if Enters(b, e.call) {
      assert IsFirstEntry(c, |b|);
      forall l: nat | IsFirstEntry(c, l) ensures l == |b| { FirstEntryUnique(c, |b|, l); }
      assert c[|b|] == e;
      assert !WrittenAfter(c, |b|);
    } else {
      assert forall i: nat :: !EntersAt(c, i);
    }
  }

  function StageStep(n: nat, entered: bool, mapped: bool, written: bool): nat {
    if n == 0 && entered then (if mapped then 2 else 1) else if n == 1 && written then 2 else n
  }

  /** The stage moves exactly as the closed form says. */
  lemma StageSnoc(b: Trace, e: Event<Call>, n: nat)
    requires IsStage(b, n)
    ensures n <= 2
    ensures IsStage(b + [e], StageStep(n, Enters(b, e.call), e.call.MapView?, Writes(b, e.call)))
  {
    if k: nat :| IsFirstEntry(b, k) {
      StageAfterEntry(b, e, n, k);
    } else {
      StageBeforeEntry(b, e, n);
    }
  }

  lemma {:induction false} StageExists(b: Trace) returns (n: nat)
    ensures IsStage(b, n)
  {
    if b == [] {
      n := 0;
    } else {
      assert b == Front(b) + [Last(b)];
      n := StageExists(Front(b));
      StageSnoc(Front(b), Last(b), n);
      n := StageStep(n, Enters(Front(b), Last(b).call), Last(b).call.MapView?, Writes(Front(b), Last(b).call));
    }
  }

  /** The stage never goes back while the block lasts. */
  lemma {:induction false} StageMonotone(b: Trace, c: Trace, n: nat, m: nat)
    requires IsStage(b, n) && IsStage(b + c, m)
    ensures n <= m <= 2
  {
    if c == [] {
      assert b + c == b;
      StageUnique(b, n, m);
      StageSnoc(b, Event(Process(0, ""), Other), n);
    } else {
      var d := b + Front(c);
      var k := StageExists(d);
      StageMonotone(b, Front(c), n, k);
      StageSnoc(d, Last(c), k);
      assert b + c == d + [Last(c)];
      StageUnique(b + c, m, StageStep(k, Enters(d, Last(c).call), Last(c).call.MapView?, Writes(d, Last(c).call)));
    }
  }

  /** A library-patch match is never made by the write that completed stage 2: before it there is a
      first entry that was a mapping, or an allocation and another tracked write. */
  lemma PatchNeedsEarlierWrite(b: Trace) returns (k: nat)
    requires Fires(b) && Last(b).call.Write?
    ensures IsFirstEntry(Front(b), k)
    ensures b[k].call.MapView? || exists j: nat :: k < j < |b| - 1 && WritesAt(Front(b), j)
  {
    var f := Front(b);
    if !exists l: nat :: IsFirstEntry(f, l) {
      StageUnique(f, 0, 2);
    }
    k :| IsFirstEntry(f, k) && 2 == (if f[k].call.MapView? || WrittenAfter(f, k) then 2 else 1);
    assert f[k] == b[k];
    if !b[k].call.MapView? {
      var j: nat :| k < j && WritesAt(f, j);
      assert k < j < |b| - 1;
    }
  }

  // ---- a process that opens itself ----

  /** The argument names the calling process, as a number or as its decimal text. */
  predicate NamesItself(e: Event<Call>) { e.call.Open? && Str(e.call.pid) == Str(Number(e.proc.id)) }

  /** A successful open of its own process escapes the guard exactly when the pid comes as text. */
  lemma OwnOpenTracked(b: Trace, e: Event<Call>)
    requires NamesItself(e) && e.call.status
    ensures e.call.pid == Number(e.proc.id) || e.call.pid == Text(Decimal(e.proc.id))
    ensures Tracked(b + [e], e.call.handle) <==> Tracked(b, e.call.handle) || e.call.pid.Text?
  {
    StrOfPid(e.call.pid, e.proc.id);
    TrackedSnoc(b, e, e.call.handle);
  }

  /** Nothing in the block is opened but the process itself. */
  ghost predicate OpensOnlyItself(b: Trace) {
    forall i :: 0 <= i < |b| && b[i].call.Open? && b[i].call.status ==> NamesItself(b[i])
  }

  /** A process that opens only itself can match, but only after an open by textual pid; and unless the
      match is by a queued APC it is reported as injecting into itself. */
  lemma SelfMatchIsTextual(b: Trace, r: Report)
    requires OpensOnlyItself(b) && Fires(b) && ReportOf(b, r) && Uniform(b, Last(b).proc)
    ensures exists i :: 0 <= i < |b| && Opens(b[i]) && b[i].call.pid == Text(Decimal(Last(b).proc.id))
    ensures r.Remote? ==> r.target == Decimal(r.source.id)
  {
    var f := Front(b);
    var i :| 0 <= i < |f| && Opens(f[i]);
    assert f[i] == b[i];
    OwnOpenTracked(b[..i], b[i]);
    if r.Remote? {
      var h := Last(b).call.process;
      var j :| 0 <= j < |f| && OpensHandle(f[j], h) && Str(f[j].call.pid) == r.target;
      assert f[j] == b[j] && NamesItself(b[j]);
    }
  }

  /** And after any block whatever, it can: open itself by textual pid, map, write, start a thread. */
  lemma TextualSelfMatch(b: Trace, p: Process, h: Value) returns (c: Trace)
    ensures |c| == |b| + 4 && b <= c && (forall i :: |b| <= i < |c| ==> c[i].proc == p)
    ensures OpensOnlyItself(c[|b|..]) && Fires(c) && ReportOf(c, Remote(p, Decimal(p.id)))
  {
    hide IsStage, Enters, Writes, Tracked;
    var open := Event(p, Open(true, Text(Decimal(p.id)), h));
    var map_, write, start := Event(p, MapView(h)), Event(p, Write(h, None, Absent)), Event(p, CreateThread(h));
    var d := b + [open] + [map_] + [write];
    c := d + [start];
    assert Front(c) == d && c[|b|..] == [open, map_, write, start];
    SelfOpened(b, p, h, map_, write);
    assert HandlePid(d, h, Decimal(p.id)) by {
      LastOpenNames(b, open, [map_] + [write]);
      assert d == b + [open] + ([map_] + [write]);
    }
  }

  lemma LastOpenNames(b: Trace, e: Event<Call>, rest: Trace)
    requires Opens(e) && forall x :: x in rest ==> !x.call.Open?
    ensures HandlePid(b + [e] + rest, e.call.handle, Str(e.call.pid))
  {
    var d := b + [e] + rest;
    assert d[|b|] == e;
    assert forall j :: |b| < j < |d| ==> d[j] == rest[j - |b| - 1];
  }

  lemma SelfOpened(b: Trace, p: Process, h: Value, m: Event<Call>, w: Event<Call>)
    requires m.call == MapView(h) && w.call.Write? && w.call.process == h
    ensures var d := b + [Event(p, Open(true, Text(Decimal(p.id)), h))] + [m] + [w];
            IsStage(d, 2) && Tracked(d, h)
  {
    hide IsStage, Tracked;
    var e := Event(p, Open(true, Text(Decimal(p.id)), h));
    var n := StageExists(b);
    TrackedSnoc(b, e, h);
    StageSnoc(b, e, n);
    TrackedSnoc(b + [e], m, h);
    StageSnoc(b + [e], m, n);
    TrackedSnoc(b + [e] + [m], w, h);
    StageSnoc(b + [e] + [m], w, if n == 0 then 2 else n);
  }

  ghost predicate Describes(b: Trace, n: nat, handles: map<Value, string>, pids: set<string>) {
    IsStage(b, n) && IsHandleMap(b, handles) && IsPidSet(b, pids)
  }

  lemma DescribesEmpty()
    ensures Describes([], 0, map[], {})
  {
  }

  lemma PidsCoverHandles(b: Trace, handles: map<Value, string>, pids: set<string>)
    requires IsHandleMap(b, handles) && IsPidSet(b, pids)
    ensures forall h :: h in handles ==> handles[h] in pids
  {
    forall h | h in handles ensures OpenedPid(b, handles[h]) {
      var i :| 0 <= i < |b| && OpensHandle(b[i], h) && Str(b[i].call.pid) == handles[h];
      assert Opens(b[i]);
    }
  }

  lemma AfterOpen(b: Trace, e: Event<Call>, n: nat, m: map<Value, string>, s: set<string>)
    requires Describes(b, n, m, s) && e.call.Open?
    ensures Opens(e) ==> Describes(b + [e], n, m[e.call.handle := Str(e.call.pid)], s + {Str(e.call.pid)})
    ensures !Opens(e) ==> Describes(b + [e], n, m, s)
    ensures !Fires(b + [e])
  {
    assert Front(b + [e]) == b;
    StageSnoc(b, e, n);
    HandleMapSnoc(b, e, m);
    PidSetSnoc(b, e, s);
  }

  /** Stage and verdict after any other call, decided by looking up the tables. */
  lemma AfterOther(b: Trace, e: Event<Call>, n: nat, m: map<Value, string>, s: set<string>)
    requires Describes(b, n, m, s) && !e.call.Open?
    ensures n <= 2
    ensures (e.call.MapView? || e.call.Allocate?) && n == 0 && e.call.process in m ==>
      Describes(b + [e], if e.call.MapView? then 2 else 1, m, s)
    ensures e.call.Write? && n == 1 && e.call.process in m ==> Describes(b + [e], 2, m, s)
    ensures (e.call.MapView? || e.call.Allocate?) && !(n == 0 && e.call.process in m) ==> Describes(b + [e], n, m, s)
    ensures e.call.Write? && !(n == 1 && e.call.process in m) ==> Describes(b + [e], n, m, s)
    ensures e.call.CreateThread? || e.call.QueueApc? || e.call.Other? ==> Describes(b + [e], n, m, s)
    ensures Fires(b + [e]) ==> n == 2
    ensures e.call.Write? ==> (Fires(b + [e]) <==> n == 2 && e.call.process in m && PatchesLibrary(e.call))
    ensures e.call.CreateThread? ==> (Fires(b + [e]) <==> n == 2 && e.call.process in m)
    ensures e.call.QueueApc? ==> (Fires(b + [e]) <==> n == 2 && Str(e.call.pid) in s)
    ensures e.call.MapView? || e.call.Allocate? || e.call.Other? ==> !Fires(b + [e])
    ensures (e.call.Write? || e.call.CreateThread?) && e.call.process in m ==>
      ReportOf(b + [e], Remote(e.proc, m[e.call.process]))
    ensures e.call.QueueApc? ==> ReportOf(b + [e], Apc(e.proc, e.proc))
  {
    assert Front(b + [e]) == b;
    StageSnoc(b, e, n);
    HandleMapSnoc(b, e, m);
    PidSetSnoc(b, e, s);
    if Fires(b + [e]) { StageUnique(b, n, 2); }
  }

  // ---- the signature ----

  class InjectionCRT {
    var lastprocess: Option<Process>
    var sequence: nat
    var processHandles: set<Value>
    var processPids: set<string>
    var handleMap: map<Value, string>
    var data: seq<Report>
    ghost var history: Trace

    /** The handle set and the map always have the same keys, so no lookup can miss; the pid set is
        every pid opened in the block, also those whose handle has been reused since. */
    ghost predicate Valid()
      reads this
    {
      && lastprocess == (if history == [] then None else Some(Last(history).proc))
      && processHandles == handleMap.Keys
      && Describes(LastBlock(history), sequence, handleMap, processPids)
    }

    ghost predicate Ready(p: Process)
      reads this
    {
      && lastprocess == Some(p)
      && processHandles == handleMap.Keys
      && Describes(BlockBefore(history, p), sequence, handleMap, processPids)
    }

    constructor ()
      ensures Valid() && history == [] && data == []
    {
      lastprocess, sequence, data, history := None, 0, [], [];
      processHandles, processPids, handleMap := {}, {}, map[];
    }

    method EnterBlock(p: Process)
      requires Valid()
      modifies this
      ensures history == old(history) && data == old(data) && Ready(p)
    {
      if lastprocess != Some(p) {
        sequence := 0;
        processHandles, processPids, handleMap := {}, {}, map[];
        lastprocess := Some(p);
        DescribesEmpty();
      }
    }

    method OnOpen(e: Event<Call>)
      requires Ready(e.proc) && e.call.Open?
      modifies this
      ensures Valid() && history == old(history) + [e] && data == old(data)
      ensures !Fires(LastBlock(history))
    {
      hide Describes, Fires, LastBlock, BlockBefore, Str;
      AfterOpen(BlockBefore(history, e.proc), e, sequence, handleMap, processPids);
      LastBlockSnoc(history, e);
      history := history + [e];
      if e.call.status && e.call.pid != Number(e.proc.id) {
        var pid := Str(e.call.pid);
        processHandles := processHandles + {e.call.handle};
        processPids := processPids + {pid};
        handleMap := handleMap[e.call.handle := pid];
      }
    }

    /** The branches that move the stage. */
    method OnStep(e: Event<Call>)
      requires Ready(e.proc) && (e.call.MapView? || e.call.Allocate? || e.call.Other? || (e.call.Write? && sequence != 2))
      modifies this
      ensures Valid() && history == old(history) + [e] && data == old(data)
      ensures !Fires(LastBlock(history))
    {
      hide Describes, Fires, LastBlock, BlockBefore, ReportOf, PatchesLibrary;
      AfterOther(BlockBefore(history, e.proc), e, sequence, handleMap, processPids);
      LastBlockSnoc(history, e);
      history := history + [e];
      if e.call.MapView? && sequence == 0 {
        if e.call.process in processHandles { sequence := 2; }
      } else if e.call.Allocate? && sequence == 0 {
        if e.call.process in processHandles { sequence := 1; }
      } else if e.call.Write? && sequence == 1 {
        if e.call.process in processHandles { sequence := 2; }
      }
    }

    /** The branches that match. */
    method OnStart(e: Event<Call>) returns (v: Verdict)
      requires Ready(e.proc) && (e.call.CreateThread? || e.call.QueueApc? || (e.call.Write? && sequence == 2))
      modifies this
      ensures Valid() && history == old(history) + [e]
      ensures v.Matched? <==> Fires(LastBlock(history))
      ensures !v.Matched? ==> data == old(data)
      ensures v.Matched? ==> exists r :: ReportOf(LastBlock(history), r) && data == old(data) + [r]
    {
      hide Describes, Fires, LastBlock, BlockBefore, ReportOf, Str;
      AfterOther(BlockBefore(history, e.proc), e, sequence, handleMap, processPids);
      LastBlockSnoc(history, e);
      history := history + [e];
      v := Streaming;
      if e.call.Write? {
        if e.call.process in processHandles {
          if e.call.address.None? { return Rejected; }
          var addr := e.call.address.value;
          if HOOK_LOW <= addr < HOOK_HIGH {
            if !e.call.buffer.Text? { return Rejected; }
            if StartsWith(e.call.buffer.s, "\\xe9") {
              data := data + [Remote(e.proc, handleMap[e.call.process])];
              return Matched;
            }
          }
        }
      } else if e.call.CreateThread? && sequence == 2 {
        if e.call.process in processHandles {
          data := data + [Remote(e.proc, handleMap[e.call.process])];
          return Matched;
        }
      } else if e.call.QueueApc? && sequence == 2 {
        if Str(e.call.pid) in processPids {
          data := data + [Apc(lastprocess.value, e.proc)];
          return Matched;
        }
      }
    }

    method OnCall(e: Event<Call>) returns (v: Verdict)
      requires Valid()
      modifies this
      ensures Valid() && history == old(history) + [e]
      ensures v.Matched? <==> Fires(LastBlock(history))
      ensures !v.Matched? ==> data == old(data)
      ensures v.Matched? ==> exists r :: ReportOf(LastBlock(history), r) && data == old(data) + [r]
    {
      hide Describes, Fires, ReportOf, LastBlock;
      v := Streaming;
      EnterBlock(e.proc);
      if e.call.Open? {
        OnOpen(e);
      } else if e.call.CreateThread? || e.call.QueueApc? || (e.call.Write? && sequence == 2) {
        v := OnStart(e);
      } else {
        OnStep(e);
      }
    }
  }

  lemma TablesUnique(b: Trace, m: map<Value, string>, n: map<Value, string>, s: set<string>, u: set<string>)
    requires IsHandleMap(b, m) && IsHandleMap(b, n) && IsPidSet(b, s) && IsPidSet(b, u)
    ensures m == n && s == u
  {
    assert m.Keys == n.Keys;
    forall h | h in m ensures m[h] == n[h] { }
  }

  /** Block locality of the state: a signature that has seen only the last block is in the same state as
      one that has seen the whole trace. */
  lemma SameAsOnBlock(a: InjectionCRT, b: InjectionCRT)
    requires a.Valid() && b.Valid() && b.history == LastBlock(a.history)
    ensures a.lastprocess == b.lastprocess && a.sequence == b.sequence
    ensures a.processHandles == b.processHandles && a.handleMap == b.handleMap && a.processPids == b.processPids
  {
    hide IsStage, IsHandleMap, IsPidSet;
    LastBlockIdempotent(a.history);
    StageUnique(b.history, a.sequence, b.sequence);
    TablesUnique(b.history, a.handleMap, b.handleMap, a.processPids, b.processPids);
  }

  // ---- the engine ----

  /** A start of code has only one possible report. */
  lemma ReportUnique(b: Trace, r: Report, q: Report)
    requires ReportOf(b, r) && ReportOf(b, q)
    ensures r == q
  {
  }

  /** The logs determine the verdict and the report. */
  lemma OneOutcome(logs: seq<ProcessLog<Call>>, matched: bool, data: seq<Report>, found: bool, report: seq<Report>)
    requires Outcome(Fires, ReportOf, logs, matched, data) && Outcome(Fires, ReportOf, logs, found, report)
    ensures matched == found && data == report
  {
    hide Fires, ReportOf;
    forall b, r, q | ReportOf(b, r) && ReportOf(b, q) ensures r == q { ReportUnique(b, r, q); }
    OutcomeUnique(Fires, ReportOf, logs, matched, data, found, report);
  }

  /** Streams one process log. The call that matches is the last one to reach the signature: the
      history ends with the shortest firing prefix of the log, and the report is that prefix's. */
  method StreamLog(sig: InjectionCRT, log: ProcessLog<Call>) returns (matched: bool)
    requires sig.Valid() && sig.data == []
    requires sig.history == [] || Last(sig.history).proc != log.proc
    modifies sig
    ensures sig.Valid()
    ensures !matched ==> sig.history == old(sig.history) + LogEvents(log)
    ensures !matched ==> sig.data == [] && Never(Fires, LogEvents(log))
    ensures matched ==> exists m: nat, r :: FirstIn(Fires, LogEvents(log), m) && ReportOf(LogEvents(log)[..m], r)
                                            && sig.history == old(sig.history) + LogEvents(log)[..m] && sig.data == [r]
  {
    hide Fires, ReportOf, LastBlock, LogEvents;
    ghost var t, b := sig.history, LogEvents(log);
    LogEventsMeaning(log);
    assert t + b[..0] == t;
    for j := 0 to |log.calls|
      invariant sig.Valid() && sig.history == t + b[..j]
      invariant sig.data == [] && Never(Fires, b[..j])
    {
      var e := Event(log.proc, log.calls[j]);
      LogPrefixIsBlock(t, log, j + 1);
      NeverSnoc(Fires, b, j);
      assert t + b[..j + 1] == sig.history + [e];
      var v := sig.OnCall(e);
      if v.Matched? {
        return true;
      }
    }
    assert b[..|b|] == b;
    return false;
  }

  /** The engine run over all process logs: the signature matches exactly when some process, looked
      at alone, opens another process, enters it and starts code there. The report is made for the
      first log that does, at its first such start. */
  method Evaluate(logs: seq<ProcessLog<Call>>) returns (matched: bool, data: seq<Report>)
    requires DistinctProcesses(logs)
    ensures Outcome(Fires, ReportOf, logs, matched, data)
  {
    hide Fires, ReportOf, LogEvents;
    var sig := new InjectionCRT();
    for i := 0 to |logs|
      invariant sig.Valid() && fresh(sig)
      invariant sig.history == Replayed(logs[..i]) && sig.data == []
      invariant forall k: nat :: k < i ==> Never(Fires, LogEvents(logs[k]))
    {
      assert Front(logs[..i + 1]) == logs[..i];
      ReplayedComesFromLogs(logs[..i], logs[i].proc);
      matched := StreamLog(sig, logs[i]);
      if matched {
        return true, sig.data;
      }
    }
    return false, [];
  }
}
