/** The disk-information signature: the same handle table under a weaker admission rule, skipping
    every call of an office process, and matching on a disk query through a tracked handle. */
module DiskInformation {
  import opened PyModel
  import opened Traces
  import opened RawDisk
  import Bootkit

  const OFFICE: set<string> := {
    "wordview.exe", "winword.exe", "excel.exe", "powerpnt.exe",
    "outlook.exe", "acrord32.exe", "acrord64.exe", "acrobat.exe"
  }

  const QUERIES: set<nat> := {0x2D1400, 0x70000, 0x700A0, 0x4D008, 0x7405C}

  predicate IsOffice(p: Process) { Lower(p.name) in OFFICE }

  /** The events the signature does not skip. */
  ghost function Watched(t: Trace): Trace {
    if t == [] then []
    else if IsOffice(Last(t).proc) then Watched(Front(t))
    else Watched(Front(t)) + [Last(t)]
  }

  lemma WatchedSnoc(t: Trace, e: Event<Call>)
    ensures Watched(t + [e]) == if IsOffice(e.proc) then Watched(t) else Watched(t) + [e]
  {
    assert Front(t + [e]) == t;
  }

  ghost predicate Fires(b: Trace) {
    && b != []
    && match Last(b).call
       case Ioctl(code, handle) =>
         code.Hex? && code.n in QUERIES && handle.Hex? && Tracked(AnyDisk, Front(b), handle.n)
       case _ => false
  }

  lemma AfterCall(b: Trace, e: Event<Call>, m: map<nat, string>)
    requires IsTable(AnyDisk, b, m)
    ensures IsTable(AnyDisk, b + [e], Update(AnyDisk, m, e.call))
    ensures Fires(b + [e]) <==>
      e.call.Ioctl? && e.call.code.Hex? && e.call.code.n in QUERIES && e.call.handle.Hex? && e.call.handle.n in m
  {
    TableSnoc(AnyDisk, b, e, m);
    assert Front(b + [e]) == b;
  }

  // ---- the same in full ----

  lemma IsOfficeInFull(p: Process)
    ensures IsOffice(p) <==>
      || Lower(p.name) == "wordview.exe" || Lower(p.name) == "winword.exe" || Lower(p.name) == "excel.exe"
      || Lower(p.name) == "powerpnt.exe" || Lower(p.name) == "outlook.exe" || Lower(p.name) == "acrord32.exe"
      || Lower(p.name) == "acrord64.exe" || Lower(p.name) == "acrobat.exe"
  {
  }

  /** What fires on a handle: one of five queries, by number, and nothing else. */
  lemma UseInFull(b: Trace, e: Event<Call>)
    ensures Fires(b + [e]) <==> exists h: nat, code: nat ::
      && Tracked(AnyDisk, b, h) && e.call == Ioctl(Hex(code), Hex(h))
      && (code == 0x2D1400 || code == 0x70000 || code == 0x700A0 || code == 0x4D008 || code == 0x7405C)
  {
    hide Tracked;
    assert Front(b + [e]) == b;
    if Fires(b + [e]) {
      assert Tracked(AnyDisk, b, e.call.handle.n) && e.call == Ioctl(Hex(e.call.code.n), Hex(e.call.handle.n));
    }
  }

  /** A disk opened in any way and then queried. */
  lemma OpenThenQueryInFull(b: Trace, p: Process, name: string, h: nat, access: HexArg, code: nat)
    requires !Tracked(AnyDisk, b, h)
    ensures Fires(b + [Event(p, Open(true, Some(name), Hex(h), access))] + [Event(p, Ioctl(Hex(code), Hex(h)))]) <==>
      && (|| Lower(name) == "\\??\\physicaldrive0"
          || (|name| >= 16 && Lower(name)[..16] == "\\device\\harddisk")
          || exists before, rest :: Lower(name) == before + "scsi0" + rest)
      && (code == 0x2D1400 || code == 0x70000 || code == 0x700A0 || code == 0x4D008 || code == 0x7405C)
  {
    hide Tracked, IsRawDisk, Lower, Fires;
    var open, query := Event(p, Open(true, Some(name), Hex(h), access)), Event(p, Ioctl(Hex(code), Hex(h)));
    OpenInFull(b, open, h);
    IsRawDiskInFull(name);
    UseInFull(b + [open], query);
    assert query.call == Ioctl(Hex(code), Hex(h));
    if Tracked(AnyDisk, b + [open], h) { assert query.call == Ioctl(Hex(code), Hex(h)); }
  }

  class DiskInformation {
    var lastprocess: Option<Process>
    var handles: map<nat, string>
    ghost var history: Trace

    /** The table describes the last block of the watched events; office processes neither add to it
        nor end the block. */
    ghost predicate Valid()
      reads this
    {
      var t := Watched(history);
      && lastprocess == (if t == [] then None else Some(Last(t).proc))
      && IsTable(AnyDisk, LastBlock(t), handles)
    }

    constructor ()
      ensures Valid() && history == []
    {
      lastprocess, handles, history := None, map[], [];
    }

    method OnCall(e: Event<Call>) returns (v: Verdict)
      requires Valid()
      modifies this
      ensures Valid() && history == old(history) + [e]
      ensures v.Matched? <==> !IsOffice(e.proc) && Fires(LastBlock(Watched(history)))
      ensures IsOffice(e.proc) ==> v.Rejected? && handles == old(handles)
    {
      hide IsTable, Fires, LastBlock, IsRawDisk, IsOffice, Watched, Contains, Lower;
      v := Streaming;
      WatchedSnoc(history, e);
      ghost var t := Watched(history);
      history := history + [e];
      if IsOffice(e.proc) { return Rejected; }
      LastBlockSnoc(t, e);
      ghost var b := BlockBefore(t, e.proc);
      if lastprocess != Some(e.proc) {
        handles := map[];
        lastprocess := Some(e.proc);
        TableEmpty(AnyDisk);
      }
      AfterCall(b, e, handles);

      match e.call {
        case Duplicate(status, source, target) =>
          if status && target != NoArg {
            if !source.Hex? || !target.Hex? { return Rejected; }
            if source.n in handles { handles := handles[target.n := handles[source.n]]; }
          }
        case Close(handle) =>
          if !handle.Hex? { return Rejected; }
          handles := handles - {handle.n};
        case Open(status, name, handle, access) =>
          if status {
            if !handle.Hex? { return Rejected; }
            if name.Some? && (IsRawDisk(name.value) || Contains(Lower(name.value), "scsi0")) {
              if handle.n !in handles { handles := handles[handle.n := name.value]; }
            }
          }
        case Ioctl(code, handle) =>
          if !code.Hex? || !handle.Hex? { return Rejected; }
          if handle.n in handles && code.n in QUERIES { return Matched; }
        case WriteFile(handle) =>
        case Other =>
      }
    }
  }

  // ---- the engine ----

  /** The block fires and the signature watches its process. */
  ghost predicate WatchedFires(b: Trace) { b != [] && !IsOffice(Last(b).proc) && Fires(b) }

  /** What the signature sees after the first m calls of a log of a watched process. */
  lemma WatchedPrefix(t: Trace, log: ProcessLog<Call>, m: nat)
    requires 0 < m <= |log.calls| && !IsOffice(log.proc)
    requires forall e :: e in t ==> e.proc != log.proc
    ensures LastBlock(Watched(t + LogEvents(log)[..m])) == LogEvents(log)[..m]
  {
    WatchedUniform(t, LogEvents(log)[..m], log.proc);
    WatchedWithin(t);
    LogPrefixIsBlock(Watched(t), log, m);
  }

  lemma {:induction false} WatchedWithin(t: Trace)
    ensures forall e :: e in Watched(t) ==> e in t
  {
    if t != [] {
      WatchedWithin(Front(t));
      assert t == Front(t) + [Last(t)];
    }
  }

  /** Streams one process log. The call that matches is the last one to reach the signature: the
      history ends with the shortest firing prefix of the log. */
  method StreamLog(sig: DiskInformation, log: ProcessLog<Call>) returns (matched: bool)
    requires sig.Valid()
    requires forall e :: e in sig.history ==> e.proc != log.proc
    modifies sig
    ensures sig.Valid()
    ensures !matched ==> sig.history == old(sig.history) + LogEvents(log) && Never(WatchedFires, LogEvents(log))
    ensures matched ==> exists m: nat :: FirstIn(WatchedFires, LogEvents(log), m)
                                         && sig.history == old(sig.history) + LogEvents(log)[..m]
  {
    hide Fires, IsOffice, Watched, LastBlock, LogEvents;
    ghost var t, b := sig.history, LogEvents(log);
    LogEventsMeaning(log);
    assert t + b[..0] == t;
    for j := 0 to |log.calls|
      invariant sig.Valid() && sig.history == t + b[..j]
      invariant Never(WatchedFires, b[..j])
    {
      var e := Event(log.proc, log.calls[j]);
      if !IsOffice(log.proc) { WatchedPrefix(t, log, j + 1); }
      NeverSnoc(WatchedFires, b, j);
      assert t + b[..j + 1] == sig.history + [e];
      var v := sig.OnCall(e);
      if v.Matched? {
        return true;
      }
    }
    assert b[..|b|] == b;
    return false;
  }

  /** The engine run over all process logs: the signature matches exactly when some process that
      is no office process, looked at alone, queries a disk through a tracked handle. */
  method Evaluate(logs: seq<ProcessLog<Call>>) returns (matched: bool)
    requires DistinctProcesses(logs)
    ensures matched <==> exists i: nat, m: nat :: FirstInRun(WatchedFires, logs, i, m)
    ensures matched <==> exists b :: b in Prefixes(AllLogs(logs)) && WatchedFires(b)
  {
    hide Fires, IsOffice, Watched, LogEvents, AllLogs;
    EngineLocality(logs);
    RunEndsIffView(WatchedFires, logs);
    var sig := new DiskInformation();
    for i := 0 to |logs|
      invariant sig.Valid() && fresh(sig)
      invariant sig.history == Replayed(logs[..i])
      invariant forall k: nat :: k < i ==> Never(WatchedFires, LogEvents(logs[k]))
    {
      assert Front(logs[..i + 1]) == logs[..i];
      ReplayedComesFromLogs(logs[..i], logs[i].proc);
      matched := StreamLog(sig, logs[i]);
      if matched {
        ghost var m: nat :| FirstIn(WatchedFires, LogEvents(logs[i]), m);
        assert FirstInRun(WatchedFires, logs, i, m);
        return;
      }
    }
    return false;
  }

  // ---- Bootkit simulated by DiskInformation ----

  lemma {:induction false} WatchedUniform(a: Trace, b: Trace, p: Process)
    requires Uniform(b, p) && !IsOffice(p)
    ensures Watched(a + b) == Watched(a) + b
  {
    if b == [] {
      assert a + b == a;
    } else {
      WatchedUniform(a, Front(b), p);
      assert Front(a + b) == a + Front(b);
      assert b == Front(b) + [Last(b)];
    }
  }

  /** After an event of a watched process, DiskInformation's block contains Bootkit's as its end: it
      can only be longer, when an office process cut Bootkit's block short. */
  lemma BlocksAlign(t: Trace) returns (a: Trace)
    requires t != [] && !IsOffice(Last(t).proc)
    ensures LastBlock(Watched(t)) == a + LastBlock(t)
  {
    var b := LastBlock(t);
    LastBlockIsMaximalRun(t, b);
    var before := t[..|t| - |b|];
    assert t == before + b;
    WatchedUniform(before, b, Last(t).proc);
    var w := Watched(before);
    var c := LastBlock(w + b);
    LastBlockIsMaximalRun(w + b, c);
    assert |c| >= |b|;
    a := c[..|c| - |b|];
    assert c[|c| - |b|..] == (w + b)[|w|..] == b;
  }

  /** Forward simulation: whatever the trace, as long as its last event comes from a process both
      signatures watch, every handle Bootkit tracks is tracked by DiskInformation. */
  lemma BootkitWithinDisk(t: Trace, bootkit: map<nat, string>, disk: map<nat, string>)
    requires t != [] && !IsOffice(Last(t).proc)
    requires IsTable(Writable, LastBlock(t), bootkit)
    requires IsTable(AnyDisk, LastBlock(Watched(t)), disk)
    ensures bootkit.Keys <= disk.Keys
  {
    var a := BlocksAlign(t);
    forall h | h in bootkit ensures h in disk {
      WritableIsAnyDisk(a, LastBlock(t), h);
    }
  }

  /** The guard is needed: after any trace at all, one open by an office process gives Bootkit a
      handle that DiskInformation does not have. */
  lemma OfficeBreaksInclusion(t: Trace, p: Process, h: nat) returns (e: Event<Call>)
    requires IsOffice(p) && !Tracked(AnyDisk, LastBlock(Watched(t)), h)
    ensures e.proc == p
    ensures Tracked(Writable, LastBlock(t + [e]), h)
    ensures !Tracked(AnyDisk, LastBlock(Watched(t + [e])), h)
  {
    var name := "\\??\\physicaldrive0";
    assert Lower(name) == name;
    e := Event(p, Open(true, Some(name), Hex(h), Hex(2)));
    LastBlockSnoc(t, e);
    TrackedSnoc(Writable, BlockBefore(t, p), e, h);
    assert Front(t + [e]) == t;
  }

  /** Every handle Bootkit tracks after the trace is tracked by DiskInformation. */
  ghost predicate Included(t: Trace) {
    forall h :: Tracked(Writable, LastBlock(t), h) ==> Tracked(AnyDisk, LastBlock(Watched(t)), h)
  }

  /** The processes on whose events the inclusion can be relied on are exactly the watched ones. */
  lemma IncludedIffWatched(p: Process)
    ensures (forall t: Trace :: t != [] && Last(t).proc == p ==> Included(t)) <==> !IsOffice(p)
  {
    if IsOffice(p) {
      var e := OfficeBreaksInclusion([], p, 0);
      assert [] + [e] == [e];
      assert Last([e]).proc == p && !Included([e]);
    } else {
      forall t: Trace, h | t != [] && Last(t).proc == p && Tracked(Writable, LastBlock(t), h)
        ensures Tracked(AnyDisk, LastBlock(Watched(t)), h)
      {
        var a := BlocksAlign(t);
        WritableIsAnyDisk(a, LastBlock(t), h);
      }
    }
  }
}
