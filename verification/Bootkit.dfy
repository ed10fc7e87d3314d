/** The bootkit signature: it follows writable raw-disk handles through opens, duplicates and closes,
    and matches on the first write or SCSI pass-through on one of them. */
module Bootkit {
  import opened PyModel
  import opened Traces
  import opened RawDisk

  const SCSI_PASS_THROUGH_DIRECT := 0x4D014

  /** The block fires with its last call. */
  ghost predicate Fires(b: Trace) {
    && b != []
    && match Last(b).call
       case Ioctl(code, handle) =>
         code == Hex(SCSI_PASS_THROUGH_DIRECT) && handle.Hex? && Tracked(Writable, Front(b), handle.n)
       case WriteFile(handle) => handle.Hex? && Tracked(Writable, Front(b), handle.n)
       case _ => false
  }

  lemma AfterCall(b: Trace, e: Event<Call>, m: map<nat, string>)
    requires IsTable(Writable, b, m)
    ensures IsTable(Writable, b + [e], Update(Writable, m, e.call))
    ensures Fires(b + [e]) <==>
      || (e.call.Ioctl? && e.call.code == Hex(SCSI_PASS_THROUGH_DIRECT) && e.call.handle.Hex? && e.call.handle.n in m)
      || (e.call.WriteFile? && e.call.handle.Hex? && e.call.handle.n in m)
  {
    TableSnoc(Writable, b, e, m);
    assert Front(b + [e]) == b;
  }

  // ---- the same in full ----

  /** A raw disk opened with the given access mask and then written to: the write fires exactly when the
      name is that of a raw disk and bit 30 (GENERIC_WRITE) or bit 1 (FILE_WRITE_DATA) is set. */
  lemma OpenThenWriteInFull(b: Trace, p: Process, name: string, h: nat,
                            hi: nat, g: nat, mid: nat, w: nat, lo: nat, access: nat)
    requires access == hi * 0x8000_0000 + g * 0x4000_0000 + mid * 4 + w * 2 + lo
    requires g < 2 && w < 2 && lo < 2 && mid < 0x1000_0000
    requires !Tracked(Writable, b, h)
    ensures Fires(b + [Event(p, Open(true, Some(name), Hex(h), Hex(access)))] + [Event(p, WriteFile(Hex(h)))]) <==>
      && (|| Lower(name) == "\\??\\physicaldrive0"
          || (|name| >= 16 && Lower(name)[..16] == "\\device\\harddisk"))
      && (g == 1 || w == 1)
  {
    hide Tracked, IsRawDisk, WantsWrite, Lower;
    var open, write := Event(p, Open(true, Some(name), Hex(h), Hex(access))), Event(p, WriteFile(Hex(h)));
    OpenInFull(b, open, h);
    IsRawDiskInFull(name);
    WantsWriteInFull(access, hi, g, mid, w, lo);
    assert Front(b + [open] + [write]) == b + [open];
  }

  /** What fires on a handle, and what does not. */
  lemma UseInFull(b: Trace, e: Event<Call>)
    ensures Fires(b + [e]) <==> exists h: nat ::
      && Tracked(Writable, b, h)
      && (e.call == WriteFile(Hex(h)) || e.call == Ioctl(Hex(0x4D014), Hex(h)))
  {
    hide Tracked;
    assert Front(b + [e]) == b;
    if Fires(b + [e]) { assert Tracked(Writable, b, e.call.handle.n); }
  }

  class Bootkit {
    var lastprocess: Option<Process>
    var handles: map<nat, string>
    ghost var history: Trace

    /** The table holds exactly the raw-disk handles of the current block, with the names their
        provenance gives them. */
    ghost predicate Valid()
      reads this
    {
      && lastprocess == (if history == [] then None else Some(Last(history).proc))
      && IsTable(Writable, LastBlock(history), handles)
    }

    constructor ()
      ensures Valid() && history == []
    {
      lastprocess, handles, history := None, map[], [];
    }

    method OnCall(e: Event<Call>) returns (v: Verdict)
      requires Valid()
      modifies this
      ensures Valid() && history == old(history) + [e]
      ensures v.Matched? <==> Fires(LastBlock(history))
    {
      hide IsTable, Fires, LastBlock, IsRawDisk, WantsWrite;
      v := Streaming;
      LastBlockSnoc(history, e);
      ghost var b := BlockBefore(history, e.proc);
      if lastprocess != Some(e.proc) {
        handles := map[];
        lastprocess := Some(e.proc);
        TableEmpty(Writable);
      }
      AfterCall(b, e, handles);
      history := history + [e];

      match e.call {
        case Duplicate(status, source, target) =>
          if status && target != NoArg {
            if !source.Hex? || !target.Hex? { return Rejected; }
            if source.n in handles { handles := handles[target.n := handles[source.n]]; }
          }
        case Close(handle) =>
          if !handle.Hex? { return Rejected; }
          handles := handles - {handle.n};
        case Open(status, name, handle, access) =>
          if status {
            if !handle.Hex? || !access.Hex? { return Rejected; }
            if name.Some? && IsRawDisk(name.value) && WantsWrite(access.n) {
              if handle.n !in handles { handles := handles[handle.n := name.value]; }
            }
          }
        case Ioctl(code, handle) =>
          if !code.Hex? || !handle.Hex? { return Rejected; }
          if handle.n in handles && code.n == SCSI_PASS_THROUGH_DIRECT { return Matched; }
        case WriteFile(handle) =>
          if !handle.Hex? { return Rejected; }
          if handle.n in handles { return Matched; }
        case Other =>
      }
    }
  }

  /** Block locality of the state: a signature that has seen only the last block is in the same state as
      one that has seen the whole trace. */
  lemma SameAsOnBlock(a: Bootkit, b: Bootkit)
    requires a.Valid() && b.Valid() && b.history == LastBlock(a.history)
    ensures a.lastprocess == b.lastprocess && a.handles == b.handles
  {
    LastBlockIdempotent(a.history);
    TableUnique(Writable, b.history, a.handles, b.handles);
  }

  // ---- the engine ----

  /** Streams one process log. The call that matches is the last one to reach the signature: the
      history ends with the shortest firing prefix of the log. */
  method StreamLog(sig: Bootkit, log: ProcessLog<Call>) returns (matched: bool)
    requires sig.Valid()
    requires sig.history == [] || Last(sig.history).proc != log.proc
    modifies sig
    ensures sig.Valid()
    ensures !matched ==> sig.history == old(sig.history) + LogEvents(log) && Never(Fires, LogEvents(log))
    ensures matched ==> exists m: nat :: FirstIn(Fires, LogEvents(log), m)
                                         && sig.history == old(sig.history) + LogEvents(log)[..m]
  {
    hide Fires, LastBlock, LogEvents;
    ghost var t, b := sig.history, LogEvents(log);
    LogEventsMeaning(log);
    assert t + b[..0] == t;
    for j := 0 to |log.calls|
      invariant sig.Valid() && sig.history == t + b[..j]
      invariant Never(Fires, b[..j])
    {
      var e := Event(log.proc, log.calls[j]);
      LogPrefixIsBlock(t, log, j + 1);
      NeverSnoc(Fires, b, j);
      assert t + b[..j + 1] == sig.history + [e];
      var v := sig.OnCall(e);
      if v.Matched? {
        return true;
      }
    }
    assert b[..|b|] == b;
    return false;
  }

  /** The engine run over all process logs: the signature matches exactly when some process, looked
      at alone, writes to a raw-disk handle or passes it SCSI commands. */
  method Evaluate(logs: seq<ProcessLog<Call>>) returns (matched: bool)
    requires DistinctProcesses(logs)
    ensures matched <==> exists i: nat, m: nat :: FirstInRun(Fires, logs, i, m)
    ensures matched <==> exists b :: b in Prefixes(AllLogs(logs)) && Fires(b)
  {
    hide Fires, LogEvents, AllLogs;
    EngineLocality(logs);
    RunEndsIffView(Fires, logs);
    var sig := new Bootkit();
    for i := 0 to |logs|
      invariant sig.Valid() && fresh(sig)
      invariant sig.history == Replayed(logs[..i])
      invariant forall k: nat :: k < i ==> Never(Fires, LogEvents(logs[k]))
    {
      assert Front(logs[..i + 1]) == logs[..i];
      ReplayedComesFromLogs(logs[..i], logs[i].proc);
      matched := StreamLog(sig, logs[i]);
      if matched {
        ghost var m: nat :| FirstIn(Fires, LogEvents(logs[i]), m);
        assert FirstInRun(Fires, logs, i, m);
        return;
      }
    }
    return false;
  }
}
