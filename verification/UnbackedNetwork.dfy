/** Network calls from unbacked memory: a tracker of live ranges per process that honours frees. */
module UnbackedNetwork {
  import opened PyModel
  import opened UnbackedMemory

  datatype Connection = Connection(process: string, api: string, caller: string)

  // ---- trace-level specification ----

  /** Some later event frees this base in this process. */
  ghost predicate FreedAfter(t: Trace, i: nat, pid: int, base: int) {
    exists j :: i < j < |t| && FreeOf(t[j]) == Some(Freed(pid, base))
  }

  /** Event i allocates for pid and nothing frees it until the end of the trace. */
  ghost predicate LiveAt(t: Trace, i: nat, pid: int) {
    && i < |t|
    && AllocatesFor(t[i], pid)
    && !FreedAfter(t, i, pid, TargetAllocation(t[i]).value.range.start)
  }

  /** The live ranges of pid, in the order of their allocations, from event i on. */
  ghost function LiveFrom(t: Trace, i: nat, pid: int): seq<Range>
    decreases |t| - i
  {
    if i >= |t| then []
    else if LiveAt(t, i, pid) then [TargetAllocation(t[i]).value.range] + LiveFrom(t, i + 1, pid)
    else LiveFrom(t, i + 1, pid)
  }

  predicate AllocatesFor(e: Event<Call>, pid: int) {
    TargetAllocation(e).Some? && TargetAllocation(e).value.pid == pid
  }

  ghost function Live(t: Trace, pid: int): seq<Range> { LiveFrom(t, 0, pid) }

  /** Event i is a network call made from a range that is live at that moment. */
  ghost predicate Suspicious(t: Trace, i: nat) {
    && i < |t| && t[i].call.Network?
    && t[i].call.caller.Address? && t[i].call.caller.value.Some?
    && exists j: nat :: LiveAt(t[..i], j, t[i].proc.id) && Inside(TargetAllocation(t[j]).value.range, t[i].call.caller.value.value)
  }

  /** One entry for each suspicious call, in trace order. */
  ghost function Connections(t: Trace): seq<Connection> {
    if t == [] then []
    else if Suspicious(t, |t| - 1) then
      Connections(Front(t)) + [Connection(Last(t).proc.name, Last(t).call.api, Last(t).call.caller.text)]
    else Connections(Front(t))
  }

  // ---- the same in full ----

  /** Call i is a network call from an address in the block that call j allocated for its process, both
      ends included, and that no call in between freed. */
  ghost predicate FromBlock(t: Trace, i: nat, j: nat, base: int, size: int) {
    && j < i < |t|
    && t[i].call.Network? && t[i].call.caller.Address? && t[i].call.caller.value.Some?
    && AllocatesOn(t[j], t[i].proc.id, base, size)
    && base <= t[i].call.caller.value.value <= base + size
    && forall k :: j < k < i ==> !FreesBase(t[k], t[i].proc.id, base)
  }

  lemma SuspiciousInFull(t: Trace, i: nat)
    ensures Suspicious(t, i) <==> exists j: nat, base: int, size: int :: FromBlock(t, i, j, base, size)
  {
    if Suspicious(t, i) {
      var j: nat :| LiveAt(t[..i], j, t[i].proc.id) && Inside(TargetAllocation(t[j]).value.range, t[i].call.caller.value.value);
      LiveInFull(t, i, j);
      var r := TargetAllocation(t[j]).value.range;
      BookedInFull(t[j], t[i].proc.id, r.start, r.end - r.start);
      assert FromBlock(t, i, j, r.start, r.end - r.start);
    }
    if j: nat, base: int, size: int :| FromBlock(t, i, j, base, size) {
      BookedInFull(t[j], t[i].proc.id, base, size);
      LiveInFull(t, i, j);
    }
  }

  lemma LiveInFull(t: Trace, i: nat, j: nat)
    requires i < |t|
    ensures LiveAt(t[..i], j, t[i].proc.id) <==>
      && j < i && AllocatesFor(t[j], t[i].proc.id)
      && forall k :: j < k < i ==> !FreesBase(t[k], t[i].proc.id, TargetAllocation(t[j]).value.range.start)
  {
    var u, pid := t[..i], t[i].proc.id;
    if j < i && AllocatesFor(t[j], pid) {
      var base := TargetAllocation(t[j]).value.range.start;
      forall k | j < k < i ensures FreesBase(t[k], pid, base) <==> FreeOf(u[k]) == Some(Freed(pid, base)) {
        BookedInFull(t[k], pid, base, 0);
      }
    }
  }

  /** The entry stands for call i and repeats its process, name and caller. */
  ghost predicate StandsFor(t: Trace, c: Connection, i: nat) {
    Suspicious(t, i) && c.process == t[i].proc.name && c.api == t[i].call.api && c.caller == t[i].call.caller.text
  }

  lemma StandsForStable(t: Trace, c: Connection, i: nat)
    requires t != [] && i < |t| - 1
    ensures StandsFor(Front(t), c, i) <==> StandsFor(t, c, i)
  {
    SuspiciousStable(t, i);
  }

  lemma StandsForLast(t: Trace, c: Connection)
    requires t != []
    ensures Suspicious(t, |t| - 1) ==>
      (StandsFor(t, c, |t| - 1) <==> c == Connection(Last(t).proc.name, Last(t).call.api, Last(t).call.caller.text))
    ensures StandsFor(t, c, |t| - 1) ==> Suspicious(t, |t| - 1)
    ensures forall i: nat :: StandsFor(Front(t), c, i) ==> i < |t| - 1
    ensures forall i: nat :: StandsFor(t, c, i) ==> i < |t|
  {
  }

  lemma {:induction false} ConnectionsInFull(t: Trace, c: Connection)
    ensures c in Connections(t) <==> exists i: nat :: StandsFor(t, c, i)
  {
    hide Suspicious, StandsFor;
    if t == [] {
      NothingStands(c);
    } else {
      ConnectionsInFull(Front(t), c);
      StandsForLast(t, c);
      forall i: nat | i < |t| - 1 ensures StandsFor(Front(t), c, i) <==> StandsFor(t, c, i) { StandsForStable(t, c, i); }
    }
  }

  lemma NothingStands(c: Connection)
    ensures forall i: nat :: !StandsFor([], c, i)
  {
  }

  // ---- one more event ----

  lemma FreedAfterSnoc(t: Trace, e: Event<Call>, i: nat, pid: int, base: int)
    requires i < |t|
    ensures FreedAfter(t + [e], i, pid, base) <==> FreedAfter(t, i, pid, base) || FreeOf(e) == Some(Freed(pid, base))
  {
    var u := t + [e];
    if j :| i < j < |t| && FreeOf(t[j]) == Some(Freed(pid, base)) { assert FreeOf(u[j]) == Some(Freed(pid, base)); }
    if FreeOf(e) == Some(Freed(pid, base)) { assert FreeOf(u[|t|]) == Some(Freed(pid, base)); }
  }

  lemma LiveAtSnoc(t: Trace, e: Event<Call>, i: nat, pid: int)
    requires i < |t|
    ensures LiveAt(t + [e], i, pid) <==>
      LiveAt(t, i, pid) && FreeOf(e) != Some(Freed(pid, TargetAllocation(t[i]).value.range.start))
  {
    assert (t + [e])[i] == t[i];
    if TargetAllocation(t[i]).Some? { FreedAfterSnoc(t, e, i, pid, TargetAllocation(t[i]).value.range.start); }
  }

  ghost function LiveStep(live: seq<Range>, e: Event<Call>, pid: int): seq<Range> {
    if FreeOf(e).Some? && FreeOf(e).value.pid == pid then Without(live, FreeOf(e).value.base)
    else if AllocatesFor(e, pid) then live + [TargetAllocation(e).value.range]
    else live
  }

  lemma LiveStepCons(r: Range, live: seq<Range>, e: Event<Call>, pid: int)
    ensures LiveStep([r] + live, e, pid) ==
      if FreeOf(e) == Some(Freed(pid, r.start)) then LiveStep(live, e, pid) else [r] + LiveStep(live, e, pid)
  {
    assert ([r] + live)[1..] == live;
    if AllocatesFor(e, pid) {
      assert [r] + live + [TargetAllocation(e).value.range] == [r] + (live + [TargetAllocation(e).value.range]);
    }
  }

  lemma LiveFromEnd(t: Trace, e: Event<Call>, pid: int)
    ensures LiveFrom(t + [e], |t|, pid) == LiveStep([], e, pid)
  {
    var u := t + [e];
    assert u[|t|] == e;
    assert LiveFrom(u, |t| + 1, pid) == [];
    assert LiveAt(u, |t|, pid) <==> AllocatesFor(e, pid);
  }

  /** The live list after one more event: filtered by a free of the process, extended by its
      allocation. */
  lemma {:induction false} LiveFromSnoc(t: Trace, e: Event<Call>, i: nat, pid: int)
    requires i <= |t|
    ensures LiveFrom(t + [e], i, pid) == LiveStep(LiveFrom(t, i, pid), e, pid)
    decreases |t| - i
  {
    if i == |t| {
      LiveFromEnd(t, e, pid);
    } else {
      LiveFromSnoc(t, e, i + 1, pid);
      LiveAtSnoc(t, e, i, pid);
      assert (t + [e])[i] == t[i];
      if LiveAt(t, i, pid) { LiveStepCons(TargetAllocation(t[i]).value.range, LiveFrom(t, i + 1, pid), e, pid); }
    }
  }

  lemma LiveSnoc(t: Trace, e: Event<Call>, pid: int)
    ensures Live(t + [e], pid) == LiveStep(Live(t, pid), e, pid)
  {
    LiveFromSnoc(t, e, 0, pid);
  }

  lemma NotSuspicious(t: Trace, e: Event<Call>)
    requires !e.call.Network? || !e.call.caller.Address? || e.call.caller.value.None?
    ensures Connections(t + [e]) == Connections(t)
  {
    assert Front(t + [e]) == t && Last(t + [e]) == e;
  }

  lemma {:induction false} CoversFrom(t: Trace, i: nat, pid: int, address: int)
    requires i <= |t|
    ensures Covers(LiveFrom(t, i, pid), address) <==>
      exists j: nat :: i <= j && LiveAt(t, j, pid) && Inside(TargetAllocation(t[j]).value.range, address)
    decreases |t| - i
  {
    if i < |t| {
      CoversFrom(t, i + 1, pid, address);
      if LiveAt(t, i, pid) {
        CoversCons(TargetAllocation(t[i]).value.range, LiveFrom(t, i + 1, pid), address);
      }
    }
  }

  /** Looking the caller up in the live list finds exactly the suspicious calls. */
  lemma SuspiciousIffCovered(t: Trace, e: Event<Call>)
    requires e.call.Network? && e.call.caller.Address? && e.call.caller.value.Some?
    ensures Suspicious(t + [e], |t|) <==> Covers(Live(t, e.proc.id), e.call.caller.value.value)
  {
    var u := t + [e];
    assert u[..|t|] == t && u[|t|] == e;
    var pid, address := e.proc.id, e.call.caller.value.value;
    CoversFrom(t, 0, pid, address);
    if Suspicious(u, |t|) {
      var j: nat :| LiveAt(t, j, pid) && Inside(TargetAllocation(u[j]).value.range, address);
      assert u[j] == t[j];
    }
    if Covers(Live(t, pid), address) {
      var j: nat :| LiveAt(t, j, pid) && Inside(TargetAllocation(t[j]).value.range, address);
      assert u[j] == t[j];
    }
  }

  lemma ConnectionsSnoc(t: Trace, e: Event<Call>)
    requires e.call.Network? && e.call.caller.Address? && e.call.caller.value.Some?
    ensures Connections(t + [e]) ==
      if Covers(Live(t, e.proc.id), e.call.caller.value.value)
      then Connections(t) + [Connection(e.proc.name, e.call.api, e.call.caller.text)]
      else Connections(t)
  {
    SuspiciousIffCovered(t, e);
    assert Front(t + [e]) == t && Last(t + [e]) == e;
  }

  ghost function SuspiciousCalls(t: Trace): set<nat> {
    set i: nat | i < |t| && Suspicious(t, i)
  }

  lemma SuspiciousStable(t: Trace, i: nat)
    requires t != [] && i < |t| - 1
    ensures Suspicious(Front(t), i) <==> Suspicious(t, i)
  {
    assert t[..i] == Front(t)[..i] && t[i] == Front(t)[i];
  }

  lemma SuspiciousCallsSnoc(t: Trace)
    requires t != []
    ensures |SuspiciousCalls(t)| == |SuspiciousCalls(Front(t))| + if Suspicious(t, |t| - 1) then 1 else 0
  {
    hide Suspicious;
    var n: nat := |t| - 1;
    forall i: nat | i < n ensures Suspicious(Front(t), i) <==> Suspicious(t, i) { SuspiciousStable(t, i); }
    var before := SuspiciousCalls(Front(t));
    assert SuspiciousCalls(t) == if Suspicious(t, n) then before + {n} else before;
    assert n !in before;
  }

  /** The number of reported connections is the number of suspicious calls. */
  lemma {:induction false} ConnectionCount(t: Trace)
    ensures |Connections(t)| == |SuspiciousCalls(t)|
  {
    if t == [] {
      assert SuspiciousCalls(t) == {};
    } else {
      ConnectionCount(Front(t));
      SuspiciousCallsSnoc(t);
    }
  }

  // ---- the signature ----

  class UnbackedMemoryNetworkConnection {
    var ret: bool
    var unbackedRanges: map<int, seq<Range>>
    var connections: seq<Connection>
    ghost var history: Trace

    ghost predicate Valid()
      reads this
    {
      && (forall pid :: Lookup(unbackedRanges, pid) == Live(history, pid))
      && connections == Connections(history)
      && (ret <==> connections != [])
    }

    constructor ()
      ensures Valid() && history == []
    {
      ret, unbackedRanges, connections, history := false, map[], [], [];
    }

    /** `unbacked_ranges[pid].append(...)`, with the list created on demand. */
    method Append(pid: int, r: Range)
      modifies this
      ensures history == old(history) && connections == old(connections) && ret == old(ret)
      ensures Lookup(unbackedRanges, pid) == old(Lookup(unbackedRanges, pid)) + [r]
      ensures forall q :: q != pid ==> Lookup(unbackedRanges, q) == old(Lookup(unbackedRanges, q))
    {
      if pid !in unbackedRanges { unbackedRanges := unbackedRanges[pid := []]; }
      unbackedRanges := unbackedRanges[pid := unbackedRanges[pid] + [r]];
    }

    method OnAllocation(e: Event<Call>)
      requires Valid() && (e.call.Alloc? || e.call.AllocEx? || e.call.Free?)
      modifies this
      ensures Valid() && history == old(history) + [e]
    {
      hide Live, Connections;
      NotSuspicious(history, e);
      forall pid { LiveSnoc(history, e, pid); }
      match e.call {
        case Alloc(base, lp, size, dw) =>
          var b, s := Or(base, lp), Or(size, dw);
          if b.Num? && s.Num? { Append(e.proc.id, Range(b.n, b.n + s.n)); }
        case AllocEx(_, lp, _, dw, process) =>
          if lp.Num? && dw.Num? && process.Num? { Append(process.n, Range(lp.n, lp.n + dw.n)); }
        case Free(base, lp) =>
          var b := Or(base, lp);
          if b.Num? && e.proc.id in unbackedRanges {
            unbackedRanges := unbackedRanges[e.proc.id := Without(unbackedRanges[e.proc.id], b.n)];
          }
      }
      history := history + [e];
    }

    method OnNetwork(e: Event<Call>)
      requires Valid() && (e.call.Network? || e.call.Syscall?)
      modifies this
      ensures Valid() && history == old(history) + [e]
    {
      hide Live, Connections, Covers;
      forall pid { LiveSnoc(history, e, pid); }
      // the engine's API filter keeps system calls away from this signature
      if e.call.Network? && e.call.caller.Address? && e.call.caller.value.Some? {
        ConnectionsSnoc(history, e);
        var address, pid := e.call.caller.value.value, e.proc.id;
        if Covers(Lookup(unbackedRanges, pid), address) {
          connections := connections + [Connection(e.proc.name, e.call.api, e.call.caller.text)];
          ret := true;
        }
      } else {
        NotSuspicious(history, e);
      }
      history := history + [e];
    }

    method OnCall(e: Event<Call>)
      requires Valid()
      modifies this
      ensures Valid() && history == old(history) + [e]
      ensures forall pid :: Lookup(unbackedRanges, pid) == Live(history, pid)
      ensures connections == Connections(history)
    {
      if e.call.Network? || e.call.Syscall? { OnNetwork(e); } else { OnAllocation(e); }
    }

    method OnComplete() returns (matched: bool)
      requires Valid()
      ensures matched <==> exists i: nat :: Suspicious(history, i)
    {
      ConnectionCount(history);
      matched := ret;
      ghost var s := SuspiciousCalls(history);
      if s != {} {
        ghost var i :| i in s;
        assert Suspicious(history, i);
      } else {
        assert forall i: nat :: Suspicious(history, i) ==> i in s;
      }
    }
  }

  lemma MatchInFull(t: Trace)
    ensures (exists i: nat :: Suspicious(t, i)) <==> exists i: nat, j: nat, base: int, size: int :: FromBlock(t, i, j, base, size)
  {
    hide Suspicious, FromBlock;
    if i: nat :| Suspicious(t, i) { SuspiciousInFull(t, i); }
    if i: nat, j: nat, base: int, size: int :| FromBlock(t, i, j, base, size) { SuspiciousInFull(t, i); }
  }

  /** The whole run: the verdict is whether any network call came from a range live at that moment,
      and the report has one entry for each such call. */
  method Evaluate(t: Trace) returns (matched: bool, connections: seq<Connection>)
    ensures matched <==> exists i: nat, j: nat, base: int, size: int :: FromBlock(t, i, j, base, size)
    ensures matched <==> exists i: nat :: Suspicious(t, i)
    ensures connections == Connections(t) && |connections| == |SuspiciousCalls(t)|
  {
    var sig := new UnbackedMemoryNetworkConnection();
    for i := 0 to |t|
      invariant sig.Valid() && sig.history == t[..i] && fresh(sig)
    {
      sig.OnCall(t[i]);
    }
    assert t[..|t|] == t;
    ConnectionCount(t);
    matched := sig.OnComplete();
    connections := sig.connections;
    MatchInFull(t);
  }
}
