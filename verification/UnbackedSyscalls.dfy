/** System calls from unbacked memory: a tracker without frees, compared with the network tracker. */
module UnbackedSyscalls {
  import opened PyModel
  import opened UnbackedMemory
  import UnbackedNetwork

  datatype Kind = ReturnAddress | Caller

  datatype Report = Report(process: string, api: string, dll: string, kind: Kind, address: string)

  // ---- trace-level specification ----

  /** Everything the process ever allocated, in order. */
  ghost function Allocated(t: Trace, pid: int): seq<Range> {
    if t == [] then []
    else if AllocatesFor(Last(t), pid)
    then Allocated(Front(t), pid) + [CallerAllocation(Last(t)).value.range]
    else Allocated(Front(t), pid)
  }

  predicate AllocatesFor(e: Event<Call>, pid: int) {
    CallerAllocation(e).Some? && CallerAllocation(e).value.pid == pid
  }

  lemma AllocatedSnoc(t: Trace, e: Event<Call>, pid: int)
    ensures Allocated(t + [e], pid) ==
      if AllocatesFor(e, pid) then Allocated(t, pid) + [CallerAllocation(e).value.range] else Allocated(t, pid)
  {
    assert Front(t + [e]) == t && Last(t + [e]) == e;
  }

  function AddressOf(c: Call, k: Kind): Address
    requires c.Syscall?
  {
    if k.ReturnAddress? then c.returnAddress else c.caller
  }

  /** Whether the signature looks at this address at all. */
  predicate Checked(a: Address) { a.Address? && a.text != "0x00000000" && a.value.Some? }

  function ReportFor(e: Event<Call>, k: Kind): Report
    requires e.call.Syscall? && AddressOf(e.call, k).Address?
  {
    var dll := if e.call.dll.Some? then e.call.dll.value else "Unknown SSN";
    Report(e.proc.name, e.call.api, dll, k, AddressOf(e.call, k).text)
  }

  /** Event e, after trace t, is a system call with an address of kind k in an allocated range. */
  ghost predicate Hits(t: Trace, e: Event<Call>, k: Kind) {
    && e.call.Syscall? && Checked(AddressOf(e.call, k))
    && Covers(Allocated(t, e.proc.id), AddressOf(e.call, k).value.value)
  }

  ghost predicate Reported(t: Trace, r: Report) {
    exists i, k :: 0 <= i < |t| && Hits(t[..i], t[i], k) && r == ReportFor(t[i], k)
  }

  lemma ReportedSnoc(t: Trace, e: Event<Call>, r: Report)
    ensures Reported(t + [e], r) <==>
      || Reported(t, r)
      || (Hits(t, e, ReturnAddress) && r == ReportFor(e, ReturnAddress))
      || (Hits(t, e, Caller) && r == ReportFor(e, Caller))
  {
    var u := t + [e];
    assert u[..|t|] == t && u[|t|] == e;
    if i, k :| 0 <= i < |t| && Hits(t[..i], t[i], k) && r == ReportFor(t[i], k) {
      assert u[..i] == t[..i] && u[i] == t[i];
      assert Hits(u[..i], u[i], k);
    }
    if k :| Hits(t, e, k) && r == ReportFor(e, k) { assert Hits(u[..|t|], u[|t|], k); }
    if i, k :| 0 <= i < |u| && Hits(u[..i], u[i], k) && r == ReportFor(u[i], k) {
      if i < |t| {
        assert u[..i] == t[..i] && u[i] == t[i];
      } else {
        assert Hits(t, e, k);
      }
    }
  }

  // ---- the same in full ----

  /** Call i is a system call with an address of this kind in a range that call j allocated for its
      process, both ends included. */
  ghost predicate HitsBlock(t: Trace, i: nat, k: Kind, j: nat, base: int, size: int) {
    && j < i < |t| && t[i].call.Syscall?
    && AllocatesBy(t[j], t[i].proc.id, base, size)
    && (match k
        case ReturnAddress =>
          && t[i].call.returnAddress.Address? && t[i].call.returnAddress.text != "0x00000000"
          && t[i].call.returnAddress.value.Some? && base <= t[i].call.returnAddress.value.value <= base + size
        case Caller =>
          && t[i].call.caller.Address? && t[i].call.caller.text != "0x00000000"
          && t[i].call.caller.value.Some? && base <= t[i].call.caller.value.value <= base + size)
  }

  lemma {:induction false} AllocatedInFull(t: Trace, pid: int, r: Range)
    ensures r in Allocated(t, pid) <==>
      exists j: nat :: j < |t| && AllocatesBy(t[j], pid, r.start, r.end - r.start)
  {
    if t != [] {
      var f := Front(t);
      AllocatedInFull(f, pid, r);
      BookedInFull(Last(t), pid, r.start, r.end - r.start);
      assert forall j: nat :: j < |f| ==> f[j] == t[j];
      if j: nat :| j < |f| && AllocatesBy(f[j], pid, r.start, r.end - r.start) {
        assert AllocatesBy(t[j], pid, r.start, r.end - r.start);
      }
      if AllocatesBy(Last(t), pid, r.start, r.end - r.start) {
        assert AllocatesBy(t[|t| - 1], pid, r.start, r.end - r.start);
      }
    }
  }

  lemma CoveredInFull(t: Trace, pid: int, address: int)
    ensures Covers(Allocated(t, pid), address) <==>
      exists j: nat, base: int, size: int ::
        j < |t| && AllocatesBy(t[j], pid, base, size) && base <= address <= base + size
  {
    hide Allocated, AllocatesBy;
    var all := Allocated(t, pid);
    if i :| 0 <= i < |all| && Inside(all[i], address) {
      AllocatedInFull(t, pid, all[i]);
      var j: nat :| j < |t| && AllocatesBy(t[j], pid, all[i].start, all[i].end - all[i].start);
      assert all[i].start <= address <= all[i].start + (all[i].end - all[i].start);
    }
    if j: nat, base: int, size: int :| j < |t| && AllocatesBy(t[j], pid, base, size) && base <= address <= base + size {
      var r := Range(base, base + size);
      assert r.end - r.start == size;
      AllocatedInFull(t, pid, r);
      var i :| 0 <= i < |all| && all[i] == r;
      assert Inside(all[i], address);
    }
  }

  lemma HitsInFull(t: Trace, i: nat, k: Kind)
    requires i < |t|
    ensures Hits(t[..i], t[i], k) <==> exists j: nat, base: int, size: int :: HitsBlock(t, i, k, j, base, size)
  {
    hide Covers, Allocated, AllocatesBy;
    var u, pid := t[..i], t[i].proc.id;
    assert forall j: nat :: j < i ==> u[j] == t[j];
    if t[i].call.Syscall? && AddressOf(t[i].call, k).Address? && AddressOf(t[i].call, k).value.Some? {
      var address := AddressOf(t[i].call, k).value.value;
      CoveredInFull(u, pid, address);
      if Hits(u, t[i], k) {
        var j: nat, base: int, size: int :| j < |u| && AllocatesBy(u[j], pid, base, size) && base <= address <= base + size;
        assert HitsBlock(t, i, k, j, base, size);
      }
      if j: nat, base: int, size: int :| HitsBlock(t, i, k, j, base, size) {
        assert AllocatesBy(u[j], pid, base, size);
      }
    }
  }

  lemma MatchInFull(t: Trace)
    ensures (exists i: nat, k :: i < |t| && Hits(t[..i], t[i], k)) <==>
            exists i: nat, k, j: nat, base: int, size: int :: HitsBlock(t, i, k, j, base, size)
  {
    hide Hits, HitsBlock;
    if i: nat, k :| i < |t| && Hits(t[..i], t[i], k) { HitsInFull(t, i, k); }
    if i: nat, k, j: nat, base: int, size: int :| HitsBlock(t, i, k, j, base, size) {
      HitsBounds(t, i, k, j, base, size);
      HitsInFull(t, i, k);
    }
  }

  lemma HitsBounds(t: Trace, i: nat, k: Kind, j: nat, base: int, size: int)
    requires HitsBlock(t, i, k, j, base, size)
    ensures i < |t|
  {
  }

  /** A finding, in full: what it repeats of the system call. */
  lemma ReportedInFull(t: Trace, r: Report)
    ensures Reported(t, r) <==> exists i: nat ::
      && i < |t| && Hits(t[..i], t[i], r.kind)
      && r.process == t[i].proc.name && r.api == t[i].call.api
      && r.dll == (if t[i].call.dll.Some? then t[i].call.dll.value else "Unknown SSN")
      && r.address == (if r.kind == ReturnAddress then t[i].call.returnAddress.text else t[i].call.caller.text)
  {
    hide Covers, Allocated;
    if i: nat :|
      && i < |t| && Hits(t[..i], t[i], r.kind)
      && r.process == t[i].proc.name && r.api == t[i].call.api
      && r.dll == (if t[i].call.dll.Some? then t[i].call.dll.value else "Unknown SSN")
      && r.address == (if r.kind == ReturnAddress then t[i].call.returnAddress.text else t[i].call.caller.text)
    {
      assert r == ReportFor(t[i], r.kind);
    }
  }

  // ---- the two trackers compared ----

  /** Both trackers book on pid alike: whatever the network tracker books on it, the syscall tracker
      does too, with the same range. Only a VirtualAllocEx can fail this, by coming from another
      process or by carrying arguments of which the two trackers read different ones. */
  predicate BookedAlike(e: Event<Call>, pid: int) {
    UnbackedNetwork.AllocatesFor(e, pid) ==> TargetAllocation(e) == CallerAllocation(e)
  }

  /** On any trace booked alike, the live ranges of the network tracker are a subsequence of the ranges
      of the syscall tracker. */
  lemma {:induction false} LiveWithinAllocated(t: Trace, pid: int)
    requires forall e :: e in t ==> BookedAlike(e, pid)
    ensures IsSubsequence(UnbackedNetwork.Live(t, pid), Allocated(t, pid))
  {
    if t != [] {
      var u, e := Front(t), Last(t);
      assert t == u + [e];
      assert e in t && BookedAlike(e, pid);
      LiveWithinAllocated(u, pid);
      UnbackedNetwork.LiveSnoc(u, e, pid);
      var live, all := UnbackedNetwork.Live(u, pid), Allocated(u, pid);
      if FreeOf(e).Some? { WithoutSubsequence(live, all, FreeOf(e).value.base); }
      if CallerAllocation(e).Some? { SubsequenceSnoc(live, all, CallerAllocation(e).value.range); }
    }
  }

  /** Every address the free-aware tracker calls unbacked is unbacked for the free-less one. */
  ghost predicate Included(t: Trace, pid: int) {
    forall a :: Covers(UnbackedNetwork.Live(t, pid), a) ==> Covers(Allocated(t, pid), a)
  }

  lemma UnbackedForBoth(t: Trace, pid: int)
    requires forall e :: e in t ==> BookedAlike(e, pid)
    ensures Included(t, pid)
  {
    LiveWithinAllocated(t, pid);
    var live := UnbackedNetwork.Live(t, pid);
    forall a | Covers(live, a) ensures Covers(Allocated(t, pid), a) {
      var i :| 0 <= i < |live| && Inside(live[i], a);
      SubsequenceMember(live, Allocated(t, pid), live[i]);
      var j :| 0 <= j < |Allocated(t, pid)| && Allocated(t, pid)[j] == live[i];
    }
  }

  /** If event e, after trace t, allocates for pid in the network tracker, then the syscall tracker
      covers its whole range as well. */
  ghost predicate StaysCovered(t: Trace, e: Event<Call>, pid: int) {
    UnbackedNetwork.AllocatesFor(e, pid) ==>
      forall a :: Inside(TargetAllocation(e).value.range, a) ==> Covers(Allocated(t + [e], pid), a)
  }

  /** The exact step: the inclusion survives an event exactly when what the event allocates for pid is
      covered. Frees and everything else preserve it. */
  lemma IncludedSnoc(t: Trace, e: Event<Call>, pid: int)
    requires Included(t, pid)
    ensures Included(t + [e], pid) <==> StaysCovered(t, e, pid)
  {
    hide Covers, UnbackedNetwork.Live, Allocated, Inside;
    forall a | Covers(UnbackedNetwork.Live(t + [e], pid), a) && StaysCovered(t, e, pid)
      ensures Covers(Allocated(t + [e], pid), a)
    {
      CoversStepHolds(t, e, pid, a);
    }
    if UnbackedNetwork.AllocatesFor(e, pid) {
      forall a | Inside(TargetAllocation(e).value.range, a) && Included(t + [e], pid)
        ensures Covers(Allocated(t + [e], pid), a)
      {
        CoversStepHolds(t, e, pid, a);
      }
    }
  }

  ghost predicate CoversStep(t: Trace, e: Event<Call>, pid: int, a: int) {
    var allocates := UnbackedNetwork.AllocatesFor(e, pid) && Inside(TargetAllocation(e).value.range, a);
    && (Covers(UnbackedNetwork.Live(t + [e], pid), a) ==> Covers(UnbackedNetwork.Live(t, pid), a) || allocates)
    && (allocates ==> Covers(UnbackedNetwork.Live(t + [e], pid), a))
    && (Covers(Allocated(t, pid), a) ==> Covers(Allocated(t + [e], pid), a))
  }

  lemma CoversStepHolds(t: Trace, e: Event<Call>, pid: int, a: int)
    ensures CoversStep(t, e, pid, a)
  {
    hide Covers, UnbackedNetwork.Live, Allocated, Inside;
    UnbackedNetwork.LiveSnoc(t, e, pid);
    AllocatedSnoc(t, e, pid);
    var live, all := UnbackedNetwork.Live(t, pid), Allocated(t, pid);
    if FreeOf(e).Some? { CoversWithout(live, FreeOf(e).value.base, a); }
    if TargetAllocation(e).Some? { CoversSnoc(live, TargetAllocation(e).value.range, a); }
    if CallerAllocation(e).Some? { CoversSnoc(all, CallerAllocation(e).value.range, a); }
  }

  ghost predicate AlwaysIncluded(t: Trace, pid: int) {
    forall n: nat :: n <= |t| ==> Included(t[..n], pid)
  }

  ghost predicate AlwaysCovered(t: Trace, pid: int) {
    forall i: nat :: i < |t| ==> StaysCovered(t[..i], t[i], pid)
  }

  lemma AlwaysIncludedSnoc(t: Trace, e: Event<Call>, pid: int)
    ensures AlwaysIncluded(t + [e], pid) <==> AlwaysIncluded(t, pid) && Included(t + [e], pid)
    ensures AlwaysIncluded(t, pid) ==> Included(t, pid)
  {
    hide Included;
    var u := t + [e];
    assert t[..|t|] == t && u[..|u|] == u;
    assert forall n: nat :: n <= |t| ==> u[..n] == t[..n];
  }

  lemma AlwaysCoveredSnoc(t: Trace, e: Event<Call>, pid: int)
    ensures AlwaysCovered(t + [e], pid) <==> AlwaysCovered(t, pid) && StaysCovered(t, e, pid)
  {
    hide StaysCovered;
    var u := t + [e];
    assert u[..|t|] == t && u[|t|] == e;
    assert forall i: nat :: i < |t| ==> u[..i] == t[..i] && u[i] == t[i];
  }

  /** The exact condition for a whole run: the inclusion holds at every moment exactly when every
      allocation the network tracker books on pid is covered by the syscall tracker when it is made. */
  lemma {:induction false} IncludedThroughout(t: Trace, pid: int)
    ensures AlwaysIncluded(t, pid) <==> AlwaysCovered(t, pid)
  {
    if t == [] {
      NothingIncluded(pid);
      assert t[..0] == [];
    } else {
      hide AlwaysIncluded, AlwaysCovered, Included, StaysCovered;
      var u, e := Front(t), Last(t);
      assert t == u + [e];
      IncludedThroughout(u, pid);
      AlwaysIncludedSnoc(u, e, pid);
      AlwaysCoveredSnoc(u, e, pid);
      if Included(u, pid) { IncludedSnoc(u, e, pid); }
    }
  }

  lemma NothingIncluded(pid: int)
    ensures Included([], pid)
  {
  }

  /** An allocation booked alike never breaks the inclusion. */
  lemma AlikeStaysCovered(t: Trace, e: Event<Call>, pid: int)
    requires BookedAlike(e, pid)
    ensures StaysCovered(t, e, pid)
  {
    AllocatedSnoc(t, e, pid);
    if CallerAllocation(e).Some? {
      forall a { CoversSnoc(Allocated(t, pid), CallerAllocation(e).value.range, a); }
    }
  }

  /** After any trace, a VirtualAllocEx from another process can make any address of the target
      unbacked for the network tracker. It never does so for the syscall tracker, so it breaks the
      inclusion unless the target had allocated the address before. */
  lemma RemoteAllocation(t: Trace, p: Process, target: nat, address: int) returns (e: Event<Call>)
    requires target != p.id
    ensures e.proc == p && Covers(UnbackedNetwork.Live(t + [e], target), address)
    ensures Covers(Allocated(t + [e], target), address) <==> Covers(Allocated(t, target), address)
  {
    e := Event(p, AllocEx(Falsy, Num(address), Falsy, Num(1), Num(target)));
    UnbackedNetwork.LiveSnoc(t, e, target);
    AllocatedSnoc(t, e, target);
    CoversSnoc(UnbackedNetwork.Live(t, target), Range(address, address + 1), address);
  }

  // ---- the signature ----

  class UnbackedSyscallExecution {
    var ret: bool
    var unbackedRanges: map<int, seq<Range>>
    var unbackedSyscalls: seq<Report>
    ghost var history: Trace

    ghost predicate Valid()
      reads this
    {
      && (forall pid :: Lookup(unbackedRanges, pid) == Allocated(history, pid))
      && (forall r :: r in unbackedSyscalls <==> Reported(history, r))
      && (forall i, j :: 0 <= i < j < |unbackedSyscalls| ==> unbackedSyscalls[i] != unbackedSyscalls[j])
      && (ret <==> unbackedSyscalls != [])
    }

    constructor ()
      ensures Valid() && history == []
    {
      ret, unbackedRanges, unbackedSyscalls, history := false, map[], [], [];
    }

    /** The body of the address loop: the inner loop stops at the first range around the address. */
    method CheckAddress(e: Event<Call>, k: Kind)
      requires e.call.Syscall? && AddressOf(e.call, k).Address?
      requires forall i, j :: 0 <= i < j < |unbackedSyscalls| ==> unbackedSyscalls[i] != unbackedSyscalls[j]
      requires ret <==> unbackedSyscalls != []
      modifies this
      ensures history == old(history) && unbackedRanges == old(unbackedRanges)
      ensures forall i, j :: 0 <= i < j < |unbackedSyscalls| ==> unbackedSyscalls[i] != unbackedSyscalls[j]
      ensures ret <==> unbackedSyscalls != []
      ensures forall r :: r in unbackedSyscalls <==>
        || r in old(unbackedSyscalls)
        || (r == ReportFor(e, k) && AddressOf(e.call, k).value.Some?
            && Covers(Lookup(unbackedRanges, e.proc.id), AddressOf(e.call, k).value.value))
    {
      var a := AddressOf(e.call, k);
      if a.value.None? { return; }
      var ranges := Lookup(unbackedRanges, e.proc.id);
      var found := false;
      var n := 0;
      while n < |ranges| && !found
        invariant 0 <= n <= |ranges|
        invariant found ==> Covers(ranges, a.value.value)
        invariant !found ==> forall i :: 0 <= i < n ==> !Inside(ranges[i], a.value.value)
        decreases |ranges| - n, !found
      {
        if ranges[n].start <= a.value.value <= ranges[n].end {
          assert Inside(ranges[n], a.value.value);
          found := true;
        } else {
          n := n + 1;
        }
      }
      if found {
        var r := ReportFor(e, k);
        if r !in unbackedSyscalls {
          unbackedSyscalls := unbackedSyscalls + [r];
          ret := true;
        }
      }
    }

    method OnSyscall(e: Event<Call>)
      requires Valid() && e.call.Syscall?
      modifies this
      ensures Valid() && history == old(history) + [e]
    {
      hide Allocated, Reported, Covers;
      forall pid { AllocatedSnoc(history, e, pid); }
      forall r { ReportedSnoc(history, e, r); }
      if e.proc.id in unbackedRanges {
        if e.call.returnAddress.Address? && e.call.returnAddress.text != "0x00000000" { CheckAddress(e, ReturnAddress); }
        if e.call.caller.Address? && e.call.caller.text != "0x00000000" { CheckAddress(e, Caller); }
      } else {
        NothingAllocated(e);
      }
      history := history + [e];
    }

    lemma NothingAllocated(e: Event<Call>)
      requires e.call.Syscall? && e.proc.id !in unbackedRanges
      requires Lookup(unbackedRanges, e.proc.id) == Allocated(history, e.proc.id)
      ensures forall k :: !Hits(history, e, k)
    {
    }

    method OnAllocation(e: Event<Call>)
      requires Valid() && !e.call.Syscall?
      modifies this
      ensures Valid() && history == old(history) + [e]
    {
      hide Allocated, Reported;
      forall pid { AllocatedSnoc(history, e, pid); }
      forall r { ReportedSnoc(history, e, r); }
      if e.call.Alloc? || e.call.AllocEx? {
        var b, s := Or(e.call.base, e.call.lpAddress), Or(e.call.size, e.call.dwSize);
        var pid := e.proc.id;
        if b.Num? && s.Num? {
          if pid !in unbackedRanges { unbackedRanges := unbackedRanges[pid := []]; }
          unbackedRanges := unbackedRanges[pid := unbackedRanges[pid] + [Range(b.n, b.n + s.n)]];
        }
      }
      history := history + [e];
    }

    method OnCall(e: Event<Call>)
      requires Valid()
      modifies this
      ensures Valid() && history == old(history) + [e]
      ensures forall pid :: Lookup(unbackedRanges, pid) == Allocated(history, pid)
      ensures forall r :: r in unbackedSyscalls <==> Reported(history, r)
    {
      if e.call.Syscall? { OnSyscall(e); } else { OnAllocation(e); }
    }

    method OnComplete() returns (matched: bool)
      requires Valid()
      ensures matched <==> exists r :: Reported(history, r)
    {
      matched := ret;
      if matched { assert unbackedSyscalls[0] in unbackedSyscalls; }
    }
  }

  /** The whole run: it matches exactly when some system call had an address in a range its process
      had allocated before, and the report lists each such finding once. */
  method Evaluate(t: Trace) returns (matched: bool, reports: seq<Report>)
    ensures matched <==> exists i: nat, k, j: nat, base: int, size: int :: HitsBlock(t, i, k, j, base, size)
    ensures matched <==> exists i, k :: 0 <= i < |t| && Hits(t[..i], t[i], k)
    ensures forall r :: r in reports <==> Reported(t, r)
    ensures forall i, j :: 0 <= i < j < |reports| ==> reports[i] != reports[j]
  {
    var sig := new UnbackedSyscallExecution();
    for i := 0 to |t|
      invariant sig.Valid() && sig.history == t[..i] && fresh(sig)
    {
      sig.OnCall(t[i]);
    }
    assert t[..|t|] == t;
    matched := sig.OnComplete();
    reports := sig.unbackedSyscalls;
    MatchInFull(t);
    if i, k :| 0 <= i < |t| && Hits(t[..i], t[i], k) { assert Reported(t, ReportFor(t[i], k)); }
  }
}
