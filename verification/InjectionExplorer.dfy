/** The Explorer injection recogniser: a five-stage greedy matcher that restarts on every shared
    section and whose `parent`/`injected` fields are never cleared. */
module InjectionExplorer {
  import opened PyModel
  import opened Traces

  /** The call kinds the signature tells apart, with the one argument it reads from each. */
  datatype Call =
    | Section(name: Value)          // NtOpenSection, NtCreateSection
    | OpenProcess(target: Value)    // NtOpenProcess
    | ReadMemory                    // the three read-memory calls
    | FindWindow(className: Value)  // FindWindow*
    | SetWindowLong                 // SetWindowLong*
    | SendNotifyMessage             // SendNotifyMessage*
    | Other

  datatype Report = Report(parent: Process, injected: string)

  type Trace = seq<Event<Call>>

  const SHARED_SECTIONS: set<string> := {
    "\\basenamedobjects\\shimsharedmemory",
    "\\basenamedobjects\\windows_shell_global_counters",
    "\\basenamedobjects\\msctf.shared.sfm.mih",
    "\\basenamedobjects\\msctf.shared.sfm.amf",
    "\\basenamedobjects\\urlzonessm_administrator",
    "\\basenamedobjects\\urlzonessm_system"
  }

  predicate OpensShared(c: Call) {
    c.Section? && c.name.Text? && Lower(c.name.s) in SHARED_SECTIONS
  }

  predicate FindsTray(c: Call) {
    c.FindWindow? && c.className.Text? && Lower(c.className.s) == "shell_traywnd"
  }

  // ---- trace-level specification ----

  /** The four steps that have to follow the shared section, in this order. */
  ghost predicate IsStep(n: nat, c: Call) {
    match n
    case 0 => c.OpenProcess?
    case 1 => c.ReadMemory?
    case 2 => FindsTray(c)
    case 3 => c.SetWindowLong?
    case _ => false
  }

  /** What follows the last shared section of a block; None if there is no such section. */
  ghost function AfterSection(b: Trace): (r: Option<Trace>)
  {
    if b == [] then None
    else if OpensShared(Last(b).call) then Some([])
    else match AfterSection(Front(b))
         case None => None
         case Some(s) => Some(s + [Last(b)])
  }

  /** The first n steps occur in s as a subsequence. */
  ghost predicate Embeds(n: nat, s: Trace) {
    n == 0 || (s != [] && (Embeds(n, Front(s)) || (IsStep(n - 1, Last(s).call) && Embeds(n - 1, Front(s)))))
  }

  ghost function LongestPrefix(s: Trace): nat {
    if Embeds(4, s) then 4 else if Embeds(3, s) then 3 else if Embeds(2, s) then 2 else if Embeds(1, s) then 1 else 0
  }

  ghost function Stage(b: Trace): nat {
    match AfterSection(b)
    case None => 0
    case Some(s) => 1 + LongestPrefix(s)
  }

  ghost function FirstOpen(s: Trace): Option<Value> {
    if s == [] then None
    else if s[0].call.OpenProcess? then Some(s[0].call.target)
    else FirstOpen(s[1..])
  }

  /** The block fires with its last call. */
  ghost predicate Fires(b: Trace) {
    b != [] && Last(b).call.SendNotifyMessage? && Stage(Front(b)) == 5
  }

  ghost function TargetOf(b: Trace): Option<string> {
    match AfterSection(b)
    case None => None
    case Some(s) => match FirstOpen(s) case None => None case Some(v) => Some(Str(v))
  }

  // ---- what the specification means ----

  /** `idx` picks, in increasing order, one position of s for each of the first |idx| steps. */
  ghost predicate IsEmbedding(idx: seq<nat>, s: Trace) {
    && (forall i :: 0 <= i < |idx| ==> idx[i] < |s| && IsStep(i, s[idx[i]].call))
    && (forall i, j :: 0 <= i < j < |idx| ==> idx[i] < idx[j])
  }

  lemma {:induction false} EmbedsHasWitness(n: nat, s: Trace) returns (idx: seq<nat>)
    requires Embeds(n, s)
    ensures |idx| == n && IsEmbedding(idx, s)
  {
    if n == 0 {
      idx := [];
    } else if Embeds(n, Front(s)) {
      idx := EmbedsHasWitness(n, Front(s));
    } else {
      var front := EmbedsHasWitness(n - 1, Front(s));
      idx := front + [|s| - 1];
    }
  }

  lemma {:induction false} WitnessEmbeds(idx: seq<nat>, s: Trace)
    requires IsEmbedding(idx, s)
    ensures Embeds(|idx|, s)
  {
    if idx != [] {
      if Last(idx) < |s| - 1 {
        WitnessEmbeds(idx, Front(s));
      } else {
        WitnessEmbeds(Front(idx), Front(s));
      }
    }
  }

  lemma {:induction false} AfterSectionMeaning(b: Trace, k: nat)
    requires k < |b| && OpensShared(b[k].call)
    requires forall i :: k < i < |b| ==> !OpensShared(b[i].call)
    ensures AfterSection(b) == Some(b[k + 1..])
  {
    if k < |b| - 1 {
      AfterSectionMeaning(Front(b), k);
      assert Front(b)[k + 1..] + [Last(b)] == b[k + 1..];
    }
  }

  lemma {:induction false} LastSection(b: Trace) returns (k: nat)
    requires AfterSection(b).Some?
    ensures k < |b| && OpensShared(b[k].call)
    ensures forall i :: k < i < |b| ==> !OpensShared(b[i].call)
    ensures AfterSection(b) == Some(b[k + 1..])
  {
    if OpensShared(Last(b).call) {
      k := |b| - 1;
    } else {
      k := LastSection(Front(b));
    }
    AfterSectionMeaning(b, k);
  }

  /** The indices of a complete Explorer injection: shared section, the four steps, the message. */
  ghost predicate IsInjection(b: Trace, k: nat, idx: seq<nat>) {
    && b != [] && Last(b).call.SendNotifyMessage?
    && k < |b| - 1 && OpensShared(b[k].call)
    && (forall i :: k < i < |b| ==> !OpensShared(b[i].call))
    && |idx| == 4 && IsEmbedding(idx, b[k + 1..|b| - 1])
  }

  /** Firing needs nothing but the six calls in order with no further shared section in between:
      the greedy matcher never misses a way to pick them. */
  lemma FiresIffInjection(b: Trace)
    ensures Fires(b) <==> exists k, idx :: IsInjection(b, k, idx)
  {
    if Fires(b) {
      var k := LastSection(Front(b));
      var idx := EmbedsHasWitness(4, Front(b)[k + 1..]);
      assert Front(b)[k + 1..] == b[k + 1..|b| - 1];
      assert IsInjection(b, k, idx);
    }
    if k, idx :| IsInjection(b, k, idx) {
      AfterSectionMeaning(Front(b), k);
      assert Front(b)[k + 1..] == b[k + 1..|b| - 1];
      WitnessEmbeds(idx, b[k + 1..|b| - 1]);
    }
  }

  // ---- the same in full ----

  lemma OpensSharedInFull(c: Call)
    ensures OpensShared(c) <==>
      && c.Section? && c.name.Text?
      && (|| Lower(c.name.s) == "\\basenamedobjects\\shimsharedmemory"
          || Lower(c.name.s) == "\\basenamedobjects\\windows_shell_global_counters"
          || Lower(c.name.s) == "\\basenamedobjects\\msctf.shared.sfm.mih"
          || Lower(c.name.s) == "\\basenamedobjects\\msctf.shared.sfm.amf"
          || Lower(c.name.s) == "\\basenamedobjects\\urlzonessm_administrator"
          || Lower(c.name.s) == "\\basenamedobjects\\urlzonessm_system")
  {
  }

  /** The steps at four positions, written out. */
  ghost predicate StepsAt(s: Trace, i0: nat, i1: nat, i2: nat, i3: nat) {
    && i0 < i1 < i2 < i3 < |s|
    && s[i0].call.OpenProcess?
    && s[i1].call.ReadMemory?
    && s[i2].call.FindWindow? && s[i2].call.className.Text? && Lower(s[i2].call.className.s) == "shell_traywnd"
    && s[i3].call.SetWindowLong?
  }

  lemma EmbeddingHasSteps(s: Trace, idx: seq<nat>)
    requires |idx| == 4 && IsEmbedding(idx, s)
    ensures StepsAt(s, idx[0], idx[1], idx[2], idx[3])
  {
    hide Lower;
    assert IsStep(0, s[idx[0]].call) && IsStep(1, s[idx[1]].call) && IsStep(2, s[idx[2]].call) && IsStep(3, s[idx[3]].call);
  }

  lemma StepsAreEmbedding(s: Trace, i0: nat, i1: nat, i2: nat, i3: nat)
    requires StepsAt(s, i0, i1, i2, i3)
    ensures IsEmbedding([i0, i1, i2, i3], s)
  {
    hide Lower;
  }

  lemma StepsShifted(b: Trace, d: nat, i0: nat, i1: nat, i2: nat, i3: nat)
    requires d < |b| && i3 < |b| - 1 - d
    ensures StepsAt(b[d..|b| - 1], i0, i1, i2, i3) <==> StepsAt(b, d + i0, d + i1, d + i2, d + i3)
  {
    hide Lower;
    var s := b[d..|b| - 1];
    assert forall i: nat :: i < |s| ==> s[i] == b[d + i];
  }

  lemma InjectionHasSteps(b: Trace, k: nat, idx: seq<nat>)
    requires IsInjection(b, k, idx)
    ensures var d := k + 1; StepsAt(b, d + idx[0], d + idx[1], d + idx[2], d + idx[3]) && d + idx[3] < |b| - 1
  {
    EmbeddingHasSteps(b[k + 1..|b| - 1], idx);
    StepsShifted(b, k + 1, idx[0], idx[1], idx[2], idx[3]);
  }

  lemma StepsMakeInjection(b: Trace, k: nat, i0: nat, i1: nat, i2: nat, i3: nat)
    requires StepsAt(b, i0, i1, i2, i3) && k < i0 && i3 < |b| - 1
    requires OpensShared(b[k].call) && (forall j :: k < j < |b| ==> !OpensShared(b[j].call))
    requires Last(b).call.SendNotifyMessage?
    ensures exists idx :: IsInjection(b, k, idx)
  {
    hide OpensShared, StepsAt, IsEmbedding;
    var d := k + 1;
    StepsInOrder(b, i0, i1, i2, i3);
    StepsShifted(b, d, i0 - d, i1 - d, i2 - d, i3 - d);
    StepsAreEmbedding(b[d..|b| - 1], i0 - d, i1 - d, i2 - d, i3 - d);
    assert IsInjection(b, k, [i0 - d, i1 - d, i2 - d, i3 - d]);
  }

  lemma StepsInOrder(s: Trace, i0: nat, i1: nat, i2: nat, i3: nat)
    requires StepsAt(s, i0, i1, i2, i3)
    ensures i0 < i1 < i2 < i3 < |s|
  {
  }

  lemma FiringCalls(b: Trace) returns (k: nat, i0: nat, i1: nat, i2: nat, i3: nat)
    requires Fires(b)
    ensures k < i0 && i3 < |b| - 1 && StepsAt(b, i0, i1, i2, i3) && b[|b| - 1].call.SendNotifyMessage?
    ensures OpensShared(b[k].call) && forall j :: k < j < |b| ==> !OpensShared(b[j].call)
  {
    hide Fires, StepsAt, IsEmbedding, OpensShared;
    FiresIffInjection(b);
    var l: nat, idx :| IsInjection(b, l, idx);
    InjectionHasSteps(b, l, idx);
    k, i0, i1, i2, i3 := l, l + 1 + idx[0], l + 1 + idx[1], l + 1 + idx[2], l + 1 + idx[3];
  }

  lemma CallsFire(b: Trace, k: nat, i0: nat, i1: nat, i2: nat, i3: nat)
    requires k < i0 && i3 < |b| - 1 && StepsAt(b, i0, i1, i2, i3) && b[|b| - 1].call.SendNotifyMessage?
    requires k < |b| && OpensShared(b[k].call) && forall j :: k < j < |b| ==> !OpensShared(b[j].call)
    ensures Fires(b)
  {
    hide Fires, StepsAt, IsEmbedding, OpensShared, IsInjection;
    StepsMakeInjection(b, k, i0, i1, i2, i3);
    FiresIffInjection(b);
  }

  ghost predicate LastShared(b: Trace, k: nat) {
    k < |b| && OpensShared(b[k].call) && forall j :: k < j < |b| ==> !OpensShared(b[j].call)
  }

  /** Explorer injection, call by call: the last shared section, a process opened, memory read, the tray
      window looked up, a window changed, a message sent, in this order. */
  lemma FiresInFull(b: Trace)
    ensures Fires(b) <==>
      exists k: nat, i: seq<nat> ::
        && |i| == 4 && k < i[0] < i[1] < i[2] < i[3] < |b| - 1
        && LastShared(b, k)
        && b[i[0]].call.OpenProcess?
        && b[i[1]].call.ReadMemory?
        && b[i[2]].call.FindWindow? && b[i[2]].call.className.Text? && Lower(b[i[2]].call.className.s) == "shell_traywnd"
        && b[i[3]].call.SetWindowLong?
        && b[|b| - 1].call.SendNotifyMessage?
  {
    hide Fires, OpensShared, Lower, LastShared;
    if Fires(b) {
      var k, i0, i1, i2, i3 := FiringCalls(b);
      SharedIsLast(b, k);
      var i := [i0, i1, i2, i3];
      assert |i| == 4 && b[i[0]].call.OpenProcess? && LastShared(b, k);
    }
    if k: nat, i: seq<nat> :|
      && |i| == 4 && k < i[0] < i[1] < i[2] < i[3] < |b| - 1 && LastShared(b, k)
      && b[i[0]].call.OpenProcess? && b[i[1]].call.ReadMemory?
      && b[i[2]].call.FindWindow? && b[i[2]].call.className.Text? && Lower(b[i[2]].call.className.s) == "shell_traywnd"
      && b[i[3]].call.SetWindowLong? && b[|b| - 1].call.SendNotifyMessage?
    {
      SharedIsLast(b, k);
      CallsFire(b, k, i[0], i[1], i[2], i[3]);
    }
  }

  lemma SharedIsLast(b: Trace, k: nat)
    ensures LastShared(b, k) <==>
            k < |b| && OpensShared(b[k].call) && forall j :: k < j < |b| ==> !OpensShared(b[j].call)
  {
  }

  /** The reported target, in full: the text of the pid of the first process opened after the last shared
      section. */
  lemma TargetInFull(b: Trace, k: nat, i: nat)
    requires k < i < |b| && OpensShared(b[k].call) && (forall j :: k < j < |b| ==> !OpensShared(b[j].call))
    requires b[i].call.OpenProcess? && forall j :: k < j < i ==> !b[j].call.OpenProcess?
    ensures TargetOf(b) == Some(Str(b[i].call.target))
  {
    AfterSectionMeaning(b, k);
    FirstOpenAt(b[k + 1..], i - k - 1);
  }

  lemma {:induction false} FirstOpenAt(s: Trace, i: nat)
    requires i < |s| && s[i].call.OpenProcess? && forall j :: 0 <= j < i ==> !s[j].call.OpenProcess?
    ensures FirstOpen(s) == Some(s[i].call.target)
  {
    if i > 0 {
      assert s[1..][i - 1] == s[i];
      FirstOpenAt(s[1..], i - 1);
    }
  }

  // ---- one more event ----

  lemma {:induction false} EmbedsShorter(n: nat, s: Trace)
    requires n > 0 && Embeds(n, s)
    ensures Embeds(n - 1, s)
  {
    if n > 1 {
      if Embeds(n, Front(s)) {
        EmbedsShorter(n, Front(s));
      } else {
        EmbedsShorter(n - 1, Front(s));
      }
    }
  }

  /** Greedy advance is optimal: the longest embedded prefix grows exactly when the new call is the
      step right after it. */
  lemma LongestPrefixSnoc(s: Trace, e: Event<Call>)
    ensures LongestPrefix(s + [e]) ==
      if IsStep(LongestPrefix(s), e.call) then LongestPrefix(s) + 1 else LongestPrefix(s)
  {
    assert Front(s + [e]) == s;
    if Embeds(4, s) { EmbedsShorter(4, s); }
    if Embeds(3, s) { EmbedsShorter(3, s); }
    if Embeds(2, s) { EmbedsShorter(2, s); }
    if Embeds(1, s) { EmbedsShorter(1, s); }
    assert forall n: nat :: n > 0 ==> (Embeds(n, s + [e]) <==> Embeds(n, s) || (IsStep(n - 1, e.call) && Embeds(n - 1, s)));
  }

  lemma StageSnoc(b: Trace, e: Event<Call>)
    ensures Stage(b + [e]) ==
      if OpensShared(e.call) then 1
      else if Stage(b) > 0 && IsStep(Stage(b) - 1, e.call) then Stage(b) + 1
      else Stage(b)
  {
    assert Front(b + [e]) == b;
    if AfterSection(b).Some? { LongestPrefixSnoc(AfterSection(b).value, e); }
  }

  lemma {:induction false} FirstOpenSnoc(s: Trace, e: Event<Call>)
    ensures FirstOpen(s + [e]) ==
      if FirstOpen(s).None? && e.call.OpenProcess? then Some(e.call.target) else FirstOpen(s)
  {
    if s != [] {
      FirstOpenSnoc(s[1..], e);
      assert (s + [e])[1..] == s[1..] + [e];
    } else {
      assert (s + [e])[1..] == [];
    }
  }

  lemma {:induction false} FirstOpenIffStage(s: Trace)
    ensures FirstOpen(s).Some? <==> LongestPrefix(s) >= 1
  {
    if s != [] {
      FirstOpenIffStage(Front(s));
      assert s == Front(s) + [Last(s)];
      FirstOpenSnoc(Front(s), Last(s));
      LongestPrefixSnoc(Front(s), Last(s));
    }
  }

  lemma TargetSnoc(b: Trace, e: Event<Call>)
    ensures TargetOf(b + [e]) ==
      if OpensShared(e.call) then None
      else if Stage(b) == 1 && e.call.OpenProcess? then Some(Str(e.call.target))
      else TargetOf(b)
    ensures TargetOf(b).Some? <==> Stage(b) >= 2
  {
    assert Front(b + [e]) == b;
    match AfterSection(b)
    case None =>
    case Some(s) =>
      FirstOpenIffStage(s);
      FirstOpenSnoc(s, e);
  }

  // ---- the signature ----

  class InjectionExplorer {
    var lastprocess: Option<Process>
    var sequence: nat
    var parent: Option<Process>
    var injected: string
    var data: seq<Report>
    ghost var history: Trace

    /** The fields describe the block that ends the history. `parent` and `injected` are stale until
        stage 2 and then name the current process and the first process opened since the section. */
    ghost predicate Valid()
      reads this
    {
      && lastprocess == (if history == [] then None else Some(Last(history).proc))
      && sequence == Stage(LastBlock(history))
      && (sequence >= 2 ==> parent == lastprocess && Some(injected) == TargetOf(LastBlock(history)))
    }

    constructor ()
      ensures Valid() && history == [] && data == []
    {
      lastprocess, sequence, parent, injected, data, history := None, 0, None, "", [], [];
    }

    method OnCall(e: Event<Call>) returns (v: Verdict)
      requires Valid()
      modifies this
      ensures Valid() && history == old(history) + [e]
      ensures v.Matched? <==> Fires(LastBlock(history))
      ensures v.Matched? ==> TargetOf(LastBlock(history)).Some?
      ensures v.Matched? ==> data == old(data) + [Report(e.proc, TargetOf(LastBlock(history)).value)]
      ensures !v.Matched? ==> data == old(data)
    {
      v := Streaming;
      LastBlockSnoc(history, e);
      ghost var b := BlockBefore(history, e.proc);
      assert Front(b + [e]) == b;
      StageSnoc(b, e);
      TargetSnoc(b, e);

      if lastprocess != Some(e.proc) {
        sequence := 0;
        lastprocess := Some(e.proc);
      }
      history := history + [e];
      match e.call {
        case Section(name) =>
          if !name.Text? { return Rejected; }
          if Lower(name.s) in SHARED_SECTIONS { sequence := 1; }
        case OpenProcess(target) =>
          if sequence == 1 {
            sequence := 2;
            parent, injected := Some(e.proc), Str(target);
          }
        case ReadMemory =>
          if sequence == 2 { sequence := 3; }
        case FindWindow(className) =>
          if sequence == 3 {
            if !className.Text? { return Rejected; }
            if Lower(className.s) == "shell_traywnd" { sequence := 4; }
          }
        case SetWindowLong =>
          if sequence == 4 { sequence := 5; }
        case SendNotifyMessage =>
          if sequence == 5 {
            data := data + [Report(parent.value, injected)];
            return Matched;
          }
        case Other =>
      }
    }
  }

  /** Block locality of the state: a signature that has seen only the last block is in the same state as
      one that has seen the whole trace, apart from the fields that are stale before stage 2. */
  lemma SameAsOnBlock(a: InjectionExplorer, b: InjectionExplorer)
    requires a.Valid() && b.Valid() && b.history == LastBlock(a.history)
    ensures a.lastprocess == b.lastprocess && a.sequence == b.sequence
    ensures a.sequence >= 2 ==> a.parent == b.parent && a.injected == b.injected
  {
    LastBlockIdempotent(a.history);
  }

  // ---- the engine ----

  ghost predicate ReportOf(b: Trace, r: Report) {
    b != [] && TargetOf(b).Some? && r == Report(Last(b).proc, TargetOf(b).value)
  }

  /** A complete injection has only one possible report. */
  lemma ReportUnique(b: Trace, r: Report, q: Report)
    requires ReportOf(b, r) && ReportOf(b, q)
    ensures r == q
  {
  }

  /** The logs determine the verdict and the report. */
  lemma OneOutcome(logs: seq<ProcessLog<Call>>, matched: bool, data: seq<Report>, found: bool, report: seq<Report>)
    requires Outcome(Fires, ReportOf, logs, matched, data) && Outcome(Fires, ReportOf, logs, found, report)
    ensures matched == found && data == report
  {
    hide Fires, ReportOf;
    forall b, r, q | ReportOf(b, r) && ReportOf(b, q) ensures r == q { ReportUnique(b, r, q); }
    OutcomeUnique(Fires, ReportOf, logs, matched, data, found, report);
  }

  /** Streams one process log. The call that matches is the last one to reach the signature: the
      history ends with the shortest firing prefix of the log, and the report is that prefix's. */
  method StreamLog(sig: InjectionExplorer, log: ProcessLog<Call>) returns (matched: bool)
    requires sig.Valid() && sig.data == []
    requires sig.history == [] || Last(sig.history).proc != log.proc
    modifies sig
    ensures sig.Valid()
    ensures !matched ==> sig.history == old(sig.history) + LogEvents(log)
    ensures !matched ==> sig.data == [] && Never(Fires, LogEvents(log))
    ensures matched ==> exists m: nat, r :: FirstIn(Fires, LogEvents(log), m) && ReportOf(LogEvents(log)[..m], r)
                                            && sig.history == old(sig.history) + LogEvents(log)[..m] && sig.data == [r]
  {
    hide Fires, TargetOf, LastBlock, LogEvents;
    ghost var t, b := sig.history, LogEvents(log);
    LogEventsMeaning(log);
    assert t + b[..0] == t;
    for j := 0 to |log.calls|
      invariant sig.Valid() && sig.history == t + b[..j]
      invariant sig.data == [] && Never(Fires, b[..j])
    {
      var e := Event(log.proc, log.calls[j]);
      LogPrefixIsBlock(t, log, j + 1);
      NeverSnoc(Fires, b, j);
      assert t + b[..j + 1] == sig.history + [e];
      var v := sig.OnCall(e);
      if v.Matched? {
        return true;
      }
    }
    assert b[..|b|] == b;
    return false;
  }

  /** The engine run over all process logs: the signature matches exactly when some process, looked
      at alone, performs the whole injection. The report is made for the first log that does, at its
      first complete injection, and names that process and the process it opened. */
  method Evaluate(logs: seq<ProcessLog<Call>>) returns (matched: bool, data: seq<Report>)
    requires DistinctProcesses(logs)
    ensures Outcome(Fires, ReportOf, logs, matched, data)
  {
    hide Fires, ReportOf, LogEvents;
    var sig := new InjectionExplorer();
    for i := 0 to |logs|
      invariant sig.Valid() && fresh(sig)
      invariant sig.history == Replayed(logs[..i]) && sig.data == []
      invariant forall k: nat :: k < i ==> Never(Fires, LogEvents(logs[k]))
    {
      assert Front(logs[..i + 1]) == logs[..i];
      ReplayedComesFromLogs(logs[..i], logs[i].proc);
      matched := StreamLog(sig, logs[i]);
      if matched {
        return true, sig.data;
      }
    }
    return false, [];
  }
}
