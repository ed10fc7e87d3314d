/** Sleep accounting: sleeps are collected call by call and totalled per process at the end. */
module SleepAccounting {
  import opened PyModel
  import opened Sums

  /** A sleep time: not a number, or milliseconds, which nothing keeps from being negative. */
  datatype Time = NotANumber | Milliseconds(n: int)

  /** `time` is None when the argument is missing; `status` is None when it is missing or empty. */
  datatype Call = Delay(time: Option<Time>, status: Option<string>) | Other   // NtDelayExecution

  type Trace = seq<Event<Call>>

  datatype Sleep = Sleep(process: string, time: Time, slept: bool)

  datatype Totals = Totals(attempted: int, actual: int)

  const WHITELIST: set<string> := {
    "dwm.exe", "adobearm.exe", "iexplore.exe", "acrord32.exe", "winword.exe",
    "excel.exe", "splwow64.exe", "powershell.exe", "outlook.exe"
  }

  const MATCH_LIMIT := 250000
  const SEVERE_LIMIT := 2100000

  predicate IsWhitelisted(name: string) { Lower(name) in WHITELIST }

  // ---- trace-level specification ----

  /** The sleep a call records: infinite ones are ignored, and only a status other than "Skipped"
      means that the time really passed. */
  function SleepOf(e: Event<Call>): Option<Sleep> {
    if e.call.Delay? && e.call.time.Some? && e.call.status != Some("Infinite") then
      Some(Sleep(e.proc.name, e.call.time.value, e.call.status.Some? && e.call.status != Some("Skipped")))
    else None
  }

  /** Milliseconds event e adds to the attempted time of process p. */
  function AttemptedBy(p: string): Event<Call> -> int {
    (e: Event<Call>) =>
      match SleepOf(e)
      case Some(s) => if s.process == p && s.time.Milliseconds? && !IsWhitelisted(p) then s.time.n else 0
      case None => 0
  }

  function ActualBy(p: string): Event<Call> -> int {
    (e: Event<Call>) =>
      match SleepOf(e)
      case Some(s) => if s.slept then AttemptedBy(p)(e) else 0
      case None => 0
  }

  /** What event e adds to the total over all processes. */
  function CountedBy(): Event<Call> -> int {
    (e: Event<Call>) =>
      match SleepOf(e)
      case Some(s) => if s.time.Milliseconds? && !IsWhitelisted(s.process) then s.time.n else 0
      case None => 0
  }

  ghost function Attempted(t: Trace, p: string): int { Sum(AttemptedBy(p), t) }

  ghost function Actual(t: Trace, p: string): int { Sum(ActualBy(p), t) }

  ghost function TotalsOf(t: Trace, p: string): Totals { Totals(Attempted(t, p), Actual(t, p)) }

  /** Milliseconds event e adds to the sleeps of process p that did not take place. */
  function SkippedBy(p: string): Event<Call> -> int {
    (e: Event<Call>) =>
      match SleepOf(e)
      case Some(s) => if s.slept then 0 else AttemptedBy(p)(e)
      case None => 0
  }

  ghost function Skipped(t: Trace, p: string): int { Sum(SkippedBy(p), t) }

  /** A counted sleep whose time is not a number makes the final totalling raise. */
  ghost predicate IsMalformed(e: Event<Call>) {
    SleepOf(e).Some? && SleepOf(e).value.time.NotANumber? && !IsWhitelisted(SleepOf(e).value.process)
  }

  ghost predicate Malformed(t: Trace) { exists e :: e in t && IsMalformed(e) }

  ghost predicate Reaches(t: Trace, limit: nat) { exists p :: Attempted(t, p) >= limit }

  // ---- the same in full ----

  lemma IsWhitelistedInFull(name: string)
    ensures IsWhitelisted(name) <==>
      || Lower(name) == "dwm.exe" || Lower(name) == "adobearm.exe" || Lower(name) == "iexplore.exe"
      || Lower(name) == "acrord32.exe" || Lower(name) == "winword.exe" || Lower(name) == "excel.exe"
      || Lower(name) == "splwow64.exe" || Lower(name) == "powershell.exe" || Lower(name) == "outlook.exe"
  {
  }

  /** What one call adds: a delay of p with a time in numbers counts, unless p is whitelisted or the status
      is "Infinite"; it took place when there is a status other than "Skipped". */
  lemma AddsInFull(e: Event<Call>, p: string, n: int)
    requires e.call.Delay? && e.call.time == Some(Milliseconds(n)) && e.proc.name == p && !IsWhitelisted(p)
    ensures AttemptedBy(p)(e) == if e.call.status == Some("Infinite") then 0 else n
    ensures ActualBy(p)(e) ==
      if e.call.status == None || e.call.status == Some("Infinite") || e.call.status == Some("Skipped") then 0 else n
  {
  }

  lemma AddsNothingInFull(e: Event<Call>, p: string)
    requires !e.call.Delay? || e.proc.name != p || IsWhitelisted(p) || !(e.call.time.Some? && e.call.time.value.Milliseconds?)
    ensures AttemptedBy(p)(e) == 0 && ActualBy(p)(e) == 0
  {
  }

  lemma MalformedInFull(t: Trace)
    ensures Malformed(t) <==> exists i: nat ::
      && i < |t| && t[i].call.Delay? && t[i].call.time == Some(NotANumber)
      && t[i].call.status != Some("Infinite") && !IsWhitelisted(t[i].proc.name)
  {
    hide IsWhitelisted;
    if e :| e in t && IsMalformed(e) {
      var i :| 0 <= i < |t| && t[i] == e;
      assert t[i].call.Delay? && t[i].call.time == Some(NotANumber);
    }
    if i: nat :|
      && i < |t| && t[i].call.Delay? && t[i].call.time == Some(NotANumber)
      && t[i].call.status != Some("Infinite") && !IsWhitelisted(t[i].proc.name)
    {
      assert t[i] in t && IsMalformed(t[i]);
    }
  }

  // ---- what the totals mean ----

  /** The attempted time is the actual time and the skipped time; so the actual time stays within it
      exactly when the skipped time is not negative. */
  lemma ActualWithinAttempted(t: Trace, p: string)
    ensures Attempted(t, p) == Actual(t, p) + Skipped(t, p)
    ensures Actual(t, p) <= Attempted(t, p) <==> Skipped(t, p) >= 0
  {
    SumSplit(AttemptedBy(p), ActualBy(p), SkippedBy(p), t);
  }

  /** It can be negative: one skipped sleep of a counted process with a negative time is enough. */
  lemma NegativeSkip(t: Trace, p: Process) returns (u: Trace)
    requires !IsWhitelisted(p.name)
    ensures t <= u && |u| == |t| + 1 && u[|t|].proc == p
    ensures Actual(u, p.name) > Attempted(u, p.name)
  {
    var e := Event(p, Delay(Some(Milliseconds(-1 - if Skipped(t, p.name) > 0 then Skipped(t, p.name) else 0)), Some("Skipped")));
    u := t + [e];
    SumSnoc(SkippedBy(p.name), t, e);
    ActualWithinAttempted(u, p.name);
  }

  /** In particular when the process passes no negative time. */
  lemma TotalsWithoutNegatives(t: Trace, p: string)
    requires forall e :: e in t ==> AttemptedBy(p)(e) >= 0
    ensures 0 <= Actual(t, p) <= Attempted(t, p)
  {
    ActualWithinAttempted(t, p);
    SumPositive(ActualBy(p), t);
    SumPositive(SkippedBy(p), t);
  }

  /** No total, and so neither limit, depends on the order of the calls. */
  lemma SleepOrderFree(t: Trace, u: Trace, limit: nat)
    requires multiset(t) == multiset(u)
    ensures Reaches(t, limit) <==> Reaches(u, limit)
    ensures Malformed(t) <==> Malformed(u)
  {
    forall p ensures Attempted(t, p) == Attempted(u, p) { SumPermutation(AttemptedBy(p), t, u); }
    assert forall e :: e in t <==> e in multiset(t);
    assert forall e :: e in u <==> e in multiset(u);
  }

  ghost function AttemptedTogether(t: Trace, names: seq<string>): int {
    if names == [] then 0 else Attempted(t, names[0]) + AttemptedTogether(t, names[1..])
  }

  ghost function CountedIn(names: seq<string>): Event<Call> -> int {
    (e: Event<Call>) => if e.proc.name in names then CountedBy()(e) else 0
  }

  lemma SplitOne(names: seq<string>, e: Event<Call>)
    requires names != [] && forall i, j :: 0 <= i < j < |names| ==> names[i] != names[j]
    ensures CountedIn(names)(e) == AttemptedBy(names[0])(e) + CountedIn(names[1..])(e)
  {
    assert names == [names[0]] + names[1..];
    assert names[0] !in names[1..];
    assert e.proc.name == names[0] ==> CountedBy()(e) == AttemptedBy(names[0])(e);
    assert e.proc.name != names[0] ==> AttemptedBy(names[0])(e) == 0;
  }

  lemma {:induction false} TogetherIsCounted(t: Trace, names: seq<string>)
    requires forall i, j :: 0 <= i < j < |names| ==> names[i] != names[j]
    ensures AttemptedTogether(t, names) == Sum(CountedIn(names), t)
  {
    if names == [] {
      SumZero(CountedIn(names), t);
    } else {
      var p, rest := names[0], names[1..];
      TogetherIsCounted(t, rest);
      forall e | e in t ensures CountedIn(names)(e) == AttemptedBy(p)(e) + CountedIn(rest)(e) { SplitOne(names, e); }
      SumSplit(CountedIn(names), AttemptedBy(p), CountedIn(rest), t);
    }
  }

  /** Conservation: over any list of distinct names that covers the trace, the attempted times add up
      to the total of all counted sleeps. */
  lemma AttemptedConserved(t: Trace, names: seq<string>)
    requires forall i, j :: 0 <= i < j < |names| ==> names[i] != names[j]
    requires forall e :: e in t ==> e.proc.name in names
    ensures AttemptedTogether(t, names) == Sum(CountedBy(), t)
  {
    TogetherIsCounted(t, names);
    SumSame(CountedIn(names), CountedBy(), t);
  }

  // ---- the signature ----

  ghost function Sleeps(t: Trace): seq<Sleep> {
    if t == [] then []
    else if SleepOf(Last(t)).Some? then Sleeps(Front(t)) + [SleepOf(Last(t)).value]
    else Sleeps(Front(t))
  }

  /** The totals the list of sleeps calls for, up to its first n entries. */
  ghost predicate AreTotals(sleeps: seq<Sleep>, procs: map<string, Totals>) {
    && (forall p :: p in procs ==> !IsWhitelisted(p))
    && (forall p :: AttemptedIn(sleeps, p) == if p in procs then procs[p].attempted else 0)
    && (forall p :: ActualIn(sleeps, p) == if p in procs then procs[p].actual else 0)
  }

  ghost function AttemptedIn(sleeps: seq<Sleep>, p: string): int {
    if sleeps == [] then 0
    else
      var s := Last(sleeps);
      AttemptedIn(Front(sleeps), p) + if s.process == p && s.time.Milliseconds? && !IsWhitelisted(p) then s.time.n else 0
  }

  ghost function ActualIn(sleeps: seq<Sleep>, p: string): int {
    if sleeps == [] then 0
    else
      var s := Last(sleeps);
      ActualIn(Front(sleeps), p)
        + if s.process == p && s.time.Milliseconds? && !IsWhitelisted(p) && s.slept then s.time.n else 0
  }

  lemma {:induction false} ListTotalsAreTraceTotals(t: Trace, p: string)
    ensures AttemptedIn(Sleeps(t), p) == Attempted(t, p)
    ensures ActualIn(Sleeps(t), p) == Actual(t, p)
  {
    if t != [] {
      ListTotalsAreTraceTotals(Front(t), p);
      if SleepOf(Last(t)).Some? { assert Front(Sleeps(t)) == Sleeps(Front(t)); }
    }
  }

  lemma {:induction false} SleepsComeFromTrace(t: Trace)
    ensures forall s :: s in Sleeps(t) <==> exists e :: e in t && SleepOf(e) == Some(s)
  {
    if t != [] {
      SleepsComeFromTrace(Front(t));
      assert t == Front(t) + [Last(t)];
    }
  }

  class AntiSandboxSleep {
    var sleeps: seq<Sleep>
    var severity: nat
    ghost var history: Trace

    ghost predicate Valid()
      reads this
    {
      sleeps == Sleeps(history)
    }

    constructor ()
      ensures Valid() && history == [] && severity == 2
    {
      sleeps, severity, history := [], 2, [];
    }

    method OnCall(e: Event<Call>)
      requires Valid()
      modifies this
      ensures Valid() && history == old(history) + [e] && severity == old(severity)
    {
      assert Front(history + [e]) == history;
      if e.call.Delay? && e.call.time.Some? {
        var skip := e.call.status;
        if skip != Some("Infinite") {
          if skip.Some? && skip.value != "Skipped" { skip := Some("Slept"); }
          sleeps := sleeps + [Sleep(e.proc.name, e.call.time.value, skip == Some("Slept"))];
        }
      }
      history := history + [e];
    }

    /** The totalling loop; None stands for the exception of a time that is not a number. */
    method TotalPerProcess() returns (result: Option<map<string, Totals>>)
      ensures result.None? <==> exists s :: s in sleeps && s.time.NotANumber? && !IsWhitelisted(s.process)
      ensures result.Some? ==> AreTotals(sleeps, result.value)
    {
      hide IsWhitelisted;
      var procs: map<string, Totals> := map[];
      assert sleeps[..0] == [];
      for i := 0 to |sleeps|
        invariant forall s :: s in sleeps[..i] ==> !(s.time.NotANumber? && !IsWhitelisted(s.process))
        invariant AreTotals(sleeps[..i], procs)
      {
        var s := sleeps[i];
        assert sleeps[..i + 1] == sleeps[..i] + [s];
        assert Front(sleeps[..i + 1]) == sleeps[..i];
        if !IsWhitelisted(s.process) {
          if s.process !in procs { procs := procs[s.process := Totals(0, 0)]; }
          if s.time.NotANumber? { return None; }
          var was := procs[s.process];
          var actual := if s.slept then was.actual + s.time.n else was.actual;
          procs := procs[s.process := Totals(was.attempted + s.time.n, actual)];
        }
      }
      assert sleeps[..|sleeps|] == sleeps;
      return Some(procs);
    }

    /** The signature matches exactly when no counted time is malformed and some process reaches the
        limit, and raises its severity exactly when some process reaches the long limit. */
    method OnComplete() returns (matched: bool, reported: map<string, Totals>)
      requires Valid() && severity == 2
      modifies `severity
      ensures matched <==> !Malformed(history) && Reaches(history, MATCH_LIMIT)
      ensures severity == if !Malformed(history) && Reaches(history, SEVERE_LIMIT) then 3 else 2
      ensures forall p :: p in reported <==> !Malformed(history) && Attempted(history, p) >= MATCH_LIMIT
      ensures forall p :: p in reported ==> reported[p] == TotalsOf(history, p)
    {
      hide Attempted, AttemptedIn, ActualIn, Actual, IsWhitelisted, SleepOf, Sleeps;
      matched, reported := false, map[];
      SleepsComeFromTrace(history);
      forall p { ListTotalsAreTraceTotals(history, p); }
      var totals := TotalPerProcess();
      if totals.None? { return; }
      var procs := totals.value;
      var rest := procs.Keys;
      while rest != {}
        invariant rest <= procs.Keys && (severity == 2 || severity == 3)
        invariant matched <==> reported != map[]
        invariant forall p :: p in reported ==> p in procs && reported[p] == procs[p]
        invariant forall p :: p in reported <==> p in procs.Keys - rest && procs[p].attempted >= MATCH_LIMIT
        invariant severity == 3 <==> exists p :: p in procs.Keys - rest && procs[p].attempted >= SEVERE_LIMIT
        decreases rest
      {
        var p :| p in rest;
        rest := rest - {p};
        if procs[p].attempted >= MATCH_LIMIT {
          matched := true;
          reported := reported[p := procs[p]];
        }
        if procs[p].attempted >= SEVERE_LIMIT { severity := 3; }
      }
    }
  }

  /** The whole run. */
  method Evaluate(t: Trace) returns (matched: bool, severity: nat, reported: map<string, Totals>)
    ensures matched <==> !Malformed(t) && exists p :: Attempted(t, p) >= 250000
    ensures severity == 3 <==> !Malformed(t) && exists p :: Attempted(t, p) >= 2100000
    ensures severity == 2 || (severity == 3 && matched)
    ensures forall p :: p in reported <==> !Malformed(t) && Attempted(t, p) >= 250000
    ensures forall p :: p in reported ==> reported[p].attempted == Attempted(t, p) && reported[p].actual == Actual(t, p)
  {
    var sig := new AntiSandboxSleep();
    for i := 0 to |t|
      invariant sig.Valid() && sig.history == t[..i] && fresh(sig) && sig.severity == 2
    {
      sig.OnCall(t[i]);
    }
    assert t[..|t|] == t;
    matched, reported := sig.OnComplete();
    severity := sig.severity;
    if p :| Attempted(t, p) >= SEVERE_LIMIT { assert Attempted(t, p) >= MATCH_LIMIT; }
  }
}
