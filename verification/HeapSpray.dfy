/** Heap-spray accounting: a histogram of allocations per (process, size, protection), totalled in
    megabytes over the combinations that occur often. */
module HeapSpray {
  import opened PyModel
  import opened Sums

  /** `size` is None when the argument is missing or not a number; nothing keeps it from being negative.
      Every call that reaches the signature is taken for an allocation: NtAllocateVirtualMemory, and its
      Ex form, which the engine lets through as an alias. */
  datatype Call = Allocate(size: Option<int>, protection: Value) | Other

  type Trace = seq<Event<Call>>

  datatype Combo = Combo(process: string, size: int, protection: Value)

  /** Entries of the signature's data: marked calls and sprays. */
  datatype Entry = Mark(pid: nat) | Spray(process: string, megabytes: real)

  const PROCESSES: set<string> := {
    "acrobat.exe", "acrord32.exe", "chrome.exe", "FLTLDR.EXE", "firefox.exe",
    "HimTrayIcon.exe", "hwp.exe", "iexplore.exe", "outlook.exe"
  }

  const OFTEN := 50
  const LIMIT_MB := 200
  const MEGABYTE := 1048576

  predicate IsListed(name: string) { Lower(name) in PROCESSES }

  /** Two entries of the list can never be found: names are lower-cased before they are looked up. */
  lemma MixedCaseEntriesAreDead(name: string)
    ensures IsListed(name) <==>
      Lower(name) in {"acrobat.exe", "acrord32.exe", "chrome.exe", "firefox.exe", "hwp.exe", "iexplore.exe", "outlook.exe"}
  {
    var s := Lower(name);
    assert forall i :: 0 <= i < |s| ==> !('A' <= s[i] <= 'Z');
    assert "FLTLDR.EXE"[0] == 'F' && "HimTrayIcon.exe"[0] == 'H';
  }

  // ---- trace-level specification ----

  /** The histogram entry an event counts for. */
  function ComboOf(e: Event<Call>): Option<Combo> {
    if e.call.Allocate? && e.call.size.Some? && IsListed(e.proc.name)
    then Some(Combo(Lower(e.proc.name), e.call.size.value, e.call.protection))
    else None
  }

  function IsCombo(c: Combo): Event<Call> -> int {
    (e: Event<Call>) => if ComboOf(e) == Some(c) then 1 else 0
  }

  ghost function Count(t: Trace, c: Combo): int { Sum(IsCombo(c), t) }

  /** Bytes event e requests for process p in one of the given combinations. */
  ghost function BytesIn(heavy: iset<Combo>, p: string): Event<Call> -> int {
    (e: Event<Call>) =>
      match ComboOf(e)
      case Some(c) => if c in heavy && c.process == p then c.size else 0
      case None => 0
  }

  ghost function Heavy(t: Trace): iset<Combo> { iset c | Count(t, c) >= OFTEN }

  /** The bytes of process p in combinations that occur at least fifty times. */
  ghost function HeavyBytes(t: Trace, p: string): int { Sum(BytesIn(Heavy(t), p), t) }

  function RequestedBy(p: string): Event<Call> -> int {
    (e: Event<Call>) => if ComboOf(e).Some? && ComboOf(e).value.process == p then ComboOf(e).value.size else 0
  }

  /** All bytes of the counted calls of process p. */
  ghost function AllBytes(t: Trace, p: string): int { Sum(RequestedBy(p), t) }

  ghost predicate Sprays(t: Trace, p: string) { HeavyBytes(t, p) > LIMIT_MB * MEGABYTE }

  /** A counted call of a process with a nonzero id leaves a mark in the data. */
  ghost predicate IsMarked(e: Event<Call>) { ComboOf(e).Some? && e.proc.id != 0 }

  function Megabytes(bytes: int): real { bytes as real / 1024.0 / 1024.0 }

  // ---- the same in full ----

  /** The allocations that count together with one: same process, size and protection. */
  ghost function AlikeTo(e: Event<Call>): Event<Call> -> int {
    (x: Event<Call>) =>
      if && x.call.Allocate? && e.call.Allocate? && x.call.size == e.call.size
         && x.call.protection == e.call.protection && Lower(x.proc.name) == Lower(e.proc.name) then 1 else 0
  }

  /** What one call adds to the total of process p: its size, when p is listed and there are at least fifty
      such calls. */
  ghost function AddsTo(t: Trace, p: string): Event<Call> -> int {
    (e: Event<Call>) =>
      if && e.call.Allocate? && e.call.size.Some? && IsListed(e.proc.name)
         && Lower(e.proc.name) == p && Sum(AlikeTo(e), t) >= 50
      then e.call.size.value else 0
  }

  lemma HeavyBytesInFull(t: Trace, p: string)
    ensures HeavyBytes(t, p) == Sum(AddsTo(t, p), t)
  {
    hide IsListed;
    forall e | e in t ensures BytesIn(Heavy(t), p)(e) == AddsTo(t, p)(e) {
      if ComboOf(e).Some? { CountInFull(t, e); }
    }
    SumSame(BytesIn(Heavy(t), p), AddsTo(t, p), t);
  }

  lemma CountInFull(t: Trace, e: Event<Call>)
    requires ComboOf(e).Some?
    ensures Count(t, ComboOf(e).value) == Sum(AlikeTo(e), t)
  {
    forall x | x in t ensures IsCombo(ComboOf(e).value)(x) == AlikeTo(e)(x) {
    }
    SumSame(IsCombo(ComboOf(e).value), AlikeTo(e), t);
  }

  lemma IsMarkedInFull(e: Event<Call>)
    ensures IsMarked(e) <==> e.call.Allocate? && e.call.size.Some? && IsListed(e.proc.name) && e.proc.id != 0
  {
  }

  // ---- what the totals mean ----

  lemma CountNonNegative(t: Trace, c: Combo)
    ensures Count(t, c) >= 0
    ensures Count(t, c) > 0 <==> exists e :: e in t && ComboOf(e) == Some(c)
  {
    SumPositive(IsCombo(c), t);
    assert forall e :: IsCombo(c)(e) > 0 <==> ComboOf(e) == Some(c);
  }

  ghost function Light(t: Trace): iset<Combo> { iset c | Count(t, c) < OFTEN }

  /** The bytes of process p in the other combinations. */
  ghost function LightBytes(t: Trace, p: string): int { Sum(BytesIn(Light(t), p), t) }

  /** A process requests the counted bytes and those of the rare combinations; so what is counted stays
      within what it requested exactly when the rare ones do not add up to a negative number. */
  lemma HeavyWithinAll(t: Trace, p: string)
    ensures AllBytes(t, p) == HeavyBytes(t, p) + LightBytes(t, p)
    ensures HeavyBytes(t, p) <= AllBytes(t, p) <==> LightBytes(t, p) >= 0
  {
    SumSplit(RequestedBy(p), BytesIn(Heavy(t), p), BytesIn(Light(t), p), t);
  }

  /** In particular when the process passes no negative size. */
  lemma HeavyWithoutNegatives(t: Trace, p: string)
    requires forall e :: e in t ==> RequestedBy(p)(e) >= 0
    ensures 0 <= HeavyBytes(t, p) <= AllBytes(t, p)
  {
    HeavyWithinAll(t, p);
    SumPositive(BytesIn(Heavy(t), p), t);
    SumPositive(BytesIn(Light(t), p), t);
  }

  /** And it can exceed it: one call with a negative size, which is too rare to count. */
  lemma NegativeSize(p: Process, protection: Value) returns (t: Trace)
    requires IsListed(p.name)
    ensures HeavyBytes(t, Lower(p.name)) > AllBytes(t, Lower(p.name))
  {
    var e := Event(p, Allocate(Some(-1), protection));
    t := [e];
    var nothing: Trace := [];
    assert nothing + [e] == t;
    forall c ensures c !in Heavy(t) { SumSnoc(IsCombo(c), nothing, e); }
    HeavyWithinAll(t, Lower(p.name));
    SumSnoc(RequestedBy(Lower(p.name)), nothing, e);
    SumZero(BytesIn(Heavy(t), Lower(p.name)), t);
  }

  /** Neither the totals nor the reported processes depend on the order of the calls. */
  lemma SprayOrderFree(t: Trace, u: Trace, p: string)
    requires multiset(t) == multiset(u)
    ensures HeavyBytes(t, p) == HeavyBytes(u, p) && (Sprays(t, p) <==> Sprays(u, p))
  {
    forall c ensures Count(t, c) == Count(u, c) { SumPermutation(IsCombo(c), t, u); }
    assert Heavy(t) == Heavy(u);
    SumPermutation(BytesIn(Heavy(t), p), t, u);
  }

  ghost function CountTogether(t: Trace, combos: seq<Combo>): int {
    if combos == [] then 0 else Count(t, combos[0]) + CountTogether(t, combos[1..])
  }

  ghost function CountedIn(combos: seq<Combo>): Event<Call> -> int {
    (e: Event<Call>) => if ComboOf(e).Some? && ComboOf(e).value in combos then 1 else 0
  }

  ghost function IsCounted(): Event<Call> -> int {
    (e: Event<Call>) => if ComboOf(e).Some? then 1 else 0
  }

  lemma {:induction false} TogetherIsCounted(t: Trace, combos: seq<Combo>)
    requires forall i, j :: 0 <= i < j < |combos| ==> combos[i] != combos[j]
    ensures CountTogether(t, combos) == Sum(CountedIn(combos), t)
  {
    if combos == [] {
      SumZero(CountedIn(combos), t);
    } else {
      var c, rest := combos[0], combos[1..];
      TogetherIsCounted(t, rest);
      assert combos == [c] + rest && c !in rest;
      SumSplit(CountedIn(combos), IsCombo(c), CountedIn(rest), t);
    }
  }

  /** Conservation: over all combinations of the trace, the counts add up to the number of calls made
      by listed processes. */
  lemma CountsConserved(t: Trace, combos: seq<Combo>)
    requires forall i, j :: 0 <= i < j < |combos| ==> combos[i] != combos[j]
    requires forall e :: e in t && ComboOf(e).Some? ==> ComboOf(e).value in combos
    ensures CountTogether(t, combos) == Sum(IsCounted(), t)
  {
    TogetherIsCounted(t, combos);
    SumSame(CountedIn(combos), IsCounted(), t);
  }

  /** Taking one more combination into account adds its size times its count. */
  lemma BytesWithCombo(t: Trace, heavy: iset<Combo>, c: Combo, p: string)
    requires c !in heavy
    ensures Sum(BytesIn(heavy + iset{c}, p), t) ==
      Sum(BytesIn(heavy, p), t) + if c.process == p then c.size * Count(t, c) else 0
  {
    var more := BytesIn(iset{c}, p);
    SumSplit(BytesIn(heavy + iset{c}, p), BytesIn(heavy, p), more, t);
    SumScale(more, if c.process == p then c.size else 0, IsCombo(c), t);
  }

  lemma OverLimit(bytes: int)
    ensures Megabytes(bytes) > LIMIT_MB as real <==> bytes > LIMIT_MB * MEGABYTE
  {
    assert Megabytes(bytes) * 1048576.0 == bytes as real;
  }

  // ---- the signature ----

  ghost function Marks(t: Trace): seq<Entry> {
    if t == [] then []
    else if IsMarked(Last(t)) then Marks(Front(t)) + [Mark(Last(t).proc.id)]
    else Marks(Front(t))
  }

  lemma {:induction false} MarksMeaning(t: Trace)
    ensures Marks(t) != [] <==> exists e :: e in t && IsMarked(e)
    ensures forall x :: x in Marks(t) ==> x.Mark?
  {
    if t != [] {
      MarksMeaning(Front(t));
      assert t == Front(t) + [Last(t)];
    }
  }

  ghost predicate IsHistogram(t: Trace, mem: map<Combo, nat>) {
    forall c :: Count(t, c) == if c in mem then mem[c] else 0
  }

  /** The totals over the combinations in `done`. */
  ghost predicate AreTotals(t: Trace, done: iset<Combo>, totals: map<string, real>) {
    forall p :: Megabytes(Sum(BytesIn(done, p), t)) == if p in totals then totals[p] else 0.0
  }

  lemma TotalsEmpty(t: Trace)
    ensures AreTotals(t, iset{}, map[])
  {
    forall p { SumZero(BytesIn(iset{}, p), t); }
  }

  lemma TotalsMeaning(t: Trace, totals: map<string, real>)
    requires AreTotals(t, Heavy(t), totals)
    ensures forall p :: Megabytes(HeavyBytes(t, p)) == if p in totals then totals[p] else 0.0
  {
  }

  class ExploitHeapspray {
    var mem: map<Combo, nat>
    var heaptotals: map<string, real>
    var data: seq<Entry>
    ghost var history: Trace

    ghost predicate Valid()
      reads this
    {
      IsHistogram(history, mem) && heaptotals == map[] && data == Marks(history)
    }

    constructor ()
      ensures Valid() && history == []
    {
      mem, heaptotals, data, history := map[], map[], [], [];
    }

    method OnCall(e: Event<Call>) returns (v: Verdict)
      requires Valid()
      modifies this
      ensures Valid() && history == old(history) + [e] && !v.Matched?
    {
      forall c { SumSnoc(IsCombo(c), history, e); }
      assert Front(history + [e]) == history;
      v := Streaming;
      if e.call.Allocate? {
        if e.call.size.None? {
          v := Rejected;
        } else if IsListed(e.proc.name) {
          var combo := Combo(Lower(e.proc.name), e.call.size.value, e.call.protection);
          mem := mem[combo := (if combo in mem then mem[combo] else 0) + 1];
          if e.proc.id != 0 { data := data + [Mark(e.proc.id)]; }
        }
      }
      history := history + [e];
    }

    /** The totalling loop. */
    method TotalMegabytes()
      requires Valid()
      modifies `heaptotals
      ensures forall p :: Megabytes(HeavyBytes(history, p)) == if p in heaptotals then heaptotals[p] else 0.0
    {
      hide AreTotals, Megabytes, HeavyBytes, BytesIn, Marks;
      var rest := mem.Keys;
      ghost var done: iset<Combo> := iset{};
      TotalsEmpty(history);
      while rest != {}
        invariant rest <= mem.Keys
        invariant forall c :: c in done <==> c in mem.Keys - rest && mem[c] >= OFTEN
        invariant AreTotals(history, done, heaptotals)
        decreases rest
      {
        var combo :| combo in rest;
        rest := rest - {combo};
        var written := Megabytes(combo.size * mem[combo]);
        if mem[combo] >= OFTEN {
          ghost var was := heaptotals;
          TotalsStep(history, done, was, combo, mem[combo]);
          done := done + iset{combo};
          if combo.process !in heaptotals { heaptotals := heaptotals[combo.process := 0.0]; }
          heaptotals := heaptotals[combo.process := heaptotals[combo.process] + written];
          assert heaptotals == was[combo.process := heaptotals[combo.process]];
        }
      }
      assert done == Heavy(history);
      TotalsMeaning(history, heaptotals);
    }

    /** Every process over the limit is reported with its total; but the signature matches as soon as
        the data is not empty, and marked calls are data too. */
    method OnComplete() returns (matched: bool)
      requires Valid()
      modifies `data, `heaptotals
      ensures forall p, mb :: Spray(p, mb) in data <==> Sprays(history, p) && mb == Megabytes(HeavyBytes(history, p))
      ensures matched <==> (exists e :: e in history && IsMarked(e)) || exists p :: Sprays(history, p)
    {
      MarksMeaning(history);
      TotalMegabytes();
      ghost var marks := data;
      forall p ensures Sprays(history, p) <==> p in heaptotals && heaptotals[p] > LIMIT_MB as real {
        OverLimit(HeavyBytes(history, p));
      }
      hide Megabytes, HeavyBytes, Sprays, IsMarked, IsHistogram;
      var rest := heaptotals.Keys;
      while rest != {}
        invariant rest <= heaptotals.Keys
        invariant marks <= data
        invariant forall p, mb :: Spray(p, mb) in data <==>
          p in heaptotals.Keys - rest && mb == heaptotals[p] && mb > LIMIT_MB as real
        invariant data == marks || exists p, mb :: Spray(p, mb) in data
        modifies `data
        decreases rest
      {
        var p :| p in rest;
        rest := rest - {p};
        if heaptotals[p] > LIMIT_MB as real {
          data := data + [Spray(p, heaptotals[p])];
          assert Spray(p, heaptotals[p]) in data;
        }
      }
      matched := data != [];
      SprayEntries(history, marks, data, heaptotals);
    }
  }

  lemma SprayEntries(t: Trace, marks: seq<Entry>, data: seq<Entry>, totals: map<string, real>)
    requires marks <= data && (data == marks || exists p, mb :: Spray(p, mb) in data)
    requires forall p, mb :: Spray(p, mb) in data <==> p in totals && mb == totals[p] && mb > LIMIT_MB as real
    requires forall p :: Sprays(t, p) <==> p in totals && totals[p] > LIMIT_MB as real
    requires forall p :: Megabytes(HeavyBytes(t, p)) == if p in totals then totals[p] else 0.0
    ensures forall p, mb :: Spray(p, mb) in data <==> Sprays(t, p) && mb == Megabytes(HeavyBytes(t, p))
    ensures data != [] <==> marks != [] || exists p :: Sprays(t, p)
  {
    hide Sprays, Megabytes, HeavyBytes;
    if p :| Sprays(t, p) { assert Spray(p, totals[p]) in data; }
  }

  /** The verdict is therefore not what the threshold promises: one small allocation by a listed
      process with a nonzero id already matches. */
  lemma OneAllocationMatches(p: Process, protection: Value) returns (t: Trace)
    requires IsListed(p.name) && p.id != 0
    ensures exists e :: e in t && IsMarked(e)
    ensures forall q :: !Sprays(t, q)
  {
    var e := Event(p, Allocate(Some(1), protection));
    t := [e];
    assert e in t;
    forall q ensures !Sprays(t, q) {
      HeavyWithoutNegatives(t, q);
      var nothing: Trace := [];
      SumSnoc(RequestedBy(q), nothing, e);
      assert nothing + [e] == t;
    }
  }

  /** The whole run: which processes are reported, and exactly when the signature matches. */
  method Evaluate(t: Trace) returns (matched: bool, data: seq<Entry>)
    ensures forall p, mb :: Spray(p, mb) in data <==>
      HeavyBytes(t, p) > 200 * 1024 * 1024 && mb * 1048576.0 == HeavyBytes(t, p) as real
    ensures forall p, mb :: Spray(p, mb) in data <==> Sprays(t, p) && mb == Megabytes(HeavyBytes(t, p))
    ensures matched <==> (exists e :: e in t && IsMarked(e)) || exists p :: Sprays(t, p)
  {
    var sig := new ExploitHeapspray();
    for i := 0 to |t|
      invariant sig.Valid() && sig.history == t[..i] && fresh(sig)
    {
      var v := sig.OnCall(t[i]);
    }
    assert t[..|t|] == t;
    matched := sig.OnComplete();
    data := sig.data;
  }

  lemma TotalsStep(t: Trace, done: iset<Combo>, totals: map<string, real>, c: Combo, count: nat)
    requires AreTotals(t, done, totals) && c !in done && Count(t, c) == count
    ensures AreTotals(t, done + iset{c},
      totals[c.process := (if c.process in totals then totals[c.process] else 0.0) + Megabytes(c.size * count)])
  {
    forall p { BytesWithCombo(t, done, c, p); }
  }
}
