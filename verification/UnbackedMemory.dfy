/** Dynamically allocated ("unbacked") address ranges: the calls that create and free them, and the
    two ways the signatures attribute them to processes. */
module UnbackedMemory {
  import opened PyModel

  /** An argument after the truth test and `int`: falsy, not a number, or a number. */
  datatype Arg = Falsy | Bad | Num(n: int)

  /** An address argument with its text; `value` is None when the text is not a number. */
  datatype Address = NoAddress | Address(text: string, value: Option<int>)

  datatype Call =
    | Alloc(base: Arg, lpAddress: Arg, size: Arg, dwSize: Arg)                    // NtAllocateVirtualMemory, VirtualAlloc
    | AllocEx(base: Arg, lpAddress: Arg, size: Arg, dwSize: Arg, process: Arg)    // VirtualAllocEx
    | Free(base: Arg, lpAddress: Arg)                                             // NtFreeVirtualMemory, VirtualFree
    | Network(api: string, caller: Address)                                       // anything else, see below
    | Syscall(api: string, returnAddress: Address, caller: Address, dll: Option<string>)  // sysenter, syscall

  /** `Network` is whatever else reaches the network tracker, which takes it for a network call by
      elimination. Besides the network calls these are the calls the engine lets through as an alias of
      another name, like NtAllocateVirtualMemoryEx. The syscall tracker ignores them. */
  type Trace = seq<Event<Call>>

  /** Both bounds count as inside: the signatures test start <= address <= base + size. */
  datatype Range = Range(start: int, end: int)

  datatype Allocation = Allocation(pid: int, range: Range)

  datatype Freed = Freed(pid: int, base: int)

  /** Python's `a or b`. */
  function Or(a: Arg, b: Arg): Arg { if a.Falsy? then b else a }

  function RangeOf(base: Arg, size: Arg): Option<Range> {
    if base.Num? && size.Num? then Some(Range(base.n, base.n + size.n)) else None
  }

  /** The allocation an event makes for the network tracker, which books VirtualAllocEx on its
      target. */
  function TargetAllocation(e: Event<Call>): Option<Allocation> {
    match e.call
    case Alloc(base, lp, size, dw) =>
      (match RangeOf(Or(base, lp), Or(size, dw))
       case Some(r) => Some(Allocation(e.proc.id, r))
       case None => None)
    case AllocEx(_, lp, _, dw, process) =>
      (match RangeOf(lp, dw)
       case Some(r) => if process.Num? then Some(Allocation(process.n, r)) else None
       case None => None)
    case _ => None
  }

  /** The allocation an event makes for the syscall tracker, which books everything on the caller. */
  function CallerAllocation(e: Event<Call>): Option<Allocation> {
    match e.call
    case Alloc(base, lp, size, dw) =>
      (match RangeOf(Or(base, lp), Or(size, dw))
       case Some(r) => Some(Allocation(e.proc.id, r))
       case None => None)
    case AllocEx(base, lp, size, dw, _) =>
      (match RangeOf(Or(base, lp), Or(size, dw))
       case Some(r) => Some(Allocation(e.proc.id, r))
       case None => None)
    case _ => None
  }

  function FreeOf(e: Event<Call>): Option<Freed> {
    if e.call.Free? && Or(e.call.base, e.call.lpAddress).Num?
    then Some(Freed(e.proc.id, Or(e.call.base, e.call.lpAddress).n))
    else None
  }

  /** The first of the two arguments that is not falsy is the number n. */
  predicate Passes(a: Arg, b: Arg, n: int) { if a.Falsy? then b == Num(n) else a == Num(n) }

  /** The call allocates [base, base + size] for pid, as the network tracker books it. */
  predicate AllocatesOn(e: Event<Call>, pid: int, base: int, size: int) {
    match e.call
    case Alloc(b, lp, s, dw) => e.proc.id == pid && Passes(b, lp, base) && Passes(s, dw, size)
    case AllocEx(_, lp, _, dw, target) => lp == Num(base) && dw == Num(size) && target == Num(pid)
    case _ => false
  }

  /** The same as the syscall tracker books it. */
  predicate AllocatesBy(e: Event<Call>, pid: int, base: int, size: int) {
    && e.proc.id == pid
    && match e.call
       case Alloc(b, lp, s, dw) => Passes(b, lp, base) && Passes(s, dw, size)
       case AllocEx(b, lp, s, dw, _) => Passes(b, lp, base) && Passes(s, dw, size)
       case _ => false
  }

  predicate FreesBase(e: Event<Call>, pid: int, base: int) {
    e.call.Free? && e.proc.id == pid && Passes(e.call.base, e.call.lpAddress, base)
  }

  lemma BookedInFull(e: Event<Call>, pid: int, base: int, size: int)
    ensures AllocatesOn(e, pid, base, size) <==> TargetAllocation(e) == Some(Allocation(pid, Range(base, base + size)))
    ensures AllocatesBy(e, pid, base, size) <==> CallerAllocation(e) == Some(Allocation(pid, Range(base, base + size)))
    ensures FreesBase(e, pid, base) <==> FreeOf(e) == Some(Freed(pid, base))
  {
  }

  predicate Inside(r: Range, address: int) { r.start <= address <= r.end }

  predicate Covers(rs: seq<Range>, address: int) {
    exists i :: 0 <= i < |rs| && Inside(rs[i], address)
  }

  lemma CoversCons(r: Range, rs: seq<Range>, address: int)
    ensures Covers([r] + rs, address) <==> Inside(r, address) || Covers(rs, address)
  {
    var all := [r] + rs;
    if i :| 0 <= i < |rs| && Inside(rs[i], address) { assert Inside(all[i + 1], address); }
    if Inside(r, address) { assert Inside(all[0], address); }
    if i :| 0 <= i < |all| && Inside(all[i], address) {
      if i > 0 { assert Inside(rs[i - 1], address); }
    }
  }

  /** The list comprehension that drops every range with the given base. */
  function Without(rs: seq<Range>, base: int): seq<Range> {
    if rs == [] then []
    else if rs[0].start != base then [rs[0]] + Without(rs[1..], base)
    else Without(rs[1..], base)
  }

  lemma WithoutUnfold(rs: seq<Range>, base: int)
    ensures Without([], base) == []
    ensures rs != [] ==>
              Without(rs, base) == (if rs[0].start == base then [] else [rs[0]]) + Without(rs[1..], base)
  {
  }

  lemma {:induction false} WithoutConcat(a: seq<Range>, b: seq<Range>, base: int)
    ensures Without(a + b, base) == Without(a, base) + Without(b, base)
  {
    hide Without;
    WithoutUnfold(a, base);
    if a == [] {
      assert a + b == b;
    } else {
      WithoutUnfold(a + b, base);
      assert (a + b)[1..] == a[1..] + b;
      WithoutConcat(a[1..], b, base);
    }
  }

  lemma CoversSnoc(rs: seq<Range>, r: Range, address: int)
    ensures Covers(rs + [r], address) <==> Covers(rs, address) || Inside(r, address)
  {
    if i :| 0 <= i < |rs| && Inside(rs[i], address) { assert Inside((rs + [r])[i], address); }
    if Inside(r, address) { assert Inside((rs + [r])[|rs|], address); }
  }

  lemma {:induction false} CoversWithout(rs: seq<Range>, base: int, address: int)
    ensures Covers(Without(rs, base), address) ==> Covers(rs, address)
  {
    if rs != [] {
      CoversWithout(rs[1..], base, address);
      CoversCons(rs[0], rs[1..], address);
      CoversCons(rs[0], Without(rs[1..], base), address);
      assert rs == [rs[0]] + rs[1..];
    }
  }

  function Lookup(m: map<int, seq<Range>>, pid: int): seq<Range> {
    if pid in m then m[pid] else []
  }

  ghost predicate IsSubsequence(a: seq<Range>, b: seq<Range>) {
    a == [] || (b != [] && (IsSubsequence(a, Front(b)) || (Last(a) == Last(b) && IsSubsequence(Front(a), Front(b)))))
  }

  lemma {:induction false} SubsequenceMember(a: seq<Range>, b: seq<Range>, x: Range)
    requires IsSubsequence(a, b) && x in a
    ensures x in b
  {
    if IsSubsequence(a, Front(b)) {
      SubsequenceMember(a, Front(b), x);
    } else if x != Last(a) {
      SubsequenceMember(Front(a), Front(b), x);
    }
  }

  lemma SubsequenceSnoc(a: seq<Range>, b: seq<Range>, x: Range)
    requires IsSubsequence(a, b)
    ensures IsSubsequence(a, b + [x]) && IsSubsequence(a + [x], b + [x])
  {
    assert Front(b + [x]) == b && Front(a + [x]) == a;
  }

  lemma {:induction false} WithoutSubsequence(a: seq<Range>, b: seq<Range>, base: int)
    requires IsSubsequence(a, b)
    ensures IsSubsequence(Without(a, base), b)
  {
    if a != [] {
      assert b == Front(b) + [Last(b)];
      if IsSubsequence(a, Front(b)) {
        WithoutSubsequence(a, Front(b), base);
        SubsequenceSnoc(Without(a, base), Front(b), Last(b));
      } else {
        WithoutSubsequence(Front(a), Front(b), base);
        WithoutConcat(Front(a), [Last(a)], base);
        assert a == Front(a) + [Last(a)];
        assert Without([Last(a)], base) == if Last(a).start != base then [Last(a)] else [];
        SubsequenceSnoc(Without(Front(a), base), Front(b), Last(b));
        assert Without(a, base) ==
          if Last(a).start != base then Without(Front(a), base) + [Last(a)] else Without(Front(a), base);
      }
    } else {
      assert Without(a, base) == [];
    }
  }
}
