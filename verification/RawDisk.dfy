/** Raw-disk handle tables: the calls two signatures follow, when each of them admits a handle, and
    the provenance every table entry has in the trace. */
module RawDisk {
  import opened PyModel
  import opened Traces

  /** A hexadecimal argument: absent or empty, not parseable, or a number. */
  datatype HexArg = NoArg | BadHex | Hex(n: nat)

  datatype Call =
    | Open(status: bool, name: Option<string>, handle: HexArg, access: HexArg)  // NtCreateFile, NtOpenFile
    | Duplicate(status: bool, source: HexArg, target: HexArg)                   // NtDuplicateObject
    | Close(handle: HexArg)                                                     // NtClose
    | Ioctl(code: HexArg, handle: HexArg)                                       // DeviceIoControl, NtDeviceIoControlFile
    | WriteFile(handle: HexArg)                                                 // NtWriteFile
    | Other

  type Trace = seq<Event<Call>>

  /** The two admission rules: Bootkit wants a writable raw disk, DiskInformation any disk. */
  datatype Rule = Writable | AnyDisk

  /** Bit 1 (FILE_WRITE_DATA) or bit 30 (GENERIC_WRITE) of the access mask. */
  predicate WantsWrite(access: nat) {
    (access / 2) % 2 == 1 || (access / 0x4000_0000) % 2 == 1
  }

  predicate IsRawDisk(name: string) {
    Lower(name) == "\\??\\physicaldrive0" || StartsWith(Lower(name), "\\device\\harddisk")
  }

  /** A successful open the rule admits. */
  predicate Admits(r: Rule, c: Call) {
    && c.Open? && c.status && c.handle.Hex? && c.name.Some?
    && match r
       case Writable => c.access.Hex? && IsRawDisk(c.name.value) && WantsWrite(c.access.n)
       case AnyDisk => IsRawDisk(c.name.value) || Contains(Lower(c.name.value), "scsi0")
  }

  predicate Copies(c: Call) {
    c.Duplicate? && c.status && c.source.Hex? && c.target.Hex?
  }

  predicate Closes(c: Call, h: nat) { c == Close(Hex(h)) }

  // ---- provenance ----

  /** h was acquired in the block, by an admitted open or by a duplicate of a handle tracked at that
      moment, and not closed since. */
  ghost predicate Tracked(r: Rule, b: Trace, h: nat)
    decreases |b|
  {
    exists i: nat :: i < |b| && HeldSince(b, i, h) &&
      (AdmitsAs(r, b[i].call, h) || (CopiesTo(b[i].call, h) && Tracked(r, b[..i], b[i].call.source.n)))
  }

  predicate AdmitsAs(r: Rule, c: Call, h: nat) { Admits(r, c) && c.handle == Hex(h) }

  predicate CopiesTo(c: Call, h: nat) { Copies(c) && c.target == Hex(h) }

  ghost predicate HeldSince(b: Trace, i: nat, h: nat) {
    forall j :: i < j < |b| ==> !Closes(b[j].call, h)
  }

  ghost predicate Acquires(r: Rule, b: Trace, i: nat, h: nat) {
    i < |b| && (AdmitsAs(r, b[i].call, h) || (CopiesTo(b[i].call, h) && Tracked(r, b[..i], b[i].call.source.n)))
  }

  /** Event j ends the name of h: a close, or a duplicate of a tracked handle onto it. */
  ghost predicate Unnames(r: Rule, b: Trace, j: nat, h: nat) {
    j < |b| && (Closes(b[j].call, h) || (CopiesTo(b[j].call, h) && Tracked(r, b[..j], b[j].call.source.n)))
  }

  ghost predicate NameKept(r: Rule, b: Trace, i: nat, h: nat) {
    forall j: nat :: i < j < |b| ==> !Unnames(r, b, j, h)
  }

  /** h got this name from an admitted open while it was untracked, or from a duplicate, which passes
      on the name its source had; and nothing has ended the name since. */
  ghost predicate Named(r: Rule, b: Trace, h: nat, name: string)
    decreases |b|
  {
    exists i: nat :: i < |b| && NameKept(r, b, i, h) &&
      ((AdmitsAs(r, b[i].call, h) && b[i].call.name == Some(name) && !Tracked(r, b[..i], h))
       || (CopiesTo(b[i].call, h) && Named(r, b[..i], b[i].call.source.n, name)))
  }

  ghost predicate Names(r: Rule, b: Trace, i: nat, h: nat, name: string) {
    && i < |b|
    && ((AdmitsAs(r, b[i].call, h) && b[i].call.name == Some(name) && !Tracked(r, b[..i], h))
        || (CopiesTo(b[i].call, h) && Named(r, b[..i], b[i].call.source.n, name)))
  }

  // ---- the same in full ----

  /** The access mask taken apart: bits 30 and 1 are the two that ask for writing. */
  lemma WantsWriteInFull(access: nat, hi: nat, g: nat, mid: nat, w: nat, lo: nat)
    requires access == hi * 0x8000_0000 + g * 0x4000_0000 + mid * 4 + w * 2 + lo
    requires g < 2 && w < 2 && lo < 2 && mid < 0x1000_0000
    ensures WantsWrite(access) <==> g == 1 || w == 1
  {
    assert access / 2 == hi * 0x4000_0000 + g * 0x2000_0000 + mid * 2 + w;
    assert access / 0x4000_0000 == hi * 2 + g;
  }

  lemma IsRawDiskInFull(name: string)
    ensures IsRawDisk(name) <==>
      || Lower(name) == "\\??\\physicaldrive0"
      || (|name| >= 16 && Lower(name)[..16] == "\\device\\harddisk")
  {
  }

  /** Whether one more open is tracked, for a handle that was not: under Bootkit's rule a raw disk opened
      for writing, under DiskInformation's any raw disk, and scsi0 anywhere in the name. */
  lemma OpenInFull(b: Trace, e: Event<Call>, h: nat)
    requires e.call.Open? && e.call.handle == Hex(h)
    ensures !Tracked(Writable, b, h) ==>
              (Tracked(Writable, b + [e], h) <==>
               && e.call.status && e.call.name.Some? && IsRawDisk(e.call.name.value)
               && e.call.access.Hex? && WantsWrite(e.call.access.n))
    ensures !Tracked(AnyDisk, b, h) ==>
              (Tracked(AnyDisk, b + [e], h) <==>
               && e.call.status && e.call.name.Some?
               && (IsRawDisk(e.call.name.value)
                   || exists before, rest :: Lower(e.call.name.value) == before + "scsi0" + rest))
  {
    hide Tracked, IsRawDisk, WantsWrite, Contains, Lower;
    TrackedSnoc(Writable, b, e, h);
    TrackedSnoc(AnyDisk, b, e, h);
    if e.call.name.Some? { ContainsInFull(Lower(e.call.name.value), "scsi0"); }
  }

  /** A close forgets its handle and no other. */
  lemma CloseInFull(r: Rule, b: Trace, p: Process, h: nat, g: nat)
    ensures Tracked(r, b + [Event(p, Close(Hex(h)))], g) <==> g != h && Tracked(r, b, g)
  {
    hide Tracked;
    TrackedSnoc(r, b, Event(p, Close(Hex(h))), g);
  }

  /** A successful duplicate makes its target tracked when its source is; nothing else changes. */
  lemma DuplicateInFull(r: Rule, b: Trace, e: Event<Call>, g: nat)
    requires e.call.Duplicate?
    ensures Tracked(r, b + [e], g) <==>
      || Tracked(r, b, g)
      || exists s: nat :: e.call == Duplicate(true, Hex(s), Hex(g)) && Tracked(r, b, s)
  {
    hide Tracked;
    TrackedSnoc(r, b, e, g);
    if e.call.source.Hex? && e.call == Duplicate(true, Hex(e.call.source.n), Hex(g)) && Tracked(r, b, e.call.source.n) {
      assert exists s: nat :: e.call == Duplicate(true, Hex(s), Hex(g)) && Tracked(r, b, s);
    }
  }

  // ---- one more event ----

  lemma PrefixStable(b: Trace, e: Event<Call>, i: nat)
    requires i < |b|
    ensures (b + [e])[..i] == b[..i] && (b + [e])[i] == b[i]
  {
  }

  lemma AcquiresSnoc(r: Rule, b: Trace, e: Event<Call>, h: nat)
    ensures forall i: nat :: i < |b| ==> (Acquires(r, b + [e], i, h) <==> Acquires(r, b, i, h))
    ensures Acquires(r, b + [e], |b|, h) <==>
      AdmitsAs(r, e.call, h) || (CopiesTo(e.call, h) && Tracked(r, b, e.call.source.n))
  {
    assert (b + [e])[..|b|] == b;
    forall i: nat | i < |b| ensures Acquires(r, b + [e], i, h) <==> Acquires(r, b, i, h) { PrefixStable(b, e, i); }
  }

  lemma HeldSnoc(b: Trace, e: Event<Call>, i: nat, h: nat)
    requires i <= |b|
    ensures HeldSince(b + [e], i, h) <==> i == |b| || (HeldSince(b, i, h) && !Closes(e.call, h))
  {
    var c := b + [e];
    assert c[|b|] == e;
    if i < |b| && HeldSince(c, i, h) {
      forall j | i < j < |b| ensures !Closes(b[j].call, h) { assert b[j] == c[j]; }
      assert !Closes(c[|b|].call, h);
    }
  }

  lemma TrackedBy(r: Rule, b: Trace, i: nat, h: nat)
    requires Acquires(r, b, i, h) && HeldSince(b, i, h)
    ensures Tracked(r, b, h)
  {
  }

  lemma Acquisition(r: Rule, b: Trace, h: nat) returns (i: nat)
    requires Tracked(r, b, h)
    ensures Acquires(r, b, i, h) && HeldSince(b, i, h)
  {
    i :| i < |b| && HeldSince(b, i, h) &&
      (AdmitsAs(r, b[i].call, h) || (CopiesTo(b[i].call, h) && Tracked(r, b[..i], b[i].call.source.n)));
  }

  /** What one event does to the set of tracked handles. */
  ghost predicate StaysTracked(r: Rule, b: Trace, e: Event<Call>, h: nat) {
    || AdmitsAs(r, e.call, h)
    || (CopiesTo(e.call, h) && Tracked(r, b, e.call.source.n))
    || (!Closes(e.call, h) && Tracked(r, b, h))
  }

  lemma TrackedSnoc(r: Rule, b: Trace, e: Event<Call>, h: nat)
    ensures Tracked(r, b + [e], h) <==> StaysTracked(r, b, e, h)
  {
    AcquiresSnoc(r, b, e, h);
    if Tracked(r, b + [e], h) {
      var i := Acquisition(r, b + [e], h);
      HeldSnoc(b, e, i, h);
      if i < |b| { TrackedBy(r, b, i, h); }
    }
    if StaysTracked(r, b, e, h) {
      var i := |b|;
      if !Acquires(r, b + [e], |b|, h) { i := Acquisition(r, b, h); }
      HeldSnoc(b, e, i, h);
      TrackedBy(r, b + [e], i, h);
    }
  }

  lemma NamesSnoc(r: Rule, b: Trace, e: Event<Call>, h: nat, name: string)
    ensures forall i: nat :: i < |b| ==> (Names(r, b + [e], i, h, name) <==> Names(r, b, i, h, name))
    ensures Names(r, b + [e], |b|, h, name) <==>
      || (AdmitsAs(r, e.call, h) && e.call.name == Some(name) && !Tracked(r, b, h))
      || (CopiesTo(e.call, h) && Named(r, b, e.call.source.n, name))
  {
    assert (b + [e])[..|b|] == b;
    forall i: nat | i < |b| ensures Names(r, b + [e], i, h, name) <==> Names(r, b, i, h, name) { PrefixStable(b, e, i); }
  }

  lemma UnnamesSnoc(r: Rule, b: Trace, e: Event<Call>, h: nat)
    ensures forall i: nat :: i < |b| ==> (Unnames(r, b + [e], i, h) <==> Unnames(r, b, i, h))
    ensures Unnames(r, b + [e], |b|, h) <==>
      Closes(e.call, h) || (CopiesTo(e.call, h) && Tracked(r, b, e.call.source.n))
  {
    assert (b + [e])[..|b|] == b;
    forall i: nat | i < |b| ensures Unnames(r, b + [e], i, h) <==> Unnames(r, b, i, h) { PrefixStable(b, e, i); }
  }

  lemma NameKeptSnoc(r: Rule, b: Trace, e: Event<Call>, i: nat, h: nat)
    requires i <= |b|
    ensures NameKept(r, b + [e], i, h) <==> i == |b| || (NameKept(r, b, i, h) && !Unnames(r, b + [e], |b|, h))
  {
    UnnamesSnoc(r, b, e, h);
    if i < |b| && NameKept(r, b + [e], i, h) {
      assert !Unnames(r, b + [e], |b|, h);
      forall j: nat | i < j < |b| ensures !Unnames(r, b, j, h) { assert !Unnames(r, b + [e], j, h); }
    }
  }

  lemma NamedBy(r: Rule, b: Trace, i: nat, h: nat, name: string)
    requires Names(r, b, i, h, name) && NameKept(r, b, i, h)
    ensures Named(r, b, h, name)
  {
  }

  lemma Naming(r: Rule, b: Trace, h: nat, name: string) returns (i: nat)
    requires Named(r, b, h, name)
    ensures Names(r, b, i, h, name) && NameKept(r, b, i, h)
  {
    i :| i < |b| && NameKept(r, b, i, h) &&
      ((AdmitsAs(r, b[i].call, h) && b[i].call.name == Some(name) && !Tracked(r, b[..i], h))
       || (CopiesTo(b[i].call, h) && Named(r, b[..i], b[i].call.source.n, name)));
  }

  lemma NamedSnoc(r: Rule, b: Trace, e: Event<Call>, h: nat, name: string)
    ensures Named(r, b + [e], h, name) <==>
      || Names(r, b + [e], |b|, h, name)
      || (!Unnames(r, b + [e], |b|, h) && Named(r, b, h, name))
  {
    NamesSnoc(r, b, e, h, name);
    if Named(r, b + [e], h, name) {
      var i := Naming(r, b + [e], h, name);
      NameKeptSnoc(r, b, e, i, h);
      if i < |b| { NamedBy(r, b, i, h, name); }
    }
    if Names(r, b + [e], |b|, h, name) {
      NameKeptSnoc(r, b, e, |b|, h);
      NamedBy(r, b + [e], |b|, h, name);
    } else if !Unnames(r, b + [e], |b|, h) && Named(r, b, h, name) {
      var i := Naming(r, b, h, name);
      NameKeptSnoc(r, b, e, i, h);
      NamedBy(r, b + [e], i, h, name);
    }
  }

  // ---- handle tables ----

  /** The table the block calls for: exactly the tracked handles, each with its name. */
  ghost predicate IsTable(r: Rule, b: Trace, m: map<nat, string>) {
    && (forall h :: h in m <==> Tracked(r, b, h))
    && (forall h, name :: Named(r, b, h, name) <==> h in m && m[h] == name)
  }

  /** The block determines the table. */
  lemma TableUnique(r: Rule, b: Trace, m: map<nat, string>, n: map<nat, string>)
    requires IsTable(r, b, m) && IsTable(r, b, n)
    ensures m == n
  {
    hide Tracked, Named;
    assert m.Keys == n.Keys;
    forall h | h in m ensures m[h] == n[h] { assert Named(r, b, h, m[h]); }
  }

  lemma TableEmpty(r: Rule)
    ensures IsTable(r, [], map[])
  {
  }

  /** The table update both signatures make for a call. */
  function Update(r: Rule, m: map<nat, string>, c: Call): map<nat, string> {
    if Copies(c) && c.source.n in m then m[c.target.n := m[c.source.n]]
    else if c.Close? && c.handle.Hex? then m - {c.handle.n}
    else if Admits(r, c) && c.handle.n !in m then m[c.handle.n := c.name.value]
    else m
  }

  lemma TableSnoc(r: Rule, b: Trace, e: Event<Call>, m: map<nat, string>)
    requires IsTable(r, b, m)
    ensures IsTable(r, b + [e], Update(r, m, e.call))
  {
    var n := Update(r, m, e.call);
    forall h ensures h in n <==> Tracked(r, b + [e], h) { TrackedSnoc(r, b, e, h); }
    forall h, name ensures Named(r, b + [e], h, name) <==> h in n && n[h] == name {
      NamedStep(r, b, e, m, h, name);
    }
  }

  lemma NamedStep(r: Rule, b: Trace, e: Event<Call>, m: map<nat, string>, h: nat, name: string)
    requires IsTable(r, b, m)
    ensures Named(r, b + [e], h, name) <==> h in Update(r, m, e.call) && Update(r, m, e.call)[h] == name
  {
    NamedSnoc(r, b, e, h, name);
    NamesSnoc(r, b, e, h, name);
    UnnamesSnoc(r, b, e, h);
  }

  /** Every name in a table is the name of an admitted open of the block, however many duplicates
      lie in between. */
  lemma {:induction false} NameComesFromOpen(r: Rule, b: Trace, h: nat, name: string) returns (i: nat)
    requires Named(r, b, h, name)
    ensures i < |b| && Admits(r, b[i].call) && b[i].call.name == Some(name)
    decreases |b|
  {
    i := Naming(r, b, h, name);
    if !Admits(r, b[i].call) {
      i := NameComesFromOpen(r, b[..i], b[i].call.source.n, name);
    }
  }

  // ---- the two rules compared ----

  /** A handle Bootkit tracks is also tracked by DiskInformation's weaker rule, even when the latter
      has looked at more of the same process's calls. */
  lemma {:induction false} WritableIsAnyDisk(a: Trace, b: Trace, h: nat)
    requires Tracked(Writable, b, h)
    ensures Tracked(AnyDisk, a + b, h)
    decreases |b|
  {
    if b != [] {
      var c, e := Front(b), Last(b);
      assert b == c + [e];
      assert a + b == (a + c) + [e];
      TrackedSnoc(Writable, c, e, h);
      TrackedSnoc(AnyDisk, a + c, e, h);
      if Copies(e.call) && Tracked(Writable, c, e.call.source.n) { WritableIsAnyDisk(a, c, e.call.source.n); }
      if Tracked(Writable, c, h) { WritableIsAnyDisk(a, c, h); }
    }
  }
}
