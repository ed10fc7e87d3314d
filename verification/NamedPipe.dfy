/** Named-pipe communication: which process reads or writes which pipe, collected so that the order in
    which the processes are replayed does not matter. */
module NamedPipe {
  import opened PyModel

  datatype Op = Reads | Writes

  datatype Call =
    | CreatePipe(status: bool, name: Option<string>)             // NtCreateNamedPipeFile
    | Transfer(status: bool, op: Op, handle: Option<string>)     // NtReadFile, NtWriteFile
    | Other

  type Trace = seq<Event<Call>>

  type Ipc = map<string, map<int, set<Op>>>

  const PREFIX := "\\Device\\NamedPipe\\"

  /** `s.split("\\")[-1]`. */
  function LastPart(s: string): string {
    if s == "" || Last(s) == '\\' then "" else LastPart(Front(s)) + [Last(s)]
  }

  lemma {:induction false} LastPartHasNoBackslash(s: string)
    ensures '\\' !in LastPart(s)
  {
    if s != "" && Last(s) != '\\' { LastPartHasNoBackslash(Front(s)); }
  }

  lemma {:induction false} LastPartAfter(p: string, x: string)
    requires p != "" && Last(p) == '\\' && '\\' !in x
    ensures LastPart(p + x) == x
  {
    if x == "" {
      assert p + x == p;
    } else {
      LastPartAfter(p, Front(x));
      assert Front(p + x) == p + Front(x);
    }
  }

  /** An entry of the report: the creator of a shared pipe, or one of its users. */
  datatype Entry = Creator(pid: int, pipe: string) | User(pid: int, ops: set<Op>, pipe: string)

  // ---- trace-level specification ----

  /** The call creates a pipe of this name. */
  predicate Creates(c: Call, name: string) {
    c.CreatePipe? && c.status && c.name.Some? && LastPart(c.name.value) == name && name != ""
  }

  /** The call reads or writes the pipe of this name. */
  predicate Uses(c: Call, name: string, op: Op) {
    c.Transfer? && c.status && c.op == op && c.handle == Some(PREFIX + name) && '\\' !in name
  }

  /** The call makes the name known, by creating the pipe or by using any handle under the prefix. */
  predicate Mentions(c: Call, name: string) {
    || Creates(c, name)
    || (c.Transfer? && c.status && c.handle.Some? && StartsWith(c.handle.value, PREFIX) && LastPart(c.handle.value) == name)
  }

  ghost predicate Created(t: Trace, name: string) { exists e :: e in t && Creates(e.call, name) }

  ghost predicate Mentioned(t: Trace, name: string) { exists e :: e in t && Mentions(e.call, name) }

  ghost predicate Used(t: Trace, name: string, pid: int, op: Op) {
    exists e :: e in t && e.proc.id == pid && Uses(e.call, name, op)
  }

  ghost predicate UsedBy(t: Trace, name: string, pid: int) { Used(t, name, pid, Reads) || Used(t, name, pid, Writes) }

  /** A pipe that was created in the trace and used by two different processes. */
  ghost predicate Shared(t: Trace, name: string) {
    Created(t, name) && exists p, q :: p != q && UsedBy(t, name, p) && UsedBy(t, name, q)
  }

  ghost function OpsOf(t: Trace, name: string, pid: int): set<Op> {
    set op | op in {Reads, Writes} && Used(t, name, pid, op)
  }

  /** What the report says: for each shared pipe the process that created it last, and each process
      that used it with everything it did. */
  ghost predicate IsEntry(t: Trace, x: Entry) {
    && Shared(t, x.pipe)
    && match x
       case Creator(pid, name) => IsCreator(t, name, pid)
       case User(pid, ops, name) => UsedBy(t, name, pid) && ops == OpsOf(t, name, pid)
  }

  ghost predicate Verdict(t: Trace) { exists name :: Shared(t, name) }

  // ---- the same in full ----

  /** The last part of a path is what follows its last backslash, or all of it. */
  lemma LastPartInFull(s: string, x: string)
    ensures LastPart(s) == x <==> '\\' !in x && (s == x || exists p :: s == p + "\\" + x)
  {
    hide LastPart;
    LastPartHasNoBackslash(s);
    if s != LastPart(s) { var p := BeforeLastPart(s); }
    if '\\' !in x {
      if p :| s == p + "\\" + x { LastPartAfter(p + "\\", x); }
      if s == x { LastPartWhole(x); }
    }
  }

  lemma LastPartWhole(x: string)
    requires '\\' !in x
    ensures LastPart(x) == x
  {
    hide LastPart;
    if x != LastPart(x) {
      var p := BeforeLastPart(x);
      HasBackslash(p, LastPart(x));
      assert false;
    }
  }

  lemma HasBackslash(p: string, r: string)
    ensures '\\' in p + "\\" + r
  {
    assert (p + "\\" + r)[|p|] == '\\';
  }

  lemma LastPartStep(s: string)
    ensures s == "" ==> LastPart(s) == ""
    ensures s != "" ==> LastPart(s) == if Last(s) == '\\' then "" else LastPart(Front(s)) + [Last(s)]
  {
  }

  lemma {:induction false} BeforeLastPart(s: string) returns (p: string)
    requires s != LastPart(s)
    ensures s == p + "\\" + LastPart(s)
  {
    hide LastPart;
    LastPartStep(s);
    var f := Front(s);
    assert s == f + [Last(s)];
    if Last(s) == '\\' {
      p := f;
    } else {
      p := BeforeLastPart(f);
    }
  }

  /** The call creates a pipe: successful, and the path given ends in its nonempty name. */
  lemma CreatesInFull(c: Call, name: string)
    ensures Creates(c, name) <==>
      && c.CreatePipe? && c.status && c.name.Some? && name != "" && '\\' !in name
      && (c.name.value == name || exists p :: c.name.value == p + "\\" + name)
  {
    if c.CreatePipe? && c.name.Some? { LastPartInFull(c.name.value, name); }
  }

  /** The call uses a pipe: a successful transfer on a handle that names it. */
  lemma UsesInFull(c: Call, name: string, op: Op)
    ensures Uses(c, name, op) <==> c == Transfer(true, op, Some("\\Device\\NamedPipe\\" + name)) && '\\' !in name
  {
  }

  predicate Transfers(c: Call, name: string) {
    || c == Transfer(true, Reads, Some("\\Device\\NamedPipe\\" + name))
    || c == Transfer(true, Writes, Some("\\Device\\NamedPipe\\" + name))
  }

  /** The verdict, call by call: a pipe is created, and two processes read it or write to it. */
  lemma VerdictInFull(t: Trace)
    ensures Verdict(t) <==>
      exists name: string, i: nat, j: nat, k: nat ::
        && i < |t| && j < |t| && k < |t|
        && Creates(t[i].call, name) && Transfers(t[j].call, name) && Transfers(t[k].call, name)
        && t[j].proc.id != t[k].proc.id
  {
    hide Creates, Transfers, UsedBy;
    if name :| Shared(t, name) {
      var p, q :| p != q && UsedBy(t, name, p) && UsedBy(t, name, q);
      var i := CreationAt(t, name);
      var j := UseAt(t, name, p);
      var k := UseAt(t, name, q);
      assert Creates(t[i].call, name) && Transfers(t[j].call, name) && Transfers(t[k].call, name);
    }
    if name: string, i: nat, j: nat, k: nat :|
      && i < |t| && j < |t| && k < |t|
      && Creates(t[i].call, name) && Transfers(t[j].call, name) && Transfers(t[k].call, name)
      && t[j].proc.id != t[k].proc.id
    {
      CreatesPlain(t[i].call, name);
      UsedAt(t, name, j);
      UsedAt(t, name, k);
      assert t[i] in t;
      assert Shared(t, name);
    }
  }

  lemma CreatesPlain(c: Call, name: string)
    requires Creates(c, name)
    ensures '\\' !in name
  {
    LastPartHasNoBackslash(c.name.value);
  }

  lemma CreationAt(t: Trace, name: string) returns (i: nat)
    requires Created(t, name)
    ensures i < |t| && Creates(t[i].call, name)
  {
    var e :| e in t && Creates(e.call, name);
    i :| i < |t| && t[i] == e;
  }

  lemma UseAt(t: Trace, name: string, pid: int) returns (i: nat)
    requires UsedBy(t, name, pid)
    ensures i < |t| && t[i].proc.id == pid && Transfers(t[i].call, name)
  {
    var op := if Used(t, name, pid, Reads) then Reads else Writes;
    var e :| e in t && e.proc.id == pid && Uses(e.call, name, op);
    i :| i < |t| && t[i] == e;
    UsesInFull(e.call, name, op);
  }

  lemma UsedAt(t: Trace, name: string, i: nat)
    requires i < |t| && '\\' !in name && Transfers(t[i].call, name)
    ensures UsedBy(t, name, t[i].proc.id)
  {
    UsesInFull(t[i].call, name, t[i].call.op);
    assert t[i] in t;
    assert Used(t, name, t[i].proc.id, t[i].call.op);
  }

  // ---- the tables ----

  /** What the trace says about one pipe: who used it, and how. */
  ghost predicate IsRow(t: Trace, name: string, row: map<int, set<Op>>) {
    && (forall pid :: pid in row <==> UsedBy(t, name, pid))
    && (forall pid, op :: pid in row ==> (op in row[pid] <==> Used(t, name, pid, op)))
  }

  /** The table has a row for exactly the used pipes. */
  ghost predicate IsIpc(t: Trace, ipc: Ipc) {
    && (forall name :: name in ipc <==> exists pid :: UsedBy(t, name, pid))
    && (forall name :: name in ipc ==> IsRow(t, name, ipc[name]))
  }

  ghost predicate IsCreated(t: Trace, created: map<string, int>) {
    && (forall name :: name in created <==> Created(t, name))
    && (forall name :: name in created ==> IsCreator(t, name, created[name]))
  }

  /** The process of the latest creation of the pipe. */
  ghost predicate IsCreator(t: Trace, name: string, pid: int) {
    exists i :: 0 <= i < |t| && Creates(t[i].call, name) && t[i].proc.id == pid
                && forall j :: i < j < |t| ==> !Creates(t[j].call, name)
  }

  ghost predicate ArePipeNames(t: Trace, names: set<string>) {
    forall name :: name in names <==> Mentioned(t, name)
  }

  // ---- order does not matter ----

  lemma SameRow(t: Trace, u: Trace, name: string, m: map<int, set<Op>>, n: map<int, set<Op>>)
    requires forall e :: e in t <==> e in u
    requires IsRow(t, name, m) && IsRow(u, name, n)
    ensures m == n
  {
    forall pid, op ensures Used(t, name, pid, op) <==> Used(u, name, pid, op) {}
    forall pid | pid in m ensures pid in n && m[pid] == n[pid] {
      assert UsedBy(u, name, pid);
      assert forall op :: op in m[pid] <==> op in n[pid];
    }
    forall pid | pid in n ensures pid in m { assert UsedBy(t, name, pid); }
  }

  /** The table is a function of the set of events: any order, and any repetition, gives the same. */
  lemma IpcOrderFree(t: Trace, u: Trace, m: Ipc, n: Ipc)
    requires forall e :: e in t <==> e in u
    requires IsIpc(t, m) && IsIpc(u, n)
    ensures m == n
  {
    forall name, pid ensures UsedBy(t, name, pid) <==> UsedBy(u, name, pid) {
      forall op ensures Used(t, name, pid, op) <==> Used(u, name, pid, op) {}
    }
    hide UsedBy, IsRow;
    forall name | name in m && name in n ensures m[name] == n[name] { SameRow(t, u, name, m[name], n[name]); }
  }

  lemma VerdictOrderFree(t: Trace, u: Trace)
    requires multiset(t) == multiset(u)
    ensures Verdict(t) <==> Verdict(u)
  {
    assert forall e :: e in t <==> e in multiset(t);
    assert forall e :: e in u <==> e in multiset(u);
    assert forall name, pid, op :: Used(t, name, pid, op) <==> Used(u, name, pid, op);
    assert forall name :: Created(t, name) <==> Created(u, name);
    assert forall name, pid :: UsedBy(t, name, pid) <==> UsedBy(u, name, pid);
    forall name ensures Shared(t, name) <==> Shared(u, name) {}
  }

  /** Every creation of the pipe was made by this process. */
  ghost predicate OnlyCreator(t: Trace, name: string, pid: int) {
    forall e :: e in t && Creates(e.call, name) ==> e.proc.id == pid
  }

  /** What is reported as the creator does depend on the order: it is the same in every order exactly
      when no other process created the pipe as well. */
  lemma CreatorOrderFree(t: Trace, name: string, pid: int)
    requires IsCreator(t, name, pid)
    ensures OnlyCreator(t, name, pid) <==> forall u :: multiset(u) == multiset(t) ==> IsCreator(u, name, pid)
  {
    if OnlyCreator(t, name, pid) {
      forall u | multiset(u) == multiset(t) ensures IsCreator(u, name, pid) {
        OnlyCreatorAnyOrder(t, u, name, pid);
      }
    } else {
      var i :| 0 <= i < |t| && Creates(t[i].call, name) && t[i].proc.id != pid;
      var u := LastCreatorMoved(t, i, name);
      if IsCreator(u, name, pid) { CreatorUnique(u, name, pid, t[i].proc.id); }
    }
  }

  lemma OnlyCreatorAnyOrder(t: Trace, u: Trace, name: string, pid: int)
    requires IsCreator(t, name, pid) && OnlyCreator(t, name, pid) && multiset(u) == multiset(t)
    ensures IsCreator(u, name, pid)
  {
    var i :| 0 <= i < |t| && Creates(t[i].call, name);
    assert t[i] in multiset(u);
    var p := CreatorExists(u, name);
    var j :| 0 <= j < |u| && Creates(u[j].call, name) && u[j].proc.id == p;
    assert u[j] in multiset(t);
  }

  /** Replaying a creation last makes its process the creator. */
  lemma LastCreatorMoved(t: Trace, i: nat, name: string) returns (u: Trace)
    requires i < |t| && Creates(t[i].call, name)
    ensures multiset(u) == multiset(t) && IsCreator(u, name, t[i].proc.id)
  {
    var rest := t[..i] + t[i + 1..];
    u := rest + [t[i]];
    assert t == t[..i] + [t[i]] + t[i + 1..];
    CreatorSnoc(rest, t[i], name, t[i].proc.id);
  }

  // ---- one more event ----

  lemma InSnoc(t: Trace, e: Event<Call>)
    ensures forall f :: f in t + [e] <==> f in t || f == e
  {
  }

  lemma UsedSnoc(t: Trace, e: Event<Call>)
    ensures forall name, pid, op :: Used(t + [e], name, pid, op) <==>
      Used(t, name, pid, op) || (e.proc.id == pid && Uses(e.call, name, op))
  {
    InSnoc(t, e);
  }

  lemma NamesSnoc(t: Trace, e: Event<Call>)
    ensures forall name :: Mentioned(t + [e], name) <==> Mentioned(t, name) || Mentions(e.call, name)
    ensures forall name :: Created(t + [e], name) <==> Created(t, name) || Creates(e.call, name)
  {
    InSnoc(t, e);
  }

  lemma CreatorSnoc(t: Trace, e: Event<Call>, name: string, pid: int)
    requires if Creates(e.call, name) then pid == e.proc.id else IsCreator(t, name, pid)
    ensures IsCreator(t + [e], name, pid)
  {
    var u := t + [e];
    if Creates(e.call, name) {
      assert Creates(u[|t|].call, name);
    } else {
      var i :| 0 <= i < |t| && Creates(t[i].call, name) && t[i].proc.id == pid
               && forall j :: i < j < |t| ==> !Creates(t[j].call, name);
      assert Creates(u[i].call, name);
    }
  }

  lemma CreatedSnoc(t: Trace, e: Event<Call>, created: map<string, int>)
    requires IsCreated(t, created) && e.call.CreatePipe? && e.call.status && e.call.name.Some?
    ensures var name := LastPart(e.call.name.value);
      IsCreated(t + [e], if name != "" then created[name := e.proc.id] else created)
  {
    var name := LastPart(e.call.name.value);
    var now := if name != "" then created[name := e.proc.id] else created;
    NamesSnoc(t, e);
    forall n | n in now ensures IsCreator(t + [e], n, now[n]) { CreatorSnoc(t, e, n, now[n]); }
  }

  lemma CreatedKept(t: Trace, e: Event<Call>, created: map<string, int>)
    requires IsCreated(t, created) && forall name :: !Creates(e.call, name)
    ensures IsCreated(t + [e], created)
  {
    NamesSnoc(t, e);
    forall n | n in created ensures IsCreator(t + [e], n, created[n]) { CreatorSnoc(t, e, n, created[n]); }
  }

  function WithUse(ipc: Ipc, name: string, pid: int, op: Op): Ipc {
    ipc[name := WithUser(if name in ipc then ipc[name] else map[], pid, op)]
  }

  function WithUser(row: map<int, set<Op>>, pid: int, op: Op): map<int, set<Op>> {
    row[pid := (if pid in row then row[pid] else {}) + {op}]
  }

  lemma UsedBySnoc(t: Trace, e: Event<Call>, name: string, pid: int)
    ensures UsedBy(t + [e], name, pid) <==>
      UsedBy(t, name, pid) || (e.proc.id == pid && (Uses(e.call, name, Reads) || Uses(e.call, name, Writes)))
  {
    UsedSnoc(t, e);
  }

  lemma RowSnoc(t: Trace, e: Event<Call>, name: string, row: map<int, set<Op>>)
    requires IsRow(t, name, row) && e.call.Transfer? && Uses(e.call, name, e.call.op)
    ensures IsRow(t + [e], name, WithUser(row, e.proc.id, e.call.op))
  {
    UsedSnoc(t, e);
    forall pid { UsedBySnoc(t, e, name, pid); }
  }

  lemma RowKept(t: Trace, e: Event<Call>, name: string, row: map<int, set<Op>>)
    requires IsRow(t, name, row) && forall op :: !Uses(e.call, name, op)
    ensures IsRow(t + [e], name, row)
  {
    UsedSnoc(t, e);
    forall pid { UsedBySnoc(t, e, name, pid); }
  }

  lemma UsesOne(t: Trace, e: Event<Call>, name: string)
    requires e.call.Transfer? && Uses(e.call, name, e.call.op)
    ensures forall n, op :: Uses(e.call, n, op) ==> n == name
    ensures forall n, pid :: UsedBy(t + [e], n, pid) <==> UsedBy(t, n, pid) || (n == name && pid == e.proc.id)
  {
    forall n, op | Uses(e.call, n, op) ensures n == name {
      assert (PREFIX + n)[|PREFIX|..] == n && (PREFIX + name)[|PREFIX|..] == name;
    }
    forall n, pid { UsedBySnoc(t, e, n, pid); }
  }

  lemma IpcSnoc(t: Trace, e: Event<Call>, ipc: Ipc, name: string)
    requires IsIpc(t, ipc) && e.call.Transfer? && Uses(e.call, name, e.call.op)
    ensures IsIpc(t + [e], WithUse(ipc, name, e.proc.id, e.call.op))
  {
    hide Uses, IsRow, UsedBy;
    var now := WithUse(ipc, name, e.proc.id, e.call.op);
    UsesOne(t, e, name);
    assert UsedBy(t + [e], name, e.proc.id);
    if name !in ipc { RowEmpty(t, name); }
    RowSnoc(t, e, name, if name in ipc then ipc[name] else map[]);
    forall n | n in ipc && n != name ensures IsRow(t + [e], n, now[n]) { RowKept(t, e, n, ipc[n]); }
  }

  lemma RowEmpty(t: Trace, name: string)
    requires forall pid :: !UsedBy(t, name, pid)
    ensures IsRow(t, name, map[])
  {
  }

  lemma IpcKept(t: Trace, e: Event<Call>, ipc: Ipc)
    requires IsIpc(t, ipc) && forall name, op :: !Uses(e.call, name, op)
    ensures IsIpc(t + [e], ipc)
  {
    forall n, pid { UsedBySnoc(t, e, n, pid); }
    hide IsRow, UsedBy, Uses;
    forall n | n in ipc ensures IsRow(t + [e], n, ipc[n]) { RowKept(t, e, n, ipc[n]); }
  }

  /** A read or write updates at most one pipe, and its name is already among the known names when
      the loop looks for it. */
  lemma UseIsKnown(t: Trace, e: Event<Call>, name: string, op: Op)
    requires Uses(e.call, name, op)
    ensures Mentioned(t + [e], name) && LastPart(PREFIX + name) == name
  {
    LastPartAfter(PREFIX, name);
    InSnoc(t, e);
    assert (PREFIX + name)[..|PREFIX|] == PREFIX;
    assert e in t + [e] && Mentions(e.call, name);
  }

  lemma MentionedHasNoBackslash(t: Trace, name: string)
    requires Mentioned(t, name)
    ensures '\\' !in name
  {
    var e :| e in t && Mentions(e.call, name);
    if e.call.CreatePipe? {
      LastPartHasNoBackslash(e.call.name.value);
    } else {
      LastPartHasNoBackslash(e.call.handle.value);
    }
  }

  // ---- the signature ----

  class IpcNamedPipe {
    var created: map<string, int>
    var ipc: Ipc
    var pipeNames: set<string>
    ghost var history: Trace

    ghost predicate Valid()
      reads this
    {
      && IsCreated(history, created)
      && IsIpc(history, ipc)
      && ArePipeNames(history, pipeNames)
    }

    constructor ()
      ensures Valid() && history == []
    {
      created, ipc, pipeNames, history := map[], map[], {}, [];
    }

    method OnCreate(e: Event<Call>) returns (v: Verdict)
      requires Valid() && e.call.CreatePipe?
      modifies this
      ensures Valid() && history == old(history) + [e] && !v.Matched?
    {
      hide IsCreated, IsIpc, Mentioned, LastPart;
      v := Streaming;
      NamesSnoc(history, e);
      IpcKept(history, e, ipc);
      if e.call.status && e.call.name.Some? {
        CreatedSnoc(history, e, created);
        var name := LastPart(e.call.name.value);
        if name != "" {
          pipeNames := pipeNames + {name};
          created := created[name := e.proc.id];
        }
      } else {
        CreatedKept(history, e, created);
        if e.call.status { v := Rejected; }
      }
      history := history + [e];
    }

    /** The loop over the known names. */
    method Record(handle: string, pid: int, op: Op)
      modifies `ipc
      ensures (exists name :: name in pipeNames && handle == PREFIX + name) ==>
        exists name :: name in pipeNames && handle == PREFIX + name && ipc == WithUse(old(ipc), name, pid, op)
      ensures !(exists name :: name in pipeNames && handle == PREFIX + name) ==> ipc == old(ipc)
    {
      var rest := pipeNames;
      ghost var hit: Option<string> := None;
      while rest != {}
        invariant rest <= pipeNames
        invariant hit.None? ==> ipc == old(ipc) && forall name :: name in pipeNames - rest ==> handle != PREFIX + name
        invariant hit.Some? ==> hit.value in pipeNames - rest && handle == PREFIX + hit.value
        invariant hit.Some? ==> ipc == WithUse(old(ipc), hit.value, pid, op)
        decreases rest
      {
        var name :| name in rest;
        rest := rest - {name};
        if handle == PREFIX + name {
          if hit.Some? {
            SameName(handle, name, hit.value);
            assert false;
          }
          hit := Some(name);
          AddUse(name, pid, op);
        }
      }
    }

    method AddUse(name: string, pid: int, op: Op)
      modifies `ipc
      ensures ipc == WithUse(old(ipc), name, pid, op)
    {
      if name !in ipc { ipc := ipc[name := map[]]; }
      if pid !in ipc[name] { ipc := ipc[name := ipc[name][pid := {}]]; }
      ipc := ipc[name := ipc[name][pid := ipc[name][pid] + {op}]];
      ghost var goal := WithUse(old(ipc), name, pid, op);
      assert ipc[name][pid] == goal[name][pid];
      assert ipc[name] == goal[name];
    }

    method OnTransfer(e: Event<Call>) returns (v: Verdict)
      requires Valid() && e.call.Transfer?
      modifies this
      ensures Valid() && history == old(history) + [e] && !v.Matched?
    {
      hide IsCreated, IsIpc, Mentioned, LastPart, WithUse;
      v := Streaming;
      NamesSnoc(history, e);
      CreatedKept(history, e, created);
      if e.call.status && e.call.handle.Some? {
        var handle := e.call.handle.value;
        if StartsWith(handle, PREFIX) { pipeNames := pipeNames + {LastPart(handle)}; }
        assert ArePipeNames(history + [e], pipeNames);
        KnownIsUse(history, e, pipeNames);
        if name: string :| name in pipeNames && handle == PREFIX + name {
          ghost var n := name;
          IpcSnoc(history, e, ipc, n);
          Record(handle, e.proc.id, e.call.op);
          forall m | m in pipeNames && handle == PREFIX + m ensures m == n { SameName(handle, m, n); }
        } else {
          IpcKept(history, e, ipc);
          Record(handle, e.proc.id, e.call.op);
        }
      } else {
        IpcKept(history, e, ipc);
        if e.call.status { v := Rejected; }
      }
      history := history + [e];
    }

    method OnCall(e: Event<Call>) returns (v: Verdict)
      requires Valid()
      modifies this
      ensures Valid() && history == old(history) + [e] && !v.Matched?
    {
      match e.call {
        case CreatePipe(_, _) => v := OnCreate(e);
        case Transfer(_, _, _) => v := OnTransfer(e);
        case Other =>
          NamesSnoc(history, e);
          IpcKept(history, e, ipc);
          CreatedKept(history, e, created);
          history := history + [e];
          v := Streaming;
      }
    }

    /** The entries for one shared pipe. */
    method ReportUsers(name: string, before: set<Entry>) returns (data: set<Entry>)
      requires name in created && name in ipc
      ensures forall x :: x in data <==> x in before || EntryFor(created, ipc, name, x)
    {
      data := before + {Creator(created[name], name)};
      var rest := ipc[name].Keys;
      while rest != {}
        invariant rest <= ipc[name].Keys
        invariant forall x :: x in data <==> x in before || (EntryFor(created, ipc, name, x) && (x.User? ==> x.pid !in rest))
        decreases rest
      {
        var pid := Pick(rest);
        rest := rest - {pid};
        data := data + {User(pid, ipc[name][pid], name)};
      }
    }

    /** Every created pipe with more than one user is reported, with its creator and all its users. */
    method OnComplete() returns (matched: bool, data: set<Entry>)
      requires Valid()
      ensures forall x :: x in data <==> IsEntry(history, x)
      ensures matched <==> data != {}
    {
      hide IsCreated, IsIpc, ArePipeNames, IsEntry;
      matched, data := false, {};
      var rest := created.Keys;
      while rest != {}
        invariant rest <= created.Keys
        invariant forall x :: x in data <==> x.pipe !in rest && Listed(created, ipc, x)
        invariant matched <==> data != {}
        decreases rest
      {
        var name :| name in rest;
        rest := rest - {name};
        if name in ipc && |ipc[name]| > 1 {
          matched := true;
          data := ReportUsers(name, data);
          assert Creator(created[name], name) in data;
        }
      }
      forall x ensures x in data <==> IsEntry(history, x) {
        ListedIsEntry(history, created, ipc, x);
      }
    }
  }

  /** The entry belongs to the report on this pipe. */
  predicate EntryFor(created: map<string, int>, ipc: Ipc, name: string, x: Entry)
    requires name in created && name in ipc
  {
    && x.pipe == name
    && match x
       case Creator(pid, _) => pid == created[name]
       case User(pid, ops, _) => pid in ipc[name] && ops == ipc[name][pid]
  }

  ghost predicate Listed(created: map<string, int>, ipc: Ipc, x: Entry) {
    && x.pipe in created && x.pipe in ipc && |ipc[x.pipe]| > 1
    && EntryFor(created, ipc, x.pipe, x)
  }

  /** Two tables that describe the same trace list the same entries, namely the trace's own. */
  lemma ListedIsEntry(t: Trace, created: map<string, int>, ipc: Ipc, x: Entry)
    requires IsCreated(t, created) && IsIpc(t, ipc)
    ensures Listed(created, ipc, x) <==> IsEntry(t, x)
  {
    hide Shared, UsedBy, Used;
    SharedByTables(t, created, ipc, x.pipe);
    if x.pipe in created && x.pipe in ipc {
      match x {
        case Creator(pid, name) =>
          if IsCreator(t, name, pid) { CreatorUnique(t, name, pid, created[name]); }
        case User(pid, ops, name) =>
          if pid in ipc[name] { RowOps(t, name, ipc[name], pid); }
      }
    }
  }

  lemma RowOps(t: Trace, name: string, row: map<int, set<Op>>, pid: int)
    requires IsRow(t, name, row) && pid in row
    ensures row[pid] == OpsOf(t, name, pid)
  {
    hide Used;
    forall op: Op ensures op in row[pid] <==> op in OpsOf(t, name, pid) {
      assert op == Reads || op == Writes;
    }
  }

  method Pick<T>(s: set<T>) returns (x: T)
    requires s != {}
    ensures x in s
  {
    x :| x in s;
  }

  lemma CreatorUnique(t: Trace, name: string, p: int, q: int)
    requires IsCreator(t, name, p) && IsCreator(t, name, q)
    ensures p == q
  {
  }

  /** Counting the users of a created pipe in the table decides whether it is shared. */
  lemma SharedByTables(t: Trace, created: map<string, int>, ipc: Ipc, name: string)
    requires IsCreated(t, created) && IsIpc(t, ipc)
    ensures name in created && name in ipc && |ipc[name]| > 1 <==> Shared(t, name)
  {
    if name in created && name in ipc && |ipc[name]| > 1 {
      var p, q := TwoUsers(ipc[name].Keys);
      assert UsedBy(t, name, p) && UsedBy(t, name, q);
    }
    if Shared(t, name) {
      var p, q :| p != q && UsedBy(t, name, p) && UsedBy(t, name, q);
      MoreThanOne(ipc[name].Keys, p, q);
    }
  }

  lemma TwoUsers<T>(pids: set<T>) returns (p: T, q: T)
    requires |pids| > 1
    ensures p != q && p in pids && q in pids
  {
    p :| p in pids;
    assert |pids - {p}| == |pids| - 1;
    q :| q in pids - {p};
  }

  lemma MoreThanOne<T>(pids: set<T>, p: T, q: T)
    requires p != q && p in pids && q in pids
    ensures |pids| > 1
  {
    assert |pids - {p}| == |pids| - 1;
    assert q in pids - {p};
  }

  /** The whole run: it matches exactly when some created pipe was used by two processes. */
  method Evaluate(t: Trace) returns (matched: bool, data: set<Entry>)
    ensures matched <==> Verdict(t)
    ensures forall x :: x in data <==> IsEntry(t, x)
  {
    var sig := new IpcNamedPipe();
    for i := 0 to |t|
      invariant sig.Valid() && sig.history == t[..i] && fresh(sig)
    {
      var v := sig.OnCall(t[i]);
    }
    assert t[..|t|] == t;
    matched, data := sig.OnComplete();
    EntriesIffVerdict(t, data);
  }

  lemma EntriesIffVerdict(t: Trace, data: set<Entry>)
    requires forall x :: x in data <==> IsEntry(t, x)
    ensures data != {} <==> Verdict(t)
  {
    hide UsedBy, Used;
    if name :| Shared(t, name) {
      var pid := CreatorExists(t, name);
      assert Creator(pid, name) in data;
    }
    if x :| x in data { assert IsEntry(t, x); }
  }

  lemma {:induction false} CreatorExists(t: Trace, name: string) returns (pid: int)
    requires Created(t, name)
    ensures IsCreator(t, name, pid)
  {
    var f, e := Front(t), Last(t);
    assert f + [e] == t;
    if Creates(e.call, name) {
      pid := e.proc.id;
    } else {
      pid := CreatorExists(f, name);
    }
    CreatorSnoc(f, e, name, pid);
  }

  lemma SameName(handle: string, m: string, n: string)
    requires handle == PREFIX + m && handle == PREFIX + n
    ensures m == n
  {
    assert handle[|PREFIX|..] == m && handle[|PREFIX|..] == n;
  }

  /** Among the known names, the handle's pipe is found exactly when the call uses a pipe. */
  lemma KnownIsUse(t: Trace, e: Event<Call>, names: set<string>)
    requires e.call.Transfer? && e.call.status && e.call.handle.Some?
    requires ArePipeNames(t + [e], names)
    ensures forall name, op :: Uses(e.call, name, op) ==> op == e.call.op && name in names && e.call.handle.value == PREFIX + name
    ensures forall name :: name in names && e.call.handle.value == PREFIX + name ==> Uses(e.call, name, e.call.op)
  {
    forall name, op | Uses(e.call, name, op) ensures name in names { UseIsKnown(t, e, name, op); }
    forall name | name in names && e.call.handle.value == PREFIX + name ensures Uses(e.call, name, e.call.op) {
      MentionedHasNoBackslash(t + [e], name);
    }
  }
}
