/** File handles in one block of a trace: which opens create a record, which records are live or
    retired, what times each record carries, and which of them a changed file mimics. */
module FileTimes {
  import opened PyModel
  import opened Traces

  const BASIC_FILE_INFORMATION := 4

  datatype Times = Times(create: nat, access: nat, write: nat, change: nat) {
    /** `set_file_times`: a zero leaves the old value. */
    function Apply(t: Times): Times {
      Times(if t.create != 0 then t.create else create,
            if t.access != 0 then t.access else access,
            if t.write != 0 then t.write else write,
            if t.change != 0 then t.change else change)
    }

    /** The time test of `check_file_times`; access times do not count. */
    predicate Shares(t: Times) {
      || (create != 0 && create == t.create)
      || (write != 0 && write == t.write)
      || (change != 0 && change == t.change)
    }
  }

  const NO_TIMES := Times(0, 0, 0, 0)

  /** Numeric arguments are None when they do not parse, `name` is None when there is no FileName, and
      `times` is None when the buffer does not hold four times. */
  datatype Call =
    | Open(status: bool, handle: Option<int>, name: Option<string>)              // NtOpenFile, NtCreateFile
    | Close(handle: Option<int>)                                                 // NtClose
    | Query(handle: Option<int>, kind: Option<int>, times: Option<Times>)        // NtQueryInformationFile
    | Set(handle: Option<int>, kind: Option<int>, times: Option<Times>)          // NtSetInformationFile
    | Other

  type Trace = seq<Event<Call>>

  /** What a search for a system file with the same times comes to: a file without a name raises. */
  datatype Search = NotFound | Raised | Found(source: string)

  predicate IsWindowsPrefix(s: string) { StartsWith(s, ":\\windows\\") }

  /** A path under a drive's Windows directory, or in a system directory. */
  predicate IsSystemPath(name: string) {
    var s := Lower(name);
    || IsWindowsPrefix(s)
    || (s != "" && 'a' <= s[0] <= 'z' && IsWindowsPrefix(s[1..]))
    || Contains(s, "\\system32\\")
    || Contains(s, "\\syswow64\\")
  }

  predicate IsExempt(name: string) {
    Lower(name) == "c:\\program files\\internet explorer\\iexplore.exe"
  }

  // ---- records ----

  predicate Opens(c: Call, h: int) { c.Open? && c.status && c.handle == Some(h) }

  predicate Closes(c: Call, h: int) { c == Close(Some(h)) }

  predicate Applies(c: Call, h: int) {
    (c.Query? || c.Set?) && c.handle == Some(h) && c.kind == Some(BASIC_FILE_INFORMATION) && c.times.Some?
  }

  ghost predicate ClosedBetween(b: Trace, i: int, j: int, h: int) {
    exists k :: 0 <= k && i < k < j && k < |b| && Closes(b[k].call, h)
  }

  /** Event i creates a record: it opens a handle that every earlier open of the block has been closed
      for. */
  ghost predicate Opened(b: Trace, i: nat) {
    && i < |b| && b[i].call.Open? && b[i].call.status && b[i].call.handle.Some?
    && forall j: nat :: j < i && Opens(b[j].call, b[i].call.handle.value) ==> ClosedBetween(b, j, i, b[i].call.handle.value)
  }

  ghost function HandleOf(b: Trace, i: nat): int
    requires Opened(b, i)
  {
    b[i].call.handle.value
  }

  ghost predicate Live(b: Trace, i: nat) {
    Opened(b, i) && !ClosedBetween(b, i, |b|, HandleOf(b, i))
  }

  ghost predicate Retired(b: Trace, i: nat) {
    Opened(b, i) && ClosedBetween(b, i, |b|, HandleOf(b, i))
  }

  ghost predicate LiveAs(b: Trace, i: nat, h: int) { Live(b, i) && HandleOf(b, i) == h }

  lemma ClosedSplit(b: Trace, i: nat, j: nat, h: int)
    requires j < |b| && !Closes(b[j].call, h)
    ensures i < j ==> (ClosedBetween(b, i, |b|, h) <==> ClosedBetween(b, i, j, h) || ClosedBetween(b, j, |b|, h))
  {
    if i < j {
      if k :| 0 <= k && i < k < j && k < |b| && Closes(b[k].call, h) { assert ClosedBetween(b, i, |b|, h); }
      if k :| 0 <= k && j < k < |b| && Closes(b[k].call, h) { assert ClosedBetween(b, i, |b|, h); }
      if k :| 0 <= k && i < k < |b| && Closes(b[k].call, h) {
        assert if k < j then ClosedBetween(b, i, j, h) else ClosedBetween(b, j, |b|, h);
      }
    }
  }

  /** At most one live record has a given handle. */
  lemma LiveUnique(b: Trace, i: nat, j: nat, h: int)
    requires LiveAs(b, i, h) && LiveAs(b, j, h)
    ensures i == j
  {
    ClosedSplit(b, i, j, h);
    ClosedSplit(b, j, i, h);
  }

  /** An open without a later close leaves the handle live, through itself or an earlier open. */
  lemma {:induction false} OpenLeavesLive(b: Trace, j: nat, h: int) returns (i: nat)
    requires j < |b| && Opens(b[j].call, h) && !ClosedBetween(b, j, |b|, h)
    ensures LiveAs(b, i, h)
  {
    if Opened(b, j) {
      i := j;
    } else {
      var k: nat :| k < j && Opens(b[k].call, h) && !ClosedBetween(b, k, j, h);
      ClosedSplit(b, k, j, h);
      i := OpenLeavesLive(b, k, h);
    }
  }

  // ---- records after one more event ----

  lemma ClosedBetweenSnoc(b: Trace, e: Event<Call>, i: nat, j: nat, h: int)
    requires i < |b|
    ensures j <= |b| ==> (ClosedBetween(b + [e], i, j, h) <==> ClosedBetween(b, i, j, h))
    ensures ClosedBetween(b + [e], i, |b| + 1, h) <==> ClosedBetween(b, i, |b|, h) || Closes(e.call, h)
  {
    var c := b + [e];
    if k :| 0 <= k && i < k < j && k < |b| && Closes(b[k].call, h) { assert Closes(c[k].call, h); }
    if k :| 0 <= k && i < k < |b| && Closes(b[k].call, h) { assert Closes(c[k].call, h); }
    if Closes(e.call, h) { assert Closes(c[|b|].call, h); }
  }

  lemma OpenedSnoc(b: Trace, e: Event<Call>, i: nat)
    requires i < |b|
    ensures Opened(b + [e], i) <==> Opened(b, i)
    ensures Opened(b, i) ==> HandleOf(b + [e], i) == HandleOf(b, i)
    ensures Live(b + [e], i) <==> Live(b, i) && !Closes(e.call, HandleOf(b, i))
    ensures Retired(b + [e], i) <==> Retired(b, i) || (Live(b, i) && Closes(e.call, HandleOf(b, i)))
  {
    var c := b + [e];
    assert c[i] == b[i];
    if b[i].call.Open? && b[i].call.handle.Some? {
      var h := b[i].call.handle.value;
      forall j: nat | j < i ensures c[j] == b[j] && (ClosedBetween(c, j, i, h) <==> ClosedBetween(b, j, i, h)) {
        ClosedBetweenSnoc(b, e, j, i, h);
      }
      ClosedBetweenSnoc(b, e, i, |b|, h);
    }
  }

  lemma OpenedNew(b: Trace, e: Event<Call>)
    ensures Opened(b + [e], |b|) <==>
      && e.call.Open? && e.call.status && e.call.handle.Some?
      && forall i: nat :: !LiveAs(b, i, e.call.handle.value)
    ensures Opened(b + [e], |b|) ==> Live(b + [e], |b|)
  {
    var c := b + [e];
    assert c[|b|] == e;
    if e.call.Open? && e.call.status && e.call.handle.Some? {
      var h := e.call.handle.value;
      forall j: nat | j < |b| ensures c[j] == b[j] && (ClosedBetween(c, j, |b|, h) <==> ClosedBetween(b, j, |b|, h)) {
        ClosedBetweenSnoc(b, e, j, |b|, h);
      }
      if i: nat :| LiveAs(b, i, h) { assert Opens(c[i].call, h); }
      if j: nat :| j < |b| && Opens(b[j].call, h) && !ClosedBetween(b, j, |b|, h) {
        var i := OpenLeavesLive(b, j, h);
      }
    }
  }

  // ---- the order of records ----

  /** Live records in the order they were created, which is the order of the dictionary. */
  ghost function LiveFrom(b: Trace, i: nat): seq<nat>
    decreases |b| - i
  {
    if i >= |b| then [] else if Live(b, i) then [i] + LiveFrom(b, i + 1) else LiveFrom(b, i + 1)
  }

  ghost function LiveList(b: Trace): seq<nat> { LiveFrom(b, 0) }

  /** The record a closing event retires. */
  ghost predicate Retires(b: Trace, i: nat, c: Call) {
    Live(b, i) && Closes(c, HandleOf(b, i))
  }

  ghost function RetiredBy(b: Trace, c: Call): Option<nat> {
    if i: nat :| Retires(b, i, c) then Some(i) else None
  }

  /** Retired records in the order of their closes. */
  ghost function RetiredList(b: Trace): seq<nat> {
    if b == [] then []
    else match RetiredBy(Front(b), Last(b).call)
         case Some(i) => RetiredList(Front(b)) + [i]
         case None => RetiredList(Front(b))
  }

  lemma RetiredByMeaning(b: Trace, c: Call, i: nat)
    ensures RetiredBy(b, c) == Some(i) <==> Retires(b, i, c)
  {
    if Retires(b, i, c) {
      var j := RetiredBy(b, c).value;
      LiveUnique(b, i, j, HandleOf(b, i));
    }
  }

  // ---- conservation ----

  ghost predicate NoDuplicates(s: seq<nat>) { forall i, j :: 0 <= i < j < |s| ==> s[i] != s[j] }

  lemma {:induction false} LiveFromMeaning(b: Trace, i: nat)
    ensures forall k :: k in LiveFrom(b, i) <==> i <= k && Live(b, k)
    ensures NoDuplicates(LiveFrom(b, i))
    decreases |b| - i
  {
    if i < |b| { LiveFromMeaning(b, i + 1); }
  }

  lemma {:induction false} RetiredListMeaning(b: Trace)
    ensures forall k :: k in RetiredList(b) <==> Retired(b, k)
    ensures NoDuplicates(RetiredList(b))
  {
    if b != [] {
      var a, e := Front(b), Last(b);
      RetiredListMeaning(a);
      assert b == a + [e];
      forall k: nat ensures k in RetiredList(b) <==> Retired(b, k) {
        RetiredByMeaning(a, e.call, k);
        if k < |a| { OpenedSnoc(a, e, k); } else { OpenedNew(a, e); }
      }
      if RetiredBy(a, e.call).Some? {
        var i := RetiredBy(a, e.call).value;
        assert Live(a, i) && !Retired(a, i);
      }
    }
  }

  /** Every record of the block is exactly once in the live list or in the retired list. */
  lemma RecordsConserved(b: Trace, i: nat)
    ensures Opened(b, i) <==> i in LiveList(b) + RetiredList(b)
    ensures NoDuplicates(LiveList(b) + RetiredList(b))
  {
    LiveFromMeaning(b, 0);
    RetiredListMeaning(b);
    var l, r := LiveList(b), RetiredList(b);
    forall j, k | 0 <= j < k < |l + r| ensures (l + r)[j] != (l + r)[k] {
      if j < |l| <= k { assert l[j] in l && r[k - |l|] in r; }
    }
  }

  // ---- times ----

  /** The times of record i: everything applied to its handle while it was live. */
  ghost function TimesOf(b: Trace, i: nat): Times
    requires Opened(b, i)
    decreases |b|
  {
    if |b| == i + 1 then NO_TIMES
    else
      OpenedSnoc(Front(b), Last(b), i);
      assert b == Front(b) + [Last(b)];
      var t := TimesOf(Front(b), i);
      if Live(Front(b), i) && Applies(Last(b).call, HandleOf(b, i)) then t.Apply(Last(b).call.times.value) else t
  }

  ghost function TimesAfter(b: Trace, e: Event<Call>, i: nat): Times
    requires Opened(b, i)
  {
    if Live(b, i) && Applies(e.call, HandleOf(b, i)) then TimesOf(b, i).Apply(e.call.times.value) else TimesOf(b, i)
  }

  lemma TimesSnoc(b: Trace, e: Event<Call>, i: nat)
    requires Opened(b, i)
    ensures Opened(b + [e], i)
    ensures TimesOf(b + [e], i) == TimesAfter(b, e, i)
  {
    OpenedSnoc(b, e, i);
    assert Front(b + [e]) == b;
  }

  /** A retired record never changes again. */
  lemma {:induction false} RetiredFrozen(b: Trace, c: Trace, i: nat)
    requires Retired(b, i)
    ensures Retired(b + c, i) && TimesOf(b + c, i) == TimesOf(b, i)
  {
    if c == [] {
      assert b + c == b;
    } else {
      var d, e := b + Front(c), Last(c);
      RetiredFrozen(b, Front(c), i);
      assert b + c == d + [e];
      OpenedSnoc(d, e, i);
      TimesSnoc(d, e, i);
    }
  }

  /** Event j applies times to record i while it is live. */
  ghost predicate AppliedAt(b: Trace, i: nat, j: nat)
    requires Opened(b, i)
  {
    i < j < |b| && !ClosedBetween(b, i, j, HandleOf(b, i)) && Applies(b[j].call, HandleOf(b, i))
  }

  /** v is the last nonzero value of one component among the times applied to record i. */
  ghost predicate LastNonzero(b: Trace, i: nat, get: Times -> nat, v: nat)
    requires Opened(b, i)
  {
    || (v == 0 && forall j: nat :: AppliedAt(b, i, j) ==> get(b[j].call.times.value) == 0)
    || (v != 0 && exists j: nat :: AppliedAt(b, i, j) && get(b[j].call.times.value) == v && ZeroAfter(b, i, get, j))
  }

  ghost predicate ZeroAfter(b: Trace, i: nat, get: Times -> nat, j: nat)
    requires Opened(b, i)
  {
    forall k: nat :: j < k && AppliedAt(b, i, k) ==> get(b[k].call.times.value) == 0
  }

  lemma AppliedSnoc(b: Trace, e: Event<Call>, i: nat, j: nat)
    requires Opened(b, i)
    ensures Opened(b + [e], i)
    ensures j < |b| ==> (AppliedAt(b + [e], i, j) <==> AppliedAt(b, i, j)) && (b + [e])[j] == b[j]
    ensures AppliedAt(b + [e], i, |b|) <==> Live(b, i) && Applies(e.call, HandleOf(b, i))
    ensures (b + [e])[|b|] == e
  {
    OpenedSnoc(b, e, i);
    ClosedBetweenSnoc(b, e, i, if j <= |b| then j else |b|, HandleOf(b, i));
    ClosedBetweenSnoc(b, e, i, |b|, HandleOf(b, i));
  }

  lemma LastNonzeroSnoc(b: Trace, e: Event<Call>, i: nat, get: Times -> nat, v: nat)
    requires Opened(b, i) && LastNonzero(b, i, get, v)
    ensures Opened(b + [e], i)
    ensures LastNonzero(b + [e], i, get,
      if AppliedAt(b + [e], i, |b|) && get(e.call.times.value) != 0 then get(e.call.times.value) else v)
  {
    var c := b + [e];
    forall j: nat { AppliedSnoc(b, e, i, j); }
    assert forall j: nat :: AppliedAt(c, i, j) ==> j <= |b|;
    if !(AppliedAt(c, i, |b|) && get(e.call.times.value) != 0) && v != 0 {
      var j: nat :| AppliedAt(b, i, j) && get(b[j].call.times.value) == v && ZeroAfter(b, i, get, j);
      assert AppliedAt(c, i, j);
    }
  }

  /** Each of the four times of a record is the last nonzero value applied while it was live. */
  lemma {:induction false} TimesAreLastNonzero(b: Trace, i: nat)
    requires Opened(b, i)
    ensures LastNonzero(b, i, (t: Times) => t.create, TimesOf(b, i).create)
    ensures LastNonzero(b, i, (t: Times) => t.access, TimesOf(b, i).access)
    ensures LastNonzero(b, i, (t: Times) => t.write, TimesOf(b, i).write)
    ensures LastNonzero(b, i, (t: Times) => t.change, TimesOf(b, i).change)
    decreases |b|
  {
    if i + 1 < |b| {
      var a, e := Front(b), Last(b);
      assert b == a + [e];
      OpenedSnoc(a, e, i);
      TimesAreLastNonzero(a, i);
      TimesSnoc(a, e, i);
      AppliedSnoc(a, e, i, |a|);
      LastNonzeroSnoc(a, e, i, (t: Times) => t.create, TimesOf(a, i).create);
      LastNonzeroSnoc(a, e, i, (t: Times) => t.access, TimesOf(a, i).access);
      LastNonzeroSnoc(a, e, i, (t: Times) => t.write, TimesOf(a, i).write);
      LastNonzeroSnoc(a, e, i, (t: Times) => t.change, TimesOf(a, i).change);
    }
  }

  // ---- mimics ----

  ghost function NameOf(b: Trace, i: nat): Option<string>
    requires Opened(b, i)
  {
    b[i].call.name
  }

  /** Record d is a system file sharing a time with record i. */
  ghost predicate Qualifies(b: Trace, i: nat, d: nat) {
    && Opened(b, i) && Opened(b, d) && TimesOf(b, i).Shares(TimesOf(b, d))
    && NameOf(b, d).Some? && IsSystemPath(NameOf(b, d).value)
  }

  /** Record d shares a time but was opened without a name. */
  ghost predicate Nameless(b: Trace, i: nat, d: nat) {
    Opened(b, i) && Opened(b, d) && TimesOf(b, i).Shares(TimesOf(b, d)) && NameOf(b, d).None?
  }

  /** The record at which the search ends: a system file, or a file without a name. */
  ghost function FirstStop(b: Trace, i: nat, candidates: seq<nat>): Option<nat> {
    if candidates == [] then None
    else if Qualifies(b, i, candidates[0]) || Nameless(b, i, candidates[0]) then Some(candidates[0])
    else FirstStop(b, i, candidates[1..])
  }

  /** The last event of the block sets times on record i. */
  ghost predicate SetsTimes(b: Trace, i: nat) {
    && b != [] && Last(b).call.Set? && i < |b| - 1
    && Live(b, i) && Applies(Last(b).call, HandleOf(b, i))
  }

  ghost predicate IsOtherFile(b: Trace, i: nat, d: Option<nat>)
    requires Opened(b, i)
  {
    d.Some? && Opened(b, d.value) && NameOf(b, d.value).Some? && NameOf(b, d.value) != NameOf(b, i)
  }

  /** The order in which the tables are searched: live records first, then retired ones. */
  ghost function Candidates(b: Trace): seq<nat> { LiveList(b) + RetiredList(b) }

  /** The pair (source, destination) recorded by the last event of the block, if any. */
  ghost function MimicBy(b: Trace, i: nat): Option<(string, string)>
    requires SetsTimes(b, i)
  {
    var d := FirstStop(b, i, Candidates(b));
    if IsOtherFile(b, i, d) && NameOf(b, i).Some? && !IsExempt(NameOf(b, i).value)
    then Some((NameOf(b, d.value).value, NameOf(b, i).value))
    else None
  }

  ghost predicate Mimics(b: Trace, m: (string, string)) {
    exists i: nat :: SetsTimes(b, i) && MimicBy(b, i) == Some(m)
  }

  /** A set-times event has at most one destination record, so at most one mimic. */
  lemma MimicsOfSet(b: Trace, e: Event<Call>, i: nat)
    requires Live(b, i) && e.call.Set? && Applies(e.call, HandleOf(b, i))
    ensures SetsTimes(b + [e], i)
    ensures forall m :: Mimics(b + [e], m) <==> MimicBy(b + [e], i) == Some(m)
  {
    var c := b + [e];
    assert Last(c) == e;
    OpenedSnoc(b, e, i);
    forall j | SetsTimes(c, j) ensures j == i {
      LiveUnique(c, i, j, HandleOf(c, i));
    }
  }

  lemma NoMimics(b: Trace, e: Event<Call>)
    requires forall i: nat :: Live(b, i) && e.call.Set? ==> !Applies(e.call, HandleOf(b, i))
    ensures forall m :: !Mimics(b + [e], m)
  {
    var c := b + [e];
    assert Last(c) == e;
    forall j | SetsTimes(c, j) ensures false { OpenedSnoc(b, e, j); }
  }

  lemma {:induction false} FirstStopFound(b: Trace, i: nat, candidates: seq<nat>)
    ensures var d := FirstStop(b, i, candidates);
      d.Some? ==> d.value in candidates && (Qualifies(b, i, d.value) || Nameless(b, i, d.value))
  {
    if candidates != [] { FirstStopFound(b, i, candidates[1..]); }
  }

  /** Soundness: the source is a system path, differs from the destination, and belongs to a record of
      the block that shares a nonzero create, write or change time with the destination's record. */
  lemma MimicSound(b: Trace, src: string, dst: string) returns (i: nat, d: nat)
    requires Mimics(b, (src, dst))
    ensures Opened(b, i) && Opened(b, d) && NameOf(b, i) == Some(dst) && NameOf(b, d) == Some(src)
    ensures src != dst && IsSystemPath(src) && !IsExempt(dst)
    ensures var x, y := TimesOf(b, i), TimesOf(b, d);
      || (x.create != 0 && x.create == y.create)
      || (x.write != 0 && x.write == y.write)
      || (x.change != 0 && x.change == y.change)
  {
    i :| SetsTimes(b, i) && MimicBy(b, i) == Some((src, dst));
    FirstStopFound(b, i, Candidates(b));
    d := FirstStop(b, i, Candidates(b)).value;
  }

  // ---- the same in full ----

  /** A path is one of the system's when, in small letters, it starts with :\windows\ or with one letter
      and that, or has \system32\ or \syswow64\ in it. */
  lemma IsSystemPathInFull(name: string)
    ensures IsSystemPath(name) <==>
      || (|name| >= 10 && Lower(name)[..10] == ":\\windows\\")
      || (|name| >= 11 && 'a' <= Lower(name)[0] <= 'z' && Lower(name)[1..11] == ":\\windows\\")
      || (exists before, rest :: Lower(name) == before + "\\system32\\" + rest)
      || (exists before, rest :: Lower(name) == before + "\\syswow64\\" + rest)
  {
    hide Contains, LowerChar;
    var s := Lower(name);
    ContainsInFull(s, "\\system32\\");
    ContainsInFull(s, "\\syswow64\\");
    if |s| >= 11 { assert s[1..][..10] == s[1..11]; }
  }

  lemma IsExemptInFull(name: string)
    ensures IsExempt(name) <==> Lower(name) == "c:\\program files\\internet explorer\\iexplore.exe"
  {
  }

  /** A source for the file of record i: a named system file with the same nonzero create, write or change
      time. Access times do not count. */
  lemma QualifiesInFull(b: Trace, i: nat, d: nat)
    requires Opened(b, i) && Opened(b, d)
    ensures var x, y := TimesOf(b, i), TimesOf(b, d);
      Qualifies(b, i, d) <==>
      && b[d].call.name.Some? && IsSystemPath(b[d].call.name.value)
      && (|| (x.create != 0 && x.create == y.create)
          || (x.write != 0 && x.write == y.write)
          || (x.change != 0 && x.change == y.change))
  {
    hide TimesOf, IsSystemPath;
  }

  /** A call that applies times to a handle is a query or a change of information class 4. */
  lemma AppliesInFull(c: Call, h: int)
    ensures Applies(c, h) <==> exists t :: c == Query(Some(h), Some(4), Some(t)) || c == Set(Some(h), Some(4), Some(t))
  {
    if Applies(c, h) {
      var t := c.times.value;
      assert c == Query(Some(h), Some(4), Some(t)) || c == Set(Some(h), Some(4), Some(t));
    }
  }

  /** Live records are searched in the order in which they were created. */
  lemma {:induction false} LiveInOrder(b: Trace, i: nat)
    ensures forall j, k :: 0 <= j < k < |LiveFrom(b, i)| ==> LiveFrom(b, i)[j] < LiveFrom(b, i)[k]
    decreases |b| - i
  {
    if i < |b| {
      LiveInOrder(b, i + 1);
      LiveFromMeaning(b, i + 1);
      var rest := LiveFrom(b, i + 1);
      assert forall j :: 0 <= j < |rest| ==> rest[j] in rest;
    }
  }

  /** A record is created by a successful open of a handle when every earlier successful open of it has
      been followed by a close. */
  lemma OpenedInFull(b: Trace, i: nat)
    ensures Opened(b, i) <==>
      && i < |b| && b[i].call.Open? && b[i].call.status && b[i].call.handle.Some?
      && forall j: nat :: j < i && b[j].call.Open? && b[j].call.status && b[j].call.handle == b[i].call.handle ==>
           exists k: nat :: j < k < i && b[k].call == Close(b[i].call.handle)
  {
    if i < |b| && b[i].call.Open? && b[i].call.status && b[i].call.handle.Some? {
      var h := b[i].call.handle.value;
      forall j: nat | j < i
        ensures ClosedBetween(b, j, i, h) <==> exists k: nat :: j < k < i && b[k].call == Close(b[i].call.handle)
      {
        if k :| 0 <= k && j < k < i && k < |b| && Closes(b[k].call, h) { assert b[k].call == Close(b[i].call.handle); }
        if k: nat :| j < k < i && b[k].call == Close(b[i].call.handle) { assert Closes(b[k].call, h); }
      }
      assert forall j: nat :: j < i ==>
        (Opens(b[j].call, h) <==> b[j].call.Open? && b[j].call.status && b[j].call.handle == b[i].call.handle);
    }
  }

  /** Record d ends the search without a pair: it has no name, or the destination's own. */
  ghost predicate Hides(b: Trace, i: nat, d: nat)
    requires Opened(b, i)
  {
    Nameless(b, i, d) || (Qualifies(b, i, d) && NameOf(b, d) == NameOf(b, i))
  }

  /** Entry n is a system file under another name than the destination's, and nothing that hides it
      comes before it. */
  ghost predicate IsUnhidden(b: Trace, i: nat, candidates: seq<nat>, n: nat)
    requires Opened(b, i)
  {
    && n < |candidates| && Qualifies(b, i, candidates[n]) && NameOf(b, candidates[n]) != NameOf(b, i)
    && forall m: nat :: m < n ==> !Hides(b, i, candidates[m])
  }

  lemma UnhiddenCons(b: Trace, i: nat, candidates: seq<nat>, n: nat)
    requires Opened(b, i) && candidates != []
    ensures IsUnhidden(b, i, candidates, n + 1) <==>
            !Hides(b, i, candidates[0]) && IsUnhidden(b, i, candidates[1..], n)
  {
    hide Qualifies, Hides;
    assert forall m: nat :: m < |candidates| - 1 ==> candidates[1..][m] == candidates[m + 1];
    if IsUnhidden(b, i, candidates, n + 1) {
      assert !Hides(b, i, candidates[0]);
      forall m: nat | m < n ensures !Hides(b, i, candidates[1..][m]) {
        assert !Hides(b, i, candidates[m + 1]);
      }
    }
    if !Hides(b, i, candidates[0]) && IsUnhidden(b, i, candidates[1..], n) {
      forall m: nat | m < n + 1 ensures !Hides(b, i, candidates[m]) {
        if m > 0 { assert !Hides(b, i, candidates[1..][m - 1]); }
      }
    }
  }

  lemma {:induction false} FirstStopOther(b: Trace, i: nat, candidates: seq<nat>)
    requires Opened(b, i)
    ensures IsOtherFile(b, i, FirstStop(b, i, candidates)) <==> exists n: nat :: IsUnhidden(b, i, candidates, n)
  {
    if candidates != [] {
      FirstStopOther(b, i, candidates[1..]);
      forall n: nat { UnhiddenCons(b, i, candidates, n); }
      if n: nat :| IsUnhidden(b, i, candidates[1..], n) && !Hides(b, i, candidates[0]) {
        assert IsUnhidden(b, i, candidates, n + 1);
      }
      if n: nat :| IsUnhidden(b, i, candidates, n) {
        if n > 0 { UnhiddenCons(b, i, candidates, n - 1); }
      }
      assert IsUnhidden(b, i, candidates, 0) <==>
        Qualifies(b, i, candidates[0]) && NameOf(b, candidates[0]) != NameOf(b, i);
    }
  }

  /** Exactly when something is recorded, for every destination: it has a name, is not exempt, and in
      dictionary order, live records first, some qualifying file of another name comes before any
      file without a name that shares a time and before any qualifying entry of the destination's own
      name. */
  lemma MimicExact(b: Trace, i: nat)
    requires SetsTimes(b, i)
    ensures MimicBy(b, i).Some? <==>
      && NameOf(b, i).Some? && !IsExempt(NameOf(b, i).value)
      && exists n: nat :: IsUnhidden(b, i, Candidates(b), n)
  {
    FirstStopOther(b, i, Candidates(b));
  }

  /** Entry n is a system file, and no file without a name that shares a time comes before it. */
  ghost predicate IsReached(b: Trace, i: nat, candidates: seq<nat>, n: nat) {
    && n < |candidates| && Qualifies(b, i, candidates[n])
    && forall m: nat :: m < n ==> !Nameless(b, i, candidates[m])
  }

  /** Completeness for an ordinary destination: something is recorded exactly when some record, live or
      retired, qualifies and the search gets to it; it always does when every file has a name. */
  lemma MimicComplete(b: Trace, i: nat)
    requires SetsTimes(b, i) && NameOf(b, i).Some?
    requires !IsSystemPath(NameOf(b, i).value) && !IsExempt(NameOf(b, i).value)
    ensures MimicBy(b, i).Some? <==> exists n: nat :: IsReached(b, i, Candidates(b), n)
    ensures (forall d: nat :: !Nameless(b, i, d)) ==> (MimicBy(b, i).Some? <==> exists d: nat :: Qualifies(b, i, d))
  {
    hide Candidates, MimicBy;
    var all := Candidates(b);
    MimicExact(b, i);
    forall n: nat ensures IsUnhidden(b, i, all, n) <==> IsReached(b, i, all, n) {
    }
    QualifyingListed(b, i);
    if n: nat :| IsReached(b, i, all, n) { assert Qualifies(b, i, all[n]); }
    if d: nat :| Qualifies(b, i, d) {
      var n: nat :| n < |all| && all[n] == d;
      assert (forall c: nat :: !Nameless(b, i, c)) ==> IsReached(b, i, all, n);
    }
  }

  lemma QualifyingListed(b: Trace, i: nat)
    ensures forall d: nat :: Qualifies(b, i, d) ==> d in Candidates(b)
  {
    forall d: nat | Qualifies(b, i, d) ensures d in Candidates(b) { RecordsConserved(b, d); }
  }

  /** A file without a name that comes first and shares a time hides every source. */
  lemma NamelessHides(b: Trace, i: nat, d: nat)
    requires SetsTimes(b, i) && Nameless(b, i, d) && [d] <= Candidates(b)
    ensures MimicBy(b, i).None?
  {
    assert Candidates(b)[0] == d;
  }

  /** Nothing is ever closed in the block. */
  ghost predicate NoClose(b: Trace) { forall e :: e in b ==> !e.call.Close? }

  lemma NothingClosed(b: Trace)
    requires NoClose(b)
    ensures forall i, j, h :: !ClosedBetween(b, i, j, h)
  {
    assert forall k :: 0 <= k < |b| ==> b[k] in b;
  }

  /** If the only create time ever applied to a record is v, the record carries it. */
  lemma CreateTimeIs(b: Trace, i: nat, j: nat, v: nat)
    requires Opened(b, i) && AppliedAt(b, i, j) && v != 0
    requires forall k: nat :: AppliedAt(b, i, k) ==> b[k].call.times.value.create == v
    ensures TimesOf(b, i).create == v
  {
    TimesAreLastNonzero(b, i);
  }

  /** That can happen while a system file with the same time is open: the last event of the block gives an
      ordinary file the time of both, and nothing is recorded. */
  lemma NamelessHidesQualifying(p: Process) returns (b: Trace)
    ensures SetsTimes(b, 2) && NameOf(b, 2) == Some("x") && !IsSystemPath("x") && !IsExempt("x")
    ensures Qualifies(b, 2, 1) && MimicBy(b, 2).None?
  {
    hide TimesOf, LiveList, RetiredList;
    var path := "\\system32\\";
    b := [OpenOf(p, 0, None), OpenOf(p, 1, Some(path)), OpenOf(p, 2, Some("x")), SetOf(p, 0), SetOf(p, 1), SetOf(p, 2)];
    NothingClosed(b);
    OpenedInOrder(b);
    assert AppliedAt(b, 0, 3) && AppliedAt(b, 1, 4) && AppliedAt(b, 2, 5);
    CreateTimeIs(b, 0, 3, 1);
    CreateTimeIs(b, 1, 4, 1);
    CreateTimeIs(b, 2, 5, 1);
    SystemPathExample(path);
    FirstLiveFirst(b);
    NamelessHides(b, 2, 0);
  }

  function OpenOf(p: Process, h: int, name: Option<string>): Event<Call> { Event(p, Open(true, Some(h), name)) }

  function SetOf(p: Process, h: int): Event<Call> {
    Event(p, Set(Some(h), Some(BASIC_FILE_INFORMATION), Some(Times(1, 0, 0, 0))))
  }

  lemma OpenedInOrder(b: Trace)
    requires NoClose(b) && |b| >= 3
    requires forall i: nat :: i < 3 ==> Opens(b[i].call, i)
    ensures forall i: nat :: i < 3 ==> Live(b, i) && HandleOf(b, i) == i
  {
    NothingClosed(b);
  }

  lemma SystemPathExample(path: string)
    requires path == "\\system32\\"
    ensures IsSystemPath(path) && !IsSystemPath("x") && !IsExempt("x")
  {
    assert Lower(path) == path && path[0..] == path && StartsWith(path[0..], "\\system32\\");
    assert Lower("x") == "x" && "x"[1..] == "";
  }

  lemma FirstLiveFirst(b: Trace)
    requires b != [] && Live(b, 0)
    ensures [0] <= Candidates(b)
  {
  }

  /** For instance, a destination that is itself a system path hides every source behind its own entry
      when that entry comes first in the table. */
  lemma SystemDestinationHides(b: Trace, i: nat)
    requires SetsTimes(b, i)
    requires NameOf(b, i).Some? && IsSystemPath(NameOf(b, i).value) && TimesOf(b, i).Shares(TimesOf(b, i))
    requires [i] <= LiveList(b)
    ensures MimicBy(b, i).None?
  {
    assert Candidates(b)[0] == i;
  }

  // ---- the three things an event can do to the records of a block ----

  lemma {:induction false} LiveFromAgree(b: Trace, c: Trace, i: nat)
    requires |c| == |b| + 1 && !Live(c, |b|)
    requires forall k: nat :: k < |b| ==> (Live(c, k) <==> Live(b, k))
    ensures LiveFrom(c, i) == LiveFrom(b, i)
    decreases |c| - i
  {
    if i < |c| { LiveFromAgree(b, c, i + 1); }
  }

  lemma {:induction false} LiveFromNew(b: Trace, c: Trace, i: nat)
    requires |c| == |b| + 1 && Live(c, |b|) && i <= |b|
    requires forall k: nat :: k < |b| ==> (Live(c, k) <==> Live(b, k))
    ensures LiveFrom(c, i) == LiveFrom(b, i) + [|b|]
    decreases |c| - i
  {
    if i < |b| { LiveFromNew(b, c, i + 1); } else { assert LiveFrom(c, i + 1) == []; }
  }

  lemma {:induction false} LiveFromClosed(b: Trace, c: Trace, r: nat, i: nat)
    requires |c| == |b| + 1 && !Live(c, |b|)
    requires forall k: nat :: k < |b| ==> (Live(c, k) <==> Live(b, k) && k != r)
    ensures LiveFrom(c, i) == Remove(LiveFrom(b, i), r)
    decreases |c| - i
  {
    if i < |c| { LiveFromClosed(b, c, r, i + 1); }
  }

  /** `del`: every occurrence of x leaves the list. */
  function Remove<T(==)>(s: seq<T>, x: T): seq<T> {
    if s == [] then [] else if s[0] == x then Remove(s[1..], x) else [s[0]] + Remove(s[1..], x)
  }

  lemma {:induction false} RemoveAbsent<T>(s: seq<T>, x: T)
    requires x !in s
    ensures Remove(s, x) == s
  {
    if s != [] { RemoveAbsent(s[1..], x); }
  }

  lemma {:induction false} RemoveAt<T>(s: seq<T>, k: nat)
    requires k < |s| && forall i, j :: 0 <= i < j < |s| ==> s[i] != s[j]
    ensures Remove(s, s[k]) == s[..k] + s[k + 1..]
  {
    if k == 0 {
      RemoveAbsent(s[1..], s[0]);
    } else {
      RemoveAt(s[1..], k - 1);
      assert s[1..][..k - 1] == s[1..k] && s[1..][k..] == s[k + 1..];
    }
  }

  /** The handles of the listed records. */
  ghost predicate AreHandles(b: Trace, list: seq<nat>, handles: seq<int>) {
    |handles| == |list| && forall k :: 0 <= k < |list| ==> Opened(b, list[k]) && HandleOf(b, list[k]) == handles[k]
  }

  /** Records created before the event keep handle and name. */
  ghost predicate Carries(b: Trace, c: Trace) {
    && |b| <= |c|
    && forall i: nat :: i < |b| ==> (Opened(c, i) <==> Opened(b, i)) && c[i] == b[i]
  }

  lemma CarriesSnoc(b: Trace, e: Event<Call>)
    ensures Carries(b, b + [e])
  {
    forall i: nat | i < |b| { OpenedSnoc(b, e, i); }
  }

  lemma TimesKept(b: Trace, e: Event<Call>)
    requires e.call.Open? || e.call.Close?
    ensures forall i: nat :: Opened(b, i) ==> Opened(b + [e], i) && TimesOf(b + [e], i) == TimesOf(b, i)
  {
    forall i: nat | Opened(b, i) ensures Opened(b + [e], i) && TimesOf(b + [e], i) == TimesOf(b, i) {
      TimesSnoc(b, e, i);
    }
  }

  lemma LiveKeptByOpen(b: Trace, e: Event<Call>)
    requires Opened(b + [e], |b|)
    ensures Carries(b, b + [e])
    ensures forall i: nat :: i < |b| ==> (Live(b + [e], i) <==> Live(b, i))
    ensures Live(b + [e], |b|) && e.call.Open?
  {
    CarriesSnoc(b, e);
    OpenedNew(b, e);
    forall i: nat | i < |b| ensures Live(b + [e], i) <==> Live(b, i) { OpenedSnoc(b, e, i); }
  }

  lemma AfterOpen(b: Trace, e: Event<Call>)
    requires Opened(b + [e], |b|)
    ensures Carries(b, b + [e])
    ensures forall i: nat :: i < |b| ==> (Live(b + [e], i) <==> Live(b, i))
    ensures Live(b + [e], |b|) && TimesOf(b + [e], |b|) == NO_TIMES
    ensures LiveList(b + [e]) == LiveList(b) + [|b|] && RetiredList(b + [e]) == RetiredList(b)
  {
    hide Opened, ClosedBetween, Live;
    LiveKeptByOpen(b, e);
    assert Front(b + [e]) == b && Last(b + [e]) == e;
    LiveFromNew(b, b + [e], 0);
  }

  lemma AfterClose(b: Trace, e: Event<Call>, r: nat)
    requires Retires(b, r, e.call)
    ensures Carries(b, b + [e]) && !Opened(b + [e], |b|)
    ensures forall i: nat :: i < |b| ==> (Live(b + [e], i) <==> Live(b, i) && i != r)
    ensures LiveList(b + [e]) == Remove(LiveList(b), r) && RetiredList(b + [e]) == RetiredList(b) + [r]
  {
    CarriesSnoc(b, e);
    OpenedNew(b, e);
    assert Front(b + [e]) == b && (b + [e])[|b|] == e;
    forall i: nat | i < |b| ensures Live(b + [e], i) <==> Live(b, i) && i != r {
      OpenedSnoc(b, e, i);
      if Live(b, i) && Closes(e.call, HandleOf(b, i)) { LiveUnique(b, i, r, HandleOf(b, i)); }
    }
    LiveFromClosed(b, b + [e], r, 0);
    RetiredByMeaning(b, e.call, r);
  }

  /** Every other event leaves the records as they are, except for the times of the live record it
      applies to. */
  lemma AfterOther(b: Trace, e: Event<Call>)
    requires !Opened(b + [e], |b|) && forall r: nat :: !Retires(b, r, e.call)
    ensures Carries(b, b + [e])
    ensures forall i: nat :: i < |b| ==> (Live(b + [e], i) <==> Live(b, i))
    ensures forall i: nat :: Opened(b, i) ==> Opened(b + [e], i) && TimesOf(b + [e], i) == TimesAfter(b, e, i)
    ensures LiveList(b + [e]) == LiveList(b) && RetiredList(b + [e]) == RetiredList(b)
  {
    CarriesSnoc(b, e);
    assert Front(b + [e]) == b && (b + [e])[|b|] == e;
    forall i: nat | i < |b| ensures Live(b + [e], i) <==> Live(b, i) {
      OpenedSnoc(b, e, i);
      if Live(b, i) { assert !Retires(b, i, e.call); }
    }
    forall i: nat | Opened(b, i) { TimesSnoc(b, e, i); }
    LiveFromAgree(b, b + [e], 0);
  }
}
