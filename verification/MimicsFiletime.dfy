/** The file-time mimicry signature: one mutable record per opened handle, moved from a dictionary to a
    list when the handle is closed, and compared whenever times are set. */
module MimicsFiletime {
  import opened PyModel
  import opened Traces
  import opened FileTimes

  class HandleInfo {
    const handle: int
    const filename: Option<string>
    var createtime: nat
    var lastaccesstime: nat
    var lastwritetime: nat
    var changetime: nat

    ghost function Stamp(): Times
      reads this
    {
      Times(createtime, lastaccesstime, lastwritetime, changetime)
    }

    constructor (handle: int, filename: Option<string>)
      ensures this.handle == handle && this.filename == filename && Stamp() == NO_TIMES
    {
      this.handle, this.filename := handle, filename;
      createtime, lastaccesstime, lastwritetime, changetime := 0, 0, 0, 0;
    }

    method SetFileTimes(t: Times)
      modifies this
      ensures Stamp() == old(Stamp()).Apply(t)
    {
      if t.create != 0 { createtime := t.create; }
      if t.access != 0 { lastaccesstime := t.access; }
      if t.write != 0 { lastwritetime := t.write; }
      if t.change != 0 { changetime := t.change; }
    }

    /** The name of the other file, if it is a system file that shares a time with this one. A shared
        time with a file that has no name raises. */
    method CheckFileTimes(other: HandleInfo) returns (source: Search)
      ensures source ==
              if !Stamp().Shares(other.Stamp()) then NotFound
              else if other.filename.None? then Raised
              else if IsSystemPath(other.filename.value) then Found(other.filename.value)
              else NotFound
    {
      if || (createtime != 0 && createtime == other.createtime)
         || (lastwritetime != 0 && lastwritetime == other.lastwritetime)
         || (changetime != 0 && changetime == other.changetime)
      {
        if other.filename.None? { return Raised; }
        if IsSystemPath(other.filename.value) { return Found(other.filename.value); }
      }
      return NotFound;
    }
  }

  /** One object for each record of the block, no two the same. */
  ghost predicate AreRecords(b: Trace, records: map<nat, HandleInfo>) {
    && (forall i: nat :: i in records <==> Opened(b, i))
    && (forall i, j :: i in records && j in records && i != j ==> records[i] != records[j])
    && (forall i :: i in records ==> records[i].handle == HandleOf(b, i) && records[i].filename == NameOf(b, i))
  }

  /** The dictionary maps the handle of every live record to its object, and has no other key. */
  ghost predicate IsDictionary(b: Trace, handles: map<int, HandleInfo>, records: map<nat, HandleInfo>) {
    && (forall h :: h in handles ==> exists i: nat :: LiveAs(b, i, h))
    && (forall i: nat, h :: LiveAs(b, i, h) ==> i in records && h in handles && handles[h] == records[i])
  }

  ghost predicate IsRetired(objects: seq<HandleInfo>, list: seq<nat>, records: map<nat, HandleInfo>) {
    |objects| == |list| && forall k :: 0 <= k < |list| ==> list[k] in records && objects[k] == records[list[k]]
  }

  /** Everything recorded comes from some view of the trace, and everything seen was recorded. */
  ghost predicate IsRecorded(t: Trace, mimics: set<(string, string)>) {
    forall m :: m in mimics <==> exists b :: b in Views(t) && Mimics(b, m)
  }

  lemma RecordedSnoc(t: Trace, e: Event<Call>, mimics: set<(string, string)>, found: Option<(string, string)>)
    requires IsRecorded(t, mimics)
    requires forall m :: Mimics(LastBlock(t + [e]), m) <==> found == Some(m)
    ensures IsRecorded(t + [e], if found.Some? then mimics + {found.value} else mimics)
  {
    hide Mimics, LastBlock, Views;
    ViewsSnoc(t, e);
    if found.Some? { assert Mimics(LastBlock(t + [e]), found.value); }
    forall m ensures (exists b :: b in Views(t + [e]) && Mimics(b, m)) <==>
      (exists b :: b in Views(t) && Mimics(b, m)) || found == Some(m)
    {
      if b :| b in Views(t + [e]) && Mimics(b, m) { assert b in Views(t) || b == LastBlock(t + [e]); }
    }
  }

  /** The state of the signature apart from the times inside the objects. */
  ghost predicate Structure(b: Trace, records: map<nat, HandleInfo>, handles: map<int, HandleInfo>,
                            order: seq<int>, oldHandles: seq<HandleInfo>) {
    && AreRecords(b, records) && IsDictionary(b, handles, records)
    && AreHandles(b, LiveList(b), order) && IsRetired(oldHandles, RetiredList(b), records)
  }

  lemma StructureEmpty()
    ensures Structure([], map[], map[], [], [])
  {
  }

  lemma LiveAsAfterOpen(b: Trace, e: Event<Call>, i: nat, g: int)
    requires Opened(b + [e], |b|)
    ensures LiveAs(b + [e], i, g) <==> if i == |b| then g == HandleOf(b + [e], |b|) else LiveAs(b, i, g)
  {
    AfterOpen(b, e);
  }

  lemma DictionaryAfterOpen(b: Trace, e: Event<Call>, records: map<nat, HandleInfo>, handles: map<int, HandleInfo>, info: HandleInfo)
    requires AreRecords(b, records) && IsDictionary(b, handles, records)
    requires Opened(b + [e], |b|) && HandleOf(b + [e], |b|) == info.handle && info.handle !in handles
    ensures IsDictionary(b + [e], handles[info.handle := info], records[|b| := info])
  {
    var c, h := b + [e], info.handle;
    var n, r := handles[h := info], records[|b| := info];
    forall i: nat, g { LiveAsAfterOpen(b, e, i, g); }
    hide LiveAs;
    assert LiveAs(c, |b|, h);
    forall g | g in n ensures exists i: nat :: LiveAs(c, i, g) {
      if g != h {
        var i: nat :| LiveAs(b, i, g);
        assert i in records && LiveAs(c, i, g);
      }
    }
  }

  lemma RecordsAfterOpen(b: Trace, e: Event<Call>, records: map<nat, HandleInfo>, info: HandleInfo)
    requires AreRecords(b, records) && info !in records.Values
    requires Opened(b + [e], |b|) && HandleOf(b + [e], |b|) == info.handle && NameOf(b + [e], |b|) == info.filename
    ensures AreRecords(b + [e], records[|b| := info])
  {
    CarriesSnoc(b, e);
    assert forall i :: i in records ==> records[i] in records.Values;
  }

  lemma StructureAfterOpen(b: Trace, e: Event<Call>, records: map<nat, HandleInfo>, handles: map<int, HandleInfo>,
                           order: seq<int>, oldHandles: seq<HandleInfo>, info: HandleInfo)
    requires Structure(b, records, handles, order, oldHandles)
    requires e.call.Open? && e.call.status && e.call.handle == Some(info.handle) && e.call.name == info.filename
    requires info.handle !in handles && info !in records.Values
    ensures Opened(b + [e], |b|)
    ensures Structure(b + [e], records[|b| := info], handles[info.handle := info], order + [info.handle], oldHandles)
  {
    var c := b + [e];
    assert c[|b|] == e;
    OpenedNew(b, e);
    RecordsAfterOpen(b, e, records, info);
    DictionaryAfterOpen(b, e, records, handles, info);
    AfterOpen(b, e);
    HandlesCarried(b, e, LiveList(b), order);
    assert forall i :: i in records ==> i < |b|;
  }

  lemma HandlesCarried(b: Trace, e: Event<Call>, list: seq<nat>, order: seq<int>)
    requires AreHandles(b, list, order)
    ensures AreHandles(b + [e], list, order)
  {
    CarriesSnoc(b, e);
  }

  lemma {:induction false} HandlesRemoved(b: Trace, list: seq<nat>, order: seq<int>, i: nat)
    requires AreHandles(b, list, order) && Opened(b, i)
    requires forall k :: 0 <= k < |list| && HandleOf(b, list[k]) == HandleOf(b, i) ==> list[k] == i
    ensures AreHandles(b, Remove(list, i), Remove(order, HandleOf(b, i)))
  {
    if list != [] { HandlesRemoved(b, list[1..], order[1..], i); }
  }

  lemma RecordsCarried(b: Trace, e: Event<Call>, records: map<nat, HandleInfo>)
    requires AreRecords(b, records) && !Opened(b + [e], |b|)
    ensures AreRecords(b + [e], records)
  {
    CarriesSnoc(b, e);
  }

  lemma DictionaryAfterClose(b: Trace, e: Event<Call>, records: map<nat, HandleInfo>, handles: map<int, HandleInfo>, i: nat)
    requires IsDictionary(b, handles, records) && Retires(b, i, e.call)
    ensures IsDictionary(b + [e], handles - {HandleOf(b, i)}, records)
  {
    var c, h := b + [e], HandleOf(b, i);
    AfterClose(b, e, i);
    forall g | g in handles && g != h ensures exists j: nat :: LiveAs(c, j, g) {
      var j: nat :| LiveAs(b, j, g);
      assert LiveAs(c, j, g);
    }
    forall j: nat, g | LiveAs(c, j, g) ensures g in handles && g != h && j in records && handles[g] == records[j] {
      assert LiveAs(b, j, g);
      if g == h { LiveUnique(b, i, j, h); }
    }
  }

  lemma StructureAfterClose(b: Trace, e: Event<Call>, records: map<nat, HandleInfo>, handles: map<int, HandleInfo>,
                            order: seq<int>, oldHandles: seq<HandleInfo>, i: nat)
    requires Structure(b, records, handles, order, oldHandles) && Retires(b, i, e.call)
    ensures HandleOf(b, i) in handles
    ensures Structure(b + [e], records, handles - {HandleOf(b, i)}, Remove(order, HandleOf(b, i)),
                      oldHandles + [handles[HandleOf(b, i)]])
  {
    assert LiveAs(b, i, HandleOf(b, i));
    AfterClose(b, e, i);
    RecordsCarried(b, e, records);
    DictionaryAfterClose(b, e, records, handles, i);
    LiveFromMeaning(b, 0);
    forall k | 0 <= k < |LiveList(b)| && HandleOf(b, LiveList(b)[k]) == HandleOf(b, i) ensures LiveList(b)[k] == i {
      assert LiveList(b)[k] in LiveList(b);
      LiveUnique(b, LiveList(b)[k], i, HandleOf(b, i));
    }
    HandlesRemoved(b, LiveList(b), order, i);
    HandlesCarried(b, e, Remove(LiveList(b), i), Remove(order, HandleOf(b, i)));
  }

  lemma DictionaryCarried(b: Trace, e: Event<Call>, records: map<nat, HandleInfo>, handles: map<int, HandleInfo>)
    requires IsDictionary(b, handles, records)
    requires !Opened(b + [e], |b|) && forall r: nat :: !Retires(b, r, e.call)
    ensures IsDictionary(b + [e], handles, records)
  {
    AfterOther(b, e);
    assert forall i: nat, h :: LiveAs(b + [e], i, h) <==> LiveAs(b, i, h);
  }

  /** The structure after an event that neither opens a new handle nor closes a live one. */
  lemma StructureAfterOther(b: Trace, e: Event<Call>, records: map<nat, HandleInfo>, handles: map<int, HandleInfo>,
                            order: seq<int>, oldHandles: seq<HandleInfo>)
    requires Structure(b, records, handles, order, oldHandles)
    requires e.call.Open? && e.call.status && e.call.handle.Some? ==> e.call.handle.value in handles
    requires e.call.Close? && e.call.handle.Some? ==> e.call.handle.value !in handles
    ensures !Opened(b + [e], |b|) && forall r: nat :: !Retires(b, r, e.call)
    ensures Structure(b + [e], records, handles, order, oldHandles)
  {
    OpenedNew(b, e);
    forall r: nat ensures !Retires(b, r, e.call) {
      if Live(b, r) { assert LiveAs(b, r, HandleOf(b, r)); }
    }
    RecordsCarried(b, e, records);
    DictionaryCarried(b, e, records, handles);
    AfterOther(b, e);
    HandlesCarried(b, e, LiveList(b), order);
  }

  class MimicsFiletime {
    var lastprocess: Option<Process>
    var handles: map<int, HandleInfo>
    var order: seq<int>                // the dictionary's insertion order
    var oldHandles: seq<HandleInfo>
    var sawMimic: bool
    var mimics: set<(string, string)>
    ghost var records: map<nat, HandleInfo>
    ghost var history: Trace

    /** The objects are the records of block b: one object per record, no two the same, each with the
        times its record has; the dictionary holds the live ones under their own handle, in order of
        creation, and the list the retired ones, in order of closing. */
    ghost predicate Tables(b: Trace)
      reads `records, `handles, `order, `oldHandles, records.Values
    {
      Structure(b, records, handles, order, oldHandles) && Stamped(b)
    }

    /** Every object carries the times of its record. */
    ghost predicate Stamped(b: Trace)
      reads `records, records.Values
    {
      forall i :: i in records ==> Opened(b, i) && records[i].Stamp() == TimesOf(b, i)
    }

    ghost predicate Recorded()
      reads this
    {
      IsRecorded(history, mimics) && (sawMimic <==> mimics != {})
    }

    ghost predicate Valid()
      reads this, records.Values
    {
      && lastprocess == (if history == [] then None else Some(Last(history).proc))
      && Tables(LastBlock(history)) && Recorded()
    }

    constructor ()
      ensures Valid() && history == [] && records == map[]
    {
      lastprocess, handles, order, oldHandles := None, map[], [], [];
      sawMimic, mimics, records, history := false, {}, map[], [];
    }

    /** The tables describe the block that an event of process p would continue. */
    ghost predicate Ready(p: Process)
      reads this, records.Values
    {
      lastprocess == Some(p) && Tables(BlockBefore(history, p)) && Recorded()
    }

    method EnterBlock(p: Process)
      requires Valid()
      modifies this
      ensures history == old(history) && Ready(p)
      ensures mimics == old(mimics) && sawMimic == old(sawMimic)
      ensures records == old(records) || records == map[]
    {
      hide Structure, TimesOf, LastBlock;
      if lastprocess != Some(p) {
        StructureEmpty();
        handles, order, oldHandles, records := map[], [], [], map[];
        lastprocess := Some(p);
      }
    }

    method OnOpen(e: Event<Call>, ghost b: Trace) returns (v: Verdict)
      requires Tables(b) && e.call.Open?
      modifies this
      ensures Tables(b + [e]) && history == old(history) && !v.Matched?
      ensures mimics == old(mimics) && sawMimic == old(sawMimic) && lastprocess == old(lastprocess)
      ensures fresh(records.Values - old(records.Values))
    {
      hide Structure, TimesOf, Opened;
      v := Streaming;
      TimesKept(b, e);
      if e.call.status {
        if e.call.handle.None? {
          StructureAfterOther(b, e, records, handles, order, oldHandles);
          return Rejected;
        }
        var h := e.call.handle.value;
        if h !in handles {
          var info := new HandleInfo(h, e.call.name);
          StructureAfterOpen(b, e, records, handles, order, oldHandles, info);
          AfterOpen(b, e);
          handles, order := handles[h := info], order + [h];
          records := records[|b| := info];
          return;
        }
      }
      StructureAfterOther(b, e, records, handles, order, oldHandles);
    }

    method OnClose(e: Event<Call>, ghost b: Trace) returns (v: Verdict)
      requires Tables(b) && e.call.Close?
      modifies this
      ensures Tables(b + [e]) && history == old(history) && records == old(records) && !v.Matched?
      ensures mimics == old(mimics) && sawMimic == old(sawMimic) && lastprocess == old(lastprocess)
    {
      hide Structure, TimesOf, Opened;
      v := Streaming;
      TimesKept(b, e);
      if e.call.handle.Some? && e.call.handle.value in handles {
        var h := e.call.handle.value;
        ghost var i := LiveRecord(b, records, handles, order, oldHandles, h);
        StructureAfterClose(b, e, records, handles, order, oldHandles, i);
        oldHandles := oldHandles + [handles[h]];
        handles, order := handles - {h}, Remove(order, h);
      } else {
        StructureAfterOther(b, e, records, handles, order, oldHandles);
        if e.call.handle.None? { return Rejected; }
      }
    }

    /** The times of a query or a change reach the object of the live handle, and no other. */
    method ApplyTimes(e: Event<Call>, ghost b: Trace, info: HandleInfo, ghost i: nat)
      requires Tables(b) && (e.call.Query? || e.call.Set?)
      requires i in records && records[i] == info && Live(b, i) && Applies(e.call, HandleOf(b, i))
      modifies info
      ensures Tables(b + [e])
    {
      hide Structure, TimesOf;
      StructureAfterOther(b, e, records, handles, order, oldHandles);
      AfterOther(b, e);
      OneApplies(b, e, records, handles, order, oldHandles, i);
      info.SetFileTimes(e.call.times.value);
    }

    /** The first loop: live files in the dictionary's order. */
    method SearchLive(ghost b: Trace, info: HandleInfo, ghost i: nat) returns (source: Search)
      requires Tables(b) && i in records && records[i] == info
      ensures !source.NotFound? ==> IsNameOf(b, FirstStop(b, i, Candidates(b)), source)
      ensures source.NotFound? ==> FirstStop(b, i, Candidates(b)) == FirstStop(b, i, RetiredList(b))
    {
      hide Qualifies, Nameless, TimesOf, LiveList, RetiredList, IsSystemPath, Structure;
      source := NotFound;
      ghost var live, retired := LiveList(b), RetiredList(b);
      OrderCoversLive(b, records, handles, order, oldHandles);
      var k := 0;
      assert live[0..] + retired == Candidates(b);
      while k < |order|
        invariant 0 <= k <= |order| && source.NotFound?
        invariant FirstStop(b, i, Candidates(b)) == FirstStop(b, i, live[k..] + retired)
      {
        InDictionary(b, records, handles, order, oldHandles, k);
        CheckedByObject(b, i, live[k]);
        assert live[k..] + retired == [live[k]] + (live[k + 1..] + retired);
        source := info.CheckFileTimes(handles[order[k]]);
        if !source.NotFound? { return; }
        k := k + 1;
      }
      assert live[|order|..] + retired == retired;
    }

    /** The second loop: retired files in the order they were closed. */
    method SearchRetired(ghost b: Trace, info: HandleInfo, ghost i: nat) returns (source: Search)
      requires Tables(b) && i in records && records[i] == info
      ensures IsNameOf(b, FirstStop(b, i, RetiredList(b)), source)
    {
      hide Qualifies, Nameless, TimesOf, LiveList, RetiredList, IsSystemPath, Structure;
      source := NotFound;
      ghost var retired := RetiredList(b);
      RetiredObjects(b, records, handles, order, oldHandles);
      var k := 0;
      while k < |oldHandles|
        invariant 0 <= k <= |oldHandles| && source.NotFound?
        invariant FirstStop(b, i, retired) == FirstStop(b, i, retired[k..])
      {
        CheckedByObject(b, i, retired[k]);
        assert retired[k..] == [retired[k]] + retired[k + 1..];
        source := info.CheckFileTimes(oldHandles[k]);
        if !source.NotFound? { return; }
        k := k + 1;
      }
    }

    /** Both loops: the file at which the search over all records of the block ends. */
    method Search(ghost b: Trace, info: HandleInfo, ghost i: nat) returns (source: Search)
      requires Tables(b) && i in records && records[i] == info
      ensures IsNameOf(b, FirstStop(b, i, Candidates(b)), source)
    {
      hide Structure, FirstStop, Candidates, RetiredList, TimesOf, IsNameOf;
      source := SearchLive(b, info, i);
      if source.NotFound? { source := SearchRetired(b, info, i); }
    }

    /** Comparing two objects is comparing their records. */
    lemma CheckedByObject(b: Trace, i: nat, d: nat)
      requires Tables(b) && i in records && d in records
      ensures Opened(b, d) && NameOf(b, d) == records[d].filename
      ensures var shared := records[i].Stamp().Shares(records[d].Stamp());
        && (Nameless(b, i, d) <==> shared && records[d].filename.None?)
        && (Qualifies(b, i, d) <==> shared && records[d].filename.Some? && IsSystemPath(records[d].filename.value))
    {
    }

    /** A query or change that reaches no object. */
    lemma NothingApplied(e: Event<Call>, b: Trace)
      requires Tables(b) && (e.call.Query? || e.call.Set? || e.call.Other?)
      requires forall h :: Applies(e.call, h) ==> h !in handles
      ensures Tables(b + [e])
    {
      StructureAfterOther(b, e, records, handles, order, oldHandles);
      AfterOther(b, e);
      forall i: nat | Live(b, i) ensures !Applies(e.call, HandleOf(b, i)) {
        assert LiveAs(b, i, HandleOf(b, i));
      }
    }

    method OnQuery(e: Event<Call>, ghost b: Trace) returns (v: Verdict)
      requires Tables(b) && e.call.Query?
      modifies records.Values
      ensures Tables(b + [e]) && !v.Matched?
    {
      hide Structure, TimesOf;
      v := Streaming;
      if e.call.handle.None? || e.call.kind.None? {
        NothingApplied(e, b);
        return Rejected;
      }
      var h := e.call.handle.value;
      if e.call.kind.value == BASIC_FILE_INFORMATION && h in handles && e.call.times.Some? {
        ghost var i := LiveRecord(b, records, handles, order, oldHandles, h);
        ApplyTimes(e, b, handles[h], i);
      } else {
        NothingApplied(e, b);
      }
    }

    /** Records the pair of a found source and the changed file. */
    method RecordPair(info: HandleInfo, source: Search) returns (v: Verdict, ghost found: Option<(string, string)>)
      requires sawMimic <==> mimics != {}
      modifies `mimics, `sawMimic
      ensures !v.Matched? && (sawMimic <==> mimics != {})
      ensures found == PairOf(source, info.filename)
      ensures mimics == if found.Some? then old(mimics) + {found.value} else old(mimics)
    {
      hide IsExempt;
      v, found := Streaming, None;
      if source.Raised? { return Rejected, None; }
      if source.Found? && Some(source.source) != info.filename {
        if info.filename.None? { return Rejected, None; }
        if IsExempt(info.filename.value) { return; }
        found := Some((source.source, info.filename.value));
        mimics := mimics + {(source.source, info.filename.value)};
        sawMimic := true;
      }
    }

    /** A change of times: apply it, search for a system file with the same times, record the pair. */
    method OnSet(e: Event<Call>, ghost b: Trace) returns (v: Verdict, ghost found: Option<(string, string)>)
      requires Tables(b) && e.call.Set? && (sawMimic <==> mimics != {})
      modifies this`mimics, this`sawMimic, records.Values
      ensures Tables(b + [e]) && !v.Matched?
      ensures forall m :: Mimics(b + [e], m) <==> found == Some(m)
      ensures mimics == if found.Some? then old(mimics) + {found.value} else old(mimics)
      ensures sawMimic <==> mimics != {}
    {
      hide Structure, TimesOf, FirstStop, Candidates, Mimics, SetsTimes, MimicBy, IsNameOf, PairOf;
      v, found := Streaming, None;
      if !(e.call.handle.Some? && e.call.kind == Some(BASIC_FILE_INFORMATION)
           && e.call.handle.value in handles && e.call.times.Some?) {
        NothingApplied(e, b);
        NothingMimicked(b, e, records, handles, order, oldHandles);
        if e.call.handle.None? || e.call.kind.None? { v := Rejected; }
        return;
      }
      var info := handles[e.call.handle.value];
      ghost var i := LiveRecord(b, records, handles, order, oldHandles, e.call.handle.value);
      MimicsOfSet(b, e, i);
      ApplyTimes(e, b, info, i);
      RecordName(b + [e], records, handles, order, oldHandles, i);
      var source := Search(b + [e], info, i);
      MimicFromSource(b + [e], i, source);
      v, found := RecordPair(info, source);
    }

    method OnCall(e: Event<Call>) returns (v: Verdict)
      requires Valid()
      modifies this, records.Values
      ensures Valid() && history == old(history) + [e] && !v.Matched?
      ensures fresh(records.Values - old(records.Values))
    {
      hide Tables, Mimics, LastBlock, IsRecorded;
      EnterBlock(e.proc);
      LastBlockSnoc(history, e);
      ghost var b := BlockBefore(history, e.proc);
      ghost var found: Option<(string, string)> := None;
      match e.call {
        case Open(_, _, _) => v := OnOpen(e, b);
        case Close(_) => v := OnClose(e, b);
        case Query(_, _, _) => v := OnQuery(e, b);
        case Set(_, _, _) => v, found := OnSet(e, b);
        case Other =>
          NothingApplied(e, b);
          v := Streaming;
      }
      if !e.call.Set? { NoMimics(b, e); }
      RecordedSnoc(history, e, old(mimics), found);
      history := history + [e];
    }

    method OnComplete() returns (matched: bool, data: set<(string, string)>)
      requires Valid()
      ensures matched <==> data != {}
      ensures forall m :: m in data <==> exists b :: b in Views(history) && Mimics(b, m)
    {
      hide Mimics;
      matched, data := sawMimic, mimics;
    }
  }

  method StreamLog(sig: MimicsFiletime, log: ProcessLog<Call>)
    requires sig.Valid()
    modifies sig, sig.records.Values
    ensures sig.Valid() && sig.history == old(sig.history) + LogEvents(log)
    ensures fresh(sig.records.Values - old(sig.records.Values))
  {
    hide MimicsFiletime.Valid, Mimics;
    ghost var t := sig.history;
    assert t + LogEvents(log)[..0] == t;
    for j := 0 to |log.calls|
      invariant sig.Valid() && sig.history == t + LogEvents(log)[..j]
      invariant fresh(sig.records.Values - old(sig.records.Values))
    {
      var e := Event(log.proc, log.calls[j]);
      var v := sig.OnCall(e);
      StreamedNext(t, log, j);
    }
    assert LogEvents(log)[..|log.calls|] == LogEvents(log);
  }

  lemma StreamedNext(t: Trace, log: ProcessLog<Call>, j: nat)
    requires j < |log.calls|
    ensures t + LogEvents(log)[..j + 1] == t + LogEvents(log)[..j] + [Event(log.proc, log.calls[j])]
  {
  }

  /** The engine run over all process logs: what is reported is exactly what each process, looked at
      alone, mimics. */
  method Evaluate(logs: seq<ProcessLog<Call>>) returns (matched: bool, data: set<(string, string)>)
    requires DistinctProcesses(logs)
    ensures matched <==> data != {}
    ensures forall m :: m in data <==> exists b :: b in Prefixes(AllLogs(logs)) && Mimics(b, m)
  {
    hide MimicsFiletime.Valid, Mimics;
    var sig := new MimicsFiletime();
    for i := 0 to |logs|
      invariant sig.Valid() && fresh(sig) && fresh(sig.records.Values)
      invariant sig.history == Replayed(logs[..i])
    {
      assert Front(logs[..i + 1]) == logs[..i];
      StreamLog(sig, logs[i]);
    }
    assert logs[..|logs|] == logs;
    EngineLocality(logs);
    matched, data := sig.OnComplete();
  }

  /** The pair recorded for the outcome of a search and the name of the changed file. */
  ghost function PairOf(source: Search, name: Option<string>): Option<(string, string)> {
    if source.Found? && name.Some? && source.source != name.value && !IsExempt(name.value)
    then Some((source.source, name.value))
    else None
  }

  lemma MimicFromSource(b: Trace, i: nat, source: Search)
    requires SetsTimes(b, i) && IsNameOf(b, FirstStop(b, i, Candidates(b)), source)
    ensures MimicBy(b, i) == PairOf(source, NameOf(b, i))
  {
  }

  lemma NothingMimicked(b: Trace, e: Event<Call>, records: map<nat, HandleInfo>, handles: map<int, HandleInfo>,
                        order: seq<int>, oldHandles: seq<HandleInfo>)
    requires Structure(b, records, handles, order, oldHandles)
    requires forall h :: Applies(e.call, h) ==> h !in handles
    ensures forall m :: !Mimics(b + [e], m)
  {
    forall i: nat | Live(b, i) ensures !Applies(e.call, HandleOf(b, i)) {
      assert LiveAs(b, i, HandleOf(b, i));
    }
    NoMimics(b, e);
  }

  lemma RecordName(b: Trace, records: map<nat, HandleInfo>, handles: map<int, HandleInfo>,
                   order: seq<int>, oldHandles: seq<HandleInfo>, i: nat)
    requires Structure(b, records, handles, order, oldHandles) && i in records
    ensures Opened(b, i) && records[i].filename == NameOf(b, i)
  {
  }

  /** Applied times belong to exactly one live record. */
  lemma OneApplies(b: Trace, e: Event<Call>, records: map<nat, HandleInfo>, handles: map<int, HandleInfo>,
                   order: seq<int>, oldHandles: seq<HandleInfo>, i: nat)
    requires Structure(b, records, handles, order, oldHandles)
    requires i in records && Live(b, i) && Applies(e.call, HandleOf(b, i))
    ensures forall j: nat :: Live(b, j) && Applies(e.call, HandleOf(b, j)) ==> j == i
    ensures forall j :: j in records && j != i ==> records[j] != records[i]
  {
    forall j: nat | Live(b, j) && Applies(e.call, HandleOf(b, j)) ensures j == i {
      LiveUnique(b, i, j, HandleOf(b, i));
    }
  }

  ghost predicate IsNameOf(b: Trace, d: Option<nat>, source: Search) {
    match d
    case None => source.NotFound?
    case Some(r) => Opened(b, r) && source == if NameOf(b, r).None? then Raised else Found(NameOf(b, r).value)
  }

  lemma OrderCoversLive(b: Trace, records: map<nat, HandleInfo>, handles: map<int, HandleInfo>,
                        order: seq<int>, oldHandles: seq<HandleInfo>)
    requires Structure(b, records, handles, order, oldHandles)
    ensures |LiveList(b)| == |order|
  {
  }

  lemma RetiredObjects(b: Trace, records: map<nat, HandleInfo>, handles: map<int, HandleInfo>,
                       order: seq<int>, oldHandles: seq<HandleInfo>)
    requires Structure(b, records, handles, order, oldHandles)
    ensures IsRetired(oldHandles, RetiredList(b), records)
  {
  }

  lemma InDictionary(b: Trace, records: map<nat, HandleInfo>, handles: map<int, HandleInfo>,
                     order: seq<int>, oldHandles: seq<HandleInfo>, k: nat)
    requires Structure(b, records, handles, order, oldHandles) && k < |order|
    ensures |LiveList(b)| == |order| && LiveList(b)[k] in records
    ensures order[k] in handles && handles[order[k]] == records[LiveList(b)[k]]
  {
    LiveFromMeaning(b, 0);
    assert LiveList(b)[k] in LiveList(b);
    assert LiveAs(b, LiveList(b)[k], order[k]);
  }

  lemma LiveRecord(b: Trace, records: map<nat, HandleInfo>, handles: map<int, HandleInfo>,
                   order: seq<int>, oldHandles: seq<HandleInfo>, h: int) returns (i: nat)
    requires Structure(b, records, handles, order, oldHandles) && h in handles
    ensures LiveAs(b, i, h) && i in records && handles[h] == records[i]
  {
    i :| LiveAs(b, i, h);
  }
}
