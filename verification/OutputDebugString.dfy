/** OutputDebugString right after SetLastError: two flags that are never reset between processes. */
module OutputDebugString {
  import opened PyModel
  import opened Traces

  datatype Call = OutputDebug | SetLastError | GetLastError

  type Trace = seq<Event<Call>>

  /** The last SetLastError of the trace is at position i. */
  ghost predicate LastSetAt(t: Trace, i: nat) {
    i < |t| && t[i].call.SetLastError? && forall j :: i < j < |t| ==> !t[j].call.SetLastError?
  }

  /** The call right after the last SetLastError is an OutputDebugString. */
  ghost predicate Fires(t: Trace) {
    exists i: nat :: LastSetAt(t, i) && i + 1 < |t| && t[i + 1].call.OutputDebug?
  }

  /** There is a SetLastError, and nothing but an OutputDebugString directly follows the last one. */
  ghost predicate Armed(t: Trace) {
    exists i: nat :: LastSetAt(t, i) && (i + 1 < |t| ==> t[i + 1].call.OutputDebug?)
  }

  /** The marked calls, by pid: every SetLastError, and every OutputDebugString that finds the
      automaton armed. */
  ghost function Marks(t: Trace): seq<nat> {
    if t == [] then []
    else if Last(t).proc.id != 0
            && (Last(t).call.SetLastError? || (Last(t).call.OutputDebug? && Armed(Front(t))))
    then Marks(Front(t)) + [Last(t).proc.id]
    else Marks(Front(t))
  }

  /** Call by call: an OutputDebugString right after a SetLastError that no other one follows. */
  lemma FiresInFull(t: Trace)
    ensures Fires(t) <==> exists i: nat, k: nat ::
      && i + 1 == k < |t| && t[i].call == SetLastError && t[k].call == OutputDebug
      && forall j: nat :: k < j < |t| ==> t[j].call != SetLastError
  {
    if i: nat :| LastSetAt(t, i) && i + 1 < |t| && t[i + 1].call.OutputDebug? {
      assert t[i].call == SetLastError && t[i + 1].call == OutputDebug;
    }
    if i: nat, k: nat :|
      && i + 1 == k < |t| && t[i].call == SetLastError && t[k].call == OutputDebug
      && forall j: nat :: k < j < |t| ==> t[j].call != SetLastError
    {
      assert LastSetAt(t, i);
    }
  }

  lemma LastSetUnique(t: Trace, i: nat, j: nat)
    requires LastSetAt(t, i) && LastSetAt(t, j)
    ensures i == j
  {
  }

  lemma LastSetSnoc(t: Trace, e: Event<Call>, i: nat)
    ensures LastSetAt(t + [e], i) <==> (if e.call.SetLastError? then i == |t| else LastSetAt(t, i))
  {
    var u := t + [e];
    assert u[|t|] == e;
    assert forall j :: 0 <= j < |t| ==> u[j] == t[j];
  }

  /** One more call: SetLastError arms, OutputDebugString fires when armed, and GetLastError disarms
      everything that has not fired yet. */
  lemma FlagsSnoc(t: Trace, e: Event<Call>)
    ensures Armed(t + [e]) <==>
            e.call.SetLastError? || (Armed(t) && (e.call.OutputDebug? || Fires(t)))
    ensures Fires(t + [e]) <==>
            !e.call.SetLastError? && (Fires(t) || (Armed(t) && e.call.OutputDebug?))
  {
    var u := t + [e];
    forall i { LastSetSnoc(t, e, i); }
    hide LastSetAt;
    if e.call.SetLastError? {
      assert LastSetAt(u, |t|);
    } else {
      if Armed(t) {
        var i: nat :| LastSetAt(t, i) && (i + 1 < |t| ==> t[i + 1].call.OutputDebug?);
        LastSetBounds(t, i);
        assert LastSetAt(u, i);
        assert i + 1 < |t| ==> u[i + 1] == t[i + 1];
        forall j: nat | LastSetAt(u, j) ensures j == i {
          LastSetUnique(t, i, j);
        }
      }
      if i: nat :| LastSetAt(u, i) && (i + 1 < |u| ==> u[i + 1].call.OutputDebug?) {
        LastSetBounds(t, i);
        assert LastSetAt(t, i);
        assert i + 1 < |t| ==> u[i + 1] == t[i + 1];
      }
    }
  }

  lemma LastSetBounds(t: Trace, i: nat)
    requires LastSetAt(t, i)
    ensures i < |t|
  {
  }

  // ---- which process a match comes from ----

  ghost predicate HasSet(b: Trace) { exists e :: e in b && e.call.SetLastError? }

  /** Block k is the last one with a SetLastError. */
  ghost predicate LastSetBlock(bs: seq<Trace>, k: nat) {
    k < |bs| && HasSet(bs[k]) && forall j :: k < j < |bs| ==> !HasSet(bs[j])
  }

  /** Block k ends with a SetLastError, and the next one starts with an OutputDebugString. */
  ghost predicate HandsOver(bs: seq<Trace>, k: nat) {
    && k + 1 < |bs| && bs[k] != [] && bs[k + 1] != []
    && Last(bs[k]).call.SetLastError? && bs[k + 1][0].call.OutputDebug?
  }

  ghost predicate BlockFires(bs: seq<Trace>) { exists j :: 0 <= j < |bs| && Fires(bs[j]) }

  /** A block with a SetLastError makes everything before it irrelevant. */
  lemma FiresInLastBlock(t: Trace, b: Trace)
    requires HasSet(b)
    ensures Fires(t + b) <==> Fires(b)
  {
    var u := t + b;
    assert forall j :: 0 <= j < |b| ==> u[|t| + j] == b[j];
    if i: nat :| LastSetAt(b, i) && i + 1 < |b| && b[i + 1].call.OutputDebug? {
      assert forall j :: |t| + i < j < |u| ==> u[j] == b[j - |t|];
      assert LastSetAt(u, |t| + i) && u[|t| + i + 1] == b[i + 1];
    }
    if i: nat :| LastSetAt(u, i) && i + 1 < |u| && u[i + 1].call.OutputDebug? {
      var e :| e in b && e.call.SetLastError?;
      var k :| 0 <= k < |b| && b[k] == e;
      assert u[|t| + k] == e;
      assert LastSetAt(b, i - |t|) && u[i + 1] == b[i + 1 - |t|];
    }
  }

  /** A block without one can only answer a SetLastError that comes right before it. */
  lemma FiresAcross(t: Trace, b: Trace)
    requires !HasSet(b) && b != []
    ensures Fires(t + b) <==> Fires(t) || (t != [] && Last(t).call.SetLastError? && b[0].call.OutputDebug?)
  {
    var u := t + b;
    assert forall j :: 0 <= j < |b| ==> b[j] in b;
    assert forall j :: |t| <= j < |u| ==> u[j] == b[j - |t|];
    assert forall j :: 0 <= j < |t| ==> u[j] == t[j];
    forall i: nat ensures LastSetAt(u, i) <==> LastSetAt(t, i) {
      SetOnlyBefore(t, b, i);
    }
    hide LastSetAt;
    if i: nat :| LastSetAt(t, i) && i + 1 < |t| && t[i + 1].call.OutputDebug? {
      assert LastSetAt(u, i) && u[i + 1] == t[i + 1];
    }
    if i: nat :| LastSetAt(u, i) && i + 1 < |u| && u[i + 1].call.OutputDebug? {
      LastSetBounds(t, i);
    }
    if t != [] && Last(t).call.SetLastError? && b[0].call.OutputDebug? {
      LastSetIsLast(t);
      assert LastSetAt(u, |t| - 1) && u[|t|] == b[0];
    }
  }

  lemma SetOnlyBefore(t: Trace, b: Trace, i: nat)
    requires !HasSet(b)
    ensures LastSetAt(t + b, i) <==> LastSetAt(t, i)
  {
    var u := t + b;
    assert forall j :: |t| <= j < |u| ==> u[j] == b[j - |t|] && u[j] in b;
    assert forall j :: 0 <= j < |t| ==> u[j] == t[j];
  }

  lemma LastSetIsLast(t: Trace)
    requires t != [] && Last(t).call.SetLastError?
    ensures LastSetAt(t, |t| - 1)
  {
  }

  lemma {:induction false} ConcatFires(bs: seq<Trace>, k: nat)
    requires LastSetBlock(bs, k) && forall j :: 0 <= j < |bs| ==> bs[j] != []
    ensures Fires(Concat(bs)) <==> Fires(bs[k]) || HandsOver(bs, k)
  {
    hide Fires, HasSet;
    var front, last := Front(bs), Last(bs);
    if k == |bs| - 1 {
      FiresInLastBlock(Concat(front), last);
    } else {
      ConcatFires(front, k);
      FiresAcross(Concat(front), last);
      ConcatEnds(front);
      assert Last(Concat(front)) == Last(Last(front));
      if |bs| - 2 > k { NoSetAtEnd(Last(front)); }
    }
  }

  lemma NoSetAtEnd(b: Trace)
    requires !HasSet(b) && b != []
    ensures !Last(b).call.SetLastError?
  {
    assert Last(b) in b;
  }

  lemma ConcatEnds(bs: seq<Trace>)
    requires bs != [] && Last(bs) != []
    ensures Concat(bs) != [] && Last(Concat(bs)) == Last(Last(bs))
  {
  }

  /** The last block with a SetLastError decides: the trace fires exactly when that block fires on its
      own, or hands over to the next process. The blocks before it are forgotten. */
  lemma FiresByBlocks(t: Trace, k: nat)
    requires LastSetBlock(Blocks(t), k)
    ensures Fires(t) <==> Fires(Blocks(t)[k]) || HandsOver(Blocks(t), k)
    ensures HandsOver(Blocks(t), k) ==> !Fires(Blocks(t)[k])
  {
    BlocksPartition(t);
    ConcatFires(Blocks(t), k);
    if HandsOver(Blocks(t), k) { LastSetIsLast(Blocks(t)[k]); }
  }

  /** Exactly when the trace and its blocks disagree. A match without a firing block is a hand-over
      after blocks that do not fire; a firing block without a match is an earlier block forgotten by
      a last one that neither fires nor hands over. */
  lemma LocalityFails(t: Trace, k: nat)
    requires LastSetBlock(Blocks(t), k)
    ensures Fires(t) && !BlockFires(Blocks(t)) <==>
            HandsOver(Blocks(t), k) && !BlockFires(Blocks(t)[..k])
    ensures !Fires(t) && BlockFires(Blocks(t)) <==>
            BlockFires(Blocks(t)[..k]) && !Fires(Blocks(t)[k]) && !HandsOver(Blocks(t), k)
  {
    hide Fires, Blocks;
    var bs := Blocks(t);
    FiresByBlocks(t, k);
    forall j | k < j < |bs| ensures !Fires(bs[j]) { FiringHasSet(bs[j]); }
    assert forall j :: 0 <= j < k ==> bs[..k][j] == bs[j];
    if BlockFires(bs) {
      var j :| 0 <= j < |bs| && Fires(bs[j]);
      assert j < k ==> Fires(bs[..k][j]);
    }
    if BlockFires(bs[..k]) {
      var j :| 0 <= j < |bs[..k]| && Fires(bs[..k][j]);
      assert Fires(bs[j]);
    }
  }

  lemma FiringHasSet(b: Trace)
    ensures Fires(b) ==> HasSet(b)
  {
    if i: nat :| LastSetAt(b, i) && i + 1 < |b| && b[i + 1].call.OutputDebug? { assert b[i] in b; }
  }

  /** The last block with a SetLastError exists exactly when there is any SetLastError, so together with
      the next lemma every trace is covered. */
  lemma SetHasBlock(t: Trace)
    ensures HasSet(t) <==> exists k: nat :: LastSetBlock(Blocks(t), k)
  {
    hide Blocks;
    BlocksPartition(t);
    if HasSet(t) { SetInSomeBlock(Blocks(t)); }
    if k: nat :| LastSetBlock(Blocks(t), k) {
      ConcatHolds(Blocks(t), k);
    }
  }

  lemma {:induction false} SetInSomeBlock(bs: seq<Trace>)
    requires HasSet(Concat(bs))
    ensures exists k: nat :: LastSetBlock(bs, k)
  {
    var front, last := Front(bs), Last(bs);
    if HasSet(last) {
      assert LastSetBlock(bs, |bs| - 1);
    } else {
      assert HasSet(Concat(front));
      SetInSomeBlock(front);
      var k: nat :| LastSetBlock(front, k);
      assert LastSetBlock(bs, k);
    }
  }

  /** Without any SetLastError, trace and blocks agree: nothing fires. */
  lemma NoSetNoMatch(t: Trace)
    requires !HasSet(t)
    ensures !Fires(t) && !BlockFires(Blocks(t))
  {
    hide Blocks;
    BlocksPartition(t);
    FiringHasSet(t);
    forall j | 0 <= j < |Blocks(t)| ensures !Fires(Blocks(t)[j]) {
      FiringHasSet(Blocks(t)[j]);
      ConcatHolds(Blocks(t), j);
    }
  }

  lemma {:induction false} ConcatHolds(bs: seq<Trace>, j: nat)
    requires j < |bs|
    ensures forall e :: e in bs[j] ==> e in Concat(bs)
  {
    if j < |bs| - 1 { ConcatHolds(Front(bs), j); }
  }

  /** At the moment of a match, the current block fires exactly when both calls came from one process. */
  lemma MatchIsLocal(t: Trace, i: nat)
    requires LastSetAt(t, i) && i + 1 < |t| && t[i + 1].call.OutputDebug?
    ensures Fires(LastBlock(t[..i + 2])) <==> t[i].proc == t[i + 1].proc
  {
    var u := t[..i + 2];
    var e, f := t[i], t[i + 1];
    assert u == t[..i] + [e] + [f];
    LastBlockSnoc(t[..i] + [e], f);
    LastBlockSnoc(t[..i], e);
    FlagsSnoc(BlockBefore(t[..i] + [e], f.proc), f);
    var before := BlockBefore(t[..i], e.proc);
    FlagsSnoc(before, e);
    assert [] + [f] == [f];
  }

  lemma TwoBlocks(b: Trace, c: Trace)
    requires b != [] && c != [] && Uniform(b, b[0].proc) && Uniform(c, c[0].proc) && b[0].proc != c[0].proc
    ensures Blocks(b + c) == [b, c]
  {
    BlocksAppendLog(b, c, c[0].proc);
    BlocksAppendLog([], b, b[0].proc);
    assert [] + b == b;
  }

  /** Both kinds of disagreement occur, for any two processes: one sets the error and the other one
      prints; or one does both and the other one sets the error again. */
  lemma BothDisagreements(p: Process, q: Process) returns (t: Trace, u: Trace)
    requires p != q
    ensures Fires(t) && !BlockFires(Blocks(t))
    ensures !Fires(u) && BlockFires(Blocks(u))
  {
    hide Fires, Blocks, Armed;
    var set_, print_ := Event(p, SetLastError), Event(p, OutputDebug);
    FlagsOfOne(set_);
    FlagsOfOne(Event(q, OutputDebug));
    FlagsSnoc([set_], print_);
    FlagsSnoc([set_], Event(q, OutputDebug));
    FlagsSnoc([set_, print_], Event(q, SetLastError));
    FlagsOfOne(Event(q, SetLastError));
    t, u := [set_] + [Event(q, OutputDebug)], [set_, print_] + [Event(q, SetLastError)];
    assert [set_, print_] == [set_] + [print_];
    TwoBlocks([set_], [Event(q, OutputDebug)]);
    TwoBlocks([set_, print_], [Event(q, SetLastError)]);
    assert Blocks(u)[0] == [set_, print_];
  }

  lemma FlagsOfOne(e: Event<Call>)
    ensures !Fires([e]) && (Armed([e]) <==> e.call.SetLastError?)
  {
    FlagsSnoc([], e);
    assert [] + [e] == [e];
  }

  class OutputDebugString {
    var setErr: bool
    var output: bool
    var data: seq<nat>
    ghost var history: Trace

    ghost predicate Valid()
      reads this
    {
      && setErr == Armed(history)
      && output == Fires(history)
      && data == Marks(history)
    }

    constructor ()
      ensures Valid() && history == []
    {
      setErr, output, data, history := false, false, [], [];
    }

    method OnCall(e: Event<Call>)
      requires Valid()
      modifies this
      ensures Valid() && history == old(history) + [e]
    {
      hide Armed, Fires;
      FlagsSnoc(history, e);
      FiresImpliesArmed(history);
      assert Front(history + [e]) == history;
      match e.call {
      case OutputDebug =>
        if setErr {
          output := true;
          if e.proc.id != 0 { data := data + [e.proc.id]; }
        } else {
          output := false;
        }
      case SetLastError =>
        output := false;
        setErr := true;
        if e.proc.id != 0 { data := data + [e.proc.id]; }
      case GetLastError =>
        if !setErr || !output { setErr, output := false, false; }
      }
      history := history + [e];
    }

    method OnComplete() returns (matched: bool)
      requires Valid()
      ensures matched <==> Fires(history)
    {
      FiresImpliesArmed(history);
      matched := setErr && output;
    }
  }

  lemma FiresImpliesArmed(t: Trace)
    ensures Fires(t) ==> Armed(t)
  {
  }

  /** The whole run. */
  method Evaluate(t: Trace) returns (matched: bool, marks: seq<nat>)
    ensures matched <==> exists i: nat :: LastSetAt(t, i) && i + 1 < |t| && t[i + 1].call.OutputDebug?
    ensures marks == Marks(t)
  {
    var sig := new OutputDebugString();
    for i := 0 to |t|
      invariant sig.Valid() && sig.history == t[..i] && fresh(sig)
    {
      sig.OnCall(t[i]);
    }
    assert t[..|t|] == t;
    matched := sig.OnComplete();
    marks := sig.data;
  }
}
