/** A debug session's stopping-event processor driven by a sequence of calls,
    one after another. A call that fails still leaves behind the state and
    the stop-completes it produced before failing, and the session goes on
    from there. The lemmas here state what the design promises across calls:
    between two resets only one async stop is ever sent to the debuggee, and
    every generated stop-complete answers an async-stop request. */
module Sessions {
  import opened AsyncStop

  /** The processor's operations, as the engine calls them. */
  datatype Op =
    | BeforeAsyncStop
    | BeforeSendingStoppingEvent
    | UpdateAsyncStopStateAfterEventSent(event: EventKind)
    | AfterSendingStoppingEvent(event: EventKind)
    | ClearStoppingEventState
    | SetLastEventThread(thread: ThreadRef)

  /** The processor's fields together with every stop-complete sent so far. */
  datatype Session = Session(state: AsyncStopState, lastEventThread: ThreadRef, emitted: seq<ThreadId>)

  /** The session after one call. */
  function Apply(m: Session, op: Op): Session
  {
    match op
    case BeforeAsyncStop =>
      var step := BeforeAsyncStopStep(m.state, m.lastEventThread);
      m.(state := step.state, emitted := m.emitted + step.emitted)
    case BeforeSendingStoppingEvent =>
      m.(state := BeforeSendingStep(m.state))
    case UpdateAsyncStopStateAfterEventSent(e) =>
      var step := UpdateAfterEventSentStep(m.state, m.lastEventThread, e);
      m.(state := step.state, emitted := m.emitted + step.emitted)
    case AfterSendingStoppingEvent(e) =>
      var step := UpdateAfterEventSentStep(m.state, m.lastEventThread, e);
      m.(state := step.state, emitted := m.emitted + step.emitted)
    case ClearStoppingEventState =>
      m.(state := None)
    case SetLastEventThread(t) =>
      m.(lastEventThread := t)
  }

  /** The session after a sequence of calls. */
  function Run(m: Session, ops: seq<Op>): Session
    decreases |ops|
  {
    if ops == [] then m else Run(Apply(m, ops[0]), ops[1..])
  }

  /** True when the call is an async-stop request that tells its caller to
      send a real stop to the debuggee. */
  predicate SendsRealStop(m: Session, op: Op)
  {
    op == BeforeAsyncStop && BeforeAsyncStopStep(m.state, m.lastEventThread).result == Ok(true)
  }

  /** How many calls of the sequence tell their caller to send a real stop. */
  function RealStops(m: Session, ops: seq<Op>): nat
    decreases |ops|
  {
    if ops == [] then 0
    else (if SendsRealStop(m, ops[0]) then 1 else 0) + RealStops(Apply(m, ops[0]), ops[1..])
  }

  /** How many async-stop requests the sequence makes. */
  function Requests(ops: seq<Op>): nat
    decreases |ops|
  {
    if ops == [] then 0 else (if ops[0] == BeforeAsyncStop then 1 else 0) + Requests(ops[1..])
  }

  predicate NoReset(ops: seq<Op>)
  {
    forall i :: 0 <= i < |ops| ==> ops[i] != ClearStoppingEventState
  }

  predicate NoThreadChange(ops: seq<Op>)
  {
    forall i :: 0 <= i < |ops| ==> !ops[i].SetLastEventThread?
  }

  /** 1 while a requested stop is pending, that is, still owed a stop-complete
      that no event has yet provided. */
  function Owed(s: AsyncStopState): nat
  {
    if s == Pending then 1 else 0
  }

  /** The log of stop-completes only grows. */
  lemma {:induction false} LogOnlyGrows(m: Session, ops: seq<Op>)
    ensures |m.emitted| <= |Run(m, ops).emitted|
    ensures Run(m, ops).emitted[..|m.emitted|] == m.emitted
    decreases |ops|
  {
    if ops != [] {
      var m' := Apply(m, ops[0]);
      assert m'.emitted[..|m.emitted|] == m.emitted;
      LogOnlyGrows(m', ops[1..]);
    }
  }

  /** Once a stop is being tracked, the processor goes back to idle only
      through a reset. */
  lemma {:induction false} NeverIdleWithoutReset(m: Session, ops: seq<Op>)
    requires m.state != None && NoReset(ops)
    ensures Run(m, ops).state != None
    decreases |ops|
  {
    if ops != [] {
      assert ops[0] != ClearStoppingEventState;
      NeverIdleWithoutReset(Apply(m, ops[0]), ops[1..]);
    }
  }

  /** Between two resets at most one call tells its caller to send a real
      stop, and none does once a stop is already tracked: concurrent
      requests from idle are answered by exactly one real stop. */
  lemma {:induction false} AtMostOneRealStop(m: Session, ops: seq<Op>)
    requires NoReset(ops)
    ensures RealStops(m, ops) <= if m.state == None then 1 else 0
    decreases |ops|
  {
    if ops != [] {
      var m' := Apply(m, ops[0]);
      assert NoReset(ops[1..]) by {
        forall i | 0 <= i < |ops[1..]| ensures ops[1..][i] != ClearStoppingEventState {
          assert ops[1..][i] == ops[i + 1];
        }
      }
      if m.state == None {
        if SendsRealStop(m, ops[0]) {
          NeverIdleWithoutReset(m', ops[1..]);
          NoRealStopOnceTracked(m', ops[1..]);
        } else {
          AtMostOneRealStop(m', ops[1..]);
        }
      } else {
        NoRealStopOnceTracked(m, ops);
      }
    }
  }

  /** No call tells its caller to send a real stop while a stop is tracked
      and no reset intervenes. */
  lemma {:induction false} NoRealStopOnceTracked(m: Session, ops: seq<Op>)
    requires m.state != None && NoReset(ops)
    ensures RealStops(m, ops) == 0
    decreases |ops|
  {
    if ops != [] {
      assert ops[0] != ClearStoppingEventState;
      NoRealStopOnceTracked(Apply(m, ops[0]), ops[1..]);
    }
  }

  /** From idle, the first async-stop request is the one that sends the
      real stop, whatever follows it up to the next reset. */
  lemma FirstRequestFromIdleSendsTheStop(m: Session, ops: seq<Op>)
    requires m.state == None && NoReset(ops) && ops != [] && ops[0] == BeforeAsyncStop
    ensures RealStops(m, ops) == 1
  {
    var m' := Apply(m, ops[0]);
    assert NoReset(ops[1..]) by {
      forall i | 0 <= i < |ops[1..]| ensures ops[1..][i] != ClearStoppingEventState {
        assert ops[1..][i] == ops[i + 1];
      }
    }
    NoRealStopOnceTracked(m', ops[1..]);
  }

  /** Every generated stop-complete answers an async-stop request: the
      stop-completes a sequence of calls generates, plus the stop it leaves
      pending, never exceed its requests plus the stop pending before it. */
  lemma {:induction false} StopCompletesAnswerRequests(m: Session, ops: seq<Op>)
    ensures |Run(m, ops).emitted| - |m.emitted| + Owed(Run(m, ops).state) <= Requests(ops) + Owed(m.state)
    decreases |ops|
  {
    if ops != [] {
      var m' := Apply(m, ops[0]);
      assert |m'.emitted| - |m.emitted| + Owed(m'.state) <= (if ops[0] == BeforeAsyncStop then 1 else 0) + Owed(m.state);
      StopCompletesAnswerRequests(m', ops[1..]);
    }
  }

  /** A stop-complete is generated only for the recorded thread: with no
      thread recorded none is ever generated, and with one recorded every
      generated stop-complete is for it, as long as the caller does not
      record another. */
  lemma {:induction false} StopCompletesGoToLastEventThread(m: Session, ops: seq<Op>)
    requires NoThreadChange(ops)
    ensures |m.emitted| <= |Run(m, ops).emitted|
    ensures m.lastEventThread == Null ==> Run(m, ops).emitted == m.emitted
    ensures forall i :: |m.emitted| <= i < |Run(m, ops).emitted| ==> m.lastEventThread == Ref(Run(m, ops).emitted[i])
    decreases |ops|
  {
    if ops != [] {
      var m' := Apply(m, ops[0]);
      assert !ops[0].SetLastEventThread?;
      assert NoThreadChange(ops[1..]) by {
        forall i | 0 <= i < |ops[1..]| ensures !ops[1..][i].SetLastEventThread? {
          assert ops[1..][i] == ops[i + 1];
        }
      }
      StopCompletesGoToLastEventThread(m', ops[1..]);
      LogOnlyGrows(m', ops[1..]);
      var r := Run(m', ops[1..]);
      assert Run(m, ops) == r;
      forall i | |m.emitted| <= i < |r.emitted| ensures m.lastEventThread == Ref(r.emitted[i]) {
        if i < |m'.emitted| {
          assert r.emitted[i] == r.emitted[..|m'.emitted|][i] == m'.emitted[i];
        }
      }
    }
  }

  /** `AfterSendingStoppingEvent` and `UpdateAsyncStopStateAfterEventSent`
      are interchangeable anywhere in a session. */
  lemma {:induction false} AfterSendingIsUpdate(m: Session, before: seq<Op>, after: seq<Op>, e: EventKind)
    ensures Run(m, before + [AfterSendingStoppingEvent(e)] + after)
         == Run(m, before + [UpdateAsyncStopStateAfterEventSent(e)] + after)
    decreases |before|
  {
    if before == [] {
      assert ([] + [AfterSendingStoppingEvent(e)] + after)[1..] == after;
      assert ([] + [UpdateAsyncStopStateAfterEventSent(e)] + after)[1..] == after;
    } else {
      assert (before + [AfterSendingStoppingEvent(e)] + after)[1..] == before[1..] + [AfterSendingStoppingEvent(e)] + after;
      assert (before + [UpdateAsyncStopStateAfterEventSent(e)] + after)[1..] == before[1..] + [UpdateAsyncStopStateAfterEventSent(e)] + after;
      AfterSendingIsUpdate(Apply(m, before[0]), before[1..], after, e);
    }
  }

  /** A reset is idempotent and touches neither the recorded thread nor the
      stop-completes already sent. */
  lemma ResetIsIdempotent(m: Session)
    ensures Run(m, [ClearStoppingEventState, ClearStoppingEventState]) == Run(m, [ClearStoppingEventState])
    ensures Run(m, [ClearStoppingEventState]) == Session(None, m.lastEventThread, m.emitted)
  {
    assert [ClearStoppingEventState, ClearStoppingEventState][1..] == [ClearStoppingEventState];
  }

  /** Recording a thread changes nothing but the recorded thread. */
  lemma RecordingThreadChangesNothingElse(m: Session, t: ThreadRef)
    ensures Run(m, [SetLastEventThread(t)]) == Session(m.state, t, m.emitted)
  {
  }
}
