/** The async-stop state machine of the MI debug engine's stopping-event
    processor, as values: the five states, the thread a synthetic
    stop-complete is sent for, and the sequential effect of each operation
    (its result, the state it leaves behind and the stop-completes it emits).
    The class in module Processor is proved against these step functions. */
module AsyncStop {

  /** `AsyncStopState`: the value kept in the processor's state field. */
  datatype AsyncStopState =
    | None                    // no async stop has been requested
    | Pending                 // an async stop request was sent to the debuggee
    | Sent                    // the stop has been (or is being) reported to the front end
    | StoppingEventInRoute    // a stopping event is about to be sent to the front end
    | StopProcessingComplete  // an event was routed; a stop-complete is still owed

  /** Identity of a debuggee thread (the engine's `IDebugThread2`). */
  type ThreadId = nat

  /** The `LastEventThread` reference, which may be null. */
  datatype ThreadRef = Null | Ref(id: ThreadId)

  /** The interface id of a sent event: the stop-complete event or any other. */
  datatype EventKind = StopCompleteEvent | OtherEvent

  /** The two exceptions the processor throws. */
  datatype Error =
    | InvalidState          // an operation observed a state it does not handle
    | NullLastEventThread   // a stop-complete had to be generated with no thread recorded

  datatype Result<T> = Ok(value: T) | Err(error: Error)

  /** What one operation does when it runs alone: its result, the state it
      leaves behind (also when it fails), and the threads it sends a
      generated stop-complete for, in order. */
  datatype Step<T> = Step(result: Result<T>, state: AsyncStopState, emitted: seq<ThreadId>)

  /** `SendGeneratedStopComplete`: the stop-complete it sends, or the error
      when no thread is recorded. */
  function GeneratedStopComplete(last: ThreadRef): (r: Result<seq<ThreadId>>)
    ensures r.Ok? <==> last.Ref?
    ensures r.Ok? ==> |r.value| == 1 && r.value[0] == last.id
    ensures r.Err? ==> r.error == NullLastEventThread
  {
    match last
    case Null => Err(NullLastEventThread)
    case Ref(t) => Ok([t])
  }

  /** `BeforeAsyncStop`: the result is true exactly when the caller has to
      send a real stop to the debuggee, which is exactly when no stop was
      being tracked. Afterwards a stop is always being tracked. A
      stop-complete is generated only for the recorded thread, and only when
      an event already went out while this stop was owed; it fails only when
      that stop-complete has no thread to go to. */
  function BeforeAsyncStopStep(s: AsyncStopState, last: ThreadRef): (r: Step<bool>)
    ensures r.result == Ok(true) <==> s == None
    ensures r.state == Pending || r.state == Sent
    ensures r.result.Err? <==> s == StopProcessingComplete && last == Null
    ensures r.result.Err? ==> r.result.error == NullLastEventThread
    ensures r.emitted != [] <==> s == StopProcessingComplete && last.Ref?
    ensures |r.emitted| <= 1 && forall t <- r.emitted :: last == Ref(t)
  {
    match s
    case None => Step(Ok(true), Pending, [])
    case Pending => Step(Ok(false), Pending, [])
    case Sent => Step(Ok(false), Sent, [])
    case StoppingEventInRoute => Step(Ok(false), Pending, [])
    case StopProcessingComplete =>
      match GeneratedStopComplete(last)
      case Ok(sent) => Step(Ok(false), Sent, sent)
      case Err(e) => Step(Err(e), Sent, [])
  }

  /** `UpdateAsyncStopStateAfterEventSent`, as written. After an event was sent
      no stop is left pending and the idle state is neither entered nor left.
      It succeeds exactly when there was nothing to do, when the event was
      routed before any stop was requested, or when the event sent was itself
      the stop-complete a pending stop waited for. Every stop-complete it
      generates is for the recorded thread and is followed by a failure. */
  function UpdateAfterEventSentStep(s: AsyncStopState, last: ThreadRef, event: EventKind): (r: Step<()>)
    ensures r.state != Pending
    ensures r.state == None <==> s == None
    ensures r.result.Ok? <==> s == None || s == StoppingEventInRoute || (s == Pending && event == StopCompleteEvent)
    ensures r.result.Err? && r.result.error == NullLastEventThread <==> s == Pending && event == OtherEvent && last == Null
    ensures r.emitted != [] <==> s == Pending && event == OtherEvent && last.Ref?
    ensures |r.emitted| <= 1 && forall t <- r.emitted :: last == Ref(t)
    ensures r.emitted != [] ==> r.result.Err?
  {
    match s
    case None => Step(Ok(()), None, [])
    case Pending =>
      match event {
        case StopCompleteEvent => Step(Ok(()), Sent, [])
        case OtherEvent =>
          match GeneratedStopComplete(last)
          // the loop runs again, reads Sent and reaches its default case
          case Ok(sent) => Step(Err(InvalidState), Sent, sent)
          case Err(e) => Step(Err(e), Sent, [])
      }
    case StoppingEventInRoute => Step(Ok(()), StopProcessingComplete, [])
    case Sent => Step(Err(InvalidState), Sent, [])
    case StopProcessingComplete => Step(Err(InvalidState), StopProcessingComplete, [])
  }

  /** `UpdateAsyncStopStateAfterEventSent` as its design evidently intends:
      the pending stop is answered by the generated stop-complete and the
      operation returns. It then fails only on a state it does not handle or
      for want of a thread, and a stop-complete it generates is never
      followed by a failure. */
  function UpdateAfterEventSentIntended(s: AsyncStopState, last: ThreadRef, event: EventKind): (r: Step<()>)
    ensures r.state != Pending
    ensures r.state == None <==> s == None
    ensures r.result.Ok? <==> s == None || s == StoppingEventInRoute || (s == Pending && (event == StopCompleteEvent || last.Ref?))
    ensures r.emitted != [] <==> s == Pending && event == OtherEvent && last.Ref?
    ensures |r.emitted| <= 1 && forall t <- r.emitted :: last == Ref(t)
    ensures r.emitted != [] ==> r.result.Ok?
  {
    match s
    case None => Step(Ok(()), None, [])
    case Pending =>
      match event {
        case StopCompleteEvent => Step(Ok(()), Sent, [])
        case OtherEvent =>
          match GeneratedStopComplete(last)
          case Ok(sent) => Step(Ok(()), Sent, sent)
          case Err(e) => Step(Err(e), Sent, [])
      }
    case StoppingEventInRoute => Step(Ok(()), StopProcessingComplete, [])
    case Sent => Step(Err(InvalidState), Sent, [])
    case StopProcessingComplete => Step(Err(InvalidState), StopProcessingComplete, [])
  }

  /** `BeforeSendingStoppingEvent`: the bookkeeping for an event in route is
      taken up only from the idle state; any tracked stop is left alone. */
  function BeforeSendingStep(s: AsyncStopState): (r: AsyncStopState)
    ensures r == StoppingEventInRoute <==> s == None || s == StoppingEventInRoute
    ensures r != s ==> s == None
  {
    if s == None then StoppingEventInRoute else s
  }

  // The operation tables, state by state.

  lemma BeforeAsyncStopTable(last: ThreadRef)
    ensures BeforeAsyncStopStep(None, last) == Step(Ok(true), Pending, [])
    ensures BeforeAsyncStopStep(Pending, last) == Step(Ok(false), Pending, [])
    ensures BeforeAsyncStopStep(Sent, last) == Step(Ok(false), Sent, [])
    ensures BeforeAsyncStopStep(StoppingEventInRoute, last) == Step(Ok(false), Pending, [])
    ensures last.Ref? ==> BeforeAsyncStopStep(StopProcessingComplete, last) == Step(Ok(false), Sent, [last.id])
    ensures last == Null ==> BeforeAsyncStopStep(StopProcessingComplete, last) == Step(Err(NullLastEventThread), Sent, [])
  {
  }

  lemma UpdateAfterEventSentTable(last: ThreadRef, event: EventKind)
    ensures UpdateAfterEventSentStep(None, last, event) == Step(Ok(()), None, [])
    ensures UpdateAfterEventSentStep(Pending, last, StopCompleteEvent) == Step(Ok(()), Sent, [])
    ensures last.Ref? ==> UpdateAfterEventSentStep(Pending, last, OtherEvent) == Step(Err(InvalidState), Sent, [last.id])
    ensures last == Null ==> UpdateAfterEventSentStep(Pending, last, OtherEvent) == Step(Err(NullLastEventThread), Sent, [])
    ensures UpdateAfterEventSentStep(StoppingEventInRoute, last, event) == Step(Ok(()), StopProcessingComplete, [])
    ensures UpdateAfterEventSentStep(Sent, last, event) == Step(Err(InvalidState), Sent, [])
    ensures UpdateAfterEventSentStep(StopProcessingComplete, last, event) == Step(Err(InvalidState), StopProcessingComplete, [])
  {
  }

  /** The path the design documents differently: a pending stop answered by
      a non-stop-complete event gets its generated stop-complete, is marked
      sent, and then the operation fails, where the corrected step succeeds
      with the same state and the same emission. */
  lemma PendingOtherEventFailsAfterEmitting(t: ThreadId)
    ensures UpdateAfterEventSentStep(Pending, Ref(t), OtherEvent) == Step(Err(InvalidState), Sent, [t])
    ensures UpdateAfterEventSentIntended(Pending, Ref(t), OtherEvent) == Step(Ok(()), Sent, [t])
  {
  }

  /** The corrected step differs from the one as written only in the result
      of that one path. */
  lemma IntendedDiffersOnlyThere(s: AsyncStopState, last: ThreadRef, event: EventKind)
    ensures UpdateAfterEventSentIntended(s, last, event).state == UpdateAfterEventSentStep(s, last, event).state
    ensures UpdateAfterEventSentIntended(s, last, event).emitted == UpdateAfterEventSentStep(s, last, event).emitted
    ensures UpdateAfterEventSentIntended(s, last, event) != UpdateAfterEventSentStep(s, last, event)
        <==> s == Pending && event == OtherEvent && last.Ref?
  {
  }

  lemma BeforeSendingTable()
    ensures BeforeSendingStep(None) == StoppingEventInRoute
    ensures BeforeSendingStep(Pending) == Pending
    ensures BeforeSendingStep(Sent) == Sent
    ensures BeforeSendingStep(StoppingEventInRoute) == StoppingEventInRoute
    ensures BeforeSendingStep(StopProcessingComplete) == StopProcessingComplete
  {
  }
}
