/** `AD7StoppingEventProcessor`: the object that coordinates async-stop
    requests with the stopping events the engine sends to the front end.
    Its state field is changed only through compare-and-exchange, inside
    retry loops that re-read a snapshot; each method is proved to have the
    effect its step function in module AsyncStop describes. The stop-complete
    notifications sent to the engine callback are recorded in a ghost log. */
module Processor {
  import opened AsyncStop

  class StoppingEventProcessor {
    var state: AsyncStopState
    var lastEventThread: ThreadRef
    /** The threads `OnStopComplete` has been called for, oldest first. */
    ghost var emitted: seq<ThreadId>

    constructor ()
      ensures state == None && lastEventThread == Null && emitted == []
    {
      state := None;
      lastEventThread := Null;
      emitted := [];
    }

    /** The `LastEventThread` setter. */
    method SetLastEventThread(value: ThreadRef)
      modifies this`lastEventThread
      ensures lastEventThread == value
    {
      if lastEventThread != value {
        lastEventThread := value;
      }
    }

    /** `CompareExchangeAsyncStopState`, as one atomic step: the exchange
        takes effect, and is reported, exactly when the state equals the
        comparand. */
    method CompareExchangeAsyncStopState(exchange: AsyncStopState, comparand: AsyncStopState) returns (swapped: bool)
      modifies this`state
      ensures swapped <==> old(state) == comparand
      ensures state == if swapped then exchange else old(state)
    {
      var original := state;
      if original == comparand {
        state := exchange;
      }
      swapped := original == comparand;
    }

    /** `SendGeneratedStopComplete`: one stop-complete for the recorded
        thread, or a failure and nothing sent when no thread is recorded. */
    method SendGeneratedStopComplete() returns (r: Result<()>)
      modifies this`emitted
      ensures r.Ok? <==> lastEventThread.Ref?
      ensures r.Err? ==> r.error == NullLastEventThread
      ensures emitted == if r.Ok? then old(emitted) + [lastEventThread.id] else old(emitted)
    {
      if lastEventThread == Null {
        return Err(NullLastEventThread);
      }
      emitted := emitted + [lastEventThread.id];
      r := Ok(());
    }

    /** `BeforeAsyncStop`: retries until a snapshot of the state is acted on;
        the result tells whether the caller must send a real stop. */
    method BeforeAsyncStop() returns (r: Result<bool>)
      modifies this`state, this`emitted
      ensures var step := BeforeAsyncStopStep(old(state), lastEventThread);
        r == step.result && state == step.state && emitted == old(emitted) + step.emitted
    {
      var decided := false;
      r := Ok(false);
      while !decided
        invariant !decided ==> state == old(state) && emitted == old(emitted)
        invariant decided ==> var step := BeforeAsyncStopStep(old(state), lastEventThread);
          r == step.result && state == step.state && emitted == old(emitted) + step.emitted
        decreases !decided
      {
        var snapshot := state;
        match snapshot
        case None =>
          var swapped := CompareExchangeAsyncStopState(Pending, snapshot);
          if swapped {
            r, decided := Ok(true), true;
          }
        case Pending =>
          r, decided := Ok(false), true;
        case Sent =>
          r, decided := Ok(false), true;
        case StoppingEventInRoute =>
          var swapped := CompareExchangeAsyncStopState(Pending, snapshot);
          if swapped {
            r, decided := Ok(false), true;
          }
        case StopProcessingComplete =>
          var swapped := CompareExchangeAsyncStopState(Sent, snapshot);
          if swapped {
            var sent := SendGeneratedStopComplete();
            r := if sent.Ok? then Ok(false) else Err(sent.error);
            decided := true;
          }
      }
    }

    /** `UpdateAsyncStopStateAfterEventSent`: retries until a snapshot of the
        state is acted on. A pending stop answered by any event other than
        the stop-complete gets a generated stop-complete, after which the
        loop reads the new state again. */
    method UpdateAsyncStopStateAfterEventSent(event: EventKind) returns (r: Result<()>)
      modifies this`state, this`emitted
      ensures var step := UpdateAfterEventSentStep(old(state), lastEventThread, event);
        r == step.result && state == step.state && emitted == old(emitted) + step.emitted
    {
      while true
        invariant (state == old(state) && emitted == old(emitted))
          || (old(state) == Pending && event == OtherEvent && lastEventThread.Ref?
              && state == Sent && emitted == old(emitted) + [lastEventThread.id])
        decreases if state == Pending then 1 else 0
      {
        var snapshot := state;
        match snapshot
        case None =>
          return Ok(());
        case Pending =>
          var swapped := CompareExchangeAsyncStopState(Sent, snapshot);
          if swapped {
            if event == StopCompleteEvent {
              return Ok(());
            } else {
              var sent := SendGeneratedStopComplete();
              if sent.Err? {
                return sent;
              }
            }
          }
        case StoppingEventInRoute =>
          var swapped := CompareExchangeAsyncStopState(StopProcessingComplete, snapshot);
          if swapped {
            return Ok(());
          }
        case Sent =>
          return Err(InvalidState);
        case StopProcessingComplete =>
          return Err(InvalidState);
      }
    }

    /** `BeforeSendingStoppingEvent`: marks an event as in route when no stop
        is being tracked. */
    method BeforeSendingStoppingEvent()
      modifies this`state
      ensures state == BeforeSendingStep(old(state))
    {
      var swapped := CompareExchangeAsyncStopState(StoppingEventInRoute, None);
    }

    /** `AfterSendingStoppingEvent`: the same effect as
        `UpdateAsyncStopStateAfterEventSent`. */
    method AfterSendingStoppingEvent(event: EventKind) returns (r: Result<()>)
      modifies this`state, this`emitted
      ensures var step := UpdateAfterEventSentStep(old(state), lastEventThread, event);
        r == step.result && state == step.state && emitted == old(emitted) + step.emitted
    {
      r := UpdateAsyncStopStateAfterEventSent(event);
    }

    /** `ClearStoppingEventState`: back to idle from any state. */
    method ClearStoppingEventState()
      modifies this`state
      ensures state == None
    {
      state := None;
    }
  }
}
