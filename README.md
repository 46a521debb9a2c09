# Async-stop coordination of the MI debug engine

This project models `AD7StoppingEventProcessor`, the part of the MI debug
engine that coordinates "async stop" requests with the stopping events the
engine sends to the front end (the session debug manager). The processor
keeps one `AsyncStopState` (`None`, `Pending`, `Sent`, `StoppingEventInRoute`,
`StopProcessingComplete`) and the thread of the last stopping event. Its
operations are:
- `BeforeAsyncStop`, which says whether a real stop must be sent to the debuggee;
- `BeforeSendingStoppingEvent`, and `UpdateAsyncStopStateAfterEventSent` /
  `AfterSendingStoppingEvent`, which bracket every stopping event;
- `ClearStoppingEventState`, which resets.

Some transitions owe the front end a stop-complete that no event supplies.
In those the processor generates one for the last event's thread.

The project has three modules:
- `AsyncStop` (async_stop_state.dfy): the states, the thread reference, the
  event kind and the two error kinds. It also holds one step function per
  operation. A step function gives what the operation does when it runs
  alone: its result, the state it leaves, and the threads it sends a
  generated stop-complete for. The contracts of the step functions carry the
  operation tables.
- `Processor` (stopping_event_processor.dfy): the class
  `StoppingEventProcessor`. Its fields are `state` and `lastEventThread`, and
  a ghost `emitted` log stands for the calls to the engine callback's
  `OnStopComplete`. Each method uses compare-and-exchange retry loops like the
  C# code, and is proved to have exactly the effect of its step function.
- `Sessions` (session_traces.dfy): the processor driven by any sequence of
  calls. Lemmas proved by induction over the sequence state what holds
  across calls:
  - between two resets at most one call is told to send a real stop;
  - from idle, the first request is that call;
  - the state returns to idle only through a reset;
  - generated stop-completes never outnumber async-stop requests;
  - stop-completes go only to the recorded thread;
  - `AfterSendingStoppingEvent` can replace `UpdateAsyncStopStateAfterEventSent` anywhere.

Errors are results, not preconditions. `Err(InvalidState)` stands for the
`default:` throws and `Err(NullLastEventThread)` for the throw in
`SendGeneratedStopComplete`. A failing call still leaves behind the state it
had already written and the stop-complete it had already sent.

The design description and the code disagree on one path, and the model
follows the code. Take `UpdateAsyncStopStateAfterEventSent` on a `Pending`
state with an event other than the stop-complete event. The design says it
moves to `Sent`, emits one stop-complete and returns. The code does the
compare-and-exchange to `Sent` and sends the stop-complete. Its `break` then
leaves the `switch` but not the loop. The loop reads `Sent` and throws from
its `default:` case. The class and the `Sessions` lemmas use the code's
behaviour. The intended behaviour is defined beside it and compared under
"## Findings".

## Model

| member | source | states |
|---|---|---|
| AsyncStop.GeneratedStopComplete | src/MIDebugEngine/AD7.Impl/AD7StoppingEventProcessor.cs:148-156 | Succeeds exactly when a thread is recorded, and then yields exactly one stop-complete, for that thread. Otherwise it fails with the null-thread error. |
| AsyncStop.BeforeAsyncStopStep | src/MIDebugEngine/AD7.Impl/AD7StoppingEventProcessor.cs:53-91 | Returns true exactly from `None`. Afterwards the state is always `Pending` or `Sent`. It fails exactly from `StopProcessingComplete` with no thread recorded. It emits at most one stop-complete, for the recorded thread, and does so exactly from `StopProcessingComplete` with a thread. |
| AsyncStop.UpdateAfterEventSentStep | src/MIDebugEngine/AD7.Impl/AD7StoppingEventProcessor.cs:93-129 | As written: never leaves `Pending` behind, and enters or leaves `None` never. Succeeds exactly from `None`, from `StoppingEventInRoute`, or from `Pending` with the stop-complete event. Emits at most one stop-complete, for the recorded thread, exactly from `Pending` with another event and a thread. Every emission is followed by a failure. |
| AsyncStop.UpdateAfterEventSentIntended | src/MIDebugEngine/AD7.Impl/AD7StoppingEventProcessor.cs:104-116 | Corrected step: the same states and emissions as the step as written. It succeeds from `Pending` whenever the event is the stop-complete or a thread is recorded, and an emission is never followed by a failure. |
| AsyncStop.BeforeSendingStep | src/MIDebugEngine/AD7.Impl/AD7StoppingEventProcessor.cs:131-135 | The result is `StoppingEventInRoute` exactly from `None` or `StoppingEventInRoute`. No other state is changed. |
| AsyncStop.BeforeAsyncStopTable | src/MIDebugEngine/AD7.Impl/AD7StoppingEventProcessor.cs:61-85 | The table state by state: `None` gives `Pending` and true; `Pending` and `Sent` give false with no change; `StoppingEventInRoute` gives `Pending` and false; `StopProcessingComplete` gives `Sent` and false with one stop-complete for the thread, or `Sent` and the null-thread error. Nothing else is emitted. |
| AsyncStop.UpdateAfterEventSentTable | src/MIDebugEngine/AD7.Impl/AD7StoppingEventProcessor.cs:99-127 | The table state by state: `None` is a no-op. `Pending` with the stop-complete event gives `Sent` with no emission. With another event it gives `Sent`, one stop-complete and then the invalid-state error, or the null-thread error. `StoppingEventInRoute` gives `StopProcessingComplete`. `Sent` and `StopProcessingComplete` fail unchanged. |
| AsyncStop.PendingOtherEventFailsAfterEmitting | src/MIDebugEngine/AD7.Impl/AD7StoppingEventProcessor.cs:104-126 | From `Pending` with a thread and an event other than the stop-complete, the step as written emits one stop-complete, leaves `Sent` and fails. The corrected step gives the same state and emission and succeeds. |
| AsyncStop.IntendedDiffersOnlyThere | src/MIDebugEngine/AD7.Impl/AD7StoppingEventProcessor.cs:113-116 | The corrected step agrees with the step as written on state and emissions everywhere. It differs exactly on `Pending` with another event and a recorded thread. |
| AsyncStop.BeforeSendingTable | src/MIDebugEngine/AD7.Impl/AD7StoppingEventProcessor.cs:131-135 | `None` becomes `StoppingEventInRoute`; every other state is left unchanged. |
| Processor.StoppingEventProcessor.constructor | src/MIDebugEngine/AD7.Impl/AD7StoppingEventProcessor.cs:24-51 | A new processor is idle, has no recorded thread and has sent no stop-complete. |
| Processor.StoppingEventProcessor.SetLastEventThread | src/MIDebugEngine/AD7.Impl/AD7StoppingEventProcessor.cs:38-44 | The getter then returns the new value. The frame leaves the state and the log unchanged. |
| Processor.StoppingEventProcessor.CompareExchangeAsyncStopState | src/MIDebugEngine/AD7.Impl/AD7StoppingEventProcessor.cs:142-146 | Succeeds, and writes the new state, exactly when the state equals the comparand. Otherwise nothing changes. |
| Processor.StoppingEventProcessor.SendGeneratedStopComplete | src/MIDebugEngine/AD7.Impl/AD7StoppingEventProcessor.cs:148-156 | With a recorded thread, appends exactly one entry, that thread, to the log. Otherwise it fails with the null-thread error and logs nothing. |
| Processor.StoppingEventProcessor.BeforeAsyncStop | src/MIDebugEngine/AD7.Impl/AD7StoppingEventProcessor.cs:53-91 | The retry loop's result, new state and new log entries are exactly those of `BeforeAsyncStopStep` on the old state. |
| Processor.StoppingEventProcessor.UpdateAsyncStopStateAfterEventSent | src/MIDebugEngine/AD7.Impl/AD7StoppingEventProcessor.cs:93-129 | The retry loop, including its second pass after a generated stop-complete, has exactly the result, new state and new log entries of `UpdateAfterEventSentStep`. |
| Processor.StoppingEventProcessor.BeforeSendingStoppingEvent | src/MIDebugEngine/AD7.Impl/AD7StoppingEventProcessor.cs:131-135 | The new state is `BeforeSendingStep` of the old. Nothing is logged. |
| Processor.StoppingEventProcessor.AfterSendingStoppingEvent | src/MIDebugEngine/AD7.Impl/AD7StoppingEventProcessor.cs:137-140 | Exactly the same result, state and log entries as `UpdateAsyncStopStateAfterEventSent`. |
| Processor.StoppingEventProcessor.ClearStoppingEventState | src/MIDebugEngine/AD7.Impl/AD7StoppingEventProcessor.cs:158-161 | The state is `None` from any state. The frame leaves the recorded thread and the log unchanged. |
| Sessions.LogOnlyGrows | src/MIDebugEngine/AD7.Impl/AD7StoppingEventProcessor.cs:148-156 | Across any sequence of calls, the stop-completes already sent stay a prefix of the log. |
| Sessions.NeverIdleWithoutReset | src/MIDebugEngine/AD7.Impl/AD7StoppingEventProcessor.cs:53-135 | Once a stop is tracked, no sequence of calls without `ClearStoppingEventState` brings the state back to `None`. |
| Sessions.NoRealStopOnceTracked | src/MIDebugEngine/AD7.Impl/AD7StoppingEventProcessor.cs:61-70 | While a stop is tracked and no reset happens, no call to `BeforeAsyncStop` returns true. |
| Sessions.AtMostOneRealStop | src/MIDebugEngine/AD7.Impl/AD7StoppingEventProcessor.cs:53-91 | Between two resets at most one call returns true, and none does when the sequence starts with a stop already tracked. |
| Sessions.FirstRequestFromIdleSendsTheStop | src/MIDebugEngine/AD7.Impl/AD7StoppingEventProcessor.cs:61-66 | From idle, a sequence without reset that starts with `BeforeAsyncStop` has exactly one call returning true. |
| Sessions.StopCompletesAnswerRequests | src/MIDebugEngine/AD7.Impl/AD7StoppingEventProcessor.cs:53-129 | Over any sequence of calls: generated stop-completes plus the stop left pending never exceed async-stop requests plus the stop pending at the start. |
| Sessions.StopCompletesGoToLastEventThread | src/MIDebugEngine/AD7.Impl/AD7StoppingEventProcessor.cs:148-156 | While no other thread is recorded, every new stop-complete is for the recorded thread. With none recorded, none is ever sent. |
| Sessions.AfterSendingIsUpdate | src/MIDebugEngine/AD7.Impl/AD7StoppingEventProcessor.cs:137-140 | Replacing `AfterSendingStoppingEvent(e)` with `UpdateAsyncStopStateAfterEventSent(e)` anywhere in a sequence of calls gives the same session. |
| Sessions.ResetIsIdempotent | src/MIDebugEngine/AD7.Impl/AD7StoppingEventProcessor.cs:158-161 | A reset leaves `None` with the thread and the log untouched. A second reset changes nothing. |
| Sessions.RecordingThreadChangesNothingElse | src/MIDebugEngine/AD7.Impl/AD7StoppingEventProcessor.cs:38-44 | Recording a thread changes the recorded thread and nothing else. |

## Left out

- Concurrency is not modelled: the `volatile` field, `Interlocked.CompareExchange` and interleavings between threads. Each compare-and-exchange is one atomic step in a sequential model. So the retry after a failed compare-and-exchange, on a snapshot that was just read, is never taken, and lock-freedom and linearizability are not stated.
- Processor.StoppingEventProcessor.BeforeAsyncStop: the C# `while (true)` with `return` in each case is written as a loop on a `decided` flag that keeps the same retry structure. In the sequential model every iteration decides, and a `while true` with no reachable end of iteration has no termination proof.
- `AD7Engine` and `EngineCallback` are foreign engine and COM objects. `OnStopComplete(thread)` is recorded only as an entry in the ghost `emitted` log, and the constructor's two parameters are dropped.
- `IDebugThread2` is an opaque `ThreadId` (a `nat`), with `Null` for a null reference. The setter's `!=` test is reference inequality on that value.
- Event `Guid`s and `AD7StopCompleteEvent.IID` are replaced by `EventKind` (`StopCompleteEvent` or `OtherEvent`).
- Exception types and messages are reduced to the two error values `InvalidState` and `NullLastEventThread`.
- The `default:` case of `BeforeAsyncStop` is unreachable, because the match on the five states is exhaustive. In `UpdateAsyncStopStateAfterEventSent` the `default:` case is the `Sent` and `StopProcessingComplete` cases.
- The `LastEventThread` getter is a read of the `lastEventThread` field.

## Findings

| source | as written | input that shows it | evidently intended | confidence | as-written member | corrected member |
|---|---|---|---|---|---|---|
| src/MIDebugEngine/AD7.Impl/AD7StoppingEventProcessor.cs:113-116 | After the stop-complete is generated, `break` leaves only the `switch`. The loop re-reads `Sent` and throws from `default:`. | state `Pending`, a recorded thread, an event id other than `AD7StopCompleteEvent.IID` | return after the generated stop-complete: state `Sent`, one stop-complete, no error | high that the as-written path throws; not executed | AsyncStop.PendingOtherEventFailsAfterEmitting | AsyncStop.UpdateAfterEventSentIntended |
