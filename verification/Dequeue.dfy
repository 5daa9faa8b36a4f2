/** One critical section of `dequeue_signal`: interrupt path, tail catch-up and the callback loop. */
module Dequeue {
  import opened Words
  import opened Ring

  /** A subscriber's position and interrupt flag. */
  datatype Sub = Sub(cursor: nat, interrupted: bool)

  datatype Result = CallAgain | DontCallAgain | NotProcessed

  /** A callback's answer; `clears` says that it also reset the subscriber's interrupt flag. */
  datatype Reply = Reply(result: Result, clears: bool)

  /** One invocation of the callback. `at` is the payload pointer: null, or into a slot. */
  datatype Call = Call(id: nat, at: Option<Pointer>, bytes: Payload, lost: nat, remaining: nat)

  /** The calls made so far by one run of `dequeue_signal`, the latest on the outside. */
  datatype History = NoCalls | Then(before: History, call: Call) {
    function Count(): nat {
      match this
      case NoCalls => 0
      case Then(before, _) => before.Count() + 1
    }
  }

  /** A callback may keep state, so it answers from every call made to it so far. */
  type Callback = History -> Reply

  function Ask(cb: Callback, calls: History): Result {
    cb(calls).result
  }

  const INTERRUPT_CALL := Call(0, None, [], 0, 0)

  datatype Progress = Progress(cursor: nat, calls: History)

  datatype Resume = Resume(start: nat, lost: nat)

  datatype Outcome = Outcome(sub: Sub, calls: History, completed: bool)

  ghost predicate ValidCursor(r: Ring, cursor: nat) {
    1 <= cursor <= r.next
  }

  /** The wait is over: interrupted, or something to read. */
  predicate Awake(r: Ring, sub: Sub)
    requires r.Sized()
  {
    sub.interrupted || r.Ready(sub.cursor)
  }

  /** The callback arguments for the signal at `cursor`, read from its slot. */
  function Delivery(r: Ring, cursor: nat, lost: nat): Call
    requires r.WellFormed() && r.Retains(cursor)
  {
    RetainedSlot(r, cursor);
    var block := r.At(cursor).block;
    Call(cursor, Some(r.PointerTo(cursor)), block.bytes[..block.size], lost, Low32(r.next - cursor - 1))
  }

  lemma AvailableAfter(r: Ring, cursor: nat)
    requires r.WellFormed() && r.Retains(cursor)
    ensures r.Available(cursor + 1) <==> cursor + 1 < r.next
  {
    NonEmpty(r);
    SameSlot(r, cursor + 1, r.next);
  }

  /** The callback loop, from `cursor` on and after `calls` were made: the final cursor and all calls. */
  function Loop(r: Ring, cursor: nat, lost: nat, cb: Callback, calls: History): Progress
    requires r.WellFormed() && r.Retains(cursor)
    decreases r.next - cursor
  {
    var calls' := Then(calls, Delivery(r, cursor, lost));
    var result := Ask(cb, calls');
    var cursor' := if result != NotProcessed then cursor + 1 else cursor;
    if result != CallAgain || !r.Available(cursor') then
      Progress(cursor', calls')
    else
      AvailableAfter(r, cursor);
      Loop(r, cursor', lost, cb, calls')
  }

  /** The cursor after tail catch-up, and the number of signals lost. */
  function CatchUp(r: Ring, cursor: nat): Resume
    requires r.WellFormed()
  {
    var oldest := r.slots[r.tail].id;
    if oldest > cursor then Resume(oldest, Low32(oldest - cursor)) else Resume(cursor, 0)
  }

  /** The number of signals between `cursor` and the oldest one still retained. */
  function Lost(r: Ring, cursor: nat): nat
    requires r.Sized() && cursor <= r.next
  {
    Max(0, (r.next - cursor) - (|r.slots| - 1))
  }

  /** Catch-up skips the signals that are no longer retained, and no others. */
  lemma CatchUpExactly(r: Ring, cursor: nat)
    requires r.WellFormed() && r.Bounded() && ValidCursor(r, cursor) && r.Ready(cursor)
    ensures CatchUp(r, cursor) == Resume(cursor + Lost(r, cursor), Lost(r, cursor))
    ensures r.Retains(cursor + Lost(r, cursor))
  {
    NonEmpty(r);
    var oldest := Oldest(r.next, |r.slots|);
    assert r.Retains(oldest);
    assert r.At(oldest).id == oldest;
  }

  /** The critical section after the wait. */
  function Run(r: Ring, sub: Sub, cb: Callback): Outcome
    requires r.WellFormed() && r.Bounded() && ValidCursor(r, sub.cursor) && Awake(r, sub)
  {
    if sub.interrupted then
      var calls := Then(NoCalls, INTERRUPT_CALL);
      Outcome(sub.(interrupted := !cb(calls).clears), calls, false)
    else
      CatchUpExactly(r, sub.cursor);
      var resume := CatchUp(r, sub.cursor);
      var end := Loop(r, resume.start, resume.lost, cb, NoCalls);
      Outcome(sub.(cursor := end.cursor), end.calls, true)
  }

  /** The calls that were answered by anything but "not processed". */
  function Processed(calls: History, cb: Callback): History {
    match calls
    case NoCalls => NoCalls
    case Then(before, call) =>
      if Ask(cb, calls) == NotProcessed then Processed(before, cb)
      else Then(Processed(before, cb), call)
  }

  // What a run does, said without the loop -------------------------------------------------

  /** The calls for `n` consecutive ids from `start` on. */
  function Deliveries(r: Ring, start: nat, lost: nat, n: nat): (calls: History)
    requires r.WellFormed() && r.Retains(start) && start + n <= r.next
    ensures calls.Count() == n
  {
    if n == 0 then NoCalls else Then(Deliveries(r, start, lost, n - 1), Delivery(r, start + n - 1, lost))
  }

  /** The callback asked to be called again after each of the calls. */
  ghost predicate WantsMore(cb: Callback, calls: History) {
    calls.Then? ==> Ask(cb, calls) == CallAgain && WantsMore(cb, calls.before)
  }

  /** The loop stopped for one of its three reasons, none of them before the last call. */
  ghost predicate StopsAfter(cb: Callback, calls: History, start: nat, cursor: nat, next: nat) {
    && calls.Then?
    && WantsMore(cb, calls.before)
    && match Ask(cb, calls)
       case NotProcessed => cursor == start + calls.Count() - 1
       case DontCallAgain => cursor == start + calls.Count()
       case CallAgain => cursor == start + calls.Count() == next
  }

  lemma {:induction false} LoopStops(r: Ring, start: nat, cursor: nat, lost: nat, cb: Callback, calls: History)
    requires r.WellFormed() && r.Retains(start) && r.Retains(cursor) && start <= cursor
    requires calls == Deliveries(r, start, lost, cursor - start) && WantsMore(cb, calls)
    ensures var end := Loop(r, cursor, lost, cb, calls);
      && end.calls.Count() <= r.next - start
      && end.calls == Deliveries(r, start, lost, end.calls.Count())
      && StopsAfter(cb, end.calls, start, end.cursor, r.next)
    decreases r.next - cursor
  {
    hide Ring.WellFormed, Ask, Ring.Available;
    AvailableAfter(r, cursor);
    var calls' := Then(calls, Delivery(r, cursor, lost));
    assert calls' == Deliveries(r, start, lost, cursor - start + 1);
    if Ask(cb, calls') == CallAgain && r.Available(cursor + 1) {
      LoopStops(r, start, cursor + 1, lost, cb, calls');
    }
  }

  lemma {:induction false} AllProcessed(calls: History, cb: Callback)
    requires WantsMore(cb, calls)
    ensures Processed(calls, cb) == calls
  {
    if calls.Then? {
      AllProcessed(calls.before, cb);
    }
  }

  /** The calls for `n` consecutive ids from `start` on, in terms of what was published. */
  function LoggedCalls(r: Ring, log: seq<Payload>, start: nat, lost: nat, n: nat): (calls: History)
    requires r.Sized() && 1 <= start && start + n <= |log| + 1
    ensures calls.Count() == n
  {
    if n == 0 then NoCalls
    else
      var id := start + n - 1;
      Then(LoggedCalls(r, log, start, lost, n - 1),
           Call(id, Some(r.PointerTo(id)), log[id - 1], lost, |log| - id))
  }

  /** The slots hold what was published. */
  lemma DeliveryIsLogged(r: Ring, log: seq<Payload>, id: nat, lost: nat)
    requires r.Refines(log) && r.Bounded() && r.Retains(id)
    ensures Delivery(r, id, lost) == Call(id, Some(r.PointerTo(id)), log[id - 1], lost, |log| - id)
  {
    assert r.At(id).Holds(log[id - 1]);
  }

  lemma {:induction false} DeliveriesAreLogged(r: Ring, log: seq<Payload>, start: nat, lost: nat, n: nat)
    requires r.Refines(log) && r.Bounded() && r.Retains(start) && start + n <= r.next
    ensures Deliveries(r, start, lost, n) == LoggedCalls(r, log, start, lost, n)
  {
    hide Ring.WellFormed, Delivery;
    if n > 0 {
      DeliveriesAreLogged(r, log, start, lost, n - 1);
      DeliveryIsLogged(r, log, start + n - 1, lost);
    }
  }

  /** The calls of an uninterrupted run that starts at `start` and ends with the given cursor. */
  ghost predicate Delivers(r: Ring, log: seq<Payload>, start: nat, lost: nat, cb: Callback,
                           calls: History, cursor: nat)
    requires r.Sized()
  {
    && r.Retains(start)
    && start + calls.Count() <= r.next == |log| + 1
    && calls == LoggedCalls(r, log, start, lost, calls.Count())
    && StopsAfter(cb, calls, start, cursor, r.next)
    && start <= cursor <= start + calls.Count()
    && Processed(calls, cb) == LoggedCalls(r, log, start, lost, cursor - start)
  }

  lemma LoopDelivers(r: Ring, log: seq<Payload>, start: nat, lost: nat, cb: Callback)
    requires r.Refines(log) && r.Bounded() && r.Retains(start)
    ensures var end := Loop(r, start, lost, cb, NoCalls);
      Delivers(r, log, start, lost, cb, end.calls, end.cursor)
  {
    LoopStops(r, start, start, lost, cb, NoCalls);
    hide Ring.WellFormed, Deliveries, Loop, Ask;
    var end := Loop(r, start, lost, cb, NoCalls);
    AllProcessed(end.calls.before, cb);
    DeliveriesAreLogged(r, log, start, lost, end.calls.Count());
  }

  /**
    An uninterrupted run, for any callback. It starts at the first retained signal from the cursor
    on and makes consecutive calls from there, each with the payload published under its id; the
    cursor moves past exactly the signals that were processed.
   */
  lemma RunDelivers(r: Ring, log: seq<Payload>, sub: Sub, cb: Callback)
    requires r.Refines(log) && r.Bounded() && ValidCursor(r, sub.cursor)
    requires !sub.interrupted && r.Ready(sub.cursor)
    ensures Run(r, sub, cb).completed && !Run(r, sub, cb).sub.interrupted
    ensures var lost := Lost(r, sub.cursor);
      Delivers(r, log, sub.cursor + lost, lost, cb, Run(r, sub, cb).calls, Run(r, sub, cb).sub.cursor)
  {
    hide Ring.Refines, Ring.WellFormed, CatchUp, Lost, Delivers, Loop, Ask;
    CatchUpExactly(r, sub.cursor);
    LoopDelivers(r, log, sub.cursor + Lost(r, sub.cursor), Lost(r, sub.cursor), cb);
  }

  /** Every slot that a call was made from stores the reported id, and has a live block with the payload. */
  ghost predicate AllStored(r: Ring, calls: History)
    requires r.Sized()
  {
    calls.Then? ==>
      var call := calls.call;
      && call.at == Some(r.PointerTo(call.id))
      && r.At(call.id).id == call.id && r.At(call.id).Holds(call.bytes)
      && AllStored(r, calls.before)
  }

  lemma {:induction false} LoggedCallsStored(r: Ring, log: seq<Payload>, start: nat, lost: nat, n: nat)
    requires r.Refines(log) && r.Bounded() && r.Retains(start) && start + n <= r.next
    ensures AllStored(r, LoggedCalls(r, log, start, lost, n))
  {
    if n > 0 {
      LoggedCallsStored(r, log, start, lost, n - 1);
      assert r.Retains(start + n - 1);
      assert r.At(start + n - 1).Holds(log[start + n - 2]);
    }
  }

  /** Every call of an uninterrupted run, for any callback, is made from the slot of the reported id. */
  lemma ReportedIdIsStored(r: Ring, log: seq<Payload>, sub: Sub, cb: Callback)
    requires r.Refines(log) && r.Bounded() && ValidCursor(r, sub.cursor)
    requires !sub.interrupted && r.Ready(sub.cursor)
    ensures Run(r, sub, cb).calls.Then? && AllStored(r, Run(r, sub, cb).calls)
  {
    hide Ring.Refines, Ring.WellFormed, Run, Lost;
    RunDelivers(r, log, sub, cb);
    var lost := Lost(r, sub.cursor);
    LoggedCallsStored(r, log, sub.cursor + lost, lost, Run(r, sub, cb).calls.Count());
  }

  ghost predicate AllPointed(calls: History) {
    calls.Then? ==> calls.call.at.Some? && AllPointed(calls.before)
  }

  lemma {:induction false} LoggedCallsPointed(r: Ring, log: seq<Payload>, start: nat, lost: nat, n: nat)
    requires r.Sized() && 1 <= start && start + n <= |log| + 1
    ensures AllPointed(LoggedCalls(r, log, start, lost, n))
  {
    if n > 0 {
      LoggedCallsPointed(r, log, start, lost, n - 1);
    }
  }

  /**
    An interrupted run tells the callback once, with a null pointer, and leaves the cursor alone;
    the flag stays set exactly when the callback does not clear it. Any other run passes no null
    pointer, whatever the sizes of the payloads are.
   */
  lemma RunInterrupted(r: Ring, log: seq<Payload>, sub: Sub, cb: Callback)
    requires r.Refines(log) && r.Bounded() && ValidCursor(r, sub.cursor) && Awake(r, sub)
    ensures Run(r, sub, cb).completed <==> !sub.interrupted
    ensures sub.interrupted ==> Run(r, sub, cb).sub.cursor == sub.cursor
    ensures Run(r, sub, cb).sub.interrupted <==> sub.interrupted && !cb(Run(r, sub, cb).calls).clears
    ensures var calls := Run(r, sub, cb).calls;
      if sub.interrupted then calls.Count() == 1 && calls.call.at == None else AllPointed(calls)
  {
    if !sub.interrupted {
      hide Ring.Refines, Ring.WellFormed, Run, Loop, LoggedCalls, StopsAfter, Lost, CatchUp;
      RunDelivers(r, log, sub, cb);
      var lost := Lost(r, sub.cursor);
      LoggedCallsPointed(r, log, sub.cursor + lost, lost, Run(r, sub, cb).calls.Count());
    }
  }
}
