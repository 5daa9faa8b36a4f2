/**
  Blocking readers. A reader that finds nothing parks, releasing the mutex; a publisher notifies in
  a separate step after its critical section; woken readers take the mutex again and re-check.
 */
module Wakeup {
  import opened Words
  import opened Ring
  import opened Dequeue

  datatype Phase = Outside | Parked | Woken

  datatype Waiter = Waiter(sub: Sub, phase: Phase)

  /** `pending` counts the publishers between their critical section and their `notify_all`. */
  datatype System = System(ring: Ring, log: seq<Payload>, pending: nat, waiters: map<nat, Waiter>)

  datatype Step =
    | Publishing(data: Payload)
    | Notifying
    | Opening(id: nat)
    | Checking(id: nat, cb: Callback)  // enter the wait, or re-check after waking up
    | WakingSpuriously(id: nat)
    | Interrupting(id: nat)

  ghost predicate WaiterInv(w: Waiter, ring: Ring, pending: nat)
    requires ring.Sized()
  {
    && ValidCursor(ring, w.sub.cursor)
    && (w.phase == Parked ==> !w.sub.interrupted)
    && (w.phase == Parked && ring.Ready(w.sub.cursor) ==> 0 < pending)
  }

  ghost predicate Inv(s: System) {
    && s.ring.Refines(s.log)
    && s.ring.Bounded()
    && forall id :: id in s.waiters ==> WaiterInv(s.waiters[id], s.ring, s.pending)
  }

  ghost predicate Enabled(s: System, step: Step) {
    match step
    case Publishing(_) => s.ring.next < TWO32
    case Notifying => 0 < s.pending
    case Opening(id) => id !in s.waiters
    case Checking(id, _) => id in s.waiters && s.waiters[id].phase != Parked
    case WakingSpuriously(id) => id in s.waiters && s.waiters[id].phase == Parked
    case Interrupting(id) => id in s.waiters
  }

  function Wake(w: Waiter): Waiter {
    if w.phase == Parked then w.(phase := Woken) else w
  }

  function WakeAll(waiters: map<nat, Waiter>): map<nat, Waiter> {
    map id | id in waiters :: Wake(waiters[id])
  }

  function Check(w: Waiter, ring: Ring, cb: Callback): Waiter
    requires ring.WellFormed() && ring.Bounded() && ValidCursor(ring, w.sub.cursor)
  {
    if Awake(ring, w.sub) then Waiter(Run(ring, w.sub, cb).sub, Outside) else w.(phase := Parked)
  }

  function Apply(s: System, step: Step): System
    requires Inv(s) && Enabled(s, step)
  {
    match step
    case Publishing(data) =>
      s.(ring := s.ring.Publish(data), log := s.log + [Clip(data)], pending := s.pending + 1)
    case Notifying => s.(pending := s.pending - 1, waiters := WakeAll(s.waiters))
    case Opening(id) => s.(waiters := s.waiters[id := Waiter(Sub(s.ring.next, false), Outside)])
    case Checking(id, cb) =>
      assert WaiterInv(s.waiters[id], s.ring, s.pending);
      s.(waiters := s.waiters[id := Check(s.waiters[id], s.ring, cb)])
    case WakingSpuriously(id) => s.(waiters := s.waiters[id := Wake(s.waiters[id])])
    case Interrupting(id) =>
      // The flag is set and everyone notified without releasing the mutex in between.
      var flagged := s.waiters[id].(sub := s.waiters[id].sub.(interrupted := true));
      s.(waiters := WakeAll(s.waiters[id := flagged]))
  }

  lemma CheckKeepsCursor(w: Waiter, ring: Ring, log: seq<Payload>, cb: Callback)
    requires ring.Refines(log) && ring.Bounded() && ValidCursor(ring, w.sub.cursor)
    ensures ValidCursor(ring, Check(w, ring, cb).sub.cursor)
  {
    hide Ring.Refines, Ring.WellFormed, Loop, StopsAfter;
    if Awake(ring, w.sub) && !w.sub.interrupted {
      RunDelivers(ring, log, w.sub, cb);
    }
  }

  lemma StepKeepsInv(s: System, step: Step)
    requires Inv(s) && Enabled(s, step)
    ensures Inv(Apply(s, step))
  {
    match step
    case Publishing(data) =>
      PublishRefines(s.ring, s.log, data);
      forall id | id in s.waiters
        ensures WaiterInv(s.waiters[id], s.ring.Publish(data), s.pending + 1)
      {
        assert WaiterInv(s.waiters[id], s.ring, s.pending);
      }
    case Checking(id, cb) =>
      CheckKeepsCursor(s.waiters[id], s.ring, s.log, cb);
    case _ =>
  }

  // What the steps do ----------------------------------------------------------------------

  /** Only reader `id` may have changed. */
  ghost predicate OnlyWaiter(s: System, s': System, id: nat) {
    && id in s'.waiters
    && s' == s.(waiters := s.waiters[id := s'.waiters[id]])
  }

  /**
    A reader that checks is cut short if it was interrupted, delivers if there is something to read,
    and otherwise parks where it is.
   */
  lemma CheckExactly(s: System, id: nat, cb: Callback)
    requires Inv(s) && id in s.waiters && s.waiters[id].phase != Parked
    ensures Enabled(s, Checking(id, cb))
    ensures OnlyWaiter(s, Apply(s, Checking(id, cb)), id)
    ensures ValidCursor(s.ring, s.waiters[id].sub.cursor)
    ensures var sub, w' := s.waiters[id].sub, Apply(s, Checking(id, cb)).waiters[id];
      if sub.interrupted then
        w'.phase == Outside && w'.sub.cursor == sub.cursor
      else if s.ring.Ready(sub.cursor) then
        var lost := Lost(s.ring, sub.cursor);
        && w'.phase == Outside && !w'.sub.interrupted
        && Delivers(s.ring, s.log, sub.cursor + lost, lost, cb, Run(s.ring, sub, cb).calls, w'.sub.cursor)
      else
        w' == Waiter(sub, Parked)
  {
    hide Ring.Refines, Ring.WellFormed, Run, Delivers, Lost;
    var sub := s.waiters[id].sub;
    assert WaiterInv(s.waiters[id], s.ring, s.pending);
    if Awake(s.ring, sub) {
      RunInterrupted(s.ring, s.log, sub, cb);
      if !sub.interrupted {
        RunDelivers(s.ring, s.log, sub, cb);
      }
    }
  }

  /** Publishing takes one critical section, and leaves one more publisher that is yet to notify. */
  lemma PublishExactly(s: System, data: Payload)
    requires Inv(s) && |s.log| < TWO32 - 1
    ensures Enabled(s, Publishing(data))
    ensures var s' := Apply(s, Publishing(data));
      s'.log == s.log + [Clip(data)] && s'.pending == s.pending + 1 && s'.waiters == s.waiters
  {}

  /** A parked reader may wake up by itself, and then checks again. */
  lemma SpuriousWakeUp(s: System, id: nat, cb: Callback)
    requires Inv(s) && id in s.waiters && s.waiters[id].phase == Parked
    ensures Enabled(s, WakingSpuriously(id))
    ensures var s' := Apply(s, WakingSpuriously(id));
      && OnlyWaiter(s, s', id) && s'.waiters[id] == Waiter(s.waiters[id].sub, Woken)
      && Enabled(s', Checking(id, cb))
  {}

  /** A notification leaves nobody parked, and changes nothing but that. */
  lemma NotifyWakesAll(s: System)
    requires Inv(s) && 0 < s.pending
    ensures Enabled(s, Notifying)
    ensures var s' := Apply(s, Notifying);
      && s' == s.(pending := s.pending - 1, waiters := s'.waiters) && s'.waiters.Keys == s.waiters.Keys
      && forall id :: id in s.waiters ==>
           s'.waiters[id].sub == s.waiters[id].sub && s'.waiters[id].phase != Parked
  {}

  /**
    An interrupt reaches its reader: whatever it was doing, it is not parked afterwards, may check at
    once, and that check ends its read at the same cursor, for any callback.
   */
  lemma InterruptGetsThrough(s: System, id: nat, cb: Callback)
    requires Inv(s) && id in s.waiters
    ensures Enabled(s, Interrupting(id))
    ensures var s1 := Apply(s, Interrupting(id));
      && Inv(s1) && s1 == s.(waiters := s1.waiters) && s1.waiters.Keys == s.waiters.Keys
      && (forall j :: j in s.waiters ==> s1.waiters[j].phase != Parked)
      && (forall j :: j in s.waiters && j != id ==> s1.waiters[j].sub == s.waiters[j].sub)
      && Enabled(s1, Checking(id, cb))
      && var w := Apply(s1, Checking(id, cb)).waiters[id];
         w.phase == Outside && w.sub.cursor == s.waiters[id].sub.cursor
  {
    StepKeepsInv(s, Interrupting(id));
    hide Inv;
    CheckExactly(Apply(s, Interrupting(id)), id, cb);
  }

  // Whole runs -----------------------------------------------------------------------------

  datatype Execution = Begin(size: nat) | After(before: Execution, step: Step)

  ghost predicate Legal(run: Execution)
    decreases run, 0
  {
    match run
    case Begin(size) => 4 <= size < TWO32 && IsPow2(size)
    case After(before, step) => Legal(before) && Enabled(State(before), step)
  }

  ghost function State(run: Execution): (s: System)
    requires Legal(run)
    ensures Inv(s)
    decreases run, 1
  {
    match run
    case Begin(size) =>
      InitialRefines(size);
      System(Initial(size), [], 0, map[])
    case After(before, step) =>
      StepKeepsInv(State(before), step);
      Apply(State(before), step)
  }

  /**
    No lost wake-up: a parked reader is never one whose interrupt flag is set, and when there is
    something for it to read then some publisher is still going to notify.
   */
  lemma NoLostWakeup(run: Execution, id: nat)
    requires Legal(run) && id in State(run).waiters && State(run).waiters[id].phase == Parked
    ensures var s := State(run);
      && !s.waiters[id].sub.interrupted
      && (s.ring.Ready(s.waiters[id].sub.cursor) ==> 0 < s.pending)
  {
    var s := State(run);
    assert WaiterInv(s.waiters[id], s.ring, s.pending);
  }

  /**
    Once every publisher has notified, a reader that is still parked is behind by a multiple of the
    ring size: it has read everything, or it does not see the signals that are there.
   */
  lemma ParkedAtRest(run: Execution, id: nat)
    requires Legal(run) && id in State(run).waiters
    requires State(run).waiters[id].phase == Parked && State(run).pending == 0
    ensures var s := State(run);
      Wrap(s.ring.next - s.waiters[id].sub.cursor, |s.ring.slots|) == 0
  {
    hide Legal, State, Ring.Refines, Ring.WellFormed;
    var s := State(run);
    assert WaiterInv(s.waiters[id], s.ring, s.pending);
    ReadyIsAvailable(s.ring, s.waiters[id].sub.cursor);
  }

  function PublishCount(run: Execution): nat {
    match run
    case Begin(_) => 0
    case After(before, step) => PublishCount(before) + if step.Publishing? then 1 else 0
  }

  function NotifyCount(run: Execution): nat {
    match run
    case Begin(_) => 0
    case After(before, step) => NotifyCount(before) + if step.Notifying? then 1 else 0
  }

  lemma StepCounts(s: System, step: Step)
    requires Inv(s) && Enabled(s, step)
    ensures var s' := Apply(s, step);
      && s'.ring.next == s.ring.next + (if step.Publishing? then 1 else 0)
      && s'.pending + (if step.Notifying? then 1 else 0) == s.pending + (if step.Publishing? then 1 else 0)
  {
    if step.Publishing? {
      PublishPointers(s.ring, step.data);
    }
  }

  /** What `NoLostWakeup` calls pending are the publishes of the run that were not followed up yet. */
  lemma {:induction false} PendingIsCounted(run: Execution)
    requires Legal(run)
    ensures State(run).pending == PublishCount(run) - NotifyCount(run)
    ensures State(run).ring.next == PublishCount(run) + 1
    decreases run
  {
    hide Inv, Enabled, Apply;
    if run.After? {
      PendingIsCounted(run.before);
      StepCounts(State(run.before), run.step);
    }
  }

  /** A reader that opens is placed after everything published before. */
  lemma OpensAtTheEnd(run: Execution, id: nat)
    requires Legal(run)
    ensures id !in State(run).waiters ==>
      && Legal(After(run, Opening(id)))
      && OnlyWaiter(State(run), State(After(run, Opening(id))), id)
      && State(After(run, Opening(id))).waiters[id] == Waiter(Sub(PublishCount(run) + 1, false), Outside)
  {
    PendingIsCounted(run);
    hide Inv;
    if id !in State(run).waiters {
      StateAfter(run, Opening(id));
    }
  }

  // The stall is reachable -----------------------------------------------------------------

  function Publishes(run: Execution, n: nat): Execution {
    if n == 0 then run else After(Publishes(run, n - 1), Publishing([]))
  }

  function Notifies(run: Execution, n: nat): Execution {
    if n == 0 then run else After(Notifies(run, n - 1), Notifying)
  }

  const ANY_CALLBACK: Callback := (_: History) => Reply(DontCallAgain, false)

  /** A reader parks; the ring is filled once around before the reader gets to re-check. */
  function StallRun(size: nat): Execution {
    var parked := After(After(Begin(size), Opening(0)), Checking(0, ANY_CALLBACK));
    After(Notifies(Publishes(parked, size), size), Checking(0, ANY_CALLBACK))
  }

  lemma StateAfter(run: Execution, step: Step)
    requires Legal(run)
    ensures Enabled(State(run), step) ==>
      Legal(After(run, step)) && State(After(run, step)) == Apply(State(run), step)
  {
    hide Inv, Enabled, Apply;
  }

  lemma PublishEffect(s: System, data: Payload)
    requires Inv(s) && s.ring.next < TWO32
    ensures Enabled(s, Publishing(data))
    ensures var s' := Apply(s, Publishing(data));
      && s'.waiters == s.waiters && s'.pending == s.pending + 1
      && s'.ring.next == s.ring.next + 1 && |s'.ring.slots| == |s.ring.slots|
  {
    PublishPointers(s.ring, data);
  }

  lemma {:induction false} PublishesState(run: Execution, n: nat)
    requires Legal(run) && State(run).ring.next + n <= TWO32
    ensures Legal(Publishes(run, n))
    ensures var s, s' := State(run), State(Publishes(run, n));
      && s'.waiters == s.waiters && s'.pending == s.pending + n
      && s'.ring.next == s.ring.next + n && |s'.ring.slots| == |s.ring.slots|
  {
    hide Legal, State, Inv, Enabled, Apply;
    if n > 0 {
      PublishesState(run, n - 1);
      PublishEffect(State(Publishes(run, n - 1)), []);
      StateAfter(Publishes(run, n - 1), Publishing([]));
    }
  }

  lemma NotifyEffect(s: System)
    requires Inv(s) && 0 < s.pending
    ensures Enabled(s, Notifying)
    ensures Apply(s, Notifying) == s.(pending := s.pending - 1, waiters := WakeAll(s.waiters))
  {}

  lemma WakeAllTwice(waiters: map<nat, Waiter>)
    ensures WakeAll(WakeAll(waiters)) == WakeAll(waiters)
  {}

  lemma {:induction false} NotifiesState(run: Execution, n: nat)
    requires Legal(run) && n <= State(run).pending
    ensures Legal(Notifies(run, n))
    ensures var s, s' := State(run), State(Notifies(run, n));
      && s'.ring == s.ring && s'.pending == s.pending - n
      && (0 < n ==> s'.waiters == WakeAll(s.waiters))
  {
    hide Legal, State, Inv, Enabled, Apply, WakeAll;
    if n > 0 {
      NotifiesState(run, n - 1);
      NotifyEffect(State(Notifies(run, n - 1)));
      StateAfter(Notifies(run, n - 1), Notifying);
      WakeAllTwice(State(run).waiters);
    }
  }

  lemma ParkEffect(s: System, id: nat, cb: Callback)
    requires Inv(s) && id in s.waiters && s.waiters[id].phase != Parked
    requires ValidCursor(s.ring, s.waiters[id].sub.cursor) && !Awake(s.ring, s.waiters[id].sub)
    ensures Enabled(s, Checking(id, cb))
    ensures Apply(s, Checking(id, cb)) == s.(waiters := s.waiters[id := s.waiters[id].(phase := Parked)])
  {}

  /** Opening a reader on a new queue and letting it check parks it. */
  lemma ParksAtOnce(size: nat)
    requires 4 <= size < TWO32 && IsPow2(size)
    ensures var run := After(After(Begin(size), Opening(0)), Checking(0, ANY_CALLBACK));
      && Legal(run)
      && State(run).waiters == map[0 := Waiter(Sub(1, false), Parked)]
      && State(run).ring == Initial(size) && State(run).pending == 0
  {
    InitialRefines(size);
    StateAfter(Begin(size), Opening(0));
    var opening := After(Begin(size), Opening(0));
    assert State(opening).waiters == map[0 := Waiter(Sub(1, false), Outside)];
    StateAfter(opening, Checking(0, ANY_CALLBACK));
  }

  /**
    In a ring of any accepted size a reader can end up parked, with every publisher done and a
    whole ring of unread signals: being parked at rest does not mean that everything was read.
   */
  lemma StallIsReachable(size: nat)
    requires 4 <= size < TWO32 && IsPow2(size)
    ensures Legal(StallRun(size))
    ensures var s := State(StallRun(size));
      && s.pending == 0 && s.ring.next == size + 1
      && 0 in s.waiters && s.waiters[0] == Waiter(Sub(1, false), Parked)
  {
    ParksAtOnce(size);
    hide Legal, State, Publishes, Notifies, WakeAll, Inv;
    var parked := After(After(Begin(size), Opening(0)), Checking(0, ANY_CALLBACK));
    PublishesState(parked, size);
    NotifiesState(Publishes(parked, size), size);
    WakeOne(Waiter(Sub(1, false), Parked));
    ParksAgain(Notifies(Publishes(parked, size), size));
  }

  lemma WakeOne(w: Waiter)
    ensures WakeAll(map[0 := w]) == map[0 := Wake(w)]
  {}

  /** A woken reader that is a whole ring behind parks again. */
  lemma ParksAgain(full: Execution)
    requires Legal(full) && State(full).ring.next == |State(full).ring.slots| + 1
    requires State(full).waiters == map[0 := Waiter(Sub(1, false), Woken)]
    ensures var again := After(full, Checking(0, ANY_CALLBACK));
      Legal(again) && State(again) == State(full).(waiters := map[0 := Waiter(Sub(1, false), Parked)])
  {
    var s := State(full);
    ReadyIsAvailable(s.ring, 1);
    ParkEffect(s, 0, ANY_CALLBACK);
    StateAfter(full, Checking(0, ANY_CALLBACK));
  }
}
