/**
  Whole runs of one queue: publishers, subscribers opening and dequeuing with arbitrary callbacks,
  and interrupts, interleaved in any order. Every step is one critical section of the queue's mutex.
 */
module Streams {
  import opened Words
  import opened Ring
  import opened Dequeue

  datatype Item = Item(id: nat, bytes: Payload)

  /** One completed dequeue: how far behind it started, the loss it reported, and what was processed. */
  datatype Report = Report(lag: nat, lost: nat, items: seq<Item>)

  datatype Reports = NoReports | More(before: Reports, report: Report)

  datatype Reader = Reader(sub: Sub, joined: nat, seen: Reports)

  datatype System = System(ring: Ring, log: seq<Payload>, readers: map<nat, Reader>)

  datatype Step =
    | Publishing(data: Payload)
    | Opening(id: nat)
    | Dequeuing(id: nat, cb: Callback)
    | Interrupting(id: nat)

  function Items(calls: History): seq<Item> {
    match calls
    case NoCalls => []
    case Then(before, call) => Items(before) + [Item(call.id, call.bytes)]
  }

  function ReportOf(lag: nat, out: Outcome, cb: Callback): Report {
    Report(lag, if out.calls.Then? then out.calls.call.lost else 0, Items(Processed(out.calls, cb)))
  }

  // The invariant --------------------------------------------------------------------------

  /** `n` consecutive log entries, the first of them published as `start`. */
  function LogItems(log: seq<Payload>, start: nat, n: nat): (items: seq<Item>)
    requires 1 <= start && start + n <= |log| + 1
    ensures |items| == n
    ensures forall i :: 0 <= i < n ==> items[i] == Item(start + i, log[start + i - 1])
  {
    if n == 0 then [] else LogItems(log, start, n - 1) + [Item(start + n - 1, log[start + n - 2])]
  }

  /**
    The reports account for every id between `joined` and `cursor`: each one skips exactly the ids
    that the ring of `size` slots no longer retained, and then takes consecutive log entries.
   */
  ghost predicate Accounts(seen: Reports, log: seq<Payload>, size: nat, joined: nat, cursor: nat) {
    match seen
    case NoReports => cursor == joined
    case More(before, report) =>
      var n := |report.items|;
      && joined + report.lost + n <= cursor <= |log| + 1
      && 1 <= cursor - n
      && report.lost == Max(0, report.lag - (size - 1))
      && report.items == LogItems(log, cursor - n, n)
      && Accounts(before, log, size, joined, cursor - n - report.lost)
  }

  ghost predicate ReaderInv(reader: Reader, ring: Ring, log: seq<Payload>) {
    && 1 <= reader.joined <= reader.sub.cursor <= ring.next
    && Accounts(reader.seen, log, |ring.slots|, reader.joined, reader.sub.cursor)
  }

  ghost predicate Inv(s: System) {
    && s.ring.Refines(s.log)
    && s.ring.Bounded()
    && forall id :: id in s.readers ==> ReaderInv(s.readers[id], s.ring, s.log)
  }

  // Steps ----------------------------------------------------------------------------------

  /** A dequeue waits until its subscriber is awake; at most 2^32 - 1 signals are published. */
  ghost predicate Enabled(s: System, step: Step)
    requires s.ring.Sized()
  {
    match step
    case Publishing(_) => s.ring.next < TWO32
    case Opening(id) => id !in s.readers
    case Dequeuing(id, _) => id in s.readers && Awake(s.ring, s.readers[id].sub)
    case Interrupting(id) => id in s.readers
  }

  function DequeueBy(reader: Reader, ring: Ring, cb: Callback): Reader
    requires ring.WellFormed() && ring.Bounded()
    requires ValidCursor(ring, reader.sub.cursor) && Awake(ring, reader.sub)
  {
    var out := Run(ring, reader.sub, cb);
    if out.completed then
      Reader(out.sub, reader.joined, More(reader.seen, ReportOf(ring.next - reader.sub.cursor, out, cb)))
    else
      reader.(sub := out.sub)
  }

  ghost function Apply(s: System, step: Step): System
    requires Inv(s) && Enabled(s, step)
  {
    match step
    case Publishing(data) => s.(ring := s.ring.Publish(data), log := s.log + [Clip(data)])
    case Opening(id) => s.(readers := s.readers[id := Reader(Sub(s.ring.next, false), s.ring.next, NoReports)])
    case Dequeuing(id, cb) =>
      assert ReaderInv(s.readers[id], s.ring, s.log);
      s.(readers := s.readers[id := DequeueBy(s.readers[id], s.ring, cb)])
    case Interrupting(id) =>
      s.(readers := s.readers[id := s.readers[id].(sub := s.readers[id].sub.(interrupted := true))])
  }

  lemma {:induction false} LogItemsStable(log: seq<Payload>, more: seq<Payload>, start: nat, n: nat)
    requires 1 <= start && start + n <= |log| + 1
    ensures LogItems(log + more, start, n) == LogItems(log, start, n)
  {}

  lemma {:induction false} AccountsStable(seen: Reports, log: seq<Payload>, more: seq<Payload>, size: nat,
                                          joined: nat, cursor: nat)
    requires Accounts(seen, log, size, joined, cursor)
    ensures Accounts(seen, log + more, size, joined, cursor)
  {
    match seen
    case NoReports =>
    case More(before, report) =>
      var n := |report.items|;
      LogItemsStable(log, more, cursor - n, n);
      AccountsStable(before, log, more, size, joined, cursor - n - report.lost);
  }

  lemma {:induction false} ItemsAreLogged(r: Ring, log: seq<Payload>, start: nat, lost: nat, n: nat)
    requires r.Sized() && 1 <= start && start + n <= |log| + 1
    ensures Items(LoggedCalls(r, log, start, lost, n)) == LogItems(log, start, n)
  {
    if n > 0 {
      ItemsAreLogged(r, log, start, lost, n - 1);
    }
  }

  lemma LossIsReported(r: Ring, log: seq<Payload>, start: nat, lost: nat, cb: Callback, calls: History, cursor: nat)
    requires r.Sized() && Delivers(r, log, start, lost, cb, calls, cursor)
    ensures calls.Then? && calls.call.lost == lost
  {}

  lemma DequeueKeepsReader(reader: Reader, ring: Ring, log: seq<Payload>, cb: Callback)
    requires ring.Refines(log) && ring.Bounded() && ReaderInv(reader, ring, log) && Awake(ring, reader.sub)
    ensures ReaderInv(DequeueBy(reader, ring, cb), ring, log)
  {
    hide Ring.Refines, Ring.WellFormed, Loop, StopsAfter, Items;
    if !reader.sub.interrupted {
      RunDelivers(ring, log, reader.sub, cb);
      var out := Run(ring, reader.sub, cb);
      var lost := Lost(ring, reader.sub.cursor);
      var start := reader.sub.cursor + lost;
      ItemsAreLogged(ring, log, start, lost, out.sub.cursor - start);
      LossIsReported(ring, log, start, lost, cb, out.calls, out.sub.cursor);
    }
  }

  lemma StepKeepsInv(s: System, step: Step)
    requires Inv(s) && Enabled(s, step)
    ensures Inv(Apply(s, step))
  {
    match step
    case Publishing(data) =>
      PublishRefines(s.ring, s.log, data);
      PublishPointers(s.ring, data);
      forall id | id in s.readers
        ensures ReaderInv(s.readers[id], s.ring.Publish(data), s.log + [Clip(data)])
      {
        var reader := s.readers[id];
        AccountsStable(reader.seen, s.log, [Clip(data)], |s.ring.slots|, reader.joined, reader.sub.cursor);
      }
    case Opening(id) =>
    case Dequeuing(id, cb) =>
      DequeueKeepsReader(s.readers[id], s.ring, s.log, cb);
    case Interrupting(id) =>
  }

  // Whole runs -----------------------------------------------------------------------------

  ghost function Fresh(size: nat): (s: System)
    requires 4 <= size < TWO32 && IsPow2(size)
    ensures Inv(s)
  {
    InitialRefines(size);
    System(Initial(size), [], map[])
  }

  /** Every step of the run is enabled when its turn comes. */
  ghost predicate Legal(s: System, steps: seq<Step>)
    requires Inv(s)
    decreases |steps|
  {
    steps != [] ==>
      Enabled(s, steps[0]) && (StepKeepsInv(s, steps[0]); Legal(Apply(s, steps[0]), steps[1..]))
  }

  ghost function Exec(s: System, steps: seq<Step>): (s': System)
    requires Inv(s) && Legal(s, steps)
    ensures Inv(s')
    decreases |steps|
  {
    if steps == [] then s
    else
      StepKeepsInv(s, steps[0]);
      Exec(Apply(s, steps[0]), steps[1..])
  }

  /** What a run publishes, in order. */
  function Published(steps: seq<Step>): seq<Payload> {
    if steps == [] then []
    else (if steps[0].Publishing? then [Clip(steps[0].data)] else []) + Published(steps[1..])
  }

  lemma StepLogs(s: System, step: Step)
    requires Inv(s) && Enabled(s, step)
    ensures Apply(s, step).log == s.log + (if step.Publishing? then [Clip(step.data)] else [])
    ensures |Apply(s, step).ring.slots| == |s.ring.slots|
  {
    if step.Publishing? {
      PublishPointers(s.ring, step.data);
    }
  }

  lemma {:induction false} RunLogs(s: System, steps: seq<Step>)
    requires Inv(s) && Legal(s, steps)
    ensures Exec(s, steps).log == s.log + Published(steps)
    ensures |Exec(s, steps).ring.slots| == |s.ring.slots|
    decreases |steps|
  {
    hide Inv, Enabled, Apply;
    if steps != [] {
      StepKeepsInv(s, steps[0]);
      StepLogs(s, steps[0]);
      var s' := Apply(s, steps[0]);
      RunLogs(s', steps[1..]);
      var added := if steps[0].Publishing? then [Clip(steps[0].data)] else [];
      assert (s.log + added) + Published(steps[1..]) == s.log + (added + Published(steps[1..]));
    }
  }

  /** What the callbacks of subscriber `id` processed in the course of the run. */
  ghost function Handled(s: System, steps: seq<Step>, id: nat): seq<Item>
    requires Inv(s) && Legal(s, steps)
    decreases |steps|
  {
    if steps == [] then []
    else
      StepKeepsInv(s, steps[0]);
      HandledBy(s, steps[0], id) + Handled(Apply(s, steps[0]), steps[1..], id)
  }

  /** What its callback processed in one step; an interrupted dequeue hands it nothing. */
  ghost function HandledBy(s: System, step: Step, id: nat): seq<Item>
    requires Inv(s) && Enabled(s, step)
  {
    if step.Dequeuing? && step.id == id && !s.readers[id].sub.interrupted then
      assert ReaderInv(s.readers[id], s.ring, s.log);
      Items(Processed(Run(s.ring, s.readers[id].sub, step.cb).calls, step.cb))
    else []
  }

  function Stream(seen: Reports): seq<Item> {
    match seen
    case NoReports => []
    case More(before, report) => Stream(before) + report.items
  }

  function TotalLost(seen: Reports): nat {
    match seen
    case NoReports => 0
    case More(before, report) => TotalLost(before) + report.lost
  }

  /** The stream's ids increase strictly within `[from, to)`, and each comes with its own payload. */
  ghost predicate Faithful(items: seq<Item>, log: seq<Payload>, from: nat, to: nat) {
    && (forall i, j :: 0 <= i < j < |items| ==> items[i].id < items[j].id)
    && (forall i :: 0 <= i < |items| ==>
          from <= items[i].id < to && 1 <= items[i].id <= |log| && items[i].bytes == log[items[i].id - 1])
  }

  lemma FaithfulAppend(items: seq<Item>, more: seq<Item>, log: seq<Payload>, from: nat, to: nat, start: nat, end: nat)
    requires Faithful(items, log, from, to) && from <= to <= start && 1 <= start <= end <= |log| + 1
    requires more == LogItems(log, start, end - start)
    ensures Faithful(items + more, log, from, end)
  {}

  lemma {:induction false} AccountsIsFaithful(seen: Reports, log: seq<Payload>, size: nat, joined: nat, cursor: nat)
    requires Accounts(seen, log, size, joined, cursor)
    ensures joined <= cursor
    ensures Faithful(Stream(seen), log, joined, cursor)
    ensures |Stream(seen)| + TotalLost(seen) == cursor - joined
  {
    match seen
    case NoReports =>
    case More(before, report) =>
      hide LogItems;
      var from := cursor - |report.items|;
      AccountsIsFaithful(before, log, size, joined, from - report.lost);
      FaithfulAppend(Stream(before), report.items, log, joined, from - report.lost, from, cursor);
  }

  ghost predicate NeverOverrun(seen: Reports, size: nat) {
    seen.More? ==> seen.report.lag < size && NeverOverrun(seen.before, size)
  }

  lemma {:induction false} AccountsWithoutLoss(seen: Reports, log: seq<Payload>, size: nat, joined: nat, cursor: nat)
    requires Accounts(seen, log, size, joined, cursor) && NeverOverrun(seen, size)
    requires 1 <= joined && cursor <= |log| + 1
    ensures joined <= cursor && Stream(seen) == LogItems(log, joined, cursor - joined)
    ensures TotalLost(seen) == 0
  {
    match seen
    case NoReports =>
    case More(before, report) =>
      AccountsWithoutLoss(before, log, size, joined, cursor - |report.items|);
  }

  lemma RunKeepsReader(size: nat, steps: seq<Step>, id: nat)
    requires 4 <= size < TWO32 && IsPow2(size)
    requires Legal(Fresh(size), steps) && id in Exec(Fresh(size), steps).readers
    ensures var reader := Exec(Fresh(size), steps).readers[id];
      && 1 <= reader.joined && reader.sub.cursor <= |Published(steps)| + 1
      && Accounts(reader.seen, Published(steps), size, reader.joined, reader.sub.cursor)
  {
    RunLogs(Fresh(size), steps);
    hide Accounts, Ring.Refines, Exec, Legal, Published;
    var s := Exec(Fresh(size), steps);
    assert ReaderInv(s.readers[id], s.ring, s.log);
    assert s.log == Published(steps);
  }

  ghost function StreamOf(s: System, id: nat): seq<Item> {
    if id in s.readers then Stream(s.readers[id].seen) else []
  }

  lemma StepHandles(s: System, step: Step, id: nat)
    requires Inv(s) && Enabled(s, step)
    ensures StreamOf(Apply(s, step), id) == StreamOf(s, id) + HandledBy(s, step, id)
  {
    hide Ring.Refines, Ring.WellFormed, Ring.Publish, Items;
    if step.Dequeuing? && step.id == id {
      assert ReaderInv(s.readers[id], s.ring, s.log);
      RunInterrupted(s.ring, s.log, s.readers[id].sub, step.cb);
    }
    assert StreamOf(s, id) + [] == StreamOf(s, id);
  }

  /** The reports record exactly what the callbacks processed. */
  lemma {:induction false} StreamIsHandled(s: System, steps: seq<Step>, id: nat)
    requires Inv(s) && Legal(s, steps)
    ensures StreamOf(Exec(s, steps), id) == StreamOf(s, id) + Handled(s, steps, id)
    decreases |steps|
  {
    hide Inv, Enabled, Apply, StreamOf, HandledBy;
    if steps == [] {
      assert StreamOf(s, id) + [] == StreamOf(s, id);
    } else {
      StepKeepsInv(s, steps[0]);
      StepHandles(s, steps[0], id);
      var s' := Apply(s, steps[0]);
      StreamIsHandled(s', steps[1..], id);
      assert StreamOf(s, id) + HandledBy(s, steps[0], id) + Handled(s', steps[1..], id)
          == StreamOf(s, id) + (HandledBy(s, steps[0], id) + Handled(s', steps[1..], id));
    }
  }

  /**
    Over every interleaving, with any callbacks: what a subscriber processed is a strictly
    increasing part of the publish log from its opening on, each id with the payload published
    under it; ids are missing only at the start of a dequeue, where exactly those no longer
    retained are skipped and reported; and nothing is lost without being counted.
   */
  lemma EverySubscriberStream(size: nat, steps: seq<Step>, id: nat)
    requires 4 <= size < TWO32 && IsPow2(size)
    requires Legal(Fresh(size), steps) && id in Exec(Fresh(size), steps).readers
    ensures var log := Published(steps);
      var reader := Exec(Fresh(size), steps).readers[id];
      && Accounts(reader.seen, log, size, reader.joined, reader.sub.cursor)
      && Faithful(Stream(reader.seen), log, reader.joined, reader.sub.cursor)
      && |Stream(reader.seen)| + TotalLost(reader.seen) == reader.sub.cursor - reader.joined
      && Stream(reader.seen) == Handled(Fresh(size), steps, id)
  {
    hide Accounts, Faithful, Stream, TotalLost, Inv, Exec, Legal, Published, Handled;
    RunKeepsReader(size, steps, id);
    StreamIsHandled(Fresh(size), steps, id);
    assert [] + Handled(Fresh(size), steps, id) == Handled(Fresh(size), steps, id);
    var reader := Exec(Fresh(size), steps).readers[id];
    AccountsIsFaithful(reader.seen, Published(steps), size, reader.joined, reader.sub.cursor);
  }

  /** A subscriber whose dequeues never start more than `size - 1` signals behind misses nothing. */
  lemma KeepingUpLosesNothing(size: nat, steps: seq<Step>, id: nat)
    requires 4 <= size < TWO32 && IsPow2(size)
    requires Legal(Fresh(size), steps) && id in Exec(Fresh(size), steps).readers
    requires NeverOverrun(Exec(Fresh(size), steps).readers[id].seen, size)
    ensures var log := Published(steps);
      var reader := Exec(Fresh(size), steps).readers[id];
      && 1 <= reader.joined <= reader.sub.cursor <= |log| + 1
      && TotalLost(reader.seen) == 0
      && Stream(reader.seen) == LogItems(log, reader.joined, reader.sub.cursor - reader.joined)
  {
    hide Accounts, Stream, TotalLost, Inv, Exec, Legal, Published;
    RunKeepsReader(size, steps, id);
    var reader := Exec(Fresh(size), steps).readers[id];
    AccountsWithoutLoss(reader.seen, Published(steps), size, reader.joined, reader.sub.cursor);
  }

  /** Nobody is kept from going on: below the bound on ids anyone may publish, open, read or interrupt. */
  lemma AnyoneMayGoOn(s: System, id: nat, cb: Callback, data: Payload)
    requires Inv(s)
    ensures Enabled(s, Publishing(data)) <==> |s.log| < TWO32 - 1
    ensures id in s.readers || Enabled(s, Opening(id))
    ensures id in s.readers ==> Enabled(s, Interrupting(id))
    ensures id in s.readers ==> 1 <= s.readers[id].sub.cursor <= |s.log| + 1
    ensures id in s.readers && Wrap(|s.log| + 1 - s.readers[id].sub.cursor, |s.ring.slots|) != 0 ==>
      Enabled(s, Dequeuing(id, cb))
  {
    hide Ring.WellFormed;
    if id in s.readers {
      assert ReaderInv(s.readers[id], s.ring, s.log);
      ReadyIsAvailable(s.ring, s.readers[id].sub.cursor);
    }
  }

  // Where subscribers start ----------------------------------------------------------------

  lemma InvSized(s: System)
    requires Inv(s)
    ensures s.ring.Sized()
  {}

  lemma {:induction false} RunInTwo(s: System, a: seq<Step>, b: seq<Step>)
    requires Inv(s)
    ensures Legal(s, a + b) <==> Legal(s, a) && Legal(Exec(s, a), b)
    ensures Legal(s, a + b) ==> Exec(s, a + b) == Exec(Exec(s, a), b)
    decreases |a|
  {
    InvSized(s);
    hide Inv, Enabled, Apply;
    if a == [] {
      assert a + b == b;
    } else {
      assert (a + b)[0] == a[0] && (a + b)[1..] == a[1..] + b;
      if Enabled(s, a[0]) {
        StepKeepsInv(s, a[0]);
        RunInTwo(Apply(s, a[0]), a[1..], b);
      }
    }
  }

  lemma StepKeepsJoined(s: System, step: Step, id: nat)
    requires Inv(s) && Enabled(s, step) && id in s.readers
    ensures id in Apply(s, step).readers && Apply(s, step).readers[id].joined == s.readers[id].joined
  {
    hide Ring.Refines, Ring.WellFormed, Run;
  }

  lemma {:induction false} RunKeepsJoined(s: System, steps: seq<Step>, id: nat)
    requires Inv(s) && Legal(s, steps) && id in s.readers
    ensures id in Exec(s, steps).readers && Exec(s, steps).readers[id].joined == s.readers[id].joined
    decreases |steps|
  {
    hide Inv, Enabled, Apply;
    if steps != [] {
      StepKeepsInv(s, steps[0]);
      StepKeepsJoined(s, steps[0], id);
      RunKeepsJoined(Apply(s, steps[0]), steps[1..], id);
    }
  }

  /** The run opens subscriber `id` after `before`, and goes on with `more`. */
  function OpeningRun(before: seq<Step>, id: nat, more: seq<Step>): seq<Step> {
    before + ([Opening(id)] + more)
  }

  lemma OpeningStep(s: System, id: nat, more: seq<Step>)
    requires Inv(s) && Legal(s, [Opening(id)] + more)
    ensures Enabled(s, Opening(id)) && Inv(Apply(s, Opening(id))) && Legal(Apply(s, Opening(id)), more)
    ensures Exec(s, [Opening(id)] + more) == Exec(Apply(s, Opening(id)), more)
  {
    hide Inv, Enabled, Apply;
    StepKeepsInv(s, ([Opening(id)] + more)[0]);
    assert ([Opening(id)] + more)[1..] == more;
  }

  /**
    A subscriber starts after what was published before its opening, however the run goes on, and
    gets nothing from before.
   */
  lemma OpensAfterPublished(size: nat, before: seq<Step>, id: nat, more: seq<Step>)
    requires 4 <= size < TWO32 && IsPow2(size) && Legal(Fresh(size), OpeningRun(before, id, more))
    ensures var s := Exec(Fresh(size), OpeningRun(before, id, more));
      && id in s.readers && s.readers[id].joined == |Published(before)| + 1 <= s.readers[id].sub.cursor
      && forall i :: 0 <= i < |Stream(s.readers[id].seen)| ==>
           Stream(s.readers[id].seen)[i].id > |Published(before)|
  {
    hide Accounts, Stream, TotalLost, Legal, Exec, Published, Ring.Refines, Ring.WellFormed;
    RunInTwo(Fresh(size), before, [Opening(id)] + more);
    var s := Exec(Fresh(size), before);
    RunLogs(Fresh(size), before);
    assert s.log == Published(before);
    OpeningStep(s, id, more);
    RunKeepsJoined(Apply(s, Opening(id)), more, id);
    EverySubscriberStream(size, OpeningRun(before, id, more), id);
  }

  // Interrupts -----------------------------------------------------------------------------

  /**
    An interrupt cuts the next dequeue short, whatever there is to read: it need not wait, and takes
    nothing; the flag stays set exactly when the callback does not clear it.
   */
  lemma InterruptCutsShort(s: System, id: nat, cb: Callback)
    requires Inv(s) && id in s.readers
    ensures Enabled(s, Interrupting(id))
    ensures var s1 := Apply(s, Interrupting(id));
      && Inv(s1) && Enabled(s1, Dequeuing(id, cb)) && HandledBy(s1, Dequeuing(id, cb), id) == []
      && var s2 := Apply(s1, Dequeuing(id, cb));
         && id in s2.readers
         && s2 == s.(readers := s.readers[id := s2.readers[id]])
         && s2.readers[id] == s.readers[id].(sub := Sub(s.readers[id].sub.cursor, s2.readers[id].sub.interrupted))
         && (s2.readers[id].sub.interrupted <==> !cb(Then(NoCalls, INTERRUPT_CALL)).clears)
  {
    hide Ring.Refines, Ring.WellFormed;
    var s1 := Apply(s, Interrupting(id));
    StepKeepsInv(s, Interrupting(id));
    assert ReaderInv(s1.readers[id], s1.ring, s1.log);
    RunInterrupted(s1.ring, s1.log, s1.readers[id].sub, cb);
  }

  function CalmReader(reader: Reader): Reader {
    reader.(sub := reader.sub.(interrupted := false))
  }

  /** The same state without any interrupt flag. */
  ghost function Calm(s: System): System {
    s.(readers := map id | id in s.readers :: CalmReader(s.readers[id]))
  }

  /** The step interrupts a subscriber, or is a dequeue that ends in the interrupt path. */
  ghost predicate Disturbs(s: System, step: Step)
    requires Inv(s) && Enabled(s, step)
  {
    step.Interrupting? || (step.Dequeuing? && s.readers[step.id].sub.interrupted)
  }

  /** The run without the steps that disturb. */
  ghost function Undisturbed(s: System, steps: seq<Step>): seq<Step>
    requires Inv(s) && Legal(s, steps)
    decreases |steps|
  {
    if steps == [] then []
    else
      StepKeepsInv(s, steps[0]);
      var rest := Undisturbed(Apply(s, steps[0]), steps[1..]);
      if Disturbs(s, steps[0]) then rest else [steps[0]] + rest
  }

  lemma CalmInv(s: System)
    requires Inv(s)
    ensures Inv(Calm(s))
  {}

  lemma DisturbanceIsCalm(s: System, step: Step)
    requires Inv(s) && Enabled(s, step) && Disturbs(s, step)
    ensures Calm(Apply(s, step)) == Calm(s)
  {
    hide Ring.Refines, Ring.WellFormed, ReaderInv;
    if step.Dequeuing? {
      assert ReaderInv(s.readers[step.id], s.ring, s.log);
      InterruptedDequeue(s.readers[step.id], s.ring, s.log, step.cb);
    }
    assert Calm(Apply(s, step)).readers == Calm(s).readers;
  }

  lemma InterruptedDequeue(reader: Reader, ring: Ring, log: seq<Payload>, cb: Callback)
    requires ring.Refines(log) && ring.Bounded() && ReaderInv(reader, ring, log) && reader.sub.interrupted
    ensures CalmReader(DequeueBy(reader, ring, cb)) == CalmReader(reader)
  {
    RunInterrupted(ring, log, reader.sub, cb);
  }

  lemma CalmDequeue(reader: Reader, ring: Ring, log: seq<Payload>, cb: Callback)
    requires ring.Refines(log) && ring.Bounded() && ReaderInv(reader, ring, log)
    requires !reader.sub.interrupted && ring.Ready(reader.sub.cursor)
    ensures CalmReader(DequeueBy(reader, ring, cb)) == DequeueBy(CalmReader(reader), ring, cb)
  {
    hide Ring.Refines, Ring.WellFormed, Loop, CatchUp;
    RunInterrupted(ring, log, reader.sub, cb);
    assert CalmReader(reader) == reader;
  }

  lemma CalmStep(s: System, step: Step)
    requires Inv(s) && Enabled(s, step) && !Disturbs(s, step)
    ensures Inv(Calm(s)) && Enabled(Calm(s), step)
    ensures Apply(Calm(s), step) == Calm(Apply(s, step))
  {
    CalmInv(s);
    hide Ring.Refines, Ring.WellFormed, Ring.Publish, DequeueBy, ReaderInv;
    if step.Dequeuing? {
      assert ReaderInv(s.readers[step.id], s.ring, s.log);
      NotInterrupted(s.readers[step.id], s.ring, s.log);
      CalmDequeue(s.readers[step.id], s.ring, s.log, step.cb);
    }
    assert Apply(Calm(s), step).readers == Calm(Apply(s, step)).readers;
  }

  lemma NotInterrupted(reader: Reader, ring: Ring, log: seq<Payload>)
    requires ring.Sized() && ReaderInv(reader, ring, log)
    ensures ValidCursor(ring, reader.sub.cursor)
  {}

  /**
    Interrupts are neutral: deleting every interrupt and every interrupted dequeue from a run
    leaves a legal run that ends in the same ring, log, cursors and reports.
   */
  lemma {:induction false} InterruptsAreNeutral(s: System, steps: seq<Step>)
    requires Inv(s) && Legal(s, steps)
    ensures Inv(Calm(s)) && Legal(Calm(s), Undisturbed(s, steps))
    ensures Exec(Calm(s), Undisturbed(s, steps)) == Calm(Exec(s, steps))
    decreases |steps|
  {
    CalmInv(s);
    if steps != [] {
      StepKeepsInv(s, steps[0]);
      if Disturbs(s, steps[0]) {
        DisturbanceIsCalm(s, steps[0]);
      } else {
        CalmStep(s, steps[0]);
      }
      InterruptsAreNeutral(Apply(s, steps[0]), steps[1..]);
      var rest := Undisturbed(Apply(s, steps[0]), steps[1..]);
      assert ([steps[0]] + rest)[1..] == rest;
    }
  }
}
