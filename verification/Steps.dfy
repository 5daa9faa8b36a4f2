/** What each step of a run does, and that writers and readers get on. */
module Steps {
  import opened Words
  import opened Ring
  import opened Dequeue
  import opened Wire
  import opened Reading
  import opened Writing
  import opened EndToEnd

  lemma StateAfter(run: Execution, step: Step)
    requires Legal(run)
    ensures Enabled(State(run), step) ==>
      Legal(After(run, step)) && State(After(run, step)) == Apply(State(run), step)
  {
    hide Inv, Enabled, Apply;
  }

  /** Nothing but reader `id` may have changed. */
  ghost predicate OnlyReader(s: System, s': System, id: nat) {
    id in s'.readers && s' == s.(readers := s.readers[id := s'.readers[id]])
  }

  // Writers --------------------------------------------------------------------------------

  ghost predicate Idle(s: System, w: nat) {
    PendingOf(s, w) == []
  }

  /** An idle writer may begin with any buffer, and has all of it before it. */
  lemma BeginEffect(s: System, w: nat, buffer: seq<Byte>)
    requires Inv(s) && Idle(s, w)
    ensures Enabled(s, BeginWrite(w, buffer))
    ensures var s' := Apply(s, BeginWrite(w, buffer));
      && s' == s.(writers := s'.writers) && s'.writers.Keys == s.writers.Keys + {w}
      && PendingOf(s', w) == buffer
      && forall v :: v in s.writers && v != w ==> s'.writers[v] == s.writers[v]
  {
    hide Inv, Parse;
  }

  /** The steps a buffer takes: one for each whole frame, and one to find that the rest is malformed. */
  function StepsLeft(buffer: seq<Byte>): nat {
    |Parse(buffer).payloads| + if Parse(buffer).rest == [] then 0 else 1
  }

  lemma StepsLeftOne(buffer: seq<Byte>)
    requires buffer != []
    ensures if StartsWithFrame(buffer)
            then StepsLeft(buffer) == StepsLeft(AfterFirst(buffer)) + 1
            else StepsLeft(buffer) == 1 && Parse(buffer).payloads == []
    ensures StartsWithFrame(buffer) ==>
      Parse(buffer).payloads == [FirstPayload(buffer)] + Parse(AfterFirst(buffer)).payloads
  {
    hide StartsWithFrame, FirstPayload, AfterFirst;
  }

  /** What a writer publishes next: the first of the frames left, if there is one. */
  function NextEntries(w: nat, buffer: seq<Byte>): seq<Entry> {
    var payloads := Parse(buffer).payloads;
    if payloads == [] then [] else [Entry(w, payloads[0])]
  }

  /** Each step of a writer takes it one further, and publishes the frame it takes. */
  lemma WriteFrameEffect(s: System, w: nat)
    requires Inv(s) && !Idle(s, w) && s.ring.next < TWO32
    ensures Enabled(s, WriteFrame(w))
    ensures var s' := Apply(s, WriteFrame(w)); var entries := NextEntries(w, PendingOf(s, w));
      && s'.log == s.log + entries && s'.ring.next == s.ring.next + |entries| && s'.readers == s.readers
      && s'.writers.Keys == s.writers.Keys
      && StepsLeft(PendingOf(s', w)) == StepsLeft(PendingOf(s, w)) - 1
      && forall v :: v in s.writers && v != w ==> s'.writers[v] == s.writers[v]
  {
    hide Ring.Refines, Ring.WellFormed, ReaderInv, WriterInv, Ring.Publish, Parse, StartsWithFrame, FirstPayload;
    hide AfterFirst;
    var pending := s.writers[w].pending;
    StepsLeftOne(pending);
    NoFrames();
    if StartsWithFrame(pending) {
      PublishPointers(s.ring, FirstPayload(pending));
    } else {
      assert s.log + [] == s.log;
    }
  }

  /** Writer `w` takes `n` steps in a row. */
  function WriteOut(run: Execution, w: nat, n: nat): Execution
    decreases n
  {
    if n == 0 then run else WriteOut(After(run, WriteFrame(w)), w, n - 1)
  }

  lemma NothingLeft(buffer: seq<Byte>)
    ensures StepsLeft(buffer) == 0 <==> buffer == []
  {}

  /** A writer gets through its buffer, frame by frame, and then all it submitted is published. */
  lemma {:induction false} WriterFinishes(run: Execution, w: nat, n: nat)
    requires Legal(run)
    ensures n == StepsLeft(PendingOf(State(run), w)) && State(run).ring.next + n <= TWO32 ==>
      && Legal(WriteOut(run, w, n)) && Idle(State(WriteOut(run, w, n)), w)
      && ByWriter(State(WriteOut(run, w, n)).log, w) == Submitted(WriteOut(run, w, n), w)
      && Submitted(WriteOut(run, w, n), w) == Submitted(run, w)
    decreases n
  {
    hide Legal, State, Inv, Enabled, Apply, Parse, StepsLeft, ByWriter, NextEntries;
    NothingLeft(PendingOf(State(run), w));
    NextEntriesAtMostOne(w, PendingOf(State(run), w));
    if n == StepsLeft(PendingOf(State(run), w)) && State(run).ring.next + n <= TWO32 {
      if n == 0 {
        SubmittedInOrder(run, w);
        NoFrames();
        assert ByWriter(State(run).log, w) + [] == ByWriter(State(run).log, w);
      } else {
        WriteFrameEffect(State(run), w);
        StateAfter(run, WriteFrame(w));
        WriterFinishes(After(run, WriteFrame(w)), w, n - 1);
        assert Submitted(run, w) + [] == Submitted(run, w);
      }
    }
  }

  lemma NextEntriesAtMostOne(w: nat, buffer: seq<Byte>)
    ensures |NextEntries(w, buffer)| <= 1
  {}

  // Readers --------------------------------------------------------------------------------

  /** What one uninterrupted read does to its reader. */
  ghost predicate ReadOnce(reader: Reader, reader': Reader, ring: Ring, log: seq<Payload>, size: nat)
    requires ring.Sized() && 1 <= reader.sub.cursor <= ring.next == |log| + 1
  {
    var lost := Lost(ring, reader.sub.cursor);
    var start := reader.sub.cursor + lost;
    && reader'.inFlight.Some? && reader'.joined == reader.joined
    && reader'.received == reader.received && reader'.overtaken == reader.overtaken
    && start <= reader'.sub.cursor <= ring.next && !reader'.sub.interrupted
    && var n := reader'.sub.cursor - start;
       && FullBatch(log, start, n, size)
       && |reader'.inFlight.value.sig| == n
       && Carries(reader'.inFlight.value, ring, LoggedRecords(log, start, lost, n))
       && reader'.takes == Took(reader.takes, ring.next - reader.sub.cursor, lost, n)
  }

  lemma ReadsOnce(reader: Reader, ring: Ring, log: seq<Payload>, size: nat)
    requires ring.Refines(log) && ring.Bounded() && 1 <= reader.sub.cursor <= ring.next
    requires !reader.sub.interrupted && ring.Ready(reader.sub.cursor)
    ensures ReadOnce(reader, Take(reader, ring, size), ring, log, size)
  {
    hide Ring.Refines, Ring.WellFormed, Run, BatchOf, ReadCallback, Delivers, Carries, FullBatch, Lost, Ring.Ready;
    RunInterrupted(ring, log, reader.sub, ReadCallback(size));
    RunDelivers(ring, log, reader.sub, ReadCallback(size));
    BatchLaw(ring, log, reader.sub, size);
    var out := Run(ring, reader.sub, ReadCallback(size));
    var lost := Lost(ring, reader.sub.cursor);
    var start := reader.sub.cursor + lost;
    CarriesBounds(BatchOf(size, out.calls), ring, LoggedRecords(log, start, lost, out.sub.cursor - start));
  }

  /** A reader with something to read may take it, as much as the batch law allows. */
  lemma TakeEffect(s: System, id: nat, size: nat)
    requires Inv(s) && id in s.readers && s.readers[id].inFlight.None?
    requires !s.readers[id].sub.interrupted
    ensures s.ring.Ready(s.readers[id].sub.cursor) ==>
      && Enabled(s, TakeSignals(id, size))
      && var s' := Apply(s, TakeSignals(id, size));
      && OnlyReader(s, s', id)
      && 1 <= s.readers[id].sub.cursor <= s.ring.next == |s.log| + 1
      && ReadOnce(s.readers[id], s'.readers[id], s.ring, Payloads(s.log), size)
  {
    hide Ring.Refines, Ring.WellFormed, WriterInv, Take, ReadOnce, Ring.Ready;
    assert ReaderInv(s.readers[id], s.ring, Payloads(s.log));
    if s.ring.Ready(s.readers[id].sub.cursor) {
      ReadsOnce(s.readers[id], s.ring, Payloads(s.log), size);
    }
  }

  /** More than a ring's worth was published from the first signal of the reply in flight on. */
  ghost predicate TooLate(s: System, id: nat)
    requires id in s.readers
  {
    var reader := s.readers[id];
    && reader.takes.Took? && 0 < reader.takes.count
    && s.ring.next > reader.sub.cursor - reader.takes.count + |s.ring.slots|
  }

  /** Copying out appends the reply; in time, that is the records of the signals the read took. */
  lemma CopyEffect(s: System, id: nat, heap: Heap)
    requires Inv(s) && id in s.readers && s.readers[id].inFlight.Some?
    ensures Enabled(s, CopyReply(id, heap))
    ensures var s' := Apply(s, CopyReply(id, heap)); var reader := s.readers[id];
      && OnlyReader(s, s', id)
      && s'.readers[id] == reader.(inFlight := None, received := s'.readers[id].received,
                                   overtaken := s'.readers[id].overtaken)
      && (s'.readers[id].overtaken <==> reader.overtaken || TooLate(s, id))
      && s'.readers[id].received == reader.received + ReplyBytes(reader.inFlight.value, s.ring, heap)
      && reader.takes.Took? && reader.takes.count < reader.sub.cursor <= |s.log| + 1
      && (!TooLate(s, id) ==>
            s'.readers[id].received == reader.received +
              Records(LoggedRecords(Payloads(s.log), reader.sub.cursor - reader.takes.count,
                                    reader.takes.lost, reader.takes.count)))
  {
    hide Ring.Refines, Ring.WellFormed, WriterInv, Spans, Taken, Records, ReplyBytes, Carries, LoggedRecords;
    var reader, log := s.readers[id], Payloads(s.log);
    assert ReaderInv(reader, s.ring, log);
    if !TooLate(s, id) {
      ReplyContinues(reader.inFlight.value, s.ring, heap, log, reader.sub.cursor - reader.takes.count,
                     reader.takes.lost, reader.takes.count);
    }
  }

  /** An interrupt cuts the next read short: it need not wait, takes nothing, and clears the flag. */
  lemma InterruptCutsShort(s: System, id: nat, size: nat)
    requires Inv(s) && id in s.readers
    ensures Enabled(s, InterruptRead(id))
    ensures var s1 := Apply(s, InterruptRead(id));
      && Inv(s1) && OnlyReader(s, s1, id)
      && s1.readers[id] == s.readers[id].(sub := Sub(s.readers[id].sub.cursor, true))
      && (s.readers[id].inFlight.None? ==>
            && Enabled(s1, TakeSignals(id, size))
            && OnlyReader(s, Apply(s1, TakeSignals(id, size)), id)
            && Apply(s1, TakeSignals(id, size)).readers[id] ==
               s.readers[id].(sub := Sub(s.readers[id].sub.cursor, false)))
  {
    hide Ring.Refines, Ring.WellFormed, WriterInv, Spans, Taken, Records;
    var s1 := Apply(s, InterruptRead(id));
    StepKeepsInv(s, InterruptRead(id));
    assert ReaderInv(s1.readers[id], s1.ring, Payloads(s1.log));
    if s.readers[id].inFlight.None? {
      RunInterrupted(s1.ring, Payloads(s1.log), s1.readers[id].sub, ReadCallback(size));
      InterruptedReadClears(size);
    }
  }

  lemma InterruptedReadClears(size: nat)
    ensures ReadCallback(size)(Then(NoCalls, INTERRUPT_CALL)).clears
  {}
}
