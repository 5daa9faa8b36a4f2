/**
  The file from end to end: writers inside `do_write`, whose frames interleave because the mutex is
  taken once per signal, and readers whose reply is copied out after the mutex was released.
 */
module EndToEnd {
  import opened Words
  import opened Ring
  import opened Dequeue
  import opened Wire
  import opened Reading
  import opened Writing

  /** A published payload and the writer it came from. */
  datatype Entry = Entry(writer: nat, payload: Payload)

  /** The unprocessed rest of the buffer being written, and the frames of all buffers so far. */
  datatype Writer = Writer(pending: seq<Byte>, written: seq<Payload>)

  /** Completed reads, the latest on the outside: how far behind it started, what it lost and took. */
  datatype Takes = NoTakes | Took(before: Takes, lag: nat, lost: nat, count: nat)

  /**
    An open file being read: its position, the reads so far, the reply that was batched but not yet
    copied out, and all bytes received. `overtaken` records that some reply was copied out when more
    than a ring's worth of signals had been published from its first one on.
   */
  datatype Reader = Reader(sub: Sub, joined: nat, takes: Takes, inFlight: Option<Batch>, received: seq<Byte>,
                           overtaken: bool)

  datatype System = System(ring: Ring, log: seq<Entry>, writers: map<nat, Writer>, readers: map<nat, Reader>)

  datatype Step =
    | BeginWrite(writer: nat, buffer: seq<Byte>)
    | WriteFrame(writer: nat)
    | OpenReader(reader: nat)
    | TakeSignals(reader: nat, size: nat)
    | CopyReply(reader: nat, heap: Heap)
    | InterruptRead(reader: nat)

  function Payloads(log: seq<Entry>): (ps: seq<Payload>)
    ensures |ps| == |log| && forall i :: 0 <= i < |log| ==> ps[i] == log[i].payload
  {
    seq(|log|, i requires 0 <= i < |log| => log[i].payload)
  }

  /** What one writer published, in order. */
  function ByWriter(log: seq<Entry>, writer: nat): seq<Payload> {
    if log == [] then []
    else
      var last := log[|log| - 1];
      ByWriter(log[..|log| - 1], writer) + (if last.writer == writer then [last.payload] else [])
  }

  // The invariant --------------------------------------------------------------------------

  /** The reads account for every id between `joined` and `cursor`, and lost what a ring of `size` overwrote. */
  ghost predicate Spans(takes: Takes, size: nat, joined: nat, cursor: nat) {
    match takes
    case NoTakes => cursor == joined
    case Took(before, lag, lost, count) =>
      && joined + lost + count <= cursor
      && lost == Max(0, lag - (size - 1))
      && Spans(before, size, joined, cursor - count - lost)
  }

  /** The records that these reads took. */
  ghost function Taken(takes: Takes, log: seq<Payload>, size: nat, joined: nat, cursor: nat): seq<Record>
    requires Spans(takes, size, joined, cursor) && 1 <= joined && cursor <= |log| + 1
  {
    match takes
    case NoTakes => []
    case Took(before, lag, lost, count) =>
      Taken(before, log, size, joined, cursor - count - lost) + LoggedRecords(log, cursor - count, lost, count)
  }

  /** The reply in flight is that of the latest read, and still carries its records until it is overtaken. */
  ghost predicate InFlightInv(batch: Batch, takes: Takes, ring: Ring, log: seq<Payload>, cursor: nat)
    requires ring.Sized()
  {
    && takes.Took? && takes.count == |batch.sig| && takes.count < cursor <= |log| + 1
    && (takes.count == 0 || ring.next <= cursor - takes.count + |ring.slots| ==>
          Carries(batch, ring, LoggedRecords(log, cursor - takes.count, takes.lost, takes.count)))
  }

  /** Unless it was overtaken, a reader has received the records of its reads, bar the one in flight. */
  ghost predicate ReaderInv(reader: Reader, ring: Ring, log: seq<Payload>)
    requires ring.Sized()
  {
    var takes, joined, cursor := reader.takes, reader.joined, reader.sub.cursor;
    && 1 <= joined && ValidCursor(ring, cursor) && ring.next == |log| + 1
    && Spans(takes, |ring.slots|, joined, cursor)
    && (reader.inFlight.Some? ==> InFlightInv(reader.inFlight.value, takes, ring, log, cursor))
    && (!reader.overtaken ==>
          reader.received == Records(
            if reader.inFlight.None? then Taken(takes, log, |ring.slots|, joined, cursor)
            else Taken(takes.before, log, |ring.slots|, joined, cursor - takes.count - takes.lost)))
  }

  ghost predicate WriterInv(writer: Writer, log: seq<Entry>, id: nat) {
    ByWriter(log, id) + Parse(writer.pending).payloads == writer.written
  }

  ghost predicate Inv(s: System) {
    && s.ring.Refines(Payloads(s.log))
    && s.ring.Bounded()
    && Framable(Payloads(s.log))
    && (forall id :: id in s.readers ==> ReaderInv(s.readers[id], s.ring, Payloads(s.log)))
    && (forall id :: id in s.writers ==> WriterInv(s.writers[id], s.log, id))
    && (forall id :: id !in s.writers ==> ByWriter(s.log, id) == [])
  }

  // Steps ----------------------------------------------------------------------------------

  ghost predicate Enabled(s: System, step: Step)
    requires s.ring.Sized()
  {
    match step
    case BeginWrite(w, _) => w in s.writers ==> s.writers[w].pending == []
    case WriteFrame(w) => w in s.writers && s.writers[w].pending != [] && s.ring.next < TWO32
    case OpenReader(id) => id !in s.readers
    case TakeSignals(id, _) =>
      id in s.readers && s.readers[id].inFlight.None? && Awake(s.ring, s.readers[id].sub)
    case CopyReply(id, _) => id in s.readers && s.readers[id].inFlight.Some?
    case InterruptRead(id) => id in s.readers
  }

  function Take(reader: Reader, ring: Ring, size: nat): Reader
    requires ring.WellFormed() && ring.Bounded() && ValidCursor(ring, reader.sub.cursor)
    requires Awake(ring, reader.sub)
  {
    var out := Run(ring, reader.sub, ReadCallback(size));
    if !out.completed then reader.(sub := out.sub)
    else
      var batch := BatchOf(size, out.calls);
      var taken := Took(reader.takes, ring.next - reader.sub.cursor, Lost(ring, reader.sub.cursor), |batch.sig|);
      reader.(sub := out.sub, takes := taken, inFlight := Some(batch))
  }

  function Copy(reader: Reader, ring: Ring, heap: Heap): Reader
    requires reader.inFlight.Some?
  {
    var batch := reader.inFlight.value;
    var late := batch.sig != [] && reader.sub.cursor - |batch.sig| + |ring.slots| < ring.next;
    reader.(inFlight := None,
            received := reader.received + ReplyBytes(batch, ring, heap),
            overtaken := reader.overtaken || late)
  }

  ghost function Apply(s: System, step: Step): System
    requires Inv(s) && Enabled(s, step)
  {
    match step
    case BeginWrite(w, buffer) =>
      var written := if w in s.writers then s.writers[w].written else [];
      s.(writers := s.writers[w := Writer(buffer, written + Parse(buffer).payloads)])
    case WriteFrame(w) =>
      var pending := s.writers[w].pending;
      if StartsWithFrame(pending) then
        s.(ring := s.ring.Publish(FirstPayload(pending)),
           log := s.log + [Entry(w, FirstPayload(pending))],
           writers := s.writers[w := s.writers[w].(pending := AfterFirst(pending))])
      else
        s.(writers := s.writers[w := s.writers[w].(pending := [])])
    case OpenReader(id) =>
      s.(readers := s.readers[id := Reader(Sub(s.ring.next, false), s.ring.next, NoTakes, None, [], false)])
    case TakeSignals(id, size) =>
      assert ReaderInv(s.readers[id], s.ring, Payloads(s.log));
      s.(readers := s.readers[id := Take(s.readers[id], s.ring, size)])
    case CopyReply(id, heap) => s.(readers := s.readers[id := Copy(s.readers[id], s.ring, heap)])
    case InterruptRead(id) =>
      s.(readers := s.readers[id := s.readers[id].(sub := s.readers[id].sub.(interrupted := true))])
  }

  // Each kind of step keeps the invariant --------------------------------------------------

  lemma TakeKeepsReader(reader: Reader, ring: Ring, log: seq<Payload>, size: nat)
    requires ring.Refines(log) && ring.Bounded() && ReaderInv(reader, ring, log)
    requires reader.inFlight.None? && Awake(ring, reader.sub)
    ensures ReaderInv(Take(reader, ring, size), ring, log)
  {
    hide Ring.Refines, Ring.WellFormed, Run, BatchOf, Delivers, Carries, FullBatch, Records, Taken;
    RunInterrupted(ring, log, reader.sub, ReadCallback(size));
    if !reader.sub.interrupted {
      BatchLaw(ring, log, reader.sub, size);
      var out := Run(ring, reader.sub, ReadCallback(size));
      var lost := Lost(ring, reader.sub.cursor);
      var start := reader.sub.cursor + lost;
      CarriesBounds(BatchOf(size, out.calls), ring, LoggedRecords(log, start, lost, out.sub.cursor - start));
    }
  }

  lemma ReplyContinues(batch: Batch, ring: Ring, heap: Heap, log: seq<Payload>, start: nat, lost: nat, n: nat)
    requires ring.Refines(log) && 1 <= start && start + n <= ring.next && (0 < n ==> ring.next <= start + |ring.slots|)
    requires Carries(batch, ring, LoggedRecords(log, start, lost, n))
    ensures ReplyBytes(batch, ring, heap) == Records(LoggedRecords(log, start, lost, n))
  {
    hide Ring.Refines, Ring.WellFormed, Records, Gather, Carries;
    if n > 0 {
      ReplyNow(batch, ring, heap, log, start, lost, n);
    } else {
      EmptyReply(batch, ring, heap, LoggedRecords(log, start, lost, 0));
    }
  }

  lemma EmptyReply(batch: Batch, ring: Ring, heap: Heap, rs: seq<Record>)
    requires ring.Sized() && Carries(batch, ring, rs) && rs == []
    ensures ReplyBytes(batch, ring, heap) == Records(rs)
  {}

  lemma CopyKeepsReader(reader: Reader, ring: Ring, log: seq<Payload>, heap: Heap)
    requires ring.Refines(log) && ReaderInv(reader, ring, log) && reader.inFlight.Some?
    ensures ReaderInv(Copy(reader, ring, heap), ring, log)
  {
    hide Ring.Refines, Ring.WellFormed, Records, ReplyBytes, Carries, LoggedRecords;
    if !Copy(reader, ring, heap).overtaken {
      var takes, cursor := reader.takes, reader.sub.cursor;
      var start := cursor - takes.count;
      ReplyContinues(reader.inFlight.value, ring, heap, log, start, takes.lost, takes.count);
      RecordsAppend(Taken(takes.before, log, |ring.slots|, reader.joined, start - takes.lost),
                    LoggedRecords(log, start, takes.lost, takes.count));
    }
  }

  lemma LoggedRecordsStable(log: seq<Payload>, more: seq<Payload>, start: nat, lost: nat, n: nat)
    requires 1 <= start && start + n <= |log| + 1
    ensures LoggedRecords(log + more, start, lost, n) == LoggedRecords(log, start, lost, n)
  {}

  lemma {:induction false} TakenStable(takes: Takes, log: seq<Payload>, more: seq<Payload>, size: nat,
                                       joined: nat, cursor: nat)
    requires Spans(takes, size, joined, cursor) && 1 <= joined && cursor <= |log| + 1
    ensures Taken(takes, log + more, size, joined, cursor) == Taken(takes, log, size, joined, cursor)
  {
    match takes
    case NoTakes =>
    case Took(before, lag, lost, count) =>
      TakenStable(before, log, more, size, joined, cursor - count - lost);
      LoggedRecordsStable(log, more, cursor - count, lost, count);
  }

  lemma PublishKeepsBatch(batch: Batch, ring: Ring, log: seq<Payload>, data: Payload, start: nat, lost: nat, n: nat)
    requires ring.WellFormed() && 1 <= start && start + n <= |log| + 1 == ring.next
    requires n == 0 || ring.next < start + |ring.slots|
    requires Carries(batch, ring, LoggedRecords(log, start, lost, n))
    ensures ring.Publish(data).Sized()
    ensures Carries(batch, ring.Publish(data), LoggedRecords(log + [Clip(data)], start, lost, n))
  {
    hide Ring.WellFormed, Ring.Publish, Carries;
    PublishPointers(ring, data);
    var rs := LoggedRecords(log, start, lost, n);
    forall i | 0 <= i < n
      ensures ring.Publish(data).PointerTo(rs[i].id) == ring.PointerTo(rs[i].id)
    {
      PublishKeeps(ring, data, start + i);
    }
    CarriesInto(batch, ring, ring.Publish(data), rs);
    LoggedRecordsStable(log, [Clip(data)], start, lost, n);
  }

  lemma PublishKeepsInFlight(batch: Batch, takes: Takes, ring: Ring, log: seq<Payload>, cursor: nat, data: Payload)
    requires ring.Refines(log) && InFlightInv(batch, takes, ring, log, cursor)
    ensures ring.Publish(data).Sized()
    ensures InFlightInv(batch, takes, ring.Publish(data), log + [Clip(data)], cursor)
  {
    hide Ring.Refines, Ring.WellFormed, Carries, LoggedRecords;
    PublishPointers(ring, data);
    var start := cursor - takes.count;
    if takes.count == 0 || ring.next < start + |ring.slots| {
      PublishKeepsBatch(batch, ring, log, data, start, takes.lost, takes.count);
    }
  }

  lemma PublishKeepsReader(reader: Reader, ring: Ring, log: seq<Payload>, data: Payload)
    requires ring.Refines(log) && ReaderInv(reader, ring, log)
    ensures ring.Publish(data).Sized() && ReaderInv(reader, ring.Publish(data), log + [Clip(data)])
  {
    hide Ring.Refines, Ring.WellFormed, Records, Carries, Taken, Ring.Publish;
    PublishPointers(ring, data);
    var takes, cursor := reader.takes, reader.sub.cursor;
    if reader.inFlight.Some? {
      PublishKeepsInFlight(reader.inFlight.value, takes, ring, log, cursor, data);
      TakenStable(takes.before, log, [Clip(data)], |ring.slots|, reader.joined, cursor - takes.count - takes.lost);
    } else {
      TakenStable(takes, log, [Clip(data)], |ring.slots|, reader.joined, cursor);
    }
  }

  lemma AppendEntry(log: seq<Entry>, e: Entry, writer: nat)
    ensures Payloads(log + [e]) == Payloads(log) + [e.payload]
    ensures ByWriter(log + [e], writer) == ByWriter(log, writer) + (if e.writer == writer then [e.payload] else [])
  {
    assert (log + [e])[..|log|] == log;
  }

  lemma WriteKeepsWriter(writer: Writer, log: seq<Entry>, id: nat)
    requires WriterInv(writer, log, id) && StartsWithFrame(writer.pending)
    ensures WriterInv(writer.(pending := AfterFirst(writer.pending)),
                      log + [Entry(id, FirstPayload(writer.pending))], id)
  {
    var p := FirstPayload(writer.pending);
    AppendEntry(log, Entry(id, p), id);
    var tail := Parse(AfterFirst(writer.pending)).payloads;
    assert Parse(writer.pending).payloads == [p] + tail;
    assert ByWriter(log, id) + ([p] + tail) == (ByWriter(log, id) + [p]) + tail;
  }

  lemma BeginKeepsWriter(log: seq<Entry>, id: nat, buffer: seq<Byte>, written: seq<Payload>)
    requires written == ByWriter(log, id)
    ensures WriterInv(Writer(buffer, written + Parse(buffer).payloads), log, id)
  {}

  lemma DoneWriter(writer: Writer, log: seq<Entry>, id: nat)
    requires WriterInv(writer, log, id) && !StartsWithFrame(writer.pending)
    ensures writer.written == ByWriter(log, id) && WriterInv(writer.(pending := []), log, id)
  {
    assert ByWriter(log, id) + [] == ByWriter(log, id);
  }

  lemma FrameKeepsInv(s: System, w: nat)
    requires Inv(s) && Enabled(s, WriteFrame(w)) && StartsWithFrame(s.writers[w].pending)
    ensures Inv(Apply(s, WriteFrame(w)))
  {
    hide Ring.Refines, ReaderInv, ByWriter, WriterInv, StartsWithFrame, FirstPayload, AfterFirst;
    var payload := FirstPayload(s.writers[w].pending);
    var e := Entry(w, payload);
    FirstPayloadUnclipped(s.writers[w].pending);
    AppendEntry(s.log, e, w);
    PublishRefines(s.ring, Payloads(s.log), payload);
    FrameSplits(s.writers[w].pending);
    WriteKeepsWriter(s.writers[w], s.log, w);
    var s' := Apply(s, WriteFrame(w));
    forall id | id in s'.readers
      ensures ReaderInv(s'.readers[id], s'.ring, Payloads(s'.log))
    {
      PublishKeepsReader(s.readers[id], s.ring, Payloads(s.log), payload);
    }
    forall id: nat | id != w
      ensures ByWriter(s'.log, id) == ByWriter(s.log, id)
    {
      AppendEntry(s.log, e, id);
      assert ByWriter(s.log, id) + [] == ByWriter(s.log, id);
    }
    forall id | id in s'.writers
      ensures WriterInv(s'.writers[id], s'.log, id)
    {
      if id != w {
        SameWriter(s.writers[id], s.log, s'.log, id);
      }
    }
  }

  lemma SameWriter(writer: Writer, log: seq<Entry>, log': seq<Entry>, id: nat)
    requires WriterInv(writer, log, id) && ByWriter(log', id) == ByWriter(log, id)
    ensures WriterInv(writer, log', id)
  {}

  lemma StepKeepsInv(s: System, step: Step)
    requires Inv(s) && Enabled(s, step)
    ensures Inv(Apply(s, step))
  {
    hide Ring.Refines, Ring.WellFormed, ReaderInv, Take, Copy, ByWriter, Parse;
    match step
    case BeginWrite(w, buffer) =>
      if w in s.writers {
        NoFrameInNothing();
        DoneWriter(s.writers[w], s.log, w);
        BeginKeepsWriter(s.log, w, buffer, s.writers[w].written);
      } else {
        BeginKeepsWriter(s.log, w, buffer, []);
      }
    case WriteFrame(w) =>
      if StartsWithFrame(s.writers[w].pending) {
        FrameKeepsInv(s, w);
      } else {
        DoneWriter(s.writers[w], s.log, w);
      }
    case OpenReader(id) =>
      OpenKeepsReader(s.ring, Payloads(s.log));
    case TakeSignals(id, size) =>
      TakeKeepsReader(s.readers[id], s.ring, Payloads(s.log), size);
    case CopyReply(id, heap) =>
      CopyKeepsReader(s.readers[id], s.ring, Payloads(s.log), heap);
    case InterruptRead(id) =>
      FlagKeepsReader(s.readers[id], s.ring, Payloads(s.log));
  }

  lemma NoFrameInNothing()
    ensures !StartsWithFrame([])
  {}

  lemma OpenKeepsReader(ring: Ring, log: seq<Payload>)
    requires ring.Refines(log)
    ensures ReaderInv(Reader(Sub(ring.next, false), ring.next, NoTakes, None, [], false), ring, log)
  {
    hide Ring.Refines, Ring.WellFormed;
  }

  lemma FlagKeepsReader(reader: Reader, ring: Ring, log: seq<Payload>)
    requires ring.Refines(log) && ReaderInv(reader, ring, log)
    ensures ReaderInv(reader.(sub := reader.sub.(interrupted := true)), ring, log)
  {
    hide Ring.Refines, Ring.WellFormed, Records, Taken, LoggedRecords, Carries;
  }

  // Whole runs -----------------------------------------------------------------------------

  datatype Execution = Begin(size: nat) | After(before: Execution, step: Step)

  ghost predicate Legal(run: Execution)
    decreases run, 0
  {
    match run
    case Begin(size) => 4 <= size < TWO32 && IsPow2(size)
    case After(before, step) => Legal(before) && Enabled(State(before), step)
  }

  lemma StartInv(size: nat)
    requires 4 <= size < TWO32 && IsPow2(size)
    ensures Inv(System(Initial(size), [], map[], map[]))
  {
    InitialRefines(size);
    assert Payloads([]) == [];
  }

  ghost function State(run: Execution): (s: System)
    requires Legal(run)
    ensures Inv(s)
    decreases run, 1
  {
    match run
    case Begin(size) =>
      StartInv(size);
      System(Initial(size), [], map[], map[])
    case After(before, step) =>
      StepKeepsInv(State(before), step);
      Apply(State(before), step)
  }

  // What readers decode --------------------------------------------------------------------

  /** The ids increase strictly within `[from, to)`, and each record carries the payload published under its id. */
  ghost predicate Faithful(rs: seq<Record>, log: seq<Payload>, from: nat, to: nat) {
    && (forall i, j :: 0 <= i < j < |rs| ==> rs[i].id < rs[j].id)
    && (forall i :: 0 <= i < |rs| ==>
          from <= rs[i].id < to && 1 <= rs[i].id <= |log| && rs[i].bytes == log[rs[i].id - 1])
  }

  function TotalLost(takes: Takes): nat {
    match takes
    case NoTakes => 0
    case Took(before, _, lost, _) => TotalLost(before) + lost
  }

  /** Every read that lost something also took something, and so its reply told of the loss. */
  ghost predicate AllReported(takes: Takes) {
    takes.Took? ==> (takes.count == 0 ==> takes.lost == 0) && AllReported(takes.before)
  }

  /** No read started more than `size - 1` signals behind. */
  ghost predicate NeverBehind(takes: Takes, size: nat) {
    takes.Took? ==> takes.lag < size && NeverBehind(takes.before, size)
  }

  /** The id that follows the records, or `from` if there are none. */
  function NextId(rs: seq<Record>, from: nat): nat {
    if rs == [] then from else rs[|rs| - 1].id + 1
  }

  /** A record either follows the one before it, or is as far ahead of that as the loss it reports. */
  ghost predicate GapsAreReported(rs: seq<Record>, from: nat) {
    forall i :: 0 <= i < |rs| ==>
      var expected := NextId(rs[..i], from);
      rs[i].id == expected || rs[i].id == expected + rs[i].lost
  }

  lemma FaithfulAppend(rs: seq<Record>, more: seq<Record>, log: seq<Payload>, from: nat, to: nat,
                       start: nat, lost: nat, n: nat)
    requires Faithful(rs, log, from, to) && from <= to <= start && 1 <= start && start + n <= |log| + 1
    requires more == LoggedRecords(log, start, lost, n)
    ensures Faithful(rs + more, log, from, start + n)
  {}

  lemma NothingIsFaithful(log: seq<Payload>, from: nat)
    ensures Faithful([], log, from, from)
  {}

  lemma {:induction false} TakenIsFaithful(takes: Takes, log: seq<Payload>, size: nat, joined: nat, cursor: nat)
    requires Spans(takes, size, joined, cursor) && 1 <= joined && cursor <= |log| + 1
    ensures joined <= cursor && Faithful(Taken(takes, log, size, joined, cursor), log, joined, cursor)
    ensures |Taken(takes, log, size, joined, cursor)| + TotalLost(takes) == cursor - joined
  {
    hide LoggedRecords, Faithful;
    match takes
    case NoTakes =>
      NothingIsFaithful(log, joined);
    case Took(before, lag, lost, count) =>
      var start := cursor - count;
      TakenIsFaithful(before, log, size, joined, start - lost);
      FaithfulAppend(Taken(before, log, size, joined, start - lost), LoggedRecords(log, start, lost, count),
                     log, joined, start - lost, start, lost, count);
  }

  lemma GapsAppend(rs: seq<Record>, more: seq<Record>, log: seq<Payload>, from: nat, start: nat, lost: nat, n: nat)
    requires GapsAreReported(rs, from) && NextId(rs, from) + lost == start && (n == 0 ==> lost == 0)
    requires 1 <= start && start + n <= |log| + 1 && more == LoggedRecords(log, start, lost, n)
    ensures GapsAreReported(rs + more, from) && NextId(rs + more, from) == start + n
  {
    var all := rs + more;
    forall i | 0 <= i < |all|
      ensures var expected := NextId(all[..i], from); all[i].id == expected || all[i].id == expected + all[i].lost
    {
      if i < |rs| {
        assert all[..i] == rs[..i];
      } else if i == |rs| {
        assert all[..i] == rs;
      } else {
        assert all[..i][i - 1] == more[i - 1 - |rs|];
      }
    }
  }

  lemma NoGaps(from: nat)
    ensures GapsAreReported([], from) && NextId([], from) == from
  {}

  lemma {:induction false} TakenGaps(takes: Takes, log: seq<Payload>, size: nat, joined: nat, cursor: nat)
    requires Spans(takes, size, joined, cursor) && 1 <= joined && cursor <= |log| + 1 && AllReported(takes)
    ensures GapsAreReported(Taken(takes, log, size, joined, cursor), joined)
    ensures NextId(Taken(takes, log, size, joined, cursor), joined) == cursor
  {
    hide LoggedRecords, GapsAreReported, NextId;
    match takes
    case NoTakes =>
      NoGaps(joined);
    case Took(before, lag, lost, count) =>
      var start := cursor - count;
      TakenGaps(before, log, size, joined, start - lost);
      GapsAppend(Taken(before, log, size, joined, start - lost), LoggedRecords(log, start, lost, count),
                 log, joined, start, lost, count);
  }

  lemma GapsPrefix(rs: seq<Record>, more: seq<Record>, from: nat)
    requires GapsAreReported(rs + more, from)
    ensures GapsAreReported(rs, from)
    ensures more != [] ==>
      var expected := NextId(rs, from); more[0].id == expected || more[0].id == expected + more[0].lost
  {
    var all := rs + more;
    forall i | 0 <= i < |rs|
      ensures all[..i] == rs[..i]
    {}
    if more != [] {
      assert all[..|rs|] == rs && all[|rs|] == more[0];
    }
  }

  lemma NextIdBound(rs: seq<Record>, log: seq<Payload>, from: nat, to: nat)
    requires Faithful(rs, log, from, to) && from <= to
    ensures NextId(rs, from) <= to
  {}

  lemma NextIdAppend(rs: seq<Record>, more: seq<Record>, from: nat)
    requires more == []
    ensures NextId(rs + more, from) == NextId(rs, from)
  {
    assert rs + more == rs;
  }

  /** The converse: a loss that no record reports shows as a gap, or as ids missing at the end. */
  lemma {:induction false} GapsTell(takes: Takes, log: seq<Payload>, size: nat, joined: nat, cursor: nat)
    requires Spans(takes, size, joined, cursor) && 1 <= joined && cursor <= |log| + 1
    requires GapsAreReported(Taken(takes, log, size, joined, cursor), joined)
    requires NextId(Taken(takes, log, size, joined, cursor), joined) == cursor
    ensures AllReported(takes)
  {
    hide GapsAreReported, NextId, Faithful, LoggedRecords;
    match takes
    case NoTakes =>
    case Took(before, lag, lost, count) =>
      var start := cursor - count;
      var rs := Taken(before, log, size, joined, start - lost);
      var more := LoggedRecords(log, start, lost, count);
      GapsPrefix(rs, more, joined);
      TakenIsFaithful(before, log, size, joined, start - lost);
      NextIdBound(rs, log, joined, start - lost);
      if count == 0 {
        NextIdAppend(rs, more, joined);
      }
      GapsTell(before, log, size, joined, start - lost);
  }

  /** Seen from the records alone: nothing is missing but what they report. */
  ghost predicate NothingUnreported(rs: seq<Record>, from: nat, to: nat) {
    GapsAreReported(rs, from) && NextId(rs, from) == to
  }

  lemma NothingUnreportedExactly(takes: Takes, log: seq<Payload>, size: nat, joined: nat, cursor: nat)
    requires Spans(takes, size, joined, cursor) && 1 <= joined && cursor <= |log| + 1
    ensures AllReported(takes) <==> NothingUnreported(Taken(takes, log, size, joined, cursor), joined, cursor)
  {
    hide Spans, AllReported, Taken, GapsAreReported, NextId;
    if AllReported(takes) {
      TakenGaps(takes, log, size, joined, cursor);
    }
    if NothingUnreported(Taken(takes, log, size, joined, cursor), joined, cursor) {
      GapsTell(takes, log, size, joined, cursor);
    }
  }

  lemma {:induction false} LoggedRecordsAppend(log: seq<Payload>, start: nat, m: nat, n: nat)
    requires 1 <= start && start + m + n <= |log| + 1
    ensures LoggedRecords(log, start, 0, m) + LoggedRecords(log, start + m, 0, n) == LoggedRecords(log, start, 0, m + n)
  {}

  lemma {:induction false} TakenWithoutLoss(takes: Takes, log: seq<Payload>, size: nat, joined: nat, cursor: nat)
    requires Spans(takes, size, joined, cursor) && 1 <= joined && cursor <= |log| + 1 && NeverBehind(takes, size)
    ensures joined <= cursor
    ensures Taken(takes, log, size, joined, cursor) == LoggedRecords(log, joined, 0, cursor - joined)
  {
    match takes
    case NoTakes =>
    case Took(before, lag, lost, count) =>
      hide LoggedRecords;
      TakenWithoutLoss(before, log, size, joined, cursor - count);
      LoggedRecordsAppend(log, joined, cursor - count - joined, count);
  }

  lemma RecordsEncodable(log: seq<Payload>, start: nat, lost: nat, n: nat)
    requires 1 <= start && start + n <= |log| + 1 && |log| < TWO32 && Framable(log) && lost < TWO32
    ensures AllEncodable(LoggedRecords(log, start, lost, n))
  {}

  lemma {:induction false} TakenEncodable(takes: Takes, log: seq<Payload>, size: nat, joined: nat, cursor: nat)
    requires Spans(takes, size, joined, cursor) && 1 <= joined && cursor <= |log| + 1
    requires |log| < TWO32 && Framable(log)
    ensures AllEncodable(Taken(takes, log, size, joined, cursor))
  {
    match takes
    case NoTakes =>
    case Took(before, lag, lost, count) =>
      hide LoggedRecords;
      TakenEncodable(before, log, size, joined, cursor - count - lost);
      TakenIsFaithful(before, log, size, joined, cursor - count - lost);
      RecordsEncodable(log, cursor - count, lost, count);
  }

  /** All the reader's replies were copied out in time. */
  ghost predicate Intact(s: System, id: nat) {
    id in s.readers && !s.readers[id].overtaken && s.readers[id].inFlight.None?
  }

  /** Besides, no read of it started too late. */
  ghost predicate Punctual(s: System, id: nat) {
    Intact(s, id) && NeverBehind(s.readers[id].takes, |s.ring.slots|)
  }

  /** What a reader can tell from all the bytes it received. */
  ghost predicate DecodedFaithfully(s: System, id: nat)
    requires id in s.readers
  {
    var reader, log := s.readers[id], Payloads(s.log);
    var records := ParseRecords(reader.received);
    && 1 <= reader.joined <= reader.sub.cursor <= |log| + 1 && records.Some?
    && Faithful(records.value, log, reader.joined, reader.sub.cursor)
    && |records.value| + TotalLost(reader.takes) == reader.sub.cursor - reader.joined
    && (AllReported(reader.takes) <==> NothingUnreported(records.value, reader.joined, reader.sub.cursor))
  }

  lemma IntactReaderReceived(s: System, id: nat)
    requires Inv(s) && Intact(s, id)
    ensures var reader, log := s.readers[id], Payloads(s.log);
      && Spans(reader.takes, |s.ring.slots|, reader.joined, reader.sub.cursor)
      && 1 <= reader.joined && reader.sub.cursor <= |log| + 1
      && ParseRecords(reader.received) ==
         Some(Taken(reader.takes, log, |s.ring.slots|, reader.joined, reader.sub.cursor))
  {
    hide Records, ParseRecords, Taken, ByWriter, WriterInv, Ring.WellFormed;
    var reader, log := s.readers[id], Payloads(s.log);
    assert ReaderInv(reader, s.ring, log);
    TakenEncodable(reader.takes, log, |s.ring.slots|, reader.joined, reader.sub.cursor);
    ParseRecordsOf(Taken(reader.takes, log, |s.ring.slots|, reader.joined, reader.sub.cursor));
  }

  /**
    However far it lags, a reader whose replies were copied out in time decodes increasing ids with
    their own payloads. Decoded and lost signals account for all; the gaps are the losses reported
    with the records, apart from losses of reads that took nothing.
   */
  lemma IntactReaderDecodes(s: System, id: nat)
    requires Inv(s) && Intact(s, id)
    ensures DecodedFaithfully(s, id)
  {
    hide Inv, ParseRecords, Taken, Spans, Faithful, NothingUnreported;
    IntactReaderReceived(s, id);
    var reader, log := s.readers[id], Payloads(s.log);
    TakenIsFaithful(reader.takes, log, |s.ring.slots|, reader.joined, reader.sub.cursor);
    NothingUnreportedExactly(reader.takes, log, |s.ring.slots|, reader.joined, reader.sub.cursor);
  }

  /** The reader was open from the start and has read up to the end, and no writer has anything left. */
  ghost predicate Finished(s: System, id: nat)
    requires id in s.readers
  {
    && s.readers[id].joined == 1 && s.readers[id].sub.cursor == s.ring.next
    && (forall w :: w in s.writers ==> s.writers[w].pending == [])
  }

  /** The reader decodes every signal from its opening up to its cursor, once, in order, without loss. */
  ghost predicate Decoded(s: System, id: nat)
    requires id in s.readers
  {
    var reader := s.readers[id];
    && 1 <= reader.joined <= reader.sub.cursor <= |s.log| + 1
    && ParseRecords(reader.received) ==
       Some(LoggedRecords(Payloads(s.log), reader.joined, 0, reader.sub.cursor - reader.joined))
  }

  /** From all the bytes it received, a punctual reader decodes all that was published. */
  lemma PunctualReaderDecodes(s: System, id: nat)
    requires Inv(s) && Punctual(s, id)
    ensures Decoded(s, id)
  {
    hide Inv, ParseRecords, Taken, Spans, NeverBehind;
    IntactReaderReceived(s, id);
    var reader := s.readers[id];
    TakenWithoutLoss(reader.takes, Payloads(s.log), |s.ring.slots|, reader.joined, reader.sub.cursor);
  }

  // What was written, and from where on it is read -----------------------------------------

  /** The frames in all buffers that the run submits for a writer, in order. */
  function Submitted(run: Execution, w: nat): seq<Payload> {
    match run
    case Begin(_) => []
    case After(before, step) => Submitted(before, w) + SubmittedBy(step, w)
  }

  function SubmittedBy(step: Step, w: nat): seq<Payload> {
    if step.BeginWrite? && step.writer == w then Parse(step.buffer).payloads else []
  }

  function WrittenOf(s: System, w: nat): seq<Payload> {
    if w in s.writers then s.writers[w].written else []
  }

  function PendingOf(s: System, w: nat): seq<Byte> {
    if w in s.writers then s.writers[w].pending else []
  }

  lemma StepSubmits(s: System, step: Step, w: nat)
    requires Inv(s) && Enabled(s, step)
    ensures WrittenOf(Apply(s, step), w) == WrittenOf(s, w) + SubmittedBy(step, w)
  {
    hide Ring.Refines, ReaderInv, WriterInv, Parse;
    assert WrittenOf(s, w) + [] == WrittenOf(s, w);
  }

  lemma {:induction false} WrittenIsSubmitted(run: Execution, w: nat)
    requires Legal(run)
    ensures WrittenOf(State(run), w) == Submitted(run, w)
    decreases run
  {
    hide Inv, Enabled, Apply;
    match run
    case Begin(_) =>
    case After(before, step) =>
      WrittenIsSubmitted(before, w);
      StepSubmits(State(before), step, w);
  }

  lemma WrittenInOrder(s: System, w: nat)
    requires Inv(s)
    ensures ByWriter(s.log, w) + Parse(PendingOf(s, w)).payloads == WrittenOf(s, w)
  {
    hide Ring.Refines, ReaderInv, Parse, ByWriter;
    if w in s.writers {
      assert WriterInv(s.writers[w], s.log, w);
    } else {
      NoFrames();
    }
  }

  lemma NoFrames()
    ensures Parse([]) == Parsed([], [])
  {}

  /** The frames of one writer that are published, then those left in its buffer, are what was submitted. */
  ghost predicate InOrder(run: Execution, w: nat)
    requires Legal(run)
  {
    ByWriter(State(run).log, w) + Parse(PendingOf(State(run), w)).payloads == Submitted(run, w)
  }

  lemma SubmittedInOrder(run: Execution, w: nat)
    requires Legal(run)
    ensures InOrder(run, w)
  {
    hide State, Legal, Inv;
    WrittenInOrder(State(run), w);
    WrittenIsSubmitted(run, w);
  }

  /** `run` goes on from `early`, or is `early` itself. */
  ghost predicate Continues(run: Execution, early: Execution) {
    run == early || (run.After? && Continues(run.before, early))
  }

  lemma StepKeepsJoined(s: System, step: Step, id: nat)
    requires Inv(s) && Enabled(s, step) && id in s.readers
    ensures id in Apply(s, step).readers && Apply(s, step).readers[id].joined == s.readers[id].joined
  {
    hide Ring.Refines, Ring.WellFormed, Run, BatchOf, ReplyBytes, Parse;
  }

  lemma {:induction false} RunKeepsJoined(run: Execution, early: Execution, id: nat)
    requires Legal(run) && Continues(run, early)
    ensures Legal(early)
    ensures id in State(early).readers ==>
      id in State(run).readers && State(run).readers[id].joined == State(early).readers[id].joined
    decreases run
  {
    hide Inv, Enabled, Apply;
    if run != early {
      RunKeepsJoined(run.before, early, id);
      if id in State(early).readers {
        StepKeepsJoined(State(run.before), run.step, id);
      }
    }
  }

  lemma OpenStep(s: System, id: nat)
    requires Inv(s) && id !in s.readers
    ensures Enabled(s, OpenReader(id))
    ensures var s' := Apply(s, OpenReader(id));
      && id in s'.readers && s' == s.(readers := s.readers[id := s'.readers[id]])
      && s'.readers[id].joined == s'.readers[id].sub.cursor == |s.log| + 1 && !s'.readers[id].sub.interrupted
      && s'.readers[id].received == [] && Intact(s', id)
  {
    hide ReaderInv, WriterInv, Ring.WellFormed;
  }

  lemma OpenedState(before: Execution, id: nat)
    requires Legal(After(before, OpenReader(id)))
    ensures Legal(before) && Inv(State(before)) && id !in State(before).readers
    ensures Enabled(State(before), OpenReader(id))
    ensures State(After(before, OpenReader(id))) == Apply(State(before), OpenReader(id))
  {
    hide Inv, Apply;
  }

  /**
    A reader starts after the frames that were published before its opening, however the run goes
    on; while its replies are copied out in time, it never decodes one from before.
   */
  lemma OpensAfterPublished(run: Execution, before: Execution, id: nat)
    requires Legal(run) && Continues(run, After(before, OpenReader(id)))
    ensures Legal(before) && id in State(run).readers
    ensures State(run).readers[id].joined == |State(before).log| + 1
    ensures Intact(State(run), id) ==>
      && ParseRecords(State(run).readers[id].received).Some?
      && forall i :: 0 <= i < |ParseRecords(State(run).readers[id].received).value| ==>
           ParseRecords(State(run).readers[id].received).value[i].id > |State(before).log|
  {
    hide State, Legal, Inv, Enabled, Apply, Intact, ParseRecords;
    RunKeepsJoined(run, After(before, OpenReader(id)), id);
    OpenedState(before, id);
    OpenStep(State(before), id);
    if Intact(State(run), id) {
      IntactReaderDecodes(State(run), id);
    }
  }

  // Theorems over whole runs ---------------------------------------------------------------

  /**
    Over every run: readers decode what `IntactReaderDecodes` and `PunctualReaderDecodes` say, and
    however the frames of several writers interleave, each writer's are published in the order in
    which they were submitted.
   */
  lemma EveryRun(run: Execution)
    requires Legal(run)
    ensures forall id :: Intact(State(run), id) ==> DecodedFaithfully(State(run), id)
    ensures forall id :: Punctual(State(run), id) ==> Decoded(State(run), id)
    ensures forall w: nat :: InOrder(run, w)
  {
    hide State, Legal, ReaderInv, DecodedFaithfully, Decoded, Intact, Punctual, InOrder, Ring.WellFormed;
    var s := State(run);
    forall id | Intact(s, id)
      ensures id in s.readers && DecodedFaithfully(s, id)
    {
      IntactReader(s, id);
      IntactReaderDecodes(s, id);
    }
    forall id | Punctual(s, id)
      ensures id in s.readers && Decoded(s, id)
    {
      PunctualReader(s, id);
      PunctualReaderDecodes(s, id);
    }
    forall w: nat
      ensures InOrder(run, w)
    {
      SubmittedInOrder(run, w);
    }
  }

  lemma IntactReader(s: System, id: nat)
    requires Intact(s, id)
    ensures id in s.readers
  {}

  lemma PunctualReader(s: System, id: nat)
    requires Punctual(s, id)
    ensures id in s.readers
  {}

  /** The reader decodes an interleaving of exactly the frames that were submitted by anyone. */
  ghost predicate AllArrived(run: Execution, id: nat)
    requires Legal(run)
  {
    var s := State(run);
    && id in s.readers
    && ParseRecords(s.readers[id].received) == Some(LoggedRecords(Payloads(s.log), 1, 0, |s.log|))
    && forall w: nat :: ByWriter(s.log, w) == Submitted(run, w)
  }

  lemma NextIsLogged(s: System)
    requires Inv(s)
    ensures s.ring.next == |s.log| + 1
  {
    hide ReaderInv, WriterInv, Ring.WellFormed;
  }

  lemma NothingPending(s: System, w: nat)
    requires forall v :: v in s.writers ==> s.writers[v].pending == []
    ensures Parse(PendingOf(s, w)).payloads == []
  {}

  /**
    In the end everything arrives: when all writers are done, a punctual reader that was open from
    the start and has read up to the end decodes what all of them submitted, each in its order.
   */
  lemma EverythingArrives(run: Execution, id: nat)
    requires Legal(run)
    ensures Punctual(State(run), id) && Finished(State(run), id) ==> AllArrived(run, id)
  {
    hide State, Legal, Inv, ParseRecords, LoggedRecords, ByWriter, Parse, Submitted;
    var s := State(run);
    if Punctual(s, id) && Finished(s, id) {
      PunctualReaderDecodes(s, id);
      NextIsLogged(s);
      forall w: nat
        ensures ByWriter(s.log, w) == Submitted(run, w)
      {
        SubmittedInOrder(run, w);
        NothingPending(s, w);
        assert ByWriter(s.log, w) + [] == ByWriter(s.log, w);
      }
    }
  }
}
