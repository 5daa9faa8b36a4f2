/** Runs of the file that end where its documentation would not have them end. */
module Scenarios {
  import opened Words
  import opened Ring
  import opened Dequeue
  import opened Wire
  import opened Reading
  import opened EndToEnd
  import opened Steps

  // Steps and their effects ----------------------------------------------------------------

  /** Writer 0 writes the first `n` of the payloads, each as a buffer of its own. */
  function Write(run: Execution, ps: seq<Payload>, n: nat): Execution
    requires n <= |ps|
  {
    if n == 0 then run
    else After(After(Write(run, ps, n - 1), BeginWrite(0, Frame(ps[n - 1]))), WriteFrame(0))
  }

  lemma FrameEffect(s: System, p: Payload)
    requires Inv(s) && PendingOf(s, 0) == Frame(p) && |p| < TWO32 && s.ring.next < TWO32
    ensures Enabled(s, WriteFrame(0)) && s.ring.WellFormed()
    ensures var s' := Apply(s, WriteFrame(0));
      && s'.ring == s.ring.Publish(p) && Payloads(s'.log) == Payloads(s.log) + [p]
      && s'.readers == s.readers && Idle(s', 0)
  {
    hide Ring.Refines, Ring.WellFormed, ReaderInv, WriterInv, Ring.Publish, ByWriter;
    assert Frame(p) + [] == Frame(p);
    FrameIsFirst(p, []);
    AppendEntry(s.log, Entry(0, p), 0);
  }

  /** The first `n` of the payloads were published, and nothing else happened. */
  ghost predicate Wrote(s: System, s': System, ps: seq<Payload>, n: nat)
    requires n <= |ps|
  {
    && s.ring.WellFormed()
    && s'.ring == PublishAll(s.ring, ps, n) && Payloads(s'.log) == Payloads(s.log) + Logged(ps, n)
    && s'.readers == s.readers && Idle(s', 0)
  }

  lemma RingIsWellFormed(s: System)
    requires Inv(s)
    ensures s.ring.WellFormed()
  {}

  lemma {:induction false} WriteState(run: Execution, ps: seq<Payload>, n: nat)
    requires Legal(run) && n <= |ps| && Framable(ps)
    ensures Idle(State(run), 0) && State(run).ring.next + n <= TWO32 ==>
      Legal(Write(run, ps, n)) && Wrote(State(run), State(Write(run, ps, n)), ps, n)
  {
    hide Legal, State, Enabled, Apply, Payloads, Inv, Idle, PendingOf, Frame, Ring.WellFormed, Ring.Publish;
    var s := State(run);
    RingIsWellFormed(s);
    if n == 0 {
      assert Payloads(s.log) + [] == Payloads(s.log);
    } else if Idle(s, 0) && s.ring.next + n <= TWO32 {
      var p := ps[n - 1];
      var before := Write(run, ps, n - 1);
      WriteState(run, ps, n - 1);
      BeginEffect(State(before), 0, Frame(p));
      StateAfter(before, BeginWrite(0, Frame(p)));
      var begun := After(before, BeginWrite(0, Frame(p)));
      FrameEffect(State(begun), p);
      StateAfter(begun, WriteFrame(0));
      assert Payloads(s.log) + Logged(ps, n - 1) + [p] == Payloads(s.log) + Logged(ps, n);
    }
  }

  /** A new queue with one reader, opened before anything is published. */
  function Opened(size: nat): Execution {
    After(Begin(size), OpenReader(0))
  }

  lemma OpenedQueue(size: nat)
    requires 4 <= size < TWO32 && IsPow2(size)
    ensures Legal(Opened(size))
    ensures State(Opened(size)) ==
      System(Initial(size), [], map[], map[0 := Reader(Sub(1, false), 1, NoTakes, None, [], false)])
    ensures Initial(size).Refines([])
  {
    InitialRefines(size);
    StateAfter(Begin(size), OpenReader(0));
  }

  lemma EvenSize(size: nat)
    requires 4 <= size < TWO32 && IsPow2(size)
    ensures size + 2 <= TWO32
  {
    var k: nat :| size == Pow2(k);
    assert size == 2 * Pow2(k - 1);
  }

  // A torn reply ---------------------------------------------------------------------------

  /** The last of the payloads goes into the slot that was written before them. */
  function Overwriting(size: nat): (ps: seq<Payload>)
    ensures |ps| == size && forall k :: 0 <= k < size ==> ps[k] == if k == size - 1 then [1] else []
  {
    seq(size, k => if k == size - 1 then [1] else [])
  }

  /** Thirteen zero bytes are read, but only copied out once a ring's worth was published after them. */
  function TornRun(size: nat, heap: Heap): Execution {
    var taken := After(Write(Opened(size), [Zeros(13)], 1), TakeSignals(0, 100));
    After(Write(taken, Overwriting(size), size), CopyReply(0, heap))
  }

  lemma OverwritingReuses(r: Ring, log: seq<Payload>)
    requires r.Refines(log) && log == [Zeros(13)]
    ensures BlockReused(r, Overwriting(|r.slots|), |r.slots|, 1)
  {
    hide Ring.Refines, Ring.WellFormed;
    HoldsNow(r, log, 1);
    forall k | 0 <= k < |r.slots| && r.Index(r.next + k) == r.Index(1)
      ensures r.At(1).Reuses(Overwriting(|r.slots|)[k])
    {}
  }

  /** What the reader finds then was never published: its first byte is that of the later signal. */
  lemma TornBytes(bytes: seq<Byte>, r: Ring, heap: Heap, log: seq<Payload>)
    requires r.Refines([Zeros(13)])
    requires var ps := Overwriting(|r.slots|);
      && log == [Zeros(13)] + Logged(ps, |ps|)
      && FoundLater(bytes, r, ps, heap, 1, Zeros(13))
    ensures bytes !in log
  {
    hide Ring.Refines, Ring.WellFormed;
    var size := |r.slots|;
    OverwritingReuses(r, [Zeros(13)]);
    SlotRepeats(r, 1);
    assert LaidOver(LaidOverAll(r, Overwriting(size), size - 1, 1, Zeros(13)), [1])[0] == 1;
    NeverLogged(bytes, size);
  }

  lemma NeverLogged(bytes: seq<Byte>, size: nat)
    requires 0 < size && |bytes| == 13 && bytes[0] == 1
    ensures bytes !in [Zeros(13)] + Logged(Overwriting(size), size)
  {
    var log := [Zeros(13)] + Logged(Overwriting(size), size);
    forall i | 0 <= i < |log|
      ensures log[i] != bytes
    {
      if i == 0 {
        assert log[i][0] == 0;
      } else {
        assert |log[i]| <= 1;
      }
    }
  }

  /**
    In a queue of any accepted size, a reader can receive a well-formed record whose payload nobody
    ever published: the publishes that overtook its reply reused the block it was to be copied from.
   */
  lemma TornReplyIsReachable(size: nat, heap: Heap)
    requires 4 <= size < TWO32 && IsPow2(size)
    ensures Legal(TornRun(size, heap)) && 0 in State(TornRun(size, heap)).readers
    ensures var s := State(TornRun(size, heap));
      var records := ParseRecords(s.readers[0].received);
      && records.Some? && |records.value| == 1 && records.value[0].id == 1
      && records.value[0].bytes !in Payloads(s.log)
  {
    hide Legal, State, Inv, Enabled, Apply, Ring.Refines, Ring.WellFormed, Ring.Publish, PublishAll, Payloads;
    hide FoundLater;
    hide Carries, ReplyBytes, ParseRecords, Records, Write, Ring.Ready;
    OpenedQueue(size);
    EvenSize(size);
    var start := Opened(size);
    WriteState(start, [Zeros(13)], 1);
    var written := Write(start, [Zeros(13)], 1);
    var log := [Zeros(13)];
    OneLogged(Zeros(13));
    PublishAllRefines(Initial(size), [], log, 1);
    var ring := State(written).ring;
    ReadyIsAvailable(ring, 1);
    TakeEffect(State(written), 0, 100);
    StateAfter(written, TakeSignals(0, 100));
    var taken := After(written, TakeSignals(0, 100));
    var reader := State(taken).readers[0];
    FullBatchOfOne(log, reader.sub.cursor - 1);
    var ps := Overwriting(size);
    WriteState(taken, ps, size);
    var full := Write(taken, ps, size);
    CopyEffect(State(full), 0, heap);
    StateAfter(full, CopyReply(0, heap));
    OvertakenReply(reader.inFlight.value, ring, log, ps, heap, 1, 0, 1);
    var sent := Reread(LoggedRecords(log, 1, 0, 1), ring, State(full).ring, heap);
    assert [] + Records(sent) == Records(sent);
    ParseRecordsOf(sent);
    TornBytes(sent[0].bytes, ring, heap, log + Logged(ps, size));
  }

  lemma OneLogged(p: Payload)
    requires |p| < TWO32
    ensures [] + Logged([p], 1) == [p]
  {}

  lemma FullBatchOfOne(log: seq<Payload>, n: nat)
    requires log == [Zeros(13)] && n <= 1 && FullBatch(log, 1, n, 100)
    ensures n == 1
  {}

  // A loss that is never reported ----------------------------------------------------------

  /** Two signals are lost; the read that finds out has no room for a record. */
  function LossyRun(size: nat, heap: Heap): Execution {
    var written := Write(Opened(size), seq(size + 1, _ => []), size + 1);
    After(After(written, TakeSignals(0, SIGNAL_SIZE - 1)), CopyReply(0, heap))
  }

  /** The next read has room, and does not say that anything was lost. */
  function DroppedLossRun(size: nat, heap: Heap): Execution {
    After(After(LossyRun(size, heap), TakeSignals(0, SIGNAL_SIZE)), CopyReply(0, heap))
  }

  lemma AllEmpty(log: seq<Payload>, size: nat)
    requires log == [] + Logged(seq(size + 1, _ => []), size + 1)
    ensures |log| == size + 1 && forall i :: 0 <= i < |log| ==> log[i] == []
  {}

  lemma NoRoom(log: seq<Payload>, start: nat, n: nat)
    requires forall i :: 0 <= i < |log| ==> log[i] == []
    requires 1 <= start && start + n <= |log| + 1 && FullBatch(log, start, n, SIGNAL_SIZE - 1)
    ensures n == 0
  {
    if 0 < n {
      FirstFits(log, start, n, SIGNAL_SIZE - 1);
      assert false;
    }
  }

  lemma FirstFits(log: seq<Payload>, start: nat, n: nat, size: nat)
    requires 1 <= start && start + n <= |log| + 1 && 0 < n && AllFit(log, start, n, size)
    ensures Fits(log[start - 1], size)
  {}

  lemma SomeRoom(log: seq<Payload>, start: nat, n: nat)
    requires forall i :: 0 <= i < |log| ==> log[i] == []
    requires 1 <= start <= |log| && start + n <= |log| + 1 && FullBatch(log, start, n, SIGNAL_SIZE)
    ensures 0 < n
  {}

  lemma LagOf(ring: Ring, log: seq<Payload>, cursor: nat, lag: nat)
    requires ring.Refines(log) && ring.Bounded() && 1 <= cursor && ring.next == cursor + lag
    requires lag == |ring.slots| + 1 || lag == |ring.slots| - 1
    ensures ring.Ready(cursor) && Lost(ring, cursor) == if lag == |ring.slots| + 1 then 2 else 0
  {
    hide Ring.Refines, Ring.WellFormed, Ring.Ready;
    ReadyIsAvailable(ring, cursor);
  }

  lemma LossyState(size: nat, heap: Heap)
    requires 4 <= size < TWO32 && IsPow2(size)
    ensures Legal(LossyRun(size, heap)) && 0 in State(LossyRun(size, heap)).readers
    ensures var s := State(LossyRun(size, heap));
      var reader := s.readers[0];
      && s.ring.next == size + 2 && |s.ring.slots| == size
      && |s.log| == size + 1 && (forall i :: 0 <= i < |s.log| ==> Payloads(s.log)[i] == [])
      && reader.joined == 1 && reader.sub == Sub(3, false) && reader.inFlight.None? && !reader.overtaken
      && reader.takes == Took(NoTakes, size + 1, 2, 0)
  {
    hide Legal, State, Inv, Enabled, Apply, Ring.Refines, Ring.WellFormed, Ring.Publish, PublishAll, Payloads;
    hide FullBatch, Ring.Ready;
    hide Carries, ReplyBytes, Write, Lost;
    OpenedQueue(size);
    EvenSize(size);
    var ps: seq<Payload> := seq(size + 1, _ => []);
    WriteState(Opened(size), ps, size + 1);
    var written := Write(Opened(size), ps, size + 1);
    var ring, log := State(written).ring, Payloads(State(written).log);
    PublishAllRefines(Initial(size), [], ps, size + 1);
    AllEmpty(log, size);
    LagOf(ring, log, 1, size + 1);
    TakeEffect(State(written), 0, SIGNAL_SIZE - 1);
    StateAfter(written, TakeSignals(0, SIGNAL_SIZE - 1));
    var first := After(written, TakeSignals(0, SIGNAL_SIZE - 1));
    NoRoom(log, 3, State(first).readers[0].sub.cursor - 3);
    CopyEffect(State(first), 0, heap);
    StateAfter(first, CopyReply(0, heap));
  }

  lemma TwoTakes(takes: Takes, log: seq<Payload>, size: nat, a: nat, b: nat, n: nat)
    requires takes == Took(Took(NoTakes, a, 2, 0), b, 0, n)
    requires Spans(takes, size, 1, 3 + n) && 3 + n <= |log| + 1
    ensures Taken(takes, log, size, 1, 3 + n) == LoggedRecords(log, 3, 0, n)
  {
    assert Taken(takes.before, log, size, 1, 3) == [];
  }

  /**
    In a queue of any accepted size, a reader that was open from the start and whose replies were
    all copied out in time decodes records that begin with id 3 and report no loss.
   */
  lemma LossIsDropped(size: nat, heap: Heap)
    requires 4 <= size < TWO32 && IsPow2(size)
    ensures Legal(DroppedLossRun(size, heap)) && Intact(State(DroppedLossRun(size, heap)), 0)
    ensures var reader := State(DroppedLossRun(size, heap)).readers[0];
      var records := ParseRecords(reader.received);
      && reader.joined == 1
      && records.Some? && records.value != [] && records.value[0].id == 3
      && forall i :: 0 <= i < |records.value| ==> records.value[i].lost == 0
  {
    hide Legal, State, Enabled, Apply, ReaderInv, WriterInv, Ring.Refines, Ring.WellFormed, FullBatch, Ring.Ready, Lost;
    hide LossyRun, Carries, ReplyBytes, ParseRecords, Records, Taken;
    LossyState(size, heap);
    var lossy := LossyRun(size, heap);
    var ring, log := State(lossy).ring, Payloads(State(lossy).log);
    LagOf(ring, log, 3, size - 1);
    TakeEffect(State(lossy), 0, SIGNAL_SIZE);
    StateAfter(lossy, TakeSignals(0, SIGNAL_SIZE));
    var second := After(lossy, TakeSignals(0, SIGNAL_SIZE));
    var n := State(second).readers[0].sub.cursor - 3;
    SomeRoom(log, 3, n);
    CopyEffect(State(second), 0, heap);
    StateAfter(second, CopyReply(0, heap));
    var s := State(After(second, CopyReply(0, heap)));
    IntactReaderReceived(s, 0);
    TwoTakes(s.readers[0].takes, log, size, size + 1, size - 1, n);
  }
}
