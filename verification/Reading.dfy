/** `do_read`: the callback that batches signals into a reply, and the bytes of that reply. */
module Reading {
  import opened Words
  import opened Ring
  import opened Dequeue
  import opened Wire
  import opened Queue

  const MAX_IOV: nat := 40
  const MAX_SIGNALS: nat := 20

  datatype SignalHeader = SignalHeader(lost: nat, id: nat, size: nat)

  /** One piece of the reply: a header in the local array, or payload bytes still in a slot's block. */
  datatype Iov = HeaderAt(index: nat) | PayloadAt(at: Pointer, length: nat)

  /** The callback's state: the arrays as filled so far, and the 32-bit total it keeps. */
  datatype Batch = Batch(sig: seq<SignalHeader>, iov: seq<Iov>, total: nat)

  const EMPTY_BATCH := Batch([], [], 0)

  predicate Fits(p: Payload, size: nat) {
    SIGNAL_SIZE + |p| <= size
  }

  function AddSignal(batch: Batch, call: Call): Batch
    requires call.at.Some?
  {
    Batch(batch.sig + [SignalHeader(call.lost, call.id, |call.bytes|)],
          batch.iov + [HeaderAt(|batch.sig|)] + [PayloadAt(call.at.value, |call.bytes|)],
          Low32(batch.total + SIGNAL_SIZE + |call.bytes|))
  }

  function OnSignal(batch: Batch, size: nat, call: Call): Batch {
    if call.at.Some? && Fits(call.bytes, size) then AddSignal(batch, call) else batch
  }

  function Answer(batch: Batch, size: nat, call: Call): Reply {
    if call.at.None? then Reply(NotProcessed, true)
    else if !Fits(call.bytes, size) then Reply(NotProcessed, false)
    else if |batch.iov| + 2 < MAX_IOV - 1 && call.remaining > 0 then Reply(CallAgain, false)
    else Reply(DontCallAgain, false)
  }

  function BatchOf(size: nat, calls: History): Batch {
    match calls
    case NoCalls => EMPTY_BATCH
    case Then(before, call) => OnSignal(BatchOf(size, before), size, call)
  }

  function AnswerTo(size: nat, calls: History): Reply {
    match calls
    case NoCalls => Reply(NotProcessed, false)
    case Then(before, call) => Answer(BatchOf(size, before), size, call)
  }

  /** The callback of a read that asked for `size` bytes. */
  function ReadCallback(size: nat): Callback {
    (calls: History) => AnswerTo(size, calls)
  }

  /** The callback's local arrays, filled in place. */
  class ReplyBuffer {
    const sig: array<SignalHeader>
    const iov: array<Iov>
    var sigInd: nat
    var iovInd: nat
    var total: nat

    ghost predicate Valid()
      reads this, sig, iov
    {
      && sig.Length == MAX_SIGNALS && iov.Length == MAX_IOV
      && sigInd <= sig.Length && iovInd == 2 * sigInd
    }

    function View(): Batch
      requires Valid()
      reads this, sig, iov
    {
      Batch(sig[..sigInd], iov[..iovInd], total)
    }

    constructor ()
      ensures Valid() && fresh(sig) && fresh(iov) && View() == EMPTY_BATCH
    {
      sig := new SignalHeader[MAX_SIGNALS](_ => SignalHeader(0, 0, 0));
      iov := new Iov[MAX_IOV](_ => HeaderAt(0));
      sigInd, iovInd, total := 0, 0, 0;
    }

    method Receive(size: nat, call: Call) returns (reply: Reply)
      requires Valid() && (call.at.Some? && Fits(call.bytes, size) ==> sigInd < MAX_SIGNALS)
      modifies this, sig, iov
      ensures Valid()
      ensures View() == OnSignal(old(View()), size, call)
      ensures reply == Answer(old(View()), size, call)
    {
      if call.at.None? {
        return Reply(NotProcessed, true);
      }
      if size < SIGNAL_SIZE + |call.bytes| {
        return Reply(NotProcessed, false);
      }
      sig[sigInd] := SignalHeader(call.lost, call.id, |call.bytes|);
      iov[iovInd] := HeaderAt(sigInd);
      iovInd := iovInd + 1;
      iov[iovInd] := PayloadAt(call.at.value, |call.bytes|);
      iovInd := iovInd + 1;
      sigInd := sigInd + 1;
      total := Low32(total + SIGNAL_SIZE + |call.bytes|);
      assert sig[..sigInd] == old(sig[..sigInd]) + [SignalHeader(call.lost, call.id, |call.bytes|)];
      assert iov[..iovInd] ==
             old(iov[..iovInd]) + [HeaderAt(old(sigInd))] + [PayloadAt(call.at.value, |call.bytes|)];
      if iovInd < MAX_IOV - 1 && call.remaining > 0 {
        return Reply(CallAgain, false);
      }
      return Reply(DontCallAgain, false);
    }
  }

  // The batch law --------------------------------------------------------------------------

  /** The records for `n` consecutive signals from `start` on. */
  function LoggedRecords(log: seq<Payload>, start: nat, lost: nat, n: nat): (rs: seq<Record>)
    requires 1 <= start && start + n <= |log| + 1
    ensures |rs| == n
    ensures forall i :: 0 <= i < n ==> rs[i] == Record(lost, start + i, log[start + i - 1])
  {
    if n == 0 then []
    else LoggedRecords(log, start, lost, n - 1) + [Record(lost, start + n - 1, log[start + n - 2])]
  }

  function ByteCount(rs: seq<Record>): nat {
    if rs == [] then 0 else ByteCount(rs[..|rs| - 1]) + SIGNAL_SIZE + |rs[|rs| - 1].bytes|
  }

  /** The batch that holds exactly these records, its pointers taken from the slots of `r`. */
  ghost predicate Carries(batch: Batch, r: Ring, rs: seq<Record>)
    requires r.Sized()
  {
    && |batch.sig| == |rs| && |batch.iov| == 2 * |rs|
    && (forall i :: 0 <= i < |rs| ==> batch.sig[i] == SignalHeader(rs[i].lost, rs[i].id, |rs[i].bytes|))
    && (forall i :: 0 <= i < |rs| ==> batch.iov[2 * i] == HeaderAt(i))
    && (forall i :: 0 <= i < |rs| ==> batch.iov[2 * i + 1] == PayloadAt(r.PointerTo(rs[i].id), |rs[i].bytes|))
    && batch.total == Low32(ByteCount(rs))
  }

  lemma CarriesOneMore(batch: Batch, r: Ring, rs: seq<Record>, call: Call)
    requires r.Sized() && Carries(batch, r, rs) && call.at == Some(r.PointerTo(call.id))
    ensures Carries(AddSignal(batch, call), r, rs + [Record(call.lost, call.id, call.bytes)])
  {
    var rs' := rs + [Record(call.lost, call.id, call.bytes)];
    var batch' := AddSignal(batch, call);
    assert rs'[..|rs|] == rs;
    assert forall i :: 0 <= i < |batch.iov| ==> batch'.iov[i] == batch.iov[i];
  }

  /** The first `n` of the logged signals from `start` on all fit in a read of `size` bytes. */
  ghost predicate AllFit(log: seq<Payload>, start: nat, n: nat, size: nat)
    requires 1 <= start && start + n <= |log| + 1
  {
    forall i :: start - 1 <= i < start - 1 + n ==> Fits(log[i], size)
  }

  lemma CarriesNothing(r: Ring)
    requires r.Sized()
    ensures Carries(EMPTY_BATCH, r, [])
  {}

  lemma {:induction false} BatchOfLogged(r: Ring, log: seq<Payload>, start: nat, lost: nat, n: nat, size: nat)
    requires r.Sized() && 1 <= start && start + n <= |log| + 1 && AllFit(log, start, n, size)
    ensures Carries(BatchOf(size, LoggedCalls(r, log, start, lost, n)), r, LoggedRecords(log, start, lost, n))
    decreases n
  {
    hide Carries, AddSignal;
    if n == 0 {
      CarriesNothing(r);
    } else {
      BatchOfLogged(r, log, start, lost, n - 1, size);
      var before := LoggedCalls(r, log, start, lost, n - 1);
      var call := LoggedCalls(r, log, start, lost, n).call;
      CarriesOneMore(BatchOf(size, before), r, LoggedRecords(log, start, lost, n - 1), call);
    }
  }

  /** As long as the callback asked for more, every signal fitted and there was room for another. */
  lemma {:induction false} WantingMoreMeansRoom(r: Ring, log: seq<Payload>, start: nat, lost: nat, n: nat, size: nat)
    requires r.Sized() && 1 <= start && start + n <= |log| + 1
    requires WantsMore(ReadCallback(size), LoggedCalls(r, log, start, lost, n))
    ensures AllFit(log, start, n, size) && n < MAX_SIGNALS
  {
    if n > 0 {
      WantingMoreMeansRoom(r, log, start, lost, n - 1, size);
      BatchOfLogged(r, log, start, lost, n - 1, size);
    }
  }

  /** `n` is as many signals from `start` on as one read of `size` bytes takes. */
  ghost predicate FullBatch(log: seq<Payload>, start: nat, n: nat, size: nat)
    requires 1 <= start && start + n <= |log| + 1
  {
    && n <= MAX_SIGNALS
    && AllFit(log, start, n, size)
    && (n == MAX_SIGNALS || start + n == |log| + 1 || !Fits(log[start + n - 1], size))
  }

  /**
    One uninterrupted read takes consecutive signals up to the twentieth, the newest, or the first
    whose record alone is larger than the request, whichever comes first. The arrays are filled
    with exactly those records, and the first signal not taken stays at the cursor.
   */
  lemma BatchLaw(r: Ring, log: seq<Payload>, sub: Sub, size: nat)
    requires r.Refines(log) && r.Bounded() && ValidCursor(r, sub.cursor)
    requires !sub.interrupted && r.Ready(sub.cursor)
    ensures var out := Run(r, sub, ReadCallback(size));
      var lost := Lost(r, sub.cursor);
      var start := sub.cursor + lost;
      && 1 <= start <= out.sub.cursor <= r.next
      && FullBatch(log, start, out.sub.cursor - start, size)
      && Carries(BatchOf(size, out.calls), r, LoggedRecords(log, start, lost, out.sub.cursor - start))
  {
    hide Ring.Refines, Ring.WellFormed, Loop, Lost, Run, StopsAfter, LoggedCalls, Processed;
    hide LoggedRecords, Carries, FullBatch, BatchOf, ReadCallback;
    var cb := ReadCallback(size);
    RunDelivers(r, log, sub, cb);
    var out := Run(r, sub, cb);
    var lost := Lost(r, sub.cursor);
    LastAnswer(r, log, sub.cursor + lost, lost, size, out.calls.Count(), out.sub.cursor);
  }

  lemma LastAnswer(r: Ring, log: seq<Payload>, start: nat, lost: nat, size: nat, m: nat, cursor: nat)
    requires r.Sized() && 1 <= start && start + m <= |log| + 1
    requires StopsAfter(ReadCallback(size), LoggedCalls(r, log, start, lost, m), start, cursor, |log| + 1)
    ensures start <= cursor <= start + m && FullBatch(log, start, cursor - start, size)
    ensures Carries(BatchOf(size, LoggedCalls(r, log, start, lost, m)), r,
                    LoggedRecords(log, start, lost, cursor - start))
  {
    WantingMoreMeansRoom(r, log, start, lost, m - 1, size);
    BatchOfLogged(r, log, start, lost, m - 1, size);
    if Fits(log[start + m - 2], size) {
      BatchOfLogged(r, log, start, lost, m, size);
    }
  }

  /** The read operation up to its reply; an interrupted read clears the flag and replies nothing. */
  method DoRead(queue: SignalQueue, sub: Subscriber, size: nat) returns (reply: ReplyBuffer, completed: bool)
    requires queue.Valid() && queue.View().Bounded() && ValidCursor(queue.View(), sub.cursor)
    requires Awake(queue.View(), sub.View())
    modifies sub
    ensures fresh(reply) && reply.Valid() && completed == !old(sub.interrupted) && !sub.interrupted
    ensures !completed ==> sub.cursor == old(sub.cursor) && reply.View() == EMPTY_BATCH
    ensures completed ==>
      var lost := Lost(queue.View(), old(sub.cursor));
      var start := old(sub.cursor) + lost;
      && 1 <= start <= sub.cursor <= queue.nextSigId
      && FullBatch(queue.log, start, sub.cursor - start, size)
      && Carries(reply.View(), queue.View(), LoggedRecords(queue.log, start, lost, sub.cursor - start))
  {
    hide Ring.Refines, Ring.WellFormed, Loop, Lost, Carries, AddSignal;
    if !sub.interrupted {
      BatchLaw(queue.View(), queue.log, sub.View(), size);
    }
    ghost var lost := Lost(queue.View(), sub.cursor);
    ghost var start := sub.cursor + lost;
    var calls;
    calls, completed := queue.DequeueSignal(sub, ReadCallback(size));
    if completed {
      CarriesBounds(BatchOf(size, calls), queue.View(), LoggedRecords(queue.log, start, lost, sub.cursor - start));
    }
    reply := new ReplyBuffer();
    Fill(reply, size, calls);
  }

  lemma CarriesBounds(batch: Batch, r: Ring, rs: seq<Record>)
    requires r.Sized() && Carries(batch, r, rs)
    ensures |batch.sig| == |rs|
  {}

  /** What the callback did to its arrays, call by call. */
  method Fill(reply: ReplyBuffer, size: nat, calls: History)
    requires reply.Valid() && reply.View() == EMPTY_BATCH && |BatchOf(size, calls).sig| <= MAX_SIGNALS
    modifies reply, reply.sig, reply.iov
    ensures reply.Valid() && reply.View() == BatchOf(size, calls)
  {
    if calls.Then? {
      Fill(reply, size, calls.before);
      var _ := reply.Receive(size, calls.call);
    }
  }

  // The reply's bytes ----------------------------------------------------------------------

  /** What a read of memory that was given back to the heap yields: anything. */
  type Heap = (Pointer, nat) -> Byte

  /** The bytes behind a pointer at the time the reply is copied out. */
  function Peek(r: Ring, p: Pointer, length: nat, heap: Heap): (bytes: seq<Byte>)
    ensures |bytes| == length
  {
    if p.slot < |r.slots| && r.Live(p) && r.slots[p.slot].block.Block? && length <= |r.slots[p.slot].block.bytes|
    then r.slots[p.slot].block.bytes[..length]
    else seq(length, i requires 0 <= i < length => heap(p, i))
  }

  function PieceBytes(batch: Batch, r: Ring, piece: Iov, heap: Heap): seq<Byte> {
    match piece
    case HeaderAt(i) =>
      if i < |batch.sig| then
        var h := batch.sig[i];
        Encode(4, h.lost) + Encode(8, h.id) + Encode(4, h.size)
      else []
    case PayloadAt(p, length) => Peek(r, p, length, heap)
  }

  /** The first `n` pieces of the reply, with the payloads as the ring `r` and the heap hold them. */
  function Gather(batch: Batch, r: Ring, heap: Heap, n: nat): seq<Byte>
    requires n <= |batch.iov|
  {
    if n == 0 then []
    else Gather(batch, r, heap, n - 1) + PieceBytes(batch, r, batch.iov[n - 1], heap)
  }

  function ReplyBytes(batch: Batch, r: Ring, heap: Heap): seq<Byte> {
    Gather(batch, r, heap, |batch.iov|)
  }

  lemma GatherSignal(batch: Batch, r: Ring, heap: Heap, k: nat, n: nat, record: Record, p: Pointer)
    requires n + 1 < |batch.iov| && k < |batch.sig|
    requires batch.sig[k] == SignalHeader(record.lost, record.id, |record.bytes|)
    requires batch.iov[n] == HeaderAt(k) && batch.iov[n + 1] == PayloadAt(p, |record.bytes|)
    requires Peek(r, p, |record.bytes|, heap) == record.bytes
    ensures Gather(batch, r, heap, n + 2) == Gather(batch, r, heap, n) + RecordBytes(record)
  {
    hide Peek, Encode;
    assert PieceBytes(batch, r, batch.iov[n], heap) == Header(record);
    assert Gather(batch, r, heap, n) + Header(record) + record.bytes
        == Gather(batch, r, heap, n) + (Header(record) + record.bytes);
  }

  lemma CarriesAt(batch: Batch, r: Ring, rs: seq<Record>, k: nat)
    requires r.Sized() && Carries(batch, r, rs) && k < |rs|
    ensures k < |batch.sig| && 2 * k + 1 < |batch.iov|
    ensures batch.sig[k] == SignalHeader(rs[k].lost, rs[k].id, |rs[k].bytes|)
    ensures batch.iov[2 * k] == HeaderAt(k)
    ensures batch.iov[2 * k + 1] == PayloadAt(r.PointerTo(rs[k].id), |rs[k].bytes|)
  {}

  /** The records of a batch made from ring `r`, with the bytes that are found in ring `r'` later. */
  function Reread(rs: seq<Record>, r: Ring, r': Ring, heap: Heap): (rs': seq<Record>)
    requires r.Sized()
    ensures |rs'| == |rs|
    ensures forall i :: 0 <= i < |rs| ==>
      rs'[i] == rs[i].(bytes := Peek(r', r.PointerTo(rs[i].id), |rs[i].bytes|, heap))
  {
    seq(|rs|, i requires 0 <= i < |rs| =>
      rs[i].(bytes := Peek(r', r.PointerTo(rs[i].id), |rs[i].bytes|, heap)))
  }

  lemma GatherStep(batch: Batch, r: Ring, r': Ring, heap: Heap, rs: seq<Record>, k: nat, n: nat)
    requires r.Sized() && Carries(batch, r, rs)
    requires k < |rs| && n == 2 * k && n + 1 < |batch.iov|
    ensures Gather(batch, r', heap, n + 2) == Gather(batch, r', heap, n) + RecordBytes(Reread(rs, r, r', heap)[k])
  {
    CarriesAt(batch, r, rs, k);
    hide *;
    GatherSignal(batch, r', heap, k, n, Reread(rs, r, r', heap)[k], r.PointerTo(rs[k].id));
  }

  lemma GatherNothing(batch: Batch, r: Ring, heap: Heap)
    ensures Gather(batch, r, heap, 0) == []
  {}

  lemma {:induction false} GatherRecords(batch: Batch, r: Ring, r': Ring, heap: Heap, rs: seq<Record>, k: nat, n: nat)
    requires r.Sized() && Carries(batch, r, rs)
    requires k <= |rs| && n == 2 * k <= |batch.iov|
    ensures Gather(batch, r', heap, n) == FirstRecords(Reread(rs, r, r', heap), k)
    decreases k
  {
    hide Carries, Reread, RecordBytes, Gather;
    if k == 0 {
      GatherNothing(batch, r', heap);
    } else {
      GatherRecords(batch, r, r', heap, rs, k - 1, n - 2);
      GatherStep(batch, r, r', heap, rs, k - 1, n - 2);
    }
  }

  /**
    The reply is copied out after the mutex is released. Whatever was published by then, it is a
    list of whole records with the ids and sizes of the batch; their bytes are what is found behind
    the pointers at that time.
   */
  lemma ReplyIsReread(batch: Batch, r: Ring, r': Ring, heap: Heap, rs: seq<Record>)
    requires r.Sized() && Carries(batch, r, rs)
    ensures ReplyBytes(batch, r', heap) == Records(Reread(rs, r, r', heap))
  {
    hide Reread;
    var rs' := Reread(rs, r, r', heap);
    GatherRecords(batch, r, r', heap, rs, |rs|, 2 * |rs|);
    FirstRecordsAre(rs', |rs|);
    assert rs'[..|rs|] == rs';
  }

  lemma SlotStillHolds(r: Ring, log: seq<Payload>, id: nat, heap: Heap)
    requires r.Refines(log) && 1 <= id < r.next <= id + |r.slots|
    ensures Peek(r, r.PointerTo(id), |log[id - 1]|, heap) == log[id - 1]
  {
    assert r.At(id).Holds(log[id - 1]);
  }

  lemma CarriesInto(batch: Batch, r: Ring, r': Ring, rs: seq<Record>)
    requires r.Sized() && r'.Sized() && Carries(batch, r, rs)
    requires forall i :: 0 <= i < |rs| ==> r'.PointerTo(rs[i].id) == r.PointerTo(rs[i].id)
    ensures Carries(batch, r', rs)
  {}

  /** Nothing was overwritten as long as the batch still carries its records in the present ring. */
  lemma ReplyNow(batch: Batch, r: Ring, heap: Heap, log: seq<Payload>, start: nat, lost: nat, n: nat)
    requires r.Refines(log) && 1 <= start && start + n <= r.next <= start + |r.slots|
    requires Carries(batch, r, LoggedRecords(log, start, lost, n))
    ensures ReplyBytes(batch, r, heap) == Records(LoggedRecords(log, start, lost, n))
  {
    hide Ring.Refines, Ring.WellFormed, Carries, Peek, ReplyBytes;
    var rs := LoggedRecords(log, start, lost, n);
    ReplyIsReread(batch, r, r, heap, rs);
    forall i | 0 <= i < n
      ensures Reread(rs, r, r, heap)[i] == rs[i]
    {
      SlotStillHolds(r, log, start + i, heap);
    }
    assert Reread(rs, r, r, heap) == rs;
  }

  /** Where nothing can have been overwritten, the pointers into the slots are the same as before. */
  lemma {:induction false} SamePointers(r: Ring, ps: seq<Payload>, id: nat)
    requires r.WellFormed() && id < r.next && r.next + |ps| <= id + |r.slots|
    ensures PublishAll(r, ps, |ps|).PointerTo(id) == r.PointerTo(id)
  {
    RetainedPointerIsLive(r, ps, |ps|, id);
    PointerLiveExactly(r, ps, |ps|, id);
  }

  /**
    The reply consists of exactly the records of the batch, provided that by then no more than a
    ring's worth of signals has been published from its first one on.
   */
  lemma {:induction false} ReplyIsFaithful(batch: Batch, r: Ring, log: seq<Payload>, ps: seq<Payload>, heap: Heap,
                        start: nat, lost: nat, n: nat)
    requires r.Refines(log) && 1 <= start && start + n <= r.next && r.next + |ps| <= start + |r.slots|
    requires Carries(batch, r, LoggedRecords(log, start, lost, n))
    ensures ReplyBytes(batch, PublishAll(r, ps, |ps|), heap) == Records(LoggedRecords(log, start, lost, n))
  {
    hide Ring.Refines, Ring.WellFormed, Carries, PublishAll, ReplyBytes;
    var r', log' := PublishAll(r, ps, |ps|), log + Logged(ps, |ps|);
    var rs := LoggedRecords(log, start, lost, n);
    PublishAllRefines(r, log, ps, |ps|);
    forall i | 0 <= i < n
      ensures r'.PointerTo(rs[i].id) == r.PointerTo(rs[i].id)
    {
      SamePointers(r, ps, start + i);
    }
    CarriesInto(batch, r, r', rs);
    assert rs == LoggedRecords(log', start, lost, n);
    ReplyNow(batch, r', heap, log', start, lost, n);
  }

  /**
    The slot of signal `id` still belongs to it exactly while fewer than a ring's worth were
    published after it. Beyond that the slot holds a later signal.
   */
  lemma OvertakenExactly(r: Ring, log: seq<Payload>, id: nat)
    requires r.Refines(log) && 1 <= id < r.next
    ensures var owner := Occupant(r.next, id, |r.slots|);
      && (owner == id <==> r.next <= id + |r.slots|)
      && r.Index(owner) == r.Index(id)
      && 1 <= owner <= |log| && r.At(id).Holds(log[owner - 1])
  {
    var owner := Occupant(r.next, id, |r.slots|);
    OccupantShares(r, id);
    assert r.At(owner).Holds(log[owner - 1]);
  }

  /**
    `bytes` are what a pointer to signal `id`, whose payload was `was`, finds after further
    publishes: if every payload put into the slot reused its block, these laid over the old one and
    one another; otherwise freed memory.
   */
  ghost predicate FoundLater(bytes: seq<Byte>, r: Ring, ps: seq<Payload>, heap: Heap, id: nat, was: Payload)
    requires r.Sized()
  {
    if BlockReused(r, ps, |ps|, id) then bytes == LaidOverAll(r, ps, |ps|, id, was)
    else forall i :: 0 <= i < |bytes| ==> bytes[i] == heap(r.PointerTo(id), i)
  }

  lemma PeekLive(r: Ring, p: Pointer, heap: Heap, bytes: seq<Byte>)
    requires p.slot < |r.slots| && r.Live(p) && r.slots[p.slot].Begins(bytes)
    ensures Peek(r, p, |bytes|, heap) == bytes
  {}

  lemma PeekFreed(r: Ring, p: Pointer, length: nat, heap: Heap)
    requires p.slot < |r.slots| && !r.Live(p)
    ensures forall i :: 0 <= i < length ==> Peek(r, p, length, heap)[i] == heap(p, i)
  {}

  lemma HoldsNow(r: Ring, log: seq<Payload>, id: nat)
    requires r.Refines(log) && 1 <= id < r.next <= id + |r.slots|
    ensures r.At(id).Holds(log[id - 1]) && PREFIX_SIZE + |log[id - 1]| <= r.At(id).alloc
    ensures r.At(id).Begins(log[id - 1])
  {
    assert r.At(id).Holds(log[id - 1]);
  }

  lemma {:induction false} OvertakenPeek(r: Ring, ps: seq<Payload>, heap: Heap, id: nat, was: Payload)
    requires r.WellFormed() && r.At(id).Begins(was)
    ensures FoundLater(Peek(PublishAll(r, ps, |ps|), r.PointerTo(id), |was|, heap), r, ps, heap, id, was)
  {
    hide Ring.WellFormed, PublishAll, BlockReused, LaidOverAll, Peek, Ring.Live, Slot.Begins;
    PointerLiveExactly(r, ps, |ps|, id);
    if BlockReused(r, ps, |ps|, id) {
      ReusedBlockBegins(r, ps, |ps|, id, was);
      PeekLive(PublishAll(r, ps, |ps|), r.PointerTo(id), heap, LaidOverAll(r, ps, |ps|, id, was));
    } else {
      PeekFreed(PublishAll(r, ps, |ps|), r.PointerTo(id), |was|, heap);
    }
  }

  /**
    An overtaken reply is still made of whole records with the old ids and sizes; the bytes of each
    are found as `FoundLater` says.
   */
  lemma {:induction false} OvertakenReply(batch: Batch, r: Ring, log: seq<Payload>, ps: seq<Payload>, heap: Heap,
                       start: nat, lost: nat, n: nat)
    requires r.Refines(log) && 1 <= start && start + n <= r.next <= start + |r.slots|
    requires Carries(batch, r, LoggedRecords(log, start, lost, n))
    ensures var r' := PublishAll(r, ps, |ps|);
      var sent := Reread(LoggedRecords(log, start, lost, n), r, r', heap);
      && ReplyBytes(batch, r', heap) == Records(sent)
      && forall i :: 0 <= i < n ==>
           && sent[i].lost == lost && sent[i].id == start + i && |sent[i].bytes| == |log[start + i - 1]|
           && FoundLater(sent[i].bytes, r, ps, heap, start + i, log[start + i - 1])
  {
    hide Ring.Refines, Ring.WellFormed, Carries, PublishAll, ReplyBytes, FoundLater, Peek;
    var r' := PublishAll(r, ps, |ps|);
    var rs := LoggedRecords(log, start, lost, n);
    ReplyIsReread(batch, r, r', heap, rs);
    forall i | 0 <= i < n
      ensures FoundLater(Reread(rs, r, r', heap)[i].bytes, r, ps, heap, start + i, log[start + i - 1])
    {
      HoldsNow(r, log, start + i);
      OvertakenPeek(r, ps, heap, start + i, log[start + i - 1]);
    }
  }

  function Zeros(n: nat): (p: Payload)
    ensures |p| == n && forall i :: 0 <= i < n ==> p[i] == 0
  {
    seq(n, _ => 0)
  }

  // When replies are faithful --------------------------------------------------------------

  /** The payload of signal `id` is still found by every reader, whatever freed memory holds. */
  ghost predicate Survives(r: Ring, ps: seq<Payload>, id: nat, log: seq<Payload>)
    requires r.Sized() && 1 <= id <= |log|
  {
    var was := log[id - 1];
    was == [] || (BlockReused(r, ps, |ps|, id) && LaidOverAll(r, ps, |ps|, id, was) == was)
  }

  /** A reply copied out after these publishes consists of these records, whatever freed memory holds. */
  ghost predicate CopiedFaithfully(batch: Batch, r: Ring, ps: seq<Payload>, rs: seq<Record>)
    requires r.WellFormed()
  {
    forall heap: Heap :: ReplyBytes(batch, PublishAll(r, ps, |ps|), heap) == Records(rs)
  }

  /** A heap of which every byte differs from the first of the payload. */
  function Unlike(was: Payload): Heap {
    var byte: Byte := if was == [] || was[0] != 0 then 0 else 1;
    (_: Pointer, _: nat) => byte
  }

  lemma FoundOnlyIfSurvives(bytes: seq<Byte>, r: Ring, ps: seq<Payload>, id: nat, log: seq<Payload>)
    requires r.Sized() && 1 <= id <= |log| && |bytes| == |log[id - 1]|
    requires FoundLater(bytes, r, ps, Unlike(log[id - 1]), id, log[id - 1])
    ensures bytes == log[id - 1] ==> Survives(r, ps, id, log)
  {
    hide BlockReused, LaidOverAll;
    if bytes != [] && !BlockReused(r, ps, |ps|, id) {
      assert bytes[0] == Unlike(log[id - 1])(r.PointerTo(id), 0);
    }
  }

  lemma FoundIfSurvives(bytes: seq<Byte>, r: Ring, ps: seq<Payload>, heap: Heap, id: nat, log: seq<Payload>)
    requires r.Sized() && 1 <= id <= |log| && |bytes| == |log[id - 1]|
    requires FoundLater(bytes, r, ps, heap, id, log[id - 1]) && Survives(r, ps, id, log)
    ensures bytes == log[id - 1]
  {}

  lemma SameEncoding(a: seq<Record>, b: seq<Record>)
    requires AllEncodable(a) && AllEncodable(b) && Records(a) == Records(b)
    ensures a == b
  {
    ParseRecordsOf(a);
    ParseRecordsOf(b);
  }

  /** Payloads of sizes that the header can hold. */
  lemma LoggedEncodable(log: seq<Payload>, start: nat, lost: nat, n: nat)
    requires 1 <= start && start + n <= |log| + 1 <= TWO32 && Framable(log) && lost < TWO32
    ensures AllEncodable(LoggedRecords(log, start, lost, n))
  {}

  /** One direction: a faithful reply means that its `i`-th payload survived. */
  lemma {:induction false} FaithfulMeansSurvived(batch: Batch, r: Ring, log: seq<Payload>, ps: seq<Payload>,
                                                 start: nat, lost: nat, n: nat, i: nat)
    requires r.Refines(log) && r.Bounded() && Framable(log) && lost < TWO32
    requires 1 <= start && start + n <= r.next <= start + |r.slots| && i < n
    requires Carries(batch, r, LoggedRecords(log, start, lost, n))
    requires CopiedFaithfully(batch, r, ps, LoggedRecords(log, start, lost, n))
    ensures Survives(r, ps, start + i, log)
  {
    hide Ring.Refines, Ring.WellFormed, Carries, PublishAll, ReplyBytes, Records, FoundLater, Survives, Unlike, Peek;
    var rs := LoggedRecords(log, start, lost, n);
    var heap := Unlike(log[start + i - 1]);
    OvertakenReply(batch, r, log, ps, heap, start, lost, n);
    var sent := Reread(rs, r, PublishAll(r, ps, |ps|), heap);
    LoggedEncodable(log, start, lost, n);
    SameEncoding(sent, rs);
    FoundOnlyIfSurvives(sent[i].bytes, r, ps, start + i, log);
  }

  lemma {:induction false} SurvivedMeansFaithful(batch: Batch, r: Ring, log: seq<Payload>, ps: seq<Payload>,
                                                 heap: Heap, start: nat, lost: nat, n: nat)
    requires r.Refines(log) && 1 <= start && start + n <= r.next <= start + |r.slots|
    requires Carries(batch, r, LoggedRecords(log, start, lost, n))
    requires forall id :: start <= id < start + n ==> Survives(r, ps, id, log)
    ensures ReplyBytes(batch, PublishAll(r, ps, |ps|), heap) == Records(LoggedRecords(log, start, lost, n))
  {
    hide Ring.Refines, Ring.WellFormed, Carries, PublishAll, ReplyBytes, Records, FoundLater, Survives, Peek;
    var rs := LoggedRecords(log, start, lost, n);
    OvertakenReply(batch, r, log, ps, heap, start, lost, n);
    var sent := Reread(rs, r, PublishAll(r, ps, |ps|), heap);
    forall i | 0 <= i < n
      ensures sent[i] == rs[i]
    {
      assert Survives(r, ps, start + i, log);
      FoundIfSurvives(sent[i].bytes, r, ps, heap, start + i, log);
    }
    assert sent == rs;
  }

  /**
    For given later publishes, exactly when the reply is faithful whatever freed memory holds: each
    of its payloads is empty, or still stands in a block that was reused every time.
   */
  lemma {:induction false} ReplyFaithfulExactly(batch: Batch, r: Ring, log: seq<Payload>, ps: seq<Payload>,
                                                start: nat, lost: nat, n: nat)
    requires r.Refines(log) && r.Bounded() && Framable(log) && lost < TWO32
    requires 1 <= start && start + n <= r.next <= start + |r.slots|
    requires Carries(batch, r, LoggedRecords(log, start, lost, n))
    ensures CopiedFaithfully(batch, r, ps, LoggedRecords(log, start, lost, n)) <==>
      forall id :: start <= id < start + n ==> Survives(r, ps, id, log)
  {
    hide Ring.Refines, Ring.WellFormed, Carries, PublishAll, ReplyBytes, Records, Survives;
    var rs := LoggedRecords(log, start, lost, n);
    if CopiedFaithfully(batch, r, ps, rs) {
      forall id | start <= id < start + n
        ensures Survives(r, ps, id, log)
      {
        FaithfulMeansSurvived(batch, r, log, ps, start, lost, n, id - start);
      }
    }
    if forall id :: start <= id < start + n ==> Survives(r, ps, id, log) {
      forall heap: Heap
        ensures ReplyBytes(batch, PublishAll(r, ps, |ps|), heap) == Records(rs)
      {
        SurvivedMeansFaithful(batch, r, log, ps, heap, start, lost, n);
      }
    }
  }

  /** The signal is empty, or cannot be overwritten by as many publishes. */
  ghost predicate OutOfReach(r: Ring, m: nat, id: nat, log: seq<Payload>)
    requires 1 <= id <= |log|
  {
    log[id - 1] == [] || r.next + m <= id + |r.slots|
  }

  lemma {:induction false} OutOfReachSurvives(r: Ring, ps: seq<Payload>, id: nat, log: seq<Payload>)
    requires r.WellFormed() && 1 <= id <= |log| && id < r.next && OutOfReach(r, |ps|, id, log)
    ensures Survives(r, ps, id, log)
  {
    hide Ring.WellFormed, PublishAll;
    if log[id - 1] != [] {
      RetainedPointerIsLive(r, ps, |ps|, id);
      NothingLaidOver(r, ps, |ps|, id, log[id - 1]);
    }
  }

  /** Payloads that are too large for the slot's block: the first one put there replaces it. */
  lemma {:induction false} LargePayloadsReplace(r: Ring, m: nat, id: nat)
    requires r.Sized() && id < r.next <= id + |r.slots| < r.next + m
    ensures !BlockReused(r, seq(m, _ => Zeros(r.At(id).alloc)), m, id)
  {
    var ps := seq(m, _ => Zeros(r.At(id).alloc));
    var k := id + |r.slots| - r.next;
    SlotRepeats(r, id);
    assert r.Index(r.next + k) == r.Index(id) && !r.At(id).Reuses(ps[k]);
  }

  /** The reply is faithful whatever `m` payloads are published before it is copied out. */
  ghost predicate AlwaysFaithful(batch: Batch, r: Ring, m: nat, rs: seq<Record>)
    requires r.WellFormed()
  {
    forall ps: seq<Payload> :: |ps| == m ==> CopiedFaithfully(batch, r, ps, rs)
  }

  /**
    Without knowing the later publishes, exactly when the reply is faithful after `m` of them: each
    of its signals is empty, or at most a ring's worth was published from it on.
   */
  lemma {:induction false} AlwaysFaithfulExactly(batch: Batch, r: Ring, log: seq<Payload>, m: nat,
                                                 start: nat, lost: nat, n: nat)
    requires r.Refines(log) && r.Bounded() && Framable(log) && lost < TWO32
    requires 1 <= start && start + n <= r.next <= start + |r.slots|
    requires Carries(batch, r, LoggedRecords(log, start, lost, n))
    ensures AlwaysFaithful(batch, r, m, LoggedRecords(log, start, lost, n)) <==>
      forall id :: start <= id < start + n ==> OutOfReach(r, m, id, log)
  {
    hide Ring.Refines, Ring.WellFormed, Carries, CopiedFaithfully, PublishAll, BlockReused, LaidOverAll;
    var rs := LoggedRecords(log, start, lost, n);
    if AlwaysFaithful(batch, r, m, rs) {
      forall id | start <= id < start + n
        ensures OutOfReach(r, m, id, log)
      {
        if r.next + m > id + |r.slots| {
          var ps := seq(m, _ => Zeros(r.At(id).alloc));
          LargePayloadsReplace(r, m, id);
          ReplyFaithfulExactly(batch, r, log, ps, start, lost, n);
          assert Survives(r, ps, id, log);
        }
      }
    }
    if forall id :: start <= id < start + n ==> OutOfReach(r, m, id, log) {
      forall ps: seq<Payload> | |ps| == m
        ensures CopiedFaithfully(batch, r, ps, rs)
      {
        forall id | start <= id < start + n
          ensures Survives(r, ps, id, log)
        {
          OutOfReachSurvives(r, ps, id, log);
        }
        ReplyFaithfulExactly(batch, r, log, ps, start, lost, n);
      }
    }
  }

  // What readers may not rely on -----------------------------------------------------------

  /**
    A loss is reported in a reply exactly when the first retained signal fits in the request.
    Otherwise the run has moved the cursor past the loss and no later read reports it.
   */
  lemma LossReachesReader(r: Ring, log: seq<Payload>, sub: Sub, size: nat)
    requires r.Refines(log) && r.Bounded() && ValidCursor(r, sub.cursor)
    requires !sub.interrupted && r.Ready(sub.cursor)
    ensures var out := Run(r, sub, ReadCallback(size));
      var lost := Lost(r, sub.cursor);
      && 1 <= sub.cursor + lost <= |log| && ValidCursor(r, out.sub.cursor) && Lost(r, out.sub.cursor) == 0
      && (BatchOf(size, out.calls).sig != [] <==> Fits(log[sub.cursor + lost - 1], size))
      && (forall i :: 0 <= i < |BatchOf(size, out.calls).sig| ==> BatchOf(size, out.calls).sig[i].lost == lost)
  {
    BatchLaw(r, log, sub, size);
    CatchUpExactly(r, sub.cursor);
  }

  lemma {:induction false} ByteCountIsLength(rs: seq<Record>)
    ensures |Records(rs)| == ByteCount(rs)
  {
    if rs != [] {
      var init, last := rs[..|rs| - 1], rs[|rs| - 1];
      ByteCountIsLength(init);
      RecordsSnoc(init, last);
      assert rs == init + [last];
    }
  }

  lemma {:induction false} ByteCountBound(log: seq<Payload>, start: nat, lost: nat, n: nat, size: nat)
    requires 1 <= start && start + n <= |log| + 1 && AllFit(log, start, n, size)
    ensures ByteCount(LoggedRecords(log, start, lost, n)) <= n * size
  {
    if n > 0 {
      var rs := LoggedRecords(log, start, lost, n);
      ByteCountBound(log, start, lost, n - 1, size);
      assert rs[..n - 1] == LoggedRecords(log, start, lost, n - 1);
      assert n * size == (n - 1) * size + size;
    }
  }

  /** Each record alone fits in the request, so a reply has at most twenty times the bytes asked for. */
  lemma ReplyBound(log: seq<Payload>, start: nat, lost: nat, n: nat, size: nat)
    requires 1 <= start && start + n <= |log| + 1 && FullBatch(log, start, n, size)
    ensures |Records(LoggedRecords(log, start, lost, n))| <= MAX_SIGNALS * size
  {
    hide AllFit, ByteCount, Records;
    ByteCountIsLength(LoggedRecords(log, start, lost, n));
    ByteCountBound(log, start, lost, n, size);
    TimesMonotone(n, MAX_SIGNALS, size);
  }

  lemma TimesMonotone(a: nat, b: nat, c: nat)
    requires a <= b
    ensures a * c <= b * c
  {}

  lemma {:induction false} ByteCountEqual(log: seq<Payload>, start: nat, lost: nat, n: nat, size: nat)
    requires 1 <= start && start + n <= |log| + 1
    requires forall i :: start - 1 <= i < start - 1 + n ==> SIGNAL_SIZE + |log[i]| == size
    ensures ByteCount(LoggedRecords(log, start, lost, n)) == n * size
  {
    if n > 0 {
      var rs := LoggedRecords(log, start, lost, n);
      ByteCountEqual(log, start, lost, n - 1, size);
      assert rs[..n - 1] == LoggedRecords(log, start, lost, n - 1);
      assert n * size == (n - 1) * size + size;
    }
  }

  /** How many records from `start` on have room in `size` bytes together. */
  function FitTogether(log: seq<Payload>, start: nat, size: nat): (n: nat)
    requires 1 <= start <= |log| + 1
    ensures start + n <= |log| + 1
    decreases |log| + 1 - start
  {
    if start == |log| + 1 || !Fits(log[start - 1], size) then 0
    else 1 + FitTogether(log, start + 1, size - SIGNAL_SIZE - |log[start - 1]|)
  }

  lemma {:induction false} ByteCountCons(log: seq<Payload>, start: nat, lost: nat, n: nat)
    requires 1 <= start && start + n <= |log| + 1 && 0 < n
    ensures ByteCount(LoggedRecords(log, start, lost, n)) ==
      SIGNAL_SIZE + |log[start - 1]| + ByteCount(LoggedRecords(log, start + 1, lost, n - 1))
    decreases n
  {
    var rs := LoggedRecords(log, start, lost, n);
    assert rs[..n - 1] == LoggedRecords(log, start, lost, n - 1);
    if n > 1 {
      var tail := LoggedRecords(log, start + 1, lost, n - 1);
      assert tail[..n - 2] == LoggedRecords(log, start + 1, lost, n - 2);
      ByteCountCons(log, start, lost, n - 1);
    }
  }

  lemma NoBytes()
    ensures ByteCount([]) == 0
  {}

  lemma {:induction false} FitTogetherExactly(log: seq<Payload>, start: nat, lost: nat, n: nat, size: nat)
    requires 1 <= start && start + n <= |log| + 1
    ensures ByteCount(LoggedRecords(log, start, lost, n)) <= size <==> n <= FitTogether(log, start, size)
    decreases n
  {
    hide ByteCount;
    if n == 0 {
      NoBytes();
    } else {
      ByteCountCons(log, start, lost, n);
      if Fits(log[start - 1], size) {
        FitTogetherExactly(log, start + 1, lost, n - 1, size - SIGNAL_SIZE - |log[start - 1]|);
      }
    }
  }

  /** The number of bytes in a reply does not depend on when it is copied out. */
  lemma ReplyLength(batch: Batch, r: Ring, r': Ring, heap: Heap, rs: seq<Record>)
    requires r.Sized() && Carries(batch, r, rs)
    ensures |ReplyBytes(batch, r', heap)| == ByteCount(rs)
  {
    hide Carries, ReplyBytes;
    ReplyIsReread(batch, r, r', heap, rs);
    ByteCountIsLength(Reread(rs, r, r', heap));
    SameByteCount(Reread(rs, r, r', heap), rs);
  }

  lemma {:induction false} SameByteCount(a: seq<Record>, b: seq<Record>)
    requires |a| == |b| && forall i :: 0 <= i < |a| ==> |a[i].bytes| == |b[i].bytes|
    ensures ByteCount(a) == ByteCount(b)
    decreases |a|
  {
    if a != [] {
      SameByteCount(a[..|a| - 1], b[..|b| - 1]);
    }
  }

  /** Records that fit together fit alone, too. */
  lemma {:induction false} TogetherFitAlone(log: seq<Payload>, start: nat, size: nat, i: nat)
    requires 1 <= start <= |log| + 1 && i < FitTogether(log, start, size)
    ensures Fits(log[start + i - 1], size)
    decreases i
  {
    if i > 0 {
      TogetherFitAlone(log, start + 1, size - SIGNAL_SIZE - |log[start - 1]|, i - 1);
    }
  }

  /** The records from `start` on that fit together are all that one read takes. */
  ghost predicate TogetherIsEnough(log: seq<Payload>, start: nat, size: nat)
    requires 1 <= start <= |log| + 1
  {
    var k := FitTogether(log, start, size);
    k >= MAX_SIGNALS || start + k == |log| + 1 || !Fits(log[start + k - 1], size)
  }

  lemma FullBatchFitsTogether(log: seq<Payload>, start: nat, n: nat, size: nat)
    requires 1 <= start && start + n <= |log| + 1 && FullBatch(log, start, n, size)
    ensures n <= FitTogether(log, start, size) <==> TogetherIsEnough(log, start, size)
  {
    hide FitTogether;
    var k := FitTogether(log, start, size);
    if n < k {
      TogetherFitAlone(log, start, size, n);
    }
    assert k < n ==> Fits(log[start + k - 1], size);
  }

  /**
    A reply stays within the requested size exactly when, of the records waiting from the first
    retained signal on, those that fit together are twenty, or all, or stop at one that does not
    even fit alone.
   */
  lemma ReplyWithinRequest(r: Ring, log: seq<Payload>, sub: Sub, size: nat, r': Ring, heap: Heap)
    requires r.Refines(log) && r.Bounded() && ValidCursor(r, sub.cursor)
    requires !sub.interrupted && r.Ready(sub.cursor)
    ensures var out := Run(r, sub, ReadCallback(size));
      var start := sub.cursor + Lost(r, sub.cursor);
      && 1 <= start <= |log|
      && (|ReplyBytes(BatchOf(size, out.calls), r', heap)| <= size <==> TogetherIsEnough(log, start, size))
  {
    hide Ring.Refines, Ring.WellFormed, Run, BatchOf, ReadCallback, Carries, ReplyBytes, Lost, FullBatch;
    hide TogetherIsEnough, FitTogether;
    BatchLaw(r, log, sub, size);
    RunDelivers(r, log, sub, ReadCallback(size));
    var out := Run(r, sub, ReadCallback(size));
    var lost := Lost(r, sub.cursor);
    var start, n := sub.cursor + lost, out.sub.cursor - (sub.cursor + lost);
    ReplyLength(BatchOf(size, out.calls), r, r', heap, LoggedRecords(log, start, lost, n));
    FitTogetherExactly(log, start, lost, n, size);
    FullBatchFitsTogether(log, start, n, size);
  }

  /** The 32-bit total that the callback keeps is the length of the reply unless that needs more bits. */
  lemma TotalIsLength(r: Ring, log: seq<Payload>, sub: Sub, size: nat, r': Ring, heap: Heap)
    requires r.Refines(log) && r.Bounded() && ValidCursor(r, sub.cursor)
    requires !sub.interrupted && r.Ready(sub.cursor)
    ensures var batch := BatchOf(size, Run(r, sub, ReadCallback(size)).calls);
      var length := |ReplyBytes(batch, r', heap)|;
      && (batch.total == length <==> length < TWO32)
      && (MAX_SIGNALS * size < TWO32 ==> batch.total == length)
  {
    hide Ring.Refines, Ring.WellFormed, Run, BatchOf, ReadCallback, Carries, ReplyBytes, Lost, FullBatch;
    hide Records, ByteCount, LoggedRecords, Low32;
    BatchLaw(r, log, sub, size);
    var out := Run(r, sub, ReadCallback(size));
    var lost := Lost(r, sub.cursor);
    var start, n := sub.cursor + lost, out.sub.cursor - (sub.cursor + lost);
    var rs := LoggedRecords(log, start, lost, n);
    ReplyLength(BatchOf(size, out.calls), r, r', heap, rs);
    CarriesTotal(BatchOf(size, out.calls), r, rs);
    ReplyBound(log, start, lost, n, size);
    ByteCountIsLength(rs);
  }

  lemma CarriesTotal(batch: Batch, r: Ring, rs: seq<Record>)
    requires r.Sized() && Carries(batch, r, rs)
    ensures batch.total == Low32(ByteCount(rs))
  {}

  /**
    The factor is reached: whenever twenty signals are waiting whose records are each exactly as
    long as the request, the reply is twenty times as long as what the reader asked for.
   */
  lemma ReplyExceedsRequest(r: Ring, log: seq<Payload>, sub: Sub, size: nat, r': Ring, heap: Heap)
    requires r.Refines(log) && r.Bounded() && ValidCursor(r, sub.cursor)
    requires !sub.interrupted && r.Ready(sub.cursor)
    requires sub.cursor + Lost(r, sub.cursor) + MAX_SIGNALS <= r.next
    requires var start := sub.cursor + Lost(r, sub.cursor);
      forall i :: start - 1 <= i < start - 1 + MAX_SIGNALS && i < |log| ==> SIGNAL_SIZE + |log[i]| == size
    ensures var out := Run(r, sub, ReadCallback(size));
      |ReplyBytes(BatchOf(size, out.calls), r', heap)| == MAX_SIGNALS * size
  {
    hide Ring.Refines, Ring.WellFormed, Run, BatchOf, ReadCallback, Carries, ReplyBytes, Lost;
    BatchLaw(r, log, sub, size);
    var out := Run(r, sub, ReadCallback(size));
    var lost := Lost(r, sub.cursor);
    var start, n := sub.cursor + lost, out.sub.cursor - (sub.cursor + lost);
    assert n == MAX_SIGNALS;
    ReplyLength(BatchOf(size, out.calls), r, r', heap, LoggedRecords(log, start, lost, n));
    ByteCountEqual(log, start, lost, n, size);
  }

  /** It happens for every request that has room for a record: twenty signals in a queue of 32. */
  lemma ExcessIsReachable(size: nat, heap: Heap)
    requires SIGNAL_SIZE <= size < SIGNAL_SIZE + TWO32
    ensures Initial(32).WellFormed()
    ensures var r := PublishAll(Initial(32), seq(MAX_SIGNALS, _ => Zeros(size - SIGNAL_SIZE)), MAX_SIGNALS);
      var sub := Sub(1, false);
      && r.Bounded() && ValidCursor(r, 1) && Awake(r, sub)
      && var out := Run(r, sub, ReadCallback(size));
         |ReplyBytes(BatchOf(size, out.calls), r, heap)| == MAX_SIGNALS * size
  {
    hide Run, BatchOf, ReadCallback, ReplyBytes, Ring.Refines, Ring.WellFormed, PublishAll;
    assert Pow2(5) == 32;
    InitialRefines(32);
    var ps := seq(MAX_SIGNALS, _ => Zeros(size - SIGNAL_SIZE));
    var r := PublishAll(Initial(32), ps, MAX_SIGNALS);
    PublishAllRefines(Initial(32), [], ps, MAX_SIGNALS);
    ReadyIsAvailable(r, 1);
    ReplyExceedsRequest(r, [] + Logged(ps, MAX_SIGNALS), Sub(1, false), size, r, heap);
  }
}
