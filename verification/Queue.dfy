/** The queue and its subscribers as objects, proved against the ring and the dequeue run. */
module Queue {
  import opened Words
  import opened Ring
  import opened Dequeue

  class Subscriber {
    var cursor: nat
    var interrupted: bool

    function View(): Sub
      reads this
    {
      Sub(cursor, interrupted)
    }

    /** A new subscriber is positioned after everything published so far. */
    constructor (queue: SignalQueue)
      requires queue.Valid()
      ensures View() == Sub(queue.nextSigId, false) && ValidCursor(queue.View(), cursor)
    {
      cursor := queue.nextSigId;
      interrupted := false;
    }
  }

  /** A slot and its heap block, overwritten in place; the block is replaced when it is too small. */
  class Signal {
    var alloc: nat
    var id: nat
    var size: nat
    var bytes: array?<Byte>
    /** The number of blocks allocated so far. */
    ghost var serial: nat

    ghost function View(): Slot
      reads this, bytes
    {
      Slot(alloc, serial, id, if bytes == null then Null else Block(size, bytes[..]))
    }

    constructor ()
      ensures View() == EMPTY_SLOT
    {
      alloc, id, size, bytes, serial := 0, 0, 0, null, 0;
    }

    method Set(newId: nat, data: Payload)
      requires View().Valid()
      modifies this, bytes
      ensures View() == old(View()).Set(newId, data) && View().Valid()
      ensures bytes == old(bytes) <==> |data| + SIGNAL_SIZE <= old(alloc)
      ensures bytes == old(bytes) || fresh(bytes)
    {
      if |data| + SIGNAL_SIZE > alloc {
        bytes := new Byte[|data|];
        alloc := PREFIX_SIZE + |data|;
        serial := serial + 1;
      }
      size := Low32(|data|);
      forall i | 0 <= i < |data| {
        bytes[i] := data[i];
      }
      id := Low32(newId);
      assert bytes[..|data|] == data;
      assert bytes[..] == data + bytes[|data|..];
    }
  }

  /** The sizes the queue accepts; any other size ends the program. */
  predicate SizeAccepted(size: nat) {
    4 <= size && And(size, size - 1) == 0
  }

  lemma SizeAcceptedExactly(size: nat)
    ensures SizeAccepted(size) <==> 4 <= size && IsPow2(size)
  {
    if 0 < size {
      PowerOfTwoTest(size);
    }
  }

  class SignalQueue {
    var nextSigId: nat
    const queue: array<Slot>
    const queueMask: nat
    var head: nat
    var tail: nat
    /** Everything published so far. */
    ghost var log: seq<Payload>

    function View(): Ring
      reads this, queue
    {
      Ring(queue[..], nextSigId, head, tail)
    }

    ghost predicate Valid()
      reads this, queue
    {
      && 4 <= queue.Length
      && queueMask == queue.Length - 1
      && View().Refines(log)
    }

    constructor (size: nat)
      requires size < TWO32 && SizeAccepted(size)
      ensures Valid() && fresh(queue) && queue.Length == size && log == []
      ensures View() == Initial(size)
    {
      nextSigId := 1;
      queue := new Slot[size](_ => EMPTY_SLOT);
      queueMask := size - 1;
      head := 1;
      tail := 1;
      log := [];
      new;
      SizeAcceptedExactly(size);
      InitialRefines(size);
      assert queue[..] == Initial(size).slots;
    }

    /** Masking computes the position in the ring. */
    function Index(id: nat): (i: nat)
      requires Valid()
      reads this, queue
      ensures i == View().Index(id)
    {
      MaskIsWrap(id, queue.Length);
      And(id, queueMask)
    }

    method QueueSignal(data: Payload)
      requires Valid()
      modifies this, queue
      ensures Valid()
      ensures View() == old(View()).Publish(data)
      ensures log == old(log) + [Clip(data)]
    {
      hide Ring.Refines, Ring.WellFormed, Slot.Set, And, Wrap;
      PublishRefines(View(), log, data);
      ghost var r := View();
      MaskIsWrap(head + 1, queue.Length);
      MaskIsWrap(tail + 1, queue.Length);
      queue[head] := queue[head].Set(nextSigId, data);
      nextSigId := nextSigId + 1;
      // Move the tail out of the way of the head.
      head := And(head + 1, queueMask);
      if head == tail {
        tail := And(tail + 1, queueMask);
      }
      queue[head] := queue[head].(id := 0);
      log := log + [Clip(data)];
      assert queue[..] == r.Publish(data).slots;
      assert View() == r.Publish(data);
    }

    method SignalAvailable(sub: Subscriber) returns (available: bool)
      requires Valid() && ValidCursor(View(), sub.cursor)
      ensures available == View().Available(sub.cursor)
      ensures available <==> (nextSigId - sub.cursor) % queue.Length != 0
    {
      AvailableExactly(View(), sub.cursor);
      WrapIsRemainder(nextSigId - sub.cursor, queue.Length);
      available := !(head == tail || Index(sub.cursor) == head);
    }

    method InterruptDequeue(sub: Subscriber)
      modifies sub
      ensures sub.View() == old(sub.View()).(interrupted := true)
    {
      sub.interrupted := true;
    }

    /** The callback's arguments for the signal at the cursor, taken from its slot. */
    function CallFor(cursor: nat, lost: nat): (call: Call)
      requires Valid() && View().Retains(cursor)
      reads this, queue
      ensures call == Delivery(View(), cursor, lost)
    {
      RetainedSlot(View(), cursor);
      var block := queue[Index(cursor)].block;
      var at := Pointer(Index(cursor), queue[Index(cursor)].serial);
      Call(cursor, Some(at), block.bytes[..block.size], lost, Low32(nextSigId - cursor - 1))
    }

    /** The critical section of a dequeue, entered when its wait is over. */
    method DequeueSignal(sub: Subscriber, cb: Callback) returns (calls: History, completed: bool)
      requires Valid() && View().Bounded() && ValidCursor(View(), sub.cursor)
      requires Awake(View(), sub.View())
      modifies sub
      ensures Outcome(sub.View(), calls, completed) == Run(View(), old(sub.View()), cb)
    {
      hide Ring.Refines, Ring.WellFormed, Loop;
      if sub.interrupted {
        calls := Then(NoCalls, INTERRUPT_CALL);
        sub.interrupted := !cb(calls).clears;
        return calls, false;
      }
      CatchUpExactly(View(), sub.cursor);
      var lost := 0;
      if queue[tail].id > sub.cursor {
        lost := Low32(queue[tail].id - sub.cursor);
        sub.cursor := queue[tail].id;
      }
      calls := CallbackLoop(sub, lost, cb);
      completed := true;
    }

    method CallbackLoop(sub: Subscriber, lost: nat, cb: Callback) returns (calls: History)
      requires Valid() && View().Retains(sub.cursor)
      modifies sub`cursor
      ensures Progress(sub.cursor, calls) == Loop(View(), old(sub.cursor), lost, cb, NoCalls)
    {
      hide Ring.Refines, Ring.WellFormed, Ring.Available, Ask, Delivery;
      calls := NoCalls;
      while true
        invariant View().Retains(sub.cursor)
        invariant Loop(View(), sub.cursor, lost, cb, calls) == Loop(View(), old(sub.cursor), lost, cb, NoCalls)
        decreases nextSigId - sub.cursor
      {
        AvailableAfter(View(), sub.cursor);
        calls := Then(calls, CallFor(sub.cursor, lost));
        var result := Ask(cb, calls);
        if result != NotProcessed {
          sub.cursor := sub.cursor + 1;
        }
        if result != CallAgain {
          break;
        }
        var available := SignalAvailable(sub);
        if !available {
          break;
        }
      }
    }
  }
}
