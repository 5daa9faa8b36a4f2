/** The circular signal queue as a value: slots, publishing, and what a cursor can see. */
module Ring {
  import opened Words

  const SIGNAL_SIZE: nat := 16  // sizeof(sigfs_signal_t): lost count, id and payload size, packed
  const PREFIX_SIZE: nat := 4   // sizeof(payload_t): the size field in front of the bytes

  /** What a publisher's bytes look like once their size went through a 32-bit field. */
  function Clip(data: Payload): (p: Payload)
    ensures |data| < TWO32 ==> p == data
    ensures p <= data && |p| == Low32(|data|)
  {
    data[..Low32(|data|)]
  }

  /** The heap block behind a slot: `size` is the stored payload size, `bytes` the memory after it. */
  datatype Block = Null | Block(size: nat, bytes: seq<Byte>)

  /** `serial` counts the blocks allocated for the slot so far: a new number means a new block. */
  datatype Slot = Slot(alloc: nat, serial: nat, id: nat, block: Block) {

    /** `alloc` never claims more memory than the block has, and the payload lies inside it. */
    predicate Valid() {
      match block
      case Null => alloc == 0
      case Block(size, bytes) => size <= |bytes| && alloc == PREFIX_SIZE + |bytes|
    }

    /** The block begins with these bytes. */
    predicate Begins(bytes: seq<Byte>) {
      block.Block? && bytes <= block.bytes
    }

    predicate Holds(p: Payload) {
      Valid() && block.Block? && block.bytes[..block.size] == p
    }

    /** Overwrites the slot; the old block is reused when it is large enough. */
    function Set(newId: nat, data: Payload): (s: Slot)
      requires Valid()
      ensures s.Holds(Clip(data)) && s.id == Low32(newId)
      ensures Reuses(data) ==> s.serial == serial && s.alloc == alloc
      ensures !Reuses(data) ==> s.serial == serial + 1 && s.alloc == PREFIX_SIZE + |data|
    {
      if !Reuses(data) then
        Slot(PREFIX_SIZE + |data|, serial + 1, Low32(newId), Block(Low32(|data|), data))
      else
        Slot(alloc, serial, Low32(newId), Block(Low32(|data|), data + block.bytes[|data|..]))
    }

    /** The test compares with the size of a whole record header, not of the size field alone. */
    predicate Reuses(data: Payload) {
      |data| + SIGNAL_SIZE <= alloc
    }
  }

  const EMPTY_SLOT := Slot(0, 0, 0, Null)

  /** A raw pointer to the payload in a slot's block. It does not follow the slot to a new block. */
  datatype Pointer = Pointer(slot: nat, serial: nat)

  /** The oldest id still retained by a ring of `n` slots whose next id is `next`. */
  function Oldest(next: nat, n: nat): nat
    requires 1 <= n
  {
    if next < n then 1 else next - (n - 1)
  }

  datatype Ring = Ring(slots: seq<Slot>, next: nat, head: nat, tail: nat) {

    ghost predicate Sized() {
      4 <= |slots| < TWO32 && IsPow2(|slots|)
    }

    /** Ids wrap around the ring; the queue computes this with a mask. */
    function Index(id: nat): (i: nat)
      requires Sized()
      ensures i < |slots|
    {
      Wrap(id, |slots|)
    }

    /** The slot that signal `id` is stored in. */
    function At(id: nat): Slot
      requires Sized()
    {
      slots[Index(id)]
    }

    function PointerTo(id: nat): (p: Pointer)
      requires Sized()
      ensures p.slot < |slots|
    {
      Pointer(Index(id), At(id).serial)
    }

    /** The block that the pointer was taken from is still the slot's block. */
    predicate Live(p: Pointer)
      requires p.slot < |slots|
    {
      slots[p.slot].serial == p.serial
    }

    ghost predicate Retains(id: int)
      requires Sized()
    {
      Oldest(next, |slots|) <= id < next
    }

    /** The ring invariant that does not mention what was published. */
    ghost predicate WellFormed(): (b: bool)
      ensures b ==> Sized() && 1 <= next && head < |slots| && tail < |slots| && slots[head].Valid()
    {
      && Sized()
      && 1 <= next
      && head == Index(next)
      && tail == Index(Oldest(next, |slots|))
      && (forall i :: 0 <= i < |slots| ==> slots[i].Valid())
      && slots[head].id == 0
      && (forall id: nat :: Retains(id) ==> At(id).id == Low32(id) && At(id).block.Block?)
      && (forall i :: 0 <= i < |slots| && (next <= i || (i == 0 && next <= |slots|)) ==> slots[i] == EMPTY_SLOT)
    }

    /**
      The ring is a window over the log of everything published. Besides the retained signals, the
      bytes of the signal that was last pushed out are still in the head slot.
     */
    ghost predicate Refines(log: seq<Payload>): (b: bool)
      ensures b ==> WellFormed() && next == |log| + 1
    {
      && WellFormed()
      && next == |log| + 1
      && (forall id :: Max(1, next - |slots|) <= id < next ==> At(id).Holds(log[id - 1]))
    }

    /** Stored ids are 32 bits wide; below this bound none of them was truncated. */
    predicate Bounded() {
      next <= TWO32
    }

    /** One critical section of `queue_signal`. */
    function Publish(data: Payload): Ring
      requires WellFormed()
    {
      var filled := slots[head := slots[head].Set(next, data)];
      var newHead := Index(head + 1);
      var newTail := if newHead == tail then Index(tail + 1) else tail;
      Ring(filled[newHead := filled[newHead].(id := 0)], next + 1, newHead, newTail)
    }

    /** The part of the blocking wait predicate that is not about interrupts. */
    predicate Ready(cursor: nat)
      requires Sized()
    {
      !(head == tail || At(cursor).id < cursor)
    }

    /** `signal_available_`. */
    predicate Available(cursor: nat)
      requires Sized()
    {
      !(head == tail || Index(cursor) == head)
    }
  }

  function Initial(n: nat): Ring {
    Ring(seq(n, _ => EMPTY_SLOT), 1, 1, 1)
  }

  // Index arithmetic -----------------------------------------------------------------------

  lemma IndexIsRemainder(r: Ring, id: nat)
    requires r.Sized()
    ensures r.Index(id) == id % |r.slots|
  {
    WrapIsRemainder(id, |r.slots|);
  }

  lemma IndexSmall(r: Ring, id: nat)
    requires r.Sized() && id < |r.slots|
    ensures r.Index(id) == id
  {
  }

  /** Masking after each step is the same as masking the id. */
  lemma IndexNext(r: Ring, id: nat)
    requires r.Sized()
    ensures r.Index(r.Index(id) + 1) == r.Index(id + 1)
  {
    IndexIsRemainder(r, id);
    IndexIsRemainder(r, r.Index(id) + 1);
    IndexIsRemainder(r, id + 1);
    ModNext(id, |r.slots|);
  }

  lemma SameSlot(r: Ring, a: nat, b: nat)
    requires r.Sized() && a <= b < a + |r.slots|
    ensures r.Index(a) == r.Index(b) <==> a == b
  {
    IndexIsRemainder(r, a);
    IndexIsRemainder(r, b);
    ModClose(a, b, |r.slots|);
  }

  lemma SlotsRepeat(r: Ring, a: nat, b: nat)
    requires r.Sized() && a <= b
    ensures r.Index(a) == r.Index(b) <==> Wrap(b - a, |r.slots|) == 0
  {
    IndexIsRemainder(r, a);
    IndexIsRemainder(r, b);
    WrapIsRemainder(b - a, |r.slots|);
    ModShift(a, b, |r.slots|);
  }

  lemma SlotRepeats(r: Ring, a: nat)
    requires r.Sized()
    ensures r.Index(a) == r.Index(a + |r.slots|)
  {
    SlotsRepeat(r, a, a + |r.slots|);
  }

  lemma InitialRefines(n: nat)
    requires 4 <= n < TWO32 && IsPow2(n)
    ensures Initial(n).Refines([])
  {
    var r := Initial(n);
    assert r.Sized();
    IndexSmall(r, 1);
  }

  lemma RetainedSlot(r: Ring, id: nat)
    requires r.WellFormed() && r.Retains(id)
    ensures r.At(id).Valid() && r.At(id).block.Block? && r.At(id).id == Low32(id)
  {}

  lemma PublishPointers(r: Ring, data: Payload)
    requires r.WellFormed()
    ensures var r' := r.Publish(data); var n := |r.slots|;
      r'.Sized() && |r'.slots| == n && r'.next == r.next + 1 &&
      r'.head == r.Index(r.next + 1) && r'.tail == r.Index(Oldest(r.next + 1, n))
  {
    var n := |r.slots|;
    IndexNext(r, r.next);
    var oldest := Oldest(r.next, n);
    IndexNext(r, oldest);
    if r.next < n {
      SameSlot(r, 1, r.next + 1);
    } else {
      SlotRepeats(r, oldest);
    }
  }

  /** Publishing touches the payload of the head slot only, and the ids of the old and the new head. */
  lemma PublishKeeps(r: Ring, data: Payload, id: nat)
    requires r.WellFormed() && id < r.next && r.next - id < |r.slots|
    ensures r.Publish(data).Sized() && r.Publish(data).At(id).block == r.At(id).block
    ensures r.Publish(data).At(id).alloc == r.At(id).alloc
    ensures r.Publish(data).PointerTo(id) == r.PointerTo(id)
    ensures r.next + 1 - id < |r.slots| ==> r.Publish(data).At(id) == r.At(id)
  {
    PublishPointers(r, data);
    SameSlot(r, id, r.next);
    if r.next + 1 - id < |r.slots| {
      SameSlot(r, id, r.next + 1);
    }
  }

  lemma PublishWellFormed(r: Ring, data: Payload)
    requires r.WellFormed()
    ensures r.Publish(data).WellFormed()
    ensures r.Publish(data).At(r.next).Holds(Clip(data))
  {
    var r' := r.Publish(data);
    PublishPointers(r, data);
    SameSlot(r, r.next, r.next + 1);
    assert r'.At(r.next) == r.slots[r.head].Set(r.next, data);
    forall id: nat | r'.Retains(id)
      ensures r'.At(id).id == Low32(id) && r'.At(id).block.Block?
    {
      if id < r.next {
        assert r.Retains(id);
        PublishKeeps(r, data, id);
      }
    }
    forall i | 0 <= i < |r'.slots| && (r'.next <= i || (i == 0 && r'.next <= |r'.slots|))
      ensures r'.slots[i] == EMPTY_SLOT
    {
      if r.next < |r.slots| {
        IndexSmall(r, r.next);
      }
    }
  }

  /** Publishing appends to the log. */
  lemma PublishRefines(r: Ring, log: seq<Payload>, data: Payload)
    requires r.Refines(log)
    ensures r.Publish(data).Refines(log + [Clip(data)])
  {
    var r' := r.Publish(data);
    var log' := log + [Clip(data)];
    PublishPointers(r, data);
    PublishWellFormed(r, data);
    forall id | Max(1, r'.next - |r'.slots|) <= id < r'.next
      ensures r'.At(id).Holds(log'[id - 1])
    {
      if id < r.next {
        PublishKeeps(r, data, id);
        assert r.At(id).Holds(log[id - 1]);
      }
    }
  }

  // Series of publishes --------------------------------------------------------------------

  /** The ring after the first `n` of the payloads were published. */
  ghost function PublishAll(r: Ring, ps: seq<Payload>, n: nat): (r': Ring)
    requires r.WellFormed() && n <= |ps|
    ensures r'.WellFormed() && r'.next == r.next + n && |r'.slots| == |r.slots|
  {
    if n == 0 then r
    else
      var before := PublishAll(r, ps, n - 1);
      PublishWellFormed(before, ps[n - 1]);
      PublishPointers(before, ps[n - 1]);
      before.Publish(ps[n - 1])
  }

  /** The payloads as they are logged. */
  function Logged(ps: seq<Payload>, n: nat): (log: seq<Payload>)
    requires n <= |ps|
    ensures |log| == n && forall k :: 0 <= k < n ==> log[k] == Clip(ps[k])
  {
    if n == 0 then [] else Logged(ps, n - 1) + [Clip(ps[n - 1])]
  }

  lemma {:induction false} PublishAllRefines(r: Ring, log: seq<Payload>, ps: seq<Payload>, n: nat)
    requires r.Refines(log) && n <= |ps|
    ensures PublishAll(r, ps, n).Refines(log + Logged(ps, n))
  {
    hide Ring.Refines, Ring.WellFormed, Ring.Publish;
    if n == 0 {
      assert log + [] == log;
    } else {
      PublishAllRefines(r, log, ps, n - 1);
      PublishRefines(PublishAll(r, ps, n - 1), log + Logged(ps, n - 1), ps[n - 1]);
      assert log + Logged(ps, n - 1) + [Clip(ps[n - 1])] == log + Logged(ps, n);
    }
  }

  lemma PublishSlot(r: Ring, data: Payload, i: nat)
    requires r.WellFormed() && i < |r.slots|
    ensures |r.Publish(data).slots| == |r.slots|
    ensures var was, now := r.slots[i], r.Publish(data).slots[i];
      if i == r.head && !was.Reuses(data)
      then now.serial == was.serial + 1 && now.alloc == PREFIX_SIZE + |data|
      else now.serial == was.serial && now.alloc == was.alloc
  {
    PublishPointers(r, data);
  }

  /** Every payload that went into the slot of `id` meanwhile was put into the block already there. */
  ghost predicate BlockReused(r: Ring, ps: seq<Payload>, n: nat, id: nat)
    requires r.Sized() && n <= |ps|
  {
    forall k :: 0 <= k < n && r.Index(r.next + k) == r.Index(id) ==> r.At(id).Reuses(ps[k])
  }

  /** A pointer into a slot survives a series of publishes exactly when all of them reused the block. */
  lemma {:induction false} PointerLiveExactly(r: Ring, ps: seq<Payload>, n: nat, id: nat)
    requires r.WellFormed() && n <= |ps|
    ensures var r' := PublishAll(r, ps, n);
      && (r'.Live(r.PointerTo(id)) <==> BlockReused(r, ps, n, id))
      && r'.At(id).serial >= r.At(id).serial
      && (r'.Live(r.PointerTo(id)) ==> r'.At(id).alloc == r.At(id).alloc)
  {
    hide Ring.WellFormed, Ring.Publish, Slot.Reuses;
    if n > 0 {
      var before := PublishAll(r, ps, n - 1);
      PointerLiveExactly(r, ps, n - 1, id);
      PublishSlot(before, ps[n - 1], r.Index(id));
      HeadIs(before);
      assert before.head == r.Index(r.next + (n - 1));
      if before.Live(r.PointerTo(id)) {
        SameAlloc(before, r, id, ps[n - 1]);
      }
    }
  }

  lemma HeadIs(r: Ring)
    requires r.WellFormed()
    ensures r.head == r.Index(r.next)
  {}

  lemma SameAlloc(r: Ring, r': Ring, id: nat, data: Payload)
    requires r.Sized() && r'.Sized() && r.At(id).alloc == r'.At(id).alloc
    ensures r.At(id).Reuses(data) <==> r'.At(id).Reuses(data)
  {}

  /** The bytes `was`, once the payload `p` was written over them from the front. */
  function LaidOver(was: seq<Byte>, p: Payload): (bytes: seq<Byte>)
    ensures |bytes| == |was|
  {
    if |p| < |was| then p + was[|p|..] else p[..|was|]
  }

  /** The same for those of the first `n` payloads that went into the slot of `id`, one after the other. */
  function LaidOverAll(r: Ring, ps: seq<Payload>, n: nat, id: nat, was: seq<Byte>): (bytes: seq<Byte>)
    requires r.Sized() && n <= |ps|
    ensures |bytes| == |was|
  {
    if n == 0 then was
    else
      var before := LaidOverAll(r, ps, n - 1, id, was);
      if r.Index(r.next + (n - 1)) == r.Index(id) then LaidOver(before, ps[n - 1]) else before
  }

  lemma PublishLaysOver(r: Ring, data: Payload, i: nat, was: seq<Byte>)
    requires r.WellFormed() && i < |r.slots| && r.slots[i].Begins(was)
    requires i == r.head ==> r.slots[i].Reuses(data)
    ensures |r.Publish(data).slots| == |r.slots|
    ensures r.Publish(data).slots[i].Begins(if i == r.head then LaidOver(was, data) else was)
  {
    hide LaidOver, Slot.Set, Slot.Begins, Slot.Reuses;
    PublishBlock(r, data, i);
    if i == r.head {
      SetLaysOver(r.slots[i], r.next, data, was);
      SameBegins(r.slots[i].Set(r.next, data), r.Publish(data).slots[i], LaidOver(was, data));
    } else {
      SameBegins(r.slots[i], r.Publish(data).slots[i], was);
    }
  }

  lemma PublishBlock(r: Ring, data: Payload, i: nat)
    requires r.WellFormed() && i < |r.slots|
    ensures r.slots[i].Valid() && |r.Publish(data).slots| == |r.slots|
    ensures r.Publish(data).slots[i].block ==
      if i == r.head then r.slots[i].Set(r.next, data).block else r.slots[i].block
  {
    hide Slot.Set;
    PublishPointers(r, data);
  }

  lemma SetLaysOver(s: Slot, newId: nat, data: Payload, was: seq<Byte>)
    requires s.Valid() && s.Begins(was) && s.Reuses(data)
    ensures s.Set(newId, data).Begins(LaidOver(was, data))
  {}

  lemma SameBegins(s: Slot, s': Slot, was: seq<Byte>)
    requires s.block == s'.block && s.Begins(was)
    ensures s'.Begins(was)
  {}

  /** What a block that was reused all the time begins with. */
  lemma {:induction false} ReusedBlockBegins(r: Ring, ps: seq<Payload>, n: nat, id: nat, was: seq<Byte>)
    requires r.WellFormed() && n <= |ps| && BlockReused(r, ps, n, id) && r.At(id).Begins(was)
    ensures PublishAll(r, ps, n).At(id).Begins(LaidOverAll(r, ps, n, id, was))
  {
    hide Ring.WellFormed, Ring.Publish, Slot.Reuses, Slot.Begins;
    if n > 0 {
      var before := PublishAll(r, ps, n - 1);
      ReusedBlockBegins(r, ps, n - 1, id, was);
      PointerLiveExactly(r, ps, n - 1, id);
      HeadIs(before);
      SameAlloc(before, r, id, ps[n - 1]);
      PublishLaysOver(before, ps[n - 1], r.Index(id), LaidOverAll(r, ps, n - 1, id, was));
    }
  }

  /** A signal that was not overwritten is still there. */
  lemma {:induction false} NothingLaidOver(r: Ring, ps: seq<Payload>, n: nat, id: nat, was: seq<Byte>)
    requires r.Sized() && n <= |ps| && id < r.next && r.next + n <= id + |r.slots|
    ensures LaidOverAll(r, ps, n, id, was) == was
  {
    if n > 0 {
      NothingLaidOver(r, ps, n - 1, id, was);
      SameSlot(r, id, r.next + (n - 1));
    }
  }

  /** A pointer is safe for as long as its signal was not overwritten. */
  lemma {:induction false} RetainedPointerIsLive(r: Ring, ps: seq<Payload>, n: nat, id: nat)
    requires r.WellFormed() && n <= |ps| && id < r.next && r.next + n <= id + |r.slots|
    ensures BlockReused(r, ps, n, id) && PublishAll(r, ps, n).Live(r.PointerTo(id))
  {
    hide Ring.WellFormed, PublishAll;
    PointerLiveExactly(r, ps, n, id);
    if !BlockReused(r, ps, n, id) {
      var k :| 0 <= k < n && r.Index(r.next + k) == r.Index(id) && !r.At(id).Reuses(ps[k]);
      SameSlot(r, id, r.next + k);
      assert false;
    }
  }

  /** Every block was allocated for a payload of this size. */
  ghost predicate BlocksFit(r: Ring, size: nat) {
    forall i :: 0 <= i < |r.slots| ==> r.slots[i].alloc in {0, PREFIX_SIZE + size}
  }

  lemma PublishKeepsBlocksFit(r: Ring, data: Payload)
    requires r.WellFormed() && BlocksFit(r, |data|)
    ensures BlocksFit(r.Publish(data), |data|)
  {
    hide Ring.WellFormed, Ring.Publish;
    PublishPointers(r, data);
    var r' := r.Publish(data);
    forall i | 0 <= i < |r'.slots|
      ensures r'.slots[i].alloc in {0, PREFIX_SIZE + |data|}
    {
      assert r.slots[i].alloc in {0, PREFIX_SIZE + |data|};
      PublishSlot(r, data, i);
    }
  }

  lemma {:induction false} OneSizeOfBlock(n: nat, ps: seq<Payload>, m: nat, size: nat)
    requires Initial(n).WellFormed() && m <= |ps| && forall k :: 0 <= k < |ps| ==> |ps[k]| == size
    ensures BlocksFit(PublishAll(Initial(n), ps, m), size)
    decreases m
  {
    hide Ring.WellFormed, Ring.Publish;
    if m > 0 {
      OneSizeOfBlock(n, ps, m - 1, size);
      PublishKeepsBlocksFit(PublishAll(Initial(n), ps, m - 1), ps[m - 1]);
    }
  }

  lemma FittingBlock(r: Ring, log: seq<Payload>, id: nat, size: nat)
    requires r.Refines(log) && 1 <= id < r.next <= id + |r.slots|
    requires r.At(id).alloc in {0, PREFIX_SIZE + size}
    ensures r.At(id).alloc == PREFIX_SIZE + size
  {
    assert r.At(id).Holds(log[id - 1]);
  }

  /**
    Reuse takes a payload at least twelve bytes shorter than the block. In a queue whose payloads
    are all of one size no block is ever reused: the pointer to a signal dangles from the moment
    the signal is overwritten.
   */
  lemma {:induction false} OneSizeDangles(n: nat, ps: seq<Payload>, more: seq<Payload>, size: nat, id: nat)
    requires 4 <= n < TWO32 && IsPow2(n) && 1 <= id <= |ps| < id + n
    requires forall k :: 0 <= k < |ps| ==> |ps[k]| == size
    requires forall k :: 0 <= k < |more| ==> |more[k]| == size
    ensures Initial(n).Refines([])
    ensures var r := PublishAll(Initial(n), ps, |ps|);
      PublishAll(r, more, |more|).Live(r.PointerTo(id)) <==> r.next + |more| <= id + n
  {
    hide Ring.Refines, Ring.WellFormed, PublishAll;
    InitialRefines(n);
    PublishAllRefines(Initial(n), [], ps, |ps|);
    var r := PublishAll(Initial(n), ps, |ps|);
    OneSizeOfBlock(n, ps, |ps|, size);
    assert r.At(id).alloc in {0, PREFIX_SIZE + size};
    FittingBlock(r, [] + Logged(ps, |ps|), id, size);
    PointerLiveExactly(r, more, |more|, id);
    if r.next + |more| <= id + n {
      RetainedPointerIsLive(r, more, |more|, id);
    } else {
      SlotRepeats(r, id);
      assert !r.At(id).Reuses(more[id + n - r.next]);
    }
  }

  // What a cursor can see ------------------------------------------------------------------

  /** The largest id below `next` that shares a slot with `cursor`. */
  function Occupant(next: nat, cursor: nat, n: nat): (id: nat)
    requires 0 < n && cursor < next
    ensures cursor <= id < next && next - id <= n
    decreases next - cursor
  {
    if next - cursor <= n then cursor else Occupant(next, cursor + n, n)
  }

  lemma {:induction false} OccupantShares(r: Ring, cursor: nat)
    requires r.WellFormed() && cursor < r.next
    ensures r.Index(cursor) == r.Index(Occupant(r.next, cursor, |r.slots|))
    decreases r.next - cursor
  {
    if r.next - cursor > |r.slots| {
      SlotRepeats(r, cursor);
      OccupantShares(r, cursor + |r.slots|);
    }
  }

  lemma NonEmpty(r: Ring)
    requires r.WellFormed()
    ensures r.head == r.tail <==> r.next == 1
  {
    SameSlot(r, Oldest(r.next, |r.slots|), r.next);
  }

  /** `signal_available_` in every well-formed ring: the lag is not a multiple of the ring size. */
  lemma AvailableExactly(r: Ring, cursor: nat)
    requires r.WellFormed() && 1 <= cursor <= r.next
    ensures r.Available(cursor) <==> Wrap(r.next - cursor, |r.slots|) != 0
  {
    NonEmpty(r);
    SlotsRepeat(r, cursor, r.next);
  }

  /**
    The wait predicate, with no bound on the ids: a signal must share the cursor's slot, and its
    id must not have been truncated below the cursor.
   */
  lemma ReadyExactly(r: Ring, cursor: nat)
    requires r.WellFormed() && 1 <= cursor <= r.next
    ensures r.Ready(cursor) <==>
      r.Available(cursor) && (cursor < r.next && Low32(Occupant(r.next, cursor, |r.slots|)) >= cursor)
  {
    NonEmpty(r);
    if cursor < r.next && r.Index(cursor) != r.head {
      OccupantShares(r, cursor);
      var id := Occupant(r.next, cursor, |r.slots|);
      if r.next - id == |r.slots| {
        SlotRepeats(r, id);
      }
      assert r.Retains(id);
      assert r.At(cursor) == r.At(id);
    }
  }

  /** While no id was truncated, the blocking wait and `signal_available_` agree. */
  lemma ReadyIsAvailable(r: Ring, cursor: nat)
    requires r.WellFormed() && r.Bounded() && 1 <= cursor <= r.next
    ensures r.Ready(cursor) <==> r.Available(cursor)
    ensures r.Ready(cursor) <==> Wrap(r.next - cursor, |r.slots|) != 0
  {
    AvailableExactly(r, cursor);
    ReadyExactly(r, cursor);
  }

  /** A retained signal is announced by `signal_available_`, but the wait sees it only if its id fits in 32 bits. */
  lemma TruncatedIdIsNeverReady(r: Ring, cursor: nat)
    requires r.WellFormed() && r.Retains(cursor)
    ensures r.Available(cursor)
    ensures r.Ready(cursor) <==> cursor < TWO32
  {
    NonEmpty(r);
    SameSlot(r, cursor, r.next);
    assert r.At(cursor).id == Low32(cursor);
  }

  /** Such a ring comes about: every signal with an id from 2^32 on is hidden from a waiting reader. */
  lemma {:induction false} WaitMissesSignals(n: nat, ps: seq<Payload>, cursor: nat)
    requires 4 <= n < TWO32 && IsPow2(n) && TWO32 <= cursor <= |ps| < cursor + (n - 1)
    ensures Initial(n).WellFormed()
    ensures var r := PublishAll(Initial(n), ps, |ps|);
      r.Retains(cursor) && r.Available(cursor) && !r.Ready(cursor)
  {
    InitialRefines(n);
    TruncatedIdIsNeverReady(PublishAll(Initial(n), ps, |ps|), cursor);
  }

  /** A lag that is a positive multiple of the ring size hides every signal; one more publish ends it. */
  lemma StallEndsAtNextPublish(r: Ring, cursor: nat, data: Payload)
    requires r.WellFormed() && r.next < TWO32 && 1 <= cursor <= r.next && !r.Ready(cursor)
    ensures r.Publish(data).WellFormed() && r.Publish(data).Ready(cursor)
  {
    var r' := r.Publish(data);
    PublishPointers(r, data);
    PublishWellFormed(r, data);
    ReadyExactly(r, cursor);
    ReadyExactly(r', cursor);
    NonEmpty(r);
    NonEmpty(r');
    SameSlot(r, r.next, r.next + 1);
  }

  /** The non-zero ids in the slots are exactly the retained ones, each in its own slot. */
  lemma StoredIds(r: Ring, i: nat)
    requires r.WellFormed() && r.Bounded() && i < |r.slots|
    ensures r.slots[i].id != 0 ==> r.Retains(r.slots[i].id) && r.Index(r.slots[i].id) == i
    ensures (exists id: nat :: r.Retains(id) && r.Index(id) == i) ==> r.slots[i].id != 0
  {
    var n := |r.slots|;
    if id: nat :| r.Retains(id) && r.Index(id) == i {
      assert r.At(id).id == id;
    } else if i < r.next && (i != 0 || n < r.next) {
      // Some id below `next` was stored here; it is retained unless the slot is the head.
      IndexSmall(r, i);
      OccupantShares(r, i);
      var id := Occupant(r.next, i, n);
      if !r.Retains(id) {
        SlotRepeats(r, id);
      }
    }
  }
}
