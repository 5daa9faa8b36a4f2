/** `do_write`: cutting a buffer into frames and queueing each of them. */
module Writing {
  import opened Words
  import opened Ring
  import opened Wire
  import opened Queue

  lemma FirstPayloadUnclipped(buffer: seq<Byte>)
    requires StartsWithFrame(buffer)
    ensures Clip(FirstPayload(buffer)) == FirstPayload(buffer)
  {
    FrameSplits(buffer);
  }

  /** The result of parsing, when the payloads `front` were taken off before the buffer. */
  function ParsedAfter(front: seq<Payload>, buffer: seq<Byte>): Parsed {
    Parsed(front + Parse(buffer).payloads, Parse(buffer).rest)
  }

  lemma ParsedStep(front: seq<Payload>, buffer: seq<Byte>)
    requires StartsWithFrame(buffer)
    ensures ParsedAfter(front, buffer) == ParsedAfter(front + [FirstPayload(buffer)], AfterFirst(buffer))
  {
    var tail := Parse(AfterFirst(buffer)).payloads;
    assert front + ([FirstPayload(buffer)] + tail) == front + [FirstPayload(buffer)] + tail;
  }

  lemma ParsedStart(buffer: seq<Byte>)
    ensures ParsedAfter([], buffer) == Parse(buffer)
  {
    assert [] + Parse(buffer).payloads == Parse(buffer).payloads;
  }

  lemma ParsedEnd(front: seq<Payload>, buffer: seq<Byte>)
    requires !StartsWithFrame(buffer)
    ensures ParsedAfter(front, buffer) == Parsed(front, buffer)
  {}

  /**
    The frame loop, undisturbed by other writers. It queues the payloads of the whole frames at the
    front of the buffer, also when what follows them is malformed, and succeeds exactly when the
    buffer consists of whole frames.
   */
  method DoWrite(queue: SignalQueue, buffer: seq<Byte>) returns (ok: bool)
    requires queue.Valid()
    modifies queue, queue.queue
    ensures queue.Valid()
    ensures queue.log == old(queue.log) + Parse(buffer).payloads
    ensures ok <==> exists ps: seq<Payload> :: Framable(ps) && buffer == Frames(ps)
  {
    WholeBufferAccepted(buffer);
    hide Frames, Framable, Parse, ParsedAfter, FirstPayload, AfterFirst;
    var rest := buffer;
    ghost var queued: seq<Payload> := [];
    ParsedStart(buffer);
    while rest != []
      invariant queue.Valid() && queue.log == old(queue.log) + queued
      invariant Parse(buffer) == ParsedAfter(queued, rest)
      decreases |rest|
    {
      if |rest| < PREFIX_SIZE || |rest| < PREFIX_SIZE + Decode(rest[..PREFIX_SIZE]) {
        ParsedEnd(queued, rest);
        return false;
      }
      var payload := FirstPayload(rest);
      FirstPayloadUnclipped(rest);
      ParsedStep(queued, rest);
      queue.QueueSignal(payload);
      queued := queued + [payload];
      rest := AfterFirst(rest);
    }
    ParsedEnd(queued, rest);
    ok := true;
  }
}
