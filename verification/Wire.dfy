/** The byte formats: frames written by publishers, and records read by subscribers. */
module Wire {
  import opened Words
  import opened Ring

  // Little-endian integers -----------------------------------------------------------------

  function Pow256(k: nat): nat {
    if k == 0 then 1 else 256 * Pow256(k - 1)
  }

  function Encode(k: nat, v: nat): (bytes: seq<Byte>)
    ensures |bytes| == k
  {
    if k == 0 then [] else [v % 256] + Encode(k - 1, v / 256)
  }

  function Decode(bytes: seq<Byte>): nat {
    if bytes == [] then 0 else bytes[0] + 256 * Decode(bytes[1..])
  }

  lemma {:induction false} DecodeEncode(k: nat, v: nat)
    requires v < Pow256(k)
    ensures Decode(Encode(k, v)) == v
  {
    if k > 0 {
      DecodeEncode(k - 1, v / 256);
      assert Encode(k, v)[1..] == Encode(k - 1, v / 256);
    }
  }

  lemma {:induction false} EncodeDecode(bytes: seq<Byte>)
    ensures Decode(bytes) < Pow256(|bytes|)
    ensures Encode(|bytes|, Decode(bytes)) == bytes
    decreases |bytes|
  {
    if bytes != [] {
      var first, rest := bytes[0], bytes[1..];
      EncodeDecode(rest);
      var v := first + 256 * Decode(rest);
      assert v % 256 == first && v / 256 == Decode(rest);
      assert bytes == [first] + rest;
    }
  }

  lemma WordSizes()
    ensures Pow256(4) == TWO32 && Pow256(8) == TWO32 * TWO32
  {
    assert Pow256(3) == 256 * Pow256(2);
    assert Pow256(5) == 256 * Pow256(4);
    assert Pow256(7) == 256 * Pow256(6);
  }

  // Frames ---------------------------------------------------------------------------------

  /** What a publisher writes for one signal. */
  function Frame(p: Payload): seq<Byte> {
    Encode(PREFIX_SIZE, |p|) + p
  }

  function Frames(ps: seq<Payload>): seq<Byte> {
    if ps == [] then [] else Frame(ps[0]) + Frames(ps[1..])
  }

  /** There is a whole frame at the front of the buffer. */
  predicate StartsWithFrame(buffer: seq<Byte>) {
    && PREFIX_SIZE <= |buffer|
    && PREFIX_SIZE + Decode(buffer[..PREFIX_SIZE]) <= |buffer|
  }

  function FirstPayload(buffer: seq<Byte>): Payload
    requires StartsWithFrame(buffer)
  {
    buffer[PREFIX_SIZE..PREFIX_SIZE + Decode(buffer[..PREFIX_SIZE])]
  }

  function AfterFirst(buffer: seq<Byte>): (rest: seq<Byte>)
    requires StartsWithFrame(buffer)
    ensures |rest| < |buffer|
  {
    buffer[PREFIX_SIZE + Decode(buffer[..PREFIX_SIZE])..]
  }

  datatype Parsed = Parsed(payloads: seq<Payload>, rest: seq<Byte>)

  /** Takes whole frames off the front of the buffer for as long as there is one. */
  function Parse(buffer: seq<Byte>): Parsed
    decreases |buffer|
  {
    if !StartsWithFrame(buffer) then Parsed([], buffer)
    else
      var tail := Parse(AfterFirst(buffer));
      Parsed([FirstPayload(buffer)] + tail.payloads, tail.rest)
  }

  lemma FrameSplits(buffer: seq<Byte>)
    requires StartsWithFrame(buffer)
    ensures |FirstPayload(buffer)| < TWO32
    ensures buffer == Frame(FirstPayload(buffer)) + AfterFirst(buffer)
  {
    WordSizes();
    EncodeDecode(buffer[..PREFIX_SIZE]);
  }

  lemma FrameIsFirst(p: Payload, rest: seq<Byte>)
    requires |p| < TWO32
    ensures var buffer := Frame(p) + rest;
      StartsWithFrame(buffer) && FirstPayload(buffer) == p && AfterFirst(buffer) == rest
  {
    WordSizes();
    DecodeEncode(PREFIX_SIZE, |p|);
    var buffer := Frame(p) + rest;
    assert buffer[..PREFIX_SIZE] == Encode(PREFIX_SIZE, |p|);
  }

  /** Payloads whose sizes fit the size field. */
  predicate Framable(ps: seq<Payload>) {
    forall i :: 0 <= i < |ps| ==> |ps[i]| < TWO32
  }

  lemma FramesCons(p: Payload, ps: seq<Payload>)
    ensures Frames([p] + ps) == Frame(p) + Frames(ps)
    ensures |p| < TWO32 && Framable(ps) ==> Framable([p] + ps)
  {
    assert ([p] + ps)[1..] == ps;
  }

  lemma {:induction false} ParseIsPrefix(buffer: seq<Byte>)
    ensures var parsed := Parse(buffer);
      && Framable(parsed.payloads)
      && buffer == Frames(parsed.payloads) + parsed.rest
      && !StartsWithFrame(parsed.rest)
    decreases |buffer|
  {
    hide StartsWithFrame, FirstPayload, AfterFirst, Frame;
    if StartsWithFrame(buffer) {
      var p, rest := FirstPayload(buffer), AfterFirst(buffer);
      FrameSplits(buffer);
      ParseIsPrefix(rest);
      var tail := Parse(rest);
      FramesCons(p, tail.payloads);
      assert Frame(p) + (Frames(tail.payloads) + tail.rest) == Frame(p) + Frames(tail.payloads) + tail.rest;
    }
  }

  lemma {:induction false} ParseFrames(ps: seq<Payload>, rest: seq<Byte>)
    requires Framable(ps) && !StartsWithFrame(rest)
    ensures Parse(Frames(ps) + rest) == Parsed(ps, rest)
  {
    hide StartsWithFrame, FirstPayload, AfterFirst, Frame;
    if ps == [] {
      assert Frames(ps) + rest == rest;
    } else {
      ParseFrames(ps[1..], rest);
      FrameIsFirst(ps[0], Frames(ps[1..]) + rest);
      assert Frames(ps) + rest == Frame(ps[0]) + (Frames(ps[1..]) + rest);
      assert ps == [ps[0]] + ps[1..];
    }
  }

  /** Parsing is the unique split of a buffer into whole frames and a rest that starts with none. */
  lemma ParseExactly(buffer: seq<Byte>, ps: seq<Payload>, rest: seq<Byte>)
    ensures Parse(buffer) == Parsed(ps, rest) <==>
      Framable(ps) && buffer == Frames(ps) + rest && !StartsWithFrame(rest)
  {
    ParseIsPrefix(buffer);
    if Framable(ps) && buffer == Frames(ps) + rest && !StartsWithFrame(rest) {
      ParseFrames(ps, rest);
    }
  }

  /** A buffer is accepted as a whole exactly when it is a concatenation of frames. */
  lemma WholeBufferAccepted(buffer: seq<Byte>)
    ensures Parse(buffer).rest == [] <==> exists ps: seq<Payload> :: Framable(ps) && buffer == Frames(ps)
  {
    ParseIsPrefix(buffer);
    if Parse(buffer).rest == [] {
      assert buffer == Frames(Parse(buffer).payloads);
    }
    if ps: seq<Payload> :| Framable(ps) && buffer == Frames(ps) {
      ParseFrames(ps, []);
      assert Frames(ps) + [] == buffer;
    }
  }

  // Records --------------------------------------------------------------------------------

  /** One signal as it is read from the file. */
  datatype Record = Record(lost: nat, id: nat, bytes: Payload) {
    predicate Encodable() {
      lost < TWO32 && id < TWO32 * TWO32 && |bytes| < TWO32
    }
  }

  function Header(r: Record): (bytes: seq<Byte>)
    ensures |bytes| == SIGNAL_SIZE
  {
    Encode(4, r.lost) + Encode(8, r.id) + Encode(4, |r.bytes|)
  }

  function RecordBytes(r: Record): seq<Byte> {
    Header(r) + r.bytes
  }

  function Records(rs: seq<Record>): seq<Byte> {
    if rs == [] then [] else RecordBytes(rs[0]) + Records(rs[1..])
  }

  predicate AllEncodable(rs: seq<Record>) {
    forall i :: 0 <= i < |rs| ==> rs[i].Encodable()
  }

  predicate StartsWithRecord(buffer: seq<Byte>) {
    && SIGNAL_SIZE <= |buffer|
    && SIGNAL_SIZE + Decode(buffer[12..SIGNAL_SIZE]) <= |buffer|
  }

  function FirstRecord(buffer: seq<Byte>): Record
    requires StartsWithRecord(buffer)
  {
    var size := Decode(buffer[12..SIGNAL_SIZE]);
    Record(Decode(buffer[..4]), Decode(buffer[4..12]), buffer[SIGNAL_SIZE..SIGNAL_SIZE + size])
  }

  function Prefixed(front: seq<Record>, tail: Option<seq<Record>>): Option<seq<Record>> {
    match tail
    case None => None
    case Some(rs) => Some(front + rs)
  }

  /** The reader's decoding; none when it would step past the bytes that were read. */
  function ParseRecords(buffer: seq<Byte>): Option<seq<Record>>
    decreases |buffer|
  {
    if buffer == [] then Some([])
    else if !StartsWithRecord(buffer) then None
    else
      var first := FirstRecord(buffer);
      Prefixed([first], ParseRecords(buffer[SIGNAL_SIZE + |first.bytes|..]))
  }

  lemma RecordIsFirst(r: Record, rest: seq<Byte>)
    requires r.Encodable()
    ensures var buffer := RecordBytes(r) + rest;
      StartsWithRecord(buffer) && FirstRecord(buffer) == r && buffer[SIGNAL_SIZE + |r.bytes|..] == rest
  {
    WordSizes();
    DecodeEncode(4, r.lost);
    DecodeEncode(8, r.id);
    DecodeEncode(4, |r.bytes|);
    var buffer := RecordBytes(r) + rest;
    assert buffer[..4] == Encode(4, r.lost);
    assert buffer[4..12] == Encode(8, r.id);
    assert buffer[12..SIGNAL_SIZE] == Encode(4, |r.bytes|);
  }

  lemma RecordSplits(buffer: seq<Byte>)
    requires StartsWithRecord(buffer)
    ensures var r := FirstRecord(buffer);
      r.Encodable() && buffer == RecordBytes(r) + buffer[SIGNAL_SIZE + |r.bytes|..]
  {
    WordSizes();
    EncodeDecode(buffer[..4]);
    EncodeDecode(buffer[4..12]);
    EncodeDecode(buffer[12..SIGNAL_SIZE]);
  }

  lemma {:induction false} ParseRecordsOf(rs: seq<Record>)
    requires AllEncodable(rs)
    ensures ParseRecords(Records(rs)) == Some(rs)
  {
    if rs != [] {
      ParseRecordsOf(rs[1..]);
      RecordIsFirst(rs[0], Records(rs[1..]));
      assert rs == [rs[0]] + rs[1..];
    }
  }

  /** Decoding succeeds exactly on the encodings of record lists, and gives that list back. */
  lemma {:induction false} RecordsRoundTrip(buffer: seq<Byte>, rs: seq<Record>)
    ensures ParseRecords(buffer) == Some(rs) <==> AllEncodable(rs) && buffer == Records(rs)
    decreases |buffer|
  {
    if AllEncodable(rs) && buffer == Records(rs) {
      ParseRecordsOf(rs);
    }
    if ParseRecords(buffer) == Some(rs) && buffer != [] {
      RecordSplits(buffer);
      var first := FirstRecord(buffer);
      var rest := buffer[SIGNAL_SIZE + |first.bytes|..];
      RecordsRoundTrip(rest, rs[1..]);
      assert rs == [first] + rs[1..];
    }
  }

  lemma EveryRoundTrip(buffer: seq<Byte>)
    ensures forall rs :: ParseRecords(buffer) == Some(rs) <==> AllEncodable(rs) && buffer == Records(rs)
  {
    hide *;
    forall rs: seq<Record>
      ensures ParseRecords(buffer) == Some(rs) <==> AllEncodable(rs) && buffer == Records(rs)
    {
      RecordsRoundTrip(buffer, rs);
    }
  }

  lemma {:induction false} RecordsAppend(a: seq<Record>, b: seq<Record>)
    ensures Records(a + b) == Records(a) + Records(b)
  {
    if a == [] {
      assert a + b == b;
    } else {
      RecordsAppend(a[1..], b);
      assert (a + b)[1..] == a[1..] + b;
    }
  }

  lemma RecordsSnoc(a: seq<Record>, r: Record)
    ensures Records(a + [r]) == Records(a) + RecordBytes(r)
  {
    RecordsAppend(a, [r]);
    assert Records([r]) == RecordBytes(r);
  }

  /** The bytes of the first `k` records, built from the back. */
  function FirstRecords(rs: seq<Record>, k: nat): seq<Byte>
    requires k <= |rs|
  {
    if k == 0 then [] else FirstRecords(rs, k - 1) + RecordBytes(rs[k - 1])
  }

  lemma {:induction false} FirstRecordsAre(rs: seq<Record>, k: nat)
    requires k <= |rs|
    ensures FirstRecords(rs, k) == Records(rs[..k])
  {
    if k > 0 {
      FirstRecordsAre(rs, k - 1);
      RecordsSnoc(rs[..k - 1], rs[k - 1]);
      assert rs[..k] == rs[..k - 1] + [rs[k - 1]];
    }
  }

  lemma PrefixedStep(front: seq<Record>, r: Record, tail: Option<seq<Record>>)
    ensures Prefixed(front, Prefixed([r], tail)) == Prefixed(front + [r], tail)
  {
    if tail.Some? {
      assert front + ([r] + tail.value) == (front + [r]) + tail.value;
    }
  }

  /** The subscriber's decoding loop. */
  method DecodeRecords(buffer: seq<Byte>) returns (records: Option<seq<Record>>)
    ensures records == ParseRecords(buffer)
    ensures forall rs :: records == Some(rs) <==> AllEncodable(rs) && buffer == Records(rs)
  {
    hide ParseRecords, Records, StartsWithRecord, Prefixed, AllEncodable, FirstRecord;
    EveryRoundTrip(buffer);
    var offset := 0;
    var out: seq<Record> := [];
    assert buffer[offset..] == buffer;
    PrefixedNothing(ParseRecords(buffer));
    while offset < |buffer|
      invariant 0 <= offset <= |buffer|
      invariant ParseRecords(buffer) == Prefixed(out, ParseRecords(buffer[offset..]))
    {
      DecodeStep(buffer, offset, out);
      if !StartsWithRecord(buffer[offset..]) {
        return None;
      }
      var record := FirstRecord(buffer[offset..]);
      out := out + [record];
      offset := offset + SIGNAL_SIZE + |record.bytes|;
    }
    assert buffer[offset..] == [];
    DecodeEnd(out);
    records := Some(out);
  }

  lemma PrefixedNothing(tail: Option<seq<Record>>)
    ensures Prefixed([], tail) == tail
  {
    if tail.Some? {
      assert [] + tail.value == tail.value;
    }
  }

  lemma DecodeEnd(front: seq<Record>)
    ensures Prefixed(front, ParseRecords([])) == Some(front)
  {
    assert front + [] == front;
  }

  /** One round of the loop: it fails, or moves one record from the buffer to the result. */
  lemma DecodeStep(buffer: seq<Byte>, offset: nat, front: seq<Record>)
    requires offset < |buffer|
    ensures !StartsWithRecord(buffer[offset..]) ==> Prefixed(front, ParseRecords(buffer[offset..])) == None
    ensures StartsWithRecord(buffer[offset..]) ==>
      var record := FirstRecord(buffer[offset..]);
      var next := offset + SIGNAL_SIZE + |record.bytes|;
      next <= |buffer| &&
      Prefixed(front, ParseRecords(buffer[offset..])) == Prefixed(front + [record], ParseRecords(buffer[next..]))
  {
    if StartsWithRecord(buffer[offset..]) {
      var record := FirstRecord(buffer[offset..]);
      var next := offset + SIGNAL_SIZE + |record.bytes|;
      assert buffer[offset..][SIGNAL_SIZE + |record.bytes|..] == buffer[next..];
      PrefixedStep(front, record, ParseRecords(buffer[next..]));
    }
  }
}
