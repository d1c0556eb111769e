/** TLS record framing: the stateless parser and what iterating it yields. */
module Records {
  import opened Bytes

  const RECORD_HEADER := 5

  datatype BytesParseSignal = FullObject | NotFullObject | FullObjectAndTail

  /** `objectEnd` is where the parser puts the end of the object, counted from the start of its input. */
  datatype ParseResult = ParseResult(signal: BytesParseSignal, objectEnd: nat)

  /** `get_tls_record_full_length`, a 16-bit sum. */
  function FullLength(b: seq<byte>): u16
    requires |b| >= RECORD_HEADER
  {
    (U16At(b, 3) + RECORD_HEADER) % 0x1_0000
  }

  /** `TLS13_Record*::bytes_parse` */
  function BytesParse(b: seq<byte>): ParseResult {
    if |b| < RECORD_HEADER then ParseResult(NotFullObject, |b|)
    else
      var length := FullLength(b);
      var signal := if length == |b| then FullObject else if length > |b| then NotFullObject else FullObjectAndTail;
      ParseResult(signal, length)
  }

  datatype Framing = Framing(records: seq<seq<byte>>, rest: seq<byte>)

  /** The objects `BytesParse` cuts off one after the other, and what it stops at. */
  function Frames(b: seq<byte>): Framing
    decreases |b|
  {
    var p := BytesParse(b);
    if p.signal == NotFullObject || p.objectEnd == 0 then Framing([], b)
    else Cons(b[..p.objectEnd], Frames(b[p.objectEnd..]))
  }

  function Cons(record: seq<byte>, f: Framing): Framing {
    Framing([record] + f.records, f.rest)
  }

  /** One framing after the other, the second having begun with what the first left. */
  function Chain(first: Framing, second: Framing): Framing {
    Framing(first.records + second.records, second.rest)
  }

  lemma ChainCons(record: seq<byte>, first: Framing, second: Framing)
    ensures Chain(Cons(record, first), second) == Cons(record, Chain(first, second))
  {
    assert ([record] + first.records) + second.records == [record] + (first.records + second.records);
  }

  /** A record whose length field counts its payload and does not wrap the 16-bit full length. */
  predicate IsRecord(r: seq<byte>) {
    RECORD_HEADER <= |r| == U16At(r, 3) + RECORD_HEADER <= 0xFFFF
  }

  /** The beginning of a record, cut short. */
  predicate IsRecordPrefix(t: seq<byte>) {
    |t| < RECORD_HEADER || |t| < U16At(t, 3) + RECORD_HEADER <= 0xFFFF
  }

  /** A record with the given payload, as the application-data generator writes it. */
  function Record(payload: seq<byte>): (r: seq<byte>)
    ensures |r| == |payload| + RECORD_HEADER
  {
    [23, 3, 3] + Put16(|payload| % 0x1_0000) + payload
  }

  lemma RecordIsRecord(payload: seq<byte>)
    ensures IsRecord(Record(payload)) <==> |payload| + RECORD_HEADER <= 0xFFFF
    ensures Record(payload)[RECORD_HEADER..] == payload
  {
    assert Record(payload)[3..5] == Put16(|payload| % 0x1_0000);
  }

  /**
   * The full length is a 16-bit sum: a header that announces 65531 octets or more stands for an object
   * shorter than a header, and with 65531 exactly for an empty one, at which framing stops for good.
   */
  lemma LongLengthsWrap(b: seq<byte>)
    requires |b| >= RECORD_HEADER && U16At(b, 3) >= 65531
    ensures BytesParse(b) == ParseResult(FullObjectAndTail, U16At(b, 3) - 65531)
    ensures U16At(b, 3) == 65531 ==> Frames(b) == Framing([], b)
  {
    WrappedOnce(U16At(b, 3));
  }

  lemma WrappedOnce(n: u16)
    requires n >= 65531
    ensures (n + RECORD_HEADER) % 0x1_0000 == n - 65531
  {}

  lemma ConsConserves(record: seq<byte>, f: Framing)
    ensures Flatten(Cons(record, f).records) + f.rest == record + (Flatten(f.records) + f.rest)
  {
    assert Cons(record, f).records[1..] == f.records;
  }

  /** Nothing is lost or invented: frames and remainder are the input, in order. */
  lemma {:induction false} FramesConserve(b: seq<byte>)
    ensures Flatten(Frames(b).records) + Frames(b).rest == b
    decreases |b|
  {
    var p := BytesParse(b);
    if p.signal != NotFullObject && p.objectEnd != 0 {
      var front, rest := b[..p.objectEnd], b[p.objectEnd..];
      FrameOff(b, p.objectEnd);
      FramesConserve(rest);
      ConsConserves(front, Frames(rest));
      TakeDrop(b, p.objectEnd);
    }
  }

  /** Any list of records followed by the start of another is cut into exactly those records. */
  lemma {:induction false} FramesOfRecords(records: seq<seq<byte>>, tail: seq<byte>)
    requires forall i :: 0 <= i < |records| ==> IsRecord(records[i])
    requires IsRecordPrefix(tail)
    ensures Frames(Flatten(records) + tail) == Framing(records, tail)
  {
    if records == [] {
      assert Flatten(records) + tail == tail;
    } else {
      var r, later := records[0], Flatten(records[1..]) + tail;
      FlattenHead(records, tail);
      FirstFrame(r, later);
      FramesOfRecords(records[1..], tail);
      ConsOf(records, tail);
    }
  }

  lemma ConsOf(records: seq<seq<byte>>, tail: seq<byte>)
    requires records != []
    ensures Cons(records[0], Framing(records[1..], tail)) == Framing(records, tail)
  {
    assert [records[0]] + records[1..] == records;
  }

  lemma FlattenHead(records: seq<seq<byte>>, tail: seq<byte>)
    requires records != []
    ensures Flatten(records) + tail == records[0] + (Flatten(records[1..]) + tail)
  {}

  /** A record in front is the first frame. */
  lemma FirstFrame(r: seq<byte>, later: seq<byte>)
    requires IsRecord(r)
    ensures Frames(r + later) == Cons(r, Frames(later))
  {
    var b := r + later;
    assert U16At(b, 3) == U16At(r, 3);
    FrameOff(b, |r|);
    assert b[..|r|] == r && b[|r|..] == later;
  }

  /** Framing may be resumed at any cut: chunks framed one by one give what framing the whole gives. */
  lemma {:induction false} FramesResume(a: seq<byte>, b: seq<byte>)
    ensures Frames(a + b) == Chain(Frames(a), Frames(Frames(a).rest + b))
    decreases |a|
  {
    var p := BytesParse(a);
    if p.signal != NotFullObject && p.objectEnd != 0 {
      var n := p.objectEnd;
      ParseIgnoresMore(a, b);
      FrameOff(a, n);
      FrameOff(a + b, n);
      CutFront(a, b, n);
      FramesResume(a[n..], b);
      ChainCons(a[..n], Frames(a[n..]), Frames(Frames(a[n..]).rest + b));
    } else {
      assert Chain(Frames(a), Frames(a + b)) == Frames(a + b);
    }
  }

  lemma CutFront(a: seq<byte>, b: seq<byte>, n: nat)
    requires n <= |a|
    ensures (a + b)[..n] == a[..n] && (a + b)[n..] == a[n..] + b
  {}

  lemma FrameOff(b: seq<byte>, n: nat)
    requires BytesParse(b).signal != NotFullObject && BytesParse(b).objectEnd == n > 0
    ensures n <= |b| && Frames(b) == Cons(b[..n], Frames(b[n..]))
  {}

  /** What is cut off a beginning is cut off the whole. */
  lemma FramesSoFar(a: seq<byte>, all: seq<byte>)
    requires a <= all
    ensures Frames(a).records <= Frames(all).records
  {
    assert all == a + all[|a|..];
    FramesResume(a, all[|a|..]);
  }

  /** A complete object stays the same object when more octets follow. */
  lemma ParseIgnoresMore(a: seq<byte>, b: seq<byte>)
    requires BytesParse(a).signal != NotFullObject
    ensures BytesParse(a + b).signal != NotFullObject && BytesParse(a + b).objectEnd == BytesParse(a).objectEnd <= |a|
    ensures b != [] ==> BytesParse(a + b).signal == FullObjectAndTail
  {
    assert U16At(a + b, 3) == U16At(a, 3);
  }

  /** Framing chunk by chunk: what is left of one chunk is put in front of the next. */
  function FrameChunks(carry: seq<byte>, chunks: seq<seq<byte>>): Framing
    decreases |chunks|
  {
    if chunks == [] then Framing([], carry)
    else
      var now := Frames(carry + chunks[0]);
      var later := FrameChunks(now.rest, chunks[1..]);
      Framing(now.records + later.records, later.rest)
  }

  /** However a stream is cut into chunks, the same records come out and the same remainder stays. */
  lemma {:induction false} ChunkingIrrelevant(carry: seq<byte>, chunks: seq<seq<byte>>)
    requires Frames(carry) == Framing([], carry)
    ensures FrameChunks(carry, chunks) == Frames(carry + Flatten(chunks))
    decreases |chunks|
  {
    if chunks == [] {
      assert carry + Flatten(chunks) == carry;
    } else {
      var now, later := Frames(carry + chunks[0]), Flatten(chunks[1..]);
      assert carry + Flatten(chunks) == (carry + chunks[0]) + later;
      FramesResume(carry + chunks[0], later);
      RestIsStuck(carry + chunks[0]);
      ChunkingIrrelevant(now.rest, chunks[1..]);
    }
  }

  lemma {:induction false} RestIsStuck(b: seq<byte>)
    ensures Frames(Frames(b).rest) == Framing([], Frames(b).rest)
    decreases |b|
  {
    var p := BytesParse(b);
    if p.signal != NotFullObject && p.objectEnd != 0 {
      RestIsStuck(b[p.objectEnd..]);
    }
  }
}
