/**
 * `SafeReceiveData`: the buffer a socket fills chunk by chunk until it holds whole records.
 *
 * The tail of a record completed by a later chunk is registered one buffer length too far. The signal
 * `OutOfBounds` stands for the read past the end of the vector that follows when the tail is at
 * least a record header long; a shorter tail is silently left out of every object.
 */
module SafeReceive {
  import opened Bytes
  import opened Records

  datatype ReceiveSignal = FullData | WaitData | NoData | OutOfBounds

  type Separator = (nat, nat)

  datatype Buffer = Buffer(data: seq<byte>, separators: seq<Separator>, signal: ReceiveSignal)

  const EMPTY := Buffer([], [], NoData)

  predicate Valid(s: Buffer) {
    s.separators != [] ==> s.separators[|s.separators| - 1].0 <= |s.data|
  }

  /** First chunk: one object, or one object and everything behind it as a second. */
  function ParseFirst(s: Buffer, chunk: seq<byte>): Buffer {
    var n, p := |s.data|, BytesParse(chunk);
    var end := n + |chunk|;
    match p.signal
    case FullObject => Buffer(s.data + chunk, s.separators + [(n, end)], FullData)
    case NotFullObject => Buffer(s.data + chunk, s.separators + [(n, end)], WaitData)
    case FullObjectAndTail =>
      Buffer(s.data + chunk, s.separators + [(n, n + p.objectEnd), (n + p.objectEnd, end)], WaitData)
  }

  /** `get_last_object` makes sure there is a last separator. */
  function WithLast(separators: seq<Separator>): (r: seq<Separator>)
    ensures r != []
  {
    if separators == [] then [(0, 0)] else separators
  }

  /** Later chunk: the last object grows by the chunk and is parsed again. */
  function AddAndParse(s: Buffer, chunk: seq<byte>): Buffer
    requires Valid(s)
  {
    var seps := WithLast(s.separators);
    var last, data := |seps| - 1, s.data + chunk;
    var start := seps[last].0;
    var p := BytesParse(data[start..]);
    match p.signal
    case FullObject => Buffer(data, seps[last := (start, |data|)], FullData)
    case NotFullObject => Buffer(data, seps[last := (start, |data|)], WaitData)
    case FullObjectAndTail =>
      var tail := |data| - start - p.objectEnd;
      Buffer(data, seps[last := (start, start + p.objectEnd)] + [(|data|, |data| + tail)],
             if tail < RECORD_HEADER then WaitData else OutOfBounds)
  }

  function Receive(s: Buffer, chunk: seq<byte>): (r: Buffer)
    requires Valid(s)
    ensures Valid(r)
  {
    if s.signal == WaitData then AddAndParse(s, chunk) else ParseFirst(s, chunk)
  }

  class SafeReceiveData {
    var data: seq<byte>
    var separators: seq<Separator>

    constructor ()
      ensures data == [] && separators == []
    {
      data, separators := [], [];
    }

    ghost function State(signal: ReceiveSignal): Buffer
      reads this
    {
      Buffer(data, separators, signal)
    }

    method AddObject(bytes: seq<byte>)
      modifies this
      ensures data == old(data) + bytes
      ensures separators == old(separators) + [(|old(data)|, |old(data)| + |bytes|)]
    {
      data := data + bytes;
      var start := |data| - |bytes|;
      var fin := |data|;
      separators := separators + [(start, fin)];
    }

    method AddObjectsAndValidate(previous: ReceiveSignal, chunk: seq<byte>) returns (signal: ReceiveSignal)
      requires Valid(State(previous))
      modifies this
      ensures State(signal) == Receive(old(State(previous)), chunk)
    {
      if previous == WaitData {
        signal := AddDataAndParse(chunk);
      } else {
        var p := BytesParse(chunk);
        match p.signal {
          case FullObject =>
            AddObject(chunk);
            signal := FullData;
          case NotFullObject =>
            AddObject(chunk);
            signal := WaitData;
          case FullObjectAndTail =>
            AddObject(chunk[..p.objectEnd]);
            AddObject(chunk[p.objectEnd..]);
            assert chunk[..p.objectEnd] + chunk[p.objectEnd..] == chunk;
            signal := WaitData;
        }
      }
    }

    method AddDataAndParse(chunk: seq<byte>) returns (signal: ReceiveSignal)
      requires Valid(State(WaitData))
      modifies this
      ensures State(signal) == AddAndParse(old(State(WaitData)), chunk)
    {
      separators := WithLast(separators);
      var last := |separators| - 1;
      var start := separators[last].0;
      data := data + chunk;
      var fin := |data|;
      separators := separators[last := (start, fin)];
      ghost var first := start;
      while true
        invariant start <= |data| && data == old(data) + chunk
        invariant start < |data| || first == |data| ==> start == first && fin == |data|
        invariant start == first ==> fin == |data| && last == |separators| - 1
        invariant start == first ==> separators == WithLast(old(separators))[last := (first, |data|)]
        invariant start != first ==> start == |data| && BytesParse(data[first..]).signal == FullObjectAndTail
        invariant start != first ==> fin - start == |data| - first - BytesParse(data[first..]).objectEnd
        invariant start != first ==> separators == AddAndParse(old(State(WaitData)), chunk).separators
        decreases |data| - start
      {
        if fin > |data| {
          // the parser's input begins at the very end of the vector
          return if fin - start < RECORD_HEADER then WaitData else OutOfBounds;
        }
        var p := BytesParse(data[start..fin]);
        assert data[start..fin] == data[start..];
        match p.signal {
          case FullObject => return FullData;
          case NotFullObject => return WaitData;
          case FullObjectAndTail =>
            var size := p.objectEnd;
            var tailSize := fin - start - size;
            var tailStart := separators[last].1;
            separators := separators[last := (separators[last].0, separators[last].0 + size)];
            separators := separators + [(tailStart, tailStart + tailSize)];
            start := tailStart;
            fin := start + tailSize;
        }
      }
    }
  }

  // ----- whole runs of `safe_recv` -----

  /** `safe_recv` feeds chunks until the buffer reports full data. */
  function ReceiveAll(s: Buffer, chunks: seq<seq<byte>>): (r: Buffer)
    requires Valid(s)
    ensures Valid(r)
    decreases |chunks|
  {
    if chunks == [] then s else ReceiveAll(Receive(s, chunks[0]), chunks[1..])
  }

  /** The run ends with full data on the last chunk, having asked for more after every other. */
  predicate Completes(s: Buffer, chunks: seq<seq<byte>>)
    requires Valid(s)
    decreases |chunks|
  {
    if chunks == [] then s.signal == FullData
    else s.signal in {NoData, WaitData} && Completes(Receive(s, chunks[0]), chunks[1..])
  }

  /** Some later chunk reaches past the end of the record the buffer was waiting for. */
  predicate Overruns(s: Buffer, chunks: seq<seq<byte>>)
    requires Valid(s)
    decreases |chunks|
  {
    chunks != [] &&
    (OverrunsNow(s, chunks[0]) || Overruns(Receive(s, chunks[0]), chunks[1..]))
  }

  /** The octets of the object the buffer is waiting for. */
  function Pending(s: Buffer): seq<byte>
    requires Valid(s)
  {
    if s.separators == [] then s.data else s.data[s.separators[|s.separators| - 1].0..]
  }

  predicate OverrunsNow(s: Buffer, chunk: seq<byte>)
    requires Valid(s)
  {
    s.signal == WaitData && BytesParse(Pending(s) + chunk).signal == FullObjectAndTail
  }

  function Slice(data: seq<byte>, s: Separator): seq<byte> {
    if s.0 <= s.1 <= |data| then data[s.0..s.1] else []
  }

  /** What `get_object_bytes` hands out, object by object. */
  function Objects(data: seq<byte>, separators: seq<Separator>): seq<seq<byte>> {
    if separators == [] then [] else [Slice(data, separators[0])] + Objects(data, separators[1..])
  }

  /** Objects without an overrun: the input so far is one pending object, or one whole object and one pending. */
  ghost predicate Clean(s: Buffer, input: seq<byte>) {
    && s.data == input
    && match s.signal
       case NoData => s == EMPTY
       case WaitData =>
         || s.separators == [(0, |input|)]
         || exists cut: nat :: TwoObjects(s, cut)
       case FullData =>
         || (s.separators == [(0, |input|)] && BytesParse(input).signal == FullObject)
         || exists cut: nat :: TwoObjects(s, cut) && BytesParse(input[cut..]).signal == FullObject
       case OutOfBounds => false
  }

  ghost predicate TwoObjects(s: Buffer, cut: nat) {
    && cut <= |s.data|
    && s.separators == [(0, cut), (cut, |s.data|)]
    && BytesParse(s.data) == ParseResult(FullObjectAndTail, cut)
  }

  lemma CleanStep(s: Buffer, input: seq<byte>, chunk: seq<byte>)
    requires Valid(s) && s.signal in {NoData, WaitData} && Clean(s, input) && !OverrunsNow(s, chunk)
    ensures Clean(Receive(s, chunk), input + chunk)
  {
    if s.signal == NoData {
      assert input + chunk == chunk;
      FirstChunk(chunk);
    } else if s.separators == [(0, |input|)] {
      assert Pending(s) == input[0..] == input;
      PendingGrows(s, input, chunk);
    } else {
      var cut: nat :| TwoObjects(s, cut);
      SecondGrows(s, cut, chunk);
    }
  }

  lemma FirstChunk(chunk: seq<byte>)
    ensures Clean(Receive(EMPTY, chunk), chunk)
  {
    var r := Receive(EMPTY, chunk);
    assert [] + chunk == chunk;
    if BytesParse(chunk).signal == FullObjectAndTail {
      assert TwoObjects(r, BytesParse(chunk).objectEnd);
    }
  }

  lemma PendingGrows(s: Buffer, input: seq<byte>, chunk: seq<byte>)
    requires s == Buffer(input, [(0, |input|)], WaitData) && BytesParse(input + chunk).signal != FullObjectAndTail
    ensures Clean(Receive(s, chunk), input + chunk)
  {
    assert (input + chunk)[0..] == input + chunk;
  }

  lemma SecondGrows(s: Buffer, cut: nat, chunk: seq<byte>)
    requires s.signal == WaitData && TwoObjects(s, cut) && !OverrunsNow(s, chunk)
    ensures Clean(Receive(s, chunk), s.data + chunk)
  {
    var r := Receive(s, chunk);
    ParseIgnoresMore(s.data, chunk);
    assert (s.data + chunk)[cut..] == Pending(s) + chunk;
    assert r.separators == [(0, cut), (cut, |s.data + chunk|)];
    assert TwoObjects(r, cut);
  }

  /** A clean buffer that is full holds exactly the frames of its input. */
  lemma CleanMeansFramed(s: Buffer, input: seq<byte>)
    requires s.signal == FullData && Clean(s, input)
    ensures Frames(input) == Framing(Objects(s.data, s.separators), [])
  {
    if s.separators == [(0, |input|)] {
      WholeObject(input);
      assert Objects(s.data, s.separators) == [input[0..|input|]];
    } else {
      var cut: nat :| TwoObjects(s, cut) && BytesParse(input[cut..]).signal == FullObject;
      assert input[0..] == input;
      WholeObject(input[cut..]);
      var second: Separator := (cut, |input|);
      assert s.separators[1..] == [second] && [second][1..] == [];
      assert Slice(input, second) == input[cut..];
      assert Objects(s.data, [second]) == [input[cut..]];
      assert Objects(s.data, s.separators) == [input[..cut], input[cut..]];
    }
  }

  lemma WholeObject(b: seq<byte>)
    requires BytesParse(b).signal == FullObject
    ensures Frames(b) == Framing([b], [])
  {
    assert b[..|b|] == b;
  }

  // ----- after an overrun octets are missing for good -----

  /** Octets covered by all objects but the last. */
  ghost function Covered(s: Buffer): nat
    requires s.separators != []
  {
    |Flatten(Objects(s.data, s.separators[..|s.separators| - 1]))|
  }

  ghost predicate InRange(data: seq<byte>, separators: seq<Separator>) {
    forall i :: 0 <= i < |separators| ==> separators[i].0 <= separators[i].1 <= |data|
  }

  /** The objects fall short of the octets in front of the last one. */
  ghost predicate Lossy(s: Buffer) {
    && s.signal in {WaitData, FullData} && s.separators != [] && Valid(s)
    && var last := |s.separators| - 1;
       && InRange(s.data, s.separators[..last])
       && Covered(s) < s.separators[last].0
       && (s.signal == FullData ==> s.separators[last].1 == |s.data|)
  }

  lemma {:induction false} ObjectsIgnoreMore(data: seq<byte>, separators: seq<Separator>, more: seq<byte>)
    requires InRange(data, separators)
    ensures Objects(data + more, separators) == Objects(data, separators)
  {
    if separators != [] {
      assert forall i :: 0 <= i < |separators| - 1 ==> separators[1..][i] == separators[i + 1];
      ObjectsIgnoreMore(data, separators[1..], more);
      var s := separators[0];
      assert (data + more)[s.0..s.1] == data[s.0..s.1];
    }
  }

  lemma {:induction false} ObjectsSnoc(data: seq<byte>, separators: seq<Separator>, s: Separator)
    ensures Objects(data, separators + [s]) == Objects(data, separators) + [Slice(data, s)]
    ensures |Flatten(Objects(data, separators + [s]))| == |Flatten(Objects(data, separators))| + |Slice(data, s)|
  {
    if separators != [] {
      assert (separators + [s])[1..] == separators[1..] + [s];
      ObjectsSnoc(data, separators[1..], s);
    } else {
      assert separators + [s] == [s] && [s][1..] == [];
    }
    FlattenAppend(Objects(data, separators), [Slice(data, s)]);
    assert Flatten([Slice(data, s)]) == Slice(data, s) + [];
  }

  /** From a pending object nothing was lost before, an overrun loses its tail; what was lost stays lost. */
  lemma LossyStep(s: Buffer, chunk: seq<byte>)
    requires Valid(s) && s.signal == WaitData && s.separators != []
    requires InRange(s.data, s.separators[..|s.separators| - 1])
    requires Receive(s, chunk).signal != OutOfBounds
    requires Covered(s) <= s.separators[|s.separators| - 1].0
    requires Covered(s) < s.separators[|s.separators| - 1].0 || OverrunsNow(s, chunk)
    ensures Lossy(Receive(s, chunk))
  {
    var last := |s.separators| - 1;
    var before, start, fin := s.separators[..last], s.separators[last].0, s.separators[last].1;
    assert s.separators == before + [(start, fin)];
    PendingParsed(s, chunk);
    ObjectsIgnoreMore(s.data, before, chunk);
    if BytesParse(Pending(s) + chunk).signal == FullObjectAndTail {
      TailLost(s, chunk, before, start, fin);
    } else {
      StaysLossy(s, chunk, before, start, fin);
    }
  }

  lemma PendingParsed(s: Buffer, chunk: seq<byte>)
    requires Valid(s)
    ensures var start := WithLast(s.separators)[|WithLast(s.separators)| - 1].0;
            (s.data + chunk)[start..] == Pending(s) + chunk
  {}

  lemma StaysLossy(s: Buffer, chunk: seq<byte>, before: seq<Separator>, start: nat, fin: nat)
    requires Valid(s) && s.signal == WaitData && s.separators == before + [(start, fin)]
    requires InRange(s.data, before) && Objects(s.data + chunk, before) == Objects(s.data, before)
    requires |Flatten(Objects(s.data, before))| < start
    requires BytesParse((s.data + chunk)[start..]).signal != FullObjectAndTail
    ensures Lossy(Receive(s, chunk))
  {
    var r := Receive(s, chunk);
    assert r.separators == before + [(start, |r.data|)];
    assert r.separators[..|r.separators| - 1] == before;
  }

  lemma TailLost(s: Buffer, chunk: seq<byte>, before: seq<Separator>, start: nat, fin: nat)
    requires Valid(s) && s.signal == WaitData && s.separators == before + [(start, fin)]
    requires InRange(s.data, before) && Objects(s.data + chunk, before) == Objects(s.data, before)
    requires |Flatten(Objects(s.data, before))| <= start && Receive(s, chunk).signal != OutOfBounds
    requires BytesParse((s.data + chunk)[start..]).signal == FullObjectAndTail
    ensures Lossy(Receive(s, chunk))
  {
    var r, n := Receive(s, chunk), BytesParse((s.data + chunk)[start..]).objectEnd;
    var whole := (start, start + n);
    ObjectsSnoc(r.data, before, whole);
    assert r.separators == before + [whole] + [r.separators[|before| + 1]];
    assert r.separators[..|r.separators| - 1] == before + [whole];
    assert r.signal == WaitData;
  }

  lemma CleanCovers(s: Buffer, input: seq<byte>)
    requires s.signal == WaitData && Clean(s, input)
    ensures Valid(s) && s.separators != []
    ensures InRange(s.data, s.separators[..|s.separators| - 1])
    ensures Covered(s) == s.separators[|s.separators| - 1].0
  {
    if s.separators != [(0, |input|)] {
      var cut: nat :| TwoObjects(s, cut);
      assert s.separators[..1] == [] + [(0, cut)];
      ObjectsSnoc(s.data, [], (0, cut));
    }
  }

  lemma {:induction false} LossyRun(s: Buffer, chunks: seq<seq<byte>>)
    requires Lossy(s) && Completes(s, chunks)
    ensures var f := ReceiveAll(s, chunks);
            f.data == s.data + Flatten(chunks) && |Flatten(Objects(f.data, f.separators))| < |f.data|
    decreases |chunks|
  {
    if chunks == [] {
      LossyInTheEnd(s);
      assert s.data + Flatten(chunks) == s.data;
    } else {
      var chunk, rest := chunks[0], chunks[1..];
      CompletesPastBounds(s, chunks);
      LossyNext(s, chunk);
      LossyRun(Receive(s, chunk), rest);
      assert s.data + (chunk + Flatten(rest)) == (s.data + chunk) + Flatten(rest);
    }
  }

  lemma LossyNext(s: Buffer, chunk: seq<byte>)
    requires Lossy(s) && s.signal == WaitData && Receive(s, chunk).signal != OutOfBounds
    ensures Lossy(Receive(s, chunk)) && Receive(s, chunk).data == s.data + chunk
  {
    LossyStep(s, chunk);
  }

  lemma LossyInTheEnd(s: Buffer)
    requires Lossy(s) && s.signal == FullData
    ensures |Flatten(Objects(s.data, s.separators))| < |s.data|
  {
    var last := |s.separators| - 1;
    ObjectsSnoc(s.data, s.separators[..last], s.separators[last]);
    assert s.separators[..last] + [s.separators[last]] == s.separators;
  }

  lemma CompletesPastBounds(s: Buffer, chunks: seq<seq<byte>>)
    requires Valid(s) && Completes(s, chunks) && chunks != []
    ensures Receive(s, chunks[0]).signal != OutOfBounds && Completes(Receive(s, chunks[0]), chunks[1..])
    ensures s.signal in {NoData, WaitData}
  {
    var r, later := Receive(s, chunks[0]), chunks[1..];
    assert Completes(r, later);
  }

  /** A run without an overrun stays clean to its end; after one, the objects are shorter than the input. */
  lemma {:induction false} CleanOrLossy(s: Buffer, input: seq<byte>, chunks: seq<seq<byte>>)
    requires Valid(s) && Clean(s, input) && Completes(s, chunks)
    ensures var f, all := ReceiveAll(s, chunks), input + Flatten(chunks);
            if Overruns(s, chunks) then |Flatten(Objects(f.data, f.separators))| < |all|
            else f.signal == FullData && Clean(f, all)
    decreases |chunks|
  {
    if chunks == [] {
      assert input + Flatten(chunks) == input;
    } else {
      var chunk, rest := chunks[0], chunks[1..];
      assert input + (chunk + Flatten(rest)) == (input + chunk) + Flatten(rest);
      if OverrunsNow(s, chunk) {
        CleanCovers(s, input);
        CompletesPastBounds(s, chunks);
        LossyStep(s, chunk);
        LossyRun(Receive(s, chunk), rest);
      } else {
        CleanStep(s, input, chunk);
        CleanOrLossy(Receive(s, chunk), input + chunk, rest);
      }
    }
  }

  /**
   * A run that ends with full data has cut its input into exactly the records the input consists of,
   * with nothing left over, if and only if no later chunk overran the record being completed.
   */
  lemma ReceiveExact(s: Buffer, input: seq<byte>, chunks: seq<seq<byte>>)
    requires Valid(s) && Clean(s, input) && Completes(s, chunks)
    ensures var f := ReceiveAll(s, chunks);
            Frames(input + Flatten(chunks)) == Framing(Objects(f.data, f.separators), []) <==> !Overruns(s, chunks)
  {
    var f, all := ReceiveAll(s, chunks), input + Flatten(chunks);
    CleanOrLossy(s, input, chunks);
    if Overruns(s, chunks) {
      FramesConserve(all);
    } else {
      CleanMeansFramed(f, all);
    }
  }

  /** A fresh buffer: the statement above for everything `safe_recv` is given. */
  lemma SafeReceiveExact(chunks: seq<seq<byte>>)
    requires Completes(EMPTY, chunks)
    ensures var f := ReceiveAll(EMPTY, chunks);
            Frames(Flatten(chunks)) == Framing(Objects(f.data, f.separators), []) <==> !Overruns(EMPTY, chunks)
  {
    ReceiveExact(EMPTY, [], chunks);
    assert [] + Flatten(chunks) == Flatten(chunks);
  }

  /** One record arrives whole however it is cut, and not before its last octet. */
  lemma {:induction false} SingleRecord(s: Buffer, record: seq<byte>, got: nat, chunks: seq<seq<byte>>)
    requires IsRecord(record) && got < |record| && Flatten(chunks) == record[got..]
    requires forall i :: 0 <= i < |chunks| ==> chunks[i] != []
    requires (s == EMPTY && got == 0) || s == Buffer(record[..got], [(0, got)], WaitData)
    ensures Completes(s, chunks)
    ensures ReceiveAll(s, chunks) == Buffer(record, [(0, |record|)], FullData)
    decreases |chunks|
  {
    var chunk, later := chunks[0], Flatten(chunks[1..]);
    assert Flatten(chunks) == chunk + later;
    var now := got + |chunk|;
    assert record[..now] == record[..got] + chunk && record[now..] == later;
    ReceiveMore(s, record, got, chunk);
    if now < |record| {
      SingleRecord(Receive(s, chunk), record, now, chunks[1..]);
    } else {
      assert record[..now] == record && later == [];
      NothingMore(chunks[1..]);
    }
  }

  lemma ReceiveMore(s: Buffer, record: seq<byte>, got: nat, chunk: seq<byte>)
    requires IsRecord(record) && got < |record| && chunk != []
    requires got + |chunk| <= |record| && record[..got + |chunk|] == record[..got] + chunk
    requires (s == EMPTY && got == 0) || s == Buffer(record[..got], [(0, got)], WaitData)
    ensures var now := got + |chunk|;
            Receive(s, chunk) == Buffer(record[..now], [(0, now)], if now < |record| then WaitData else FullData)
  {
    var now := got + |chunk|;
    SoFar(record, now);
    assert s.data + chunk == record[..now];
    if s != EMPTY {
      assert (s.data + chunk)[0..] == record[..now];
    }
  }

  /** The beginning of a record is parsed as such until it is complete. */
  lemma SoFar(record: seq<byte>, now: nat)
    requires IsRecord(record) && now <= |record|
    ensures BytesParse(record[..now]).signal == if now < |record| then NotFullObject else FullObject
  {
    if now == |record| {
      assert record[..now] == record;
    }
  }

  // ----- reading past the end of the vector -----

  /** The run asks for more until, at some chunk, the parser reads past the end. */
  predicate Faults(s: Buffer, chunks: seq<seq<byte>>)
    requires Valid(s)
    decreases |chunks|
  {
    s.signal == OutOfBounds || (chunks != [] && s.signal != FullData && Faults(Receive(s, chunks[0]), chunks[1..]))
  }

  /** The chunk completes the record the buffer waits for and brings `n` further octets along. */
  predicate BringsAlong(s: Buffer, chunk: seq<byte>, n: nat)
    requires Valid(s)
  {
    s.signal == WaitData && RECORD_HEADER <= |Pending(s) + chunk| == FullLength(Pending(s) + chunk) + n
  }

  /** After `k` chunks, each of which left the run waiting, the next one does that with a header or more. */
  ghost predicate BringsHeader(s: Buffer, chunks: seq<seq<byte>>, k: nat)
    requires Valid(s) && k < |chunks|
  {
    (forall i :: 0 <= i <= k ==> ReceiveAll(s, chunks[..i]).signal in {NoData, WaitData})
    && exists n: nat :: n >= RECORD_HEADER && BringsAlong(ReceiveAll(s, chunks[..k]), chunks[k], n)
  }

  lemma FaultsNow(s: Buffer, chunk: seq<byte>)
    requires Valid(s)
    ensures Receive(s, chunk).signal == OutOfBounds
            <==> exists n: nat :: n >= RECORD_HEADER && BringsAlong(s, chunk, n)
  {
    if s.signal == WaitData {
      var all := Pending(s) + chunk;
      PendingParsed(s, chunk);
      if Receive(s, chunk).signal == OutOfBounds {
        assert BringsAlong(s, chunk, |all| - FullLength(all));
      }
    }
  }

  /** Every run of chunks ends in such a read exactly when some chunk that completes a record brings a header along. */
  lemma FaultsExactly(s: Buffer, chunks: seq<seq<byte>>)
    requires Valid(s) && s.signal in {NoData, WaitData}
    ensures Faults(s, chunks) <==> exists k: nat :: k < |chunks| && BringsHeader(s, chunks, k)
  {
    if Faults(s, chunks) {
      var k := FaultingChunk(s, chunks);
    }
    if k: nat :| k < |chunks| && BringsHeader(s, chunks, k) {
      BringsHeaderFaults(s, chunks, k);
    }
  }

  lemma {:induction false} FaultingChunk(s: Buffer, chunks: seq<seq<byte>>) returns (k: nat)
    requires Valid(s) && s.signal in {NoData, WaitData} && Faults(s, chunks)
    ensures k < |chunks| && BringsHeader(s, chunks, k)
    decreases |chunks|
  {
    var r := Receive(s, chunks[0]);
    if r.signal == OutOfBounds {
      k := 0;
    } else {
      k := FaultingChunk(r, chunks[1..]);
      k := k + 1;
    }
    BringsHeaderLater(s, chunks, k);
  }

  lemma {:induction false} BringsHeaderFaults(s: Buffer, chunks: seq<seq<byte>>, k: nat)
    requires Valid(s) && s.signal in {NoData, WaitData} && k < |chunks| && BringsHeader(s, chunks, k)
    ensures Faults(s, chunks)
    decreases |chunks|
  {
    BringsHeaderLater(s, chunks, k);
    if k > 0 {
      BringsHeaderFaults(Receive(s, chunks[0]), chunks[1..], k - 1);
    }
  }

  lemma BringsHeaderLater(s: Buffer, chunks: seq<seq<byte>>, k: nat)
    requires Valid(s) && s.signal in {NoData, WaitData} && k < |chunks|
    ensures var r := Receive(s, chunks[0]);
            BringsHeader(s, chunks, k)
            <==> if k == 0 then r.signal == OutOfBounds
                 else r.signal in {NoData, WaitData} && BringsHeader(r, chunks[1..], k - 1)
  {
    var r, rest := Receive(s, chunks[0]), chunks[1..];
    assert chunks[..0] == [] && ReceiveAll(s, chunks[..0]) == s;
    FaultsNow(s, chunks[0]);
    if k > 0 {
      assert rest[..0] == [] && ReceiveAll(r, rest[..0]) == r;
      forall i | 0 < i <= k ensures ReceiveAll(s, chunks[..i]) == ReceiveAll(r, rest[..i - 1]) {
        ReceiveAllCons(s, chunks, i);
      }
      assert (forall i :: 0 <= i <= k - 1 ==> ReceiveAll(r, rest[..i]).signal in {NoData, WaitData})
             <==> forall i :: 0 < i <= k ==> ReceiveAll(s, chunks[..i]).signal in {NoData, WaitData} by {
        assert forall i :: 0 <= i <= k - 1 ==> ReceiveAll(s, chunks[..i + 1]) == ReceiveAll(r, rest[..i]);
      }
    }
  }

  lemma ReceiveAllCons(s: Buffer, chunks: seq<seq<byte>>, i: nat)
    requires Valid(s) && 0 < i <= |chunks|
    ensures ReceiveAll(s, chunks[..i]) == ReceiveAll(Receive(s, chunks[0]), chunks[1..][..i - 1])
  {
    assert chunks[..i][0] == chunks[0] && chunks[..i][1..] == chunks[1..][..i - 1];
  }

  /**
   * A record cut in two, its second part arriving with more behind it: with nothing more the run is
   * complete, with less than a header it goes on and octets are lost, with a header or more it reads past
   * the end.
   */
  lemma TailDecides(record: seq<byte>, got: nat, tail: seq<byte>)
    requires IsRecord(record) && 0 < got < |record|
    ensures var s, chunk := Receive(EMPTY, record[..got]), record[got..] + tail;
            && Receive(s, chunk).signal
               == (if tail == [] then FullData else if |tail| < RECORD_HEADER then WaitData else OutOfBounds)
            && (Faults(EMPTY, [record[..got], chunk]) <==> |tail| >= RECORD_HEADER)
  {
    var front, chunk := record[..got], record[got..] + tail;
    assert record[..0] + front == front;
    ReceiveMore(EMPTY, record, 0, front);
    assert front + chunk == record + tail;
    AfterTail(record, Receive(EMPTY, front), chunk, tail);
    TwoChunks(front, chunk);
  }

  lemma AfterTail(record: seq<byte>, s: Buffer, chunk: seq<byte>, tail: seq<byte>)
    requires IsRecord(record) && s.signal == WaitData && s.separators == [(0, |s.data|)]
    requires s.data + chunk == record + tail
    ensures Receive(s, chunk).signal
            == if tail == [] then FullData else if |tail| < RECORD_HEADER then WaitData else OutOfBounds
  {
    assert (record + tail)[0..] == record + tail;
    assert U16At(record + tail, 3) == U16At(record, 3);
  }

  lemma TwoChunks(a: seq<byte>, b: seq<byte>)
    requires Receive(EMPTY, a).signal == WaitData
    ensures Faults(EMPTY, [a, b]) <==> Receive(Receive(EMPTY, a), b).signal == OutOfBounds
  {
    var none: seq<seq<byte>> := [];
    assert [a, b][1..] == [b] && [b][1..] == none;
    var s := Receive(EMPTY, a);
    assert Faults(s, [b]) == Faults(Receive(s, b), none);
  }

  lemma NothingMore(chunks: seq<seq<byte>>)
    requires Flatten(chunks) == [] && forall i :: 0 <= i < |chunks| ==> chunks[i] != []
    ensures chunks == []
  {}

  /**
   * An overrun does happen: the chunk that completes a record brings one octet of the next along,
   * and the run goes on to report full data although that octet belongs to no object.
   */
  lemma OverrunHappens()
    ensures var chunks: seq<seq<byte>> := [[23, 3, 3, 0], [0, 23], [23, 3, 3, 0, 0]];
            Completes(EMPTY, chunks) && Overruns(EMPTY, chunks)
  {
    var a: seq<byte>, b: seq<byte>, c: seq<byte> := [23, 3, 3, 0], [0, 23], [23, 3, 3, 0, 0];
    var s1 := Receive(EMPTY, a);
    assert s1 == Buffer(a, [(0, 4)], WaitData);
    var s2 := Receive(s1, b);
    assert (a + b)[0..] == a + b == [23, 3, 3, 0, 0, 23];
    assert s2 == Buffer(a + b, [(0, 5), (6, 7)], WaitData);
    assert (a + b + c)[6..] == c;
    assert Receive(s2, c).signal == FullData;
    assert OverrunsNow(s1, b);
    ThreeChunks(a, b, c);
  }

  lemma ThreeChunks(a: seq<byte>, b: seq<byte>, c: seq<byte>)
    ensures var s1 := Receive(EMPTY, a);
            var s2 := Receive(s1, b);
            && (s1.signal == s2.signal == WaitData && Receive(s2, c).signal == FullData
                ==> Completes(EMPTY, [a, b, c]))
            && (OverrunsNow(s1, b) ==> Overruns(EMPTY, [a, b, c]))
  {
    var none: seq<seq<byte>> := [];
    assert [a, b, c][1..] == [b, c] && [b, c][1..] == [c] && [c][1..] == none;
    var s1 := Receive(EMPTY, a);
    var s2 := Receive(s1, b);
    var s3 := Receive(s2, c);
    assert Completes(s3, none) == (s3.signal == FullData);
    assert s2.signal == WaitData ==> Completes(s2, [c]) == Completes(s3, none);
    assert s1.signal == WaitData ==> Completes(s1, [b, c]) == Completes(s2, [c]);
    assert OverrunsNow(s1, b) ==> Overruns(s1, [b, c]);
  }
}
