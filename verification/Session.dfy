/**
 * The server's side of a session: receive after receive is cut into records by a fresh receive buffer,
 * and the records are decoded by the server's loop.
 */
module Session {
  import opened Bytes
  import opened Fragments
  import opened Manager
  import opened Records
  import opened Tunnel
  import opened Stream
  import opened Proxy
  import opened Wrappers
  import opened SafeReceive
  import opened ServerLoop
  import opened Outgoing
  import Headers
  import IpPacket = Packet
  import TunnelHeaders

  // ----- receives -----

  /** The octets of a record behind its header; nothing where there is no header. */
  function Contents(record: seq<byte>): seq<byte> {
    if |record| < RECORD_HEADER then [] else record[RECORD_HEADER..]
  }

  function ContentsOfAll(records: seq<seq<byte>>): (r: seq<seq<byte>>)
    ensures |r| == |records|
  {
    seq(|records|, i requires 0 <= i < |records| => Contents(records[i]))
  }

  /** The chunks of one call of `safe_recv`: it returns with the last, and none overran a record being completed. */
  predicate Orderly(chunks: seq<seq<byte>>) {
    Completes(EMPTY, chunks) && !Overruns(EMPTY, chunks)
  }

  /** The objects of a fresh buffer that received `chunks`. */
  function Received(chunks: seq<seq<byte>>): seq<seq<byte>> {
    var f := ReceiveAll(EMPTY, chunks);
    Objects(f.data, f.separators)
  }

  /** Everything that arrived, receive after receive. */
  function Input(receives: seq<seq<seq<byte>>>): seq<byte> {
    if receives == [] then [] else Flatten(receives[0]) + Input(receives[1..])
  }

  function RecordsPerReceive(receives: seq<seq<seq<byte>>>): (r: seq<seq<seq<byte>>>)
    ensures |r| == |receives|
  {
    if receives == [] then [] else [Received(receives[0])] + RecordsPerReceive(receives[1..])
  }

  /** `vpn_request_loop_iteration` over and over: receive into a fresh buffer, decode its objects. */
  function ServerSession(packets: Packets, receives: seq<seq<seq<byte>>>): Option<Outputs>
    decreases |receives|
  {
    if receives == [] then Some(Outputs(packets, []))
    else
      var now := ServeBatch(packets, ContentsOfAll(Received(receives[0])));
      if now == None then None
      else
        var later := ServerSession(now.value.outputs.packets, receives[1..]);
        if later == None then None
        else Some(Outputs(later.value.packets, now.value.outputs.delivered + later.value.delivered))
  }

  function AllContents(batches: seq<seq<seq<byte>>>): (r: seq<seq<seq<byte>>>)
    ensures |r| == |batches|
  {
    if batches == [] then [] else [ContentsOfAll(batches[0])] + AllContents(batches[1..])
  }

  lemma {:induction false} SessionIsBatches(packets: Packets, receives: seq<seq<seq<byte>>>)
    ensures ServerSession(packets, receives) == ServeBatches(packets, AllContents(RecordsPerReceive(receives)))
    decreases |receives|
  {
    if receives != [] {
      var batches := AllContents(RecordsPerReceive(receives));
      var now := ServeBatch(packets, ContentsOfAll(Received(receives[0])));
      FirstReceive(receives);
      if now.Some? {
        SessionIsBatches(now.value.outputs.packets, receives[1..]);
      }
    }
  }

  lemma FirstReceive(receives: seq<seq<seq<byte>>>)
    requires receives != []
    ensures var records := RecordsPerReceive(receives);
            && records[0] == Received(receives[0]) && records[1..] == RecordsPerReceive(receives[1..])
            && AllContents(records)[0] == ContentsOfAll(records[0])
            && AllContents(records)[1..] == AllContents(records[1..])
  {}

  /** Orderly receives leave nothing over: their records one after the other are the frames of all that arrived. */
  lemma {:induction false} ReceivesAreFrames(receives: seq<seq<seq<byte>>>)
    requires forall i :: 0 <= i < |receives| ==> Orderly(receives[i])
    ensures Frames(Input(receives)) == Framing(Concat(RecordsPerReceive(receives)), [])
    decreases |receives|
  {
    if receives != [] {
      assert forall i :: 0 <= i < |receives| - 1 ==> receives[1..][i] == receives[i + 1];
      var first, later := Flatten(receives[0]), Input(receives[1..]);
      SafeReceiveExact(receives[0]);
      ReceivesAreFrames(receives[1..]);
      FramesResume(first, later);
      assert [] + later == later;
      assert RecordsPerReceive(receives)[1..] == RecordsPerReceive(receives[1..]);
    }
  }

  lemma {:induction false} ContentsConcat(batches: seq<seq<seq<byte>>>)
    ensures Concat(AllContents(batches)) == ContentsOfAll(Concat(batches))
    ensures Sizes(AllContents(batches)) == Sizes(batches)
    decreases |batches|
  {
    if batches != [] {
      ContentsConcat(batches[1..]);
      assert AllContents(batches)[1..] == AllContents(batches[1..]);
    }
  }

  lemma ContentsOfSealed(bodies: seq<seq<byte>>)
    ensures ContentsOfAll(Sealed(bodies)) == bodies
  {
    forall i | 0 <= i < |bodies| ensures Contents(Sealed(bodies)[i]) == bodies[i] {
      RecordIsRecord(bodies[i]);
    }
  }

  // ----- octets lost to an overrun are missing in the end -----

  /** What objects deliver, with at least ten octets of headers for every packet, is no more than they have. */
  lemma {:induction false} RunBounded(packets: Packets, records: seq<seq<byte>>, n: nat)
    requires n == 0x100
    ensures var r := Run(packets, ContentsOfAll(records));
            InProgress(r.packets, n) + DeliveredSize(r.delivered) + HEADERS * |r.delivered|
            <= InProgress(packets, n) + |Flatten(records)|
    decreases |records|
  {
    if records != [] {
      var fs := ContentsOfAll(records);
      var step := Step(packets, fs[0]);
      assert fs[1..] == ContentsOfAll(records[1..]);
      StepBounded(packets, records[0], n);
      RunBounded(step.packets, records[1..], n);
      var r := Run(packets, fs);
      if step.output != None {
        assert r.delivered[1..] == Run(step.packets, fs[1..]).delivered;
      }
    }
  }

  const HEADERS := RECORD_HEADER + BUILDER_HEADER

  lemma StepBounded(packets: Packets, record: seq<byte>, n: nat)
    requires n == 0x100
    ensures var step := Step(packets, Contents(record));
            InProgress(step.packets, n) + (if step.output == None then 0 else |step.output.value| + HEADERS)
            <= InProgress(packets, n) + |record|
  {
    if Acceptable(Contents(record)) {
      StepConserves(packets, Contents(record), n);
    }
  }

  lemma BatchBounded(packets: Packets, records: seq<seq<byte>>, n: nat)
    requires n == 0x100
    ensures var o := ServerBatch(packets, ContentsOfAll(records)).outputs;
            InProgress(o.packets, n) + DeliveredSize(o.delivered) + HEADERS * |o.delivered|
            <= InProgress(packets, n) + |Flatten(records)|
  {
    var fs := ContentsOfAll(records);
    var seen := ServerBatch(packets, fs).seen;
    BatchRunsWhatItSees(packets, fs);
    assert fs[..seen] == ContentsOfAll(records[..seen]) && records == records[..seen] + records[seen..];
    RunBounded(packets, records[..seen], n);
    FlattenAppend(records[..seen], records[seen..]);
  }

  lemma {:induction false} DeliveredAppend(a: seq<(byte, seq<byte>)>, b: seq<(byte, seq<byte>)>)
    ensures DeliveredSize(a + b) == DeliveredSize(a) + DeliveredSize(b)
    decreases |a|
  {
    if a == [] {
      assert a + b == b;
    } else {
      assert (a + b)[1..] == a[1..] + b;
      DeliveredAppend(a[1..], b);
    }
  }

  lemma {:induction false} SessionBounded(packets: Packets, batches: seq<seq<seq<byte>>>, n: nat)
    requires n == 0x100
    ensures var o := BatchSession(packets, AllContents(batches));
            InProgress(o.packets, n) + DeliveredSize(o.delivered) + HEADERS * |o.delivered|
            <= InProgress(packets, n) + |Flatten(Concat(batches))|
    decreases |batches|
  {
    if batches != [] {
      var now := ServerBatch(packets, ContentsOfAll(batches[0])).outputs;
      var later := BatchSession(now.packets, AllContents(batches[1..]));
      BatchBounded(packets, batches[0], n);
      SessionBounded(now.packets, batches[1..], n);
      DeliveredAppend(now.delivered, later.delivered);
      FlattenAppend(batches[0], Concat(batches[1..]));
      SessionOfContents(packets, batches);
    }
  }

  lemma SessionOfContents(packets: Packets, batches: seq<seq<seq<byte>>>)
    requires batches != []
    ensures var now := ServerBatch(packets, ContentsOfAll(batches[0])).outputs;
            var later := BatchSession(now.packets, AllContents(batches[1..]));
            BatchSession(packets, AllContents(batches)) == Outputs(later.packets, now.delivered + later.delivered)
  {
    assert AllContents(batches)[1..] == AllContents(batches[1..]);
  }

  /** Complete receives: the objects have all octets that arrived, or, if one was overrun, fewer. */
  lemma {:induction false} ReceivedSize(receives: seq<seq<seq<byte>>>)
    requires forall i :: 0 <= i < |receives| ==> Completes(EMPTY, receives[i])
    ensures |Flatten(Concat(RecordsPerReceive(receives)))| <= |Input(receives)|
    ensures (exists i :: 0 <= i < |receives| && Overruns(EMPTY, receives[i])) ==>
              |Flatten(Concat(RecordsPerReceive(receives)))| < |Input(receives)|
    decreases |receives|
  {
    if receives != [] {
      var first, rest := receives[0], receives[1..];
      assert forall i :: 0 <= i < |rest| ==> rest[i] == receives[i + 1];
      assert forall i :: 0 < i < |receives| ==> receives[i] == rest[i - 1];
      ReceivedSize(rest);
      ReceiveSize(first);
      FirstReceive(receives);
      FlattenAppend(Received(first), Concat(RecordsPerReceive(rest)));
    }
  }

  lemma ReceiveSize(chunks: seq<seq<byte>>)
    requires Completes(EMPTY, chunks)
    ensures |Flatten(Received(chunks))| <= |Flatten(chunks)|
    ensures Overruns(EMPTY, chunks) ==> |Flatten(Received(chunks))| < |Flatten(chunks)|
  {
    CleanOrLossy(EMPTY, [], chunks);
    assert [] + Flatten(chunks) == Flatten(chunks);
    if !Overruns(EMPTY, chunks) {
      SafeReceiveExact(chunks);
      FramesConserve(Flatten(chunks));
    }
  }

  /** The stream has ten octets of headers for every fragment. */
  lemma StreamSize(id: byte, ps: seq<Packet>, c: Config)
    requires AllTravel(ps, c)
    ensures |Stream.Stream(id, ps, c)|
            == DeliveredSize(Arrivals(id, ps, c)) + HEADERS * |AllFragments(id, ps, c)|
  {
    var fs, n := AllFragments(id, ps, c), 0x100;
    AllFragmentsAcceptable(id, ps, c);
    PacketsArrive(id, ps, c);
    RunConserves(map[], fs, n);
    NothingInProgress(n);
    SealedWeight(fs);
  }

  lemma {:induction false} SealedWeight(fs: seq<seq<byte>>)
    requires AllAcceptable(fs)
    ensures |Flatten(Sealed(fs))| == Weight(fs) + HEADERS * |fs|
    decreases |fs|
  {
    if fs != [] {
      assert Acceptable(fs[0]) && forall i :: 0 <= i < |fs| - 1 ==> fs[1..][i] == fs[i + 1];
      assert Sealed(fs)[1..] == Sealed(fs[1..]);
      SealedWeight(fs[1..]);
    }
  }

  predicate Unsplit(ps: seq<Packet>, c: Config)
    requires AllTravel(ps, c)
  {
    forall i :: 0 <= i < |ps| ==> Count(|ps[i].payload|, c) == 1
  }

  lemma {:induction false} OneFragmentEach(id: byte, ps: seq<Packet>, c: Config)
    requires AllTravel(ps, c) && Unsplit(ps, c)
    ensures |AllFragments(id, ps, c)| == |ps|
    decreases |ps|
  {
    if ps != [] {
      assert forall i :: 0 <= i < |ps| - 1 ==> ps[1..][i] == ps[i + 1];
      FragmentsAcceptable(id, ps[0], c);
      OneFragmentEach(NextId(id), ps[1..], c);
    }
  }

  /** Of packets that were not split, one at least is missing or wrong after an overrun. */
  lemma OverrunLosesPackets(id: byte, ps: seq<Packet>, c: Config, receives: seq<seq<seq<byte>>>, i: nat)
    requires AllTravel(ps, c) && Unsplit(ps, c) && Input(receives) == Stream.Stream(id, ps, c)
    requires forall k :: 0 <= k < |receives| ==> Completes(EMPTY, receives[k])
    requires i < |receives| && Overruns(EMPTY, receives[i])
    ensures ServerSession(map[], receives) != Some(Outputs(map[], Arrivals(id, ps, c)))
  {
    var records, n := RecordsPerReceive(receives), 0x100;
    SessionIsBatches(map[], receives);
    ServesBatchesOrNot(map[], AllContents(records));
    SessionBounded(map[], records, n);
    NothingInProgress(n);
    ReceivedSize(receives);
    StreamSize(id, ps, c);
    OneFragmentEach(id, ps, c);
  }

  // ----- whole sessions -----

  predicate AllOrderly(receives: seq<seq<seq<byte>>>) {
    forall i :: 0 <= i < |receives| ==> Orderly(receives[i])
  }

  /** Orderly receives that together bring the stream. */
  lemma OrderlySession(id: byte, ps: seq<Packet>, c: Config, receives: seq<seq<seq<byte>>>)
    requires AllTravel(ps, c) && Input(receives) == Stream.Stream(id, ps, c) && AllOrderly(receives)
    ensures ServerSession(map[], receives) == Some(Outputs(map[], Arrivals(id, ps, c)))
            <==> AllServable(ps) && NothingBehindStops(Sizes(RecordsPerReceive(receives)), GoOn(ps, c), 0)
  {
    var records := RecordsPerReceive(receives);
    ReceivesAreFrames(receives);
    StreamFrames(id, ps, c);
    ContentsOfSealed(AllFragments(id, ps, c));
    ContentsConcat(records);
    SessionIsBatches(map[], receives);
    BatchesDeliver(id, ps, c, AllContents(records));
  }

  /**
   * A session of the server, with its own receive buffer and loop. Complete receives that together bring
   * the stream deliver the packets sent - each once, in order, with nothing left in progress - if and
   * only if no receive is overrun, the server can serve every packet, and no receive brings a record
   * behind one that stops the loop. Where packets were split, this is about receives without an overrun.
   * What comes out then parses to the proxies and payloads sent.
   */
  lemma SessionDelivers(id: byte, ps: seq<Packet>, c: Config, receives: seq<seq<seq<byte>>>)
    requires AllTravel(ps, c) && Input(receives) == Stream.Stream(id, ps, c)
    requires forall i :: 0 <= i < |receives| ==> Completes(EMPTY, receives[i])
    requires Unsplit(ps, c) || AllOrderly(receives)
    ensures ServerSession(map[], receives) == Some(Outputs(map[], Arrivals(id, ps, c)))
            <==> && AllOrderly(receives) && AllServable(ps)
                 && NothingBehindStops(Sizes(RecordsPerReceive(receives)), GoOn(ps, c), 0)
    ensures forall k :: 0 <= k < |ps| ==>
              ParseTunnel(Arrivals(id, ps, c)[k].1) == Parsed(ps[k].proxy, Sent(ps[k], c).payload)
  {
    if AllOrderly(receives) {
      OrderlySession(id, ps, c, receives);
    } else {
      var i :| 0 <= i < |receives| && !Orderly(receives[i]);
      OverrunLosesPackets(id, ps, c, receives, i);
    }
    forall k | 0 <= k < |ps|
      ensures ParseTunnel(Arrivals(id, ps, c)[k].1) == Parsed(ps[k].proxy, Sent(ps[k], c).payload)
    {
      ArrivalsParse(id, ps, c, k);
    }
  }

  /**
   * Safety while a session goes on: orderly receives that together bring any beginning of the stream, and
   * so far no record behind one that stops the loop, have delivered a beginning of what was sent.
   */
  lemma OnlyPrefixesDelivered(id: byte, ps: seq<Packet>, c: Config, receives: seq<seq<seq<byte>>>)
    requires AllTravel(ps, c) && AllServable(ps) && Input(receives) <= Stream.Stream(id, ps, c)
    requires AllOrderly(receives) && NothingBehindStops(Sizes(RecordsPerReceive(receives)), GoOn(ps, c), 0)
    ensures var o := ServerSession(map[], receives);
            o.Some? && o.value.delivered <= Arrivals(id, ps, c)
  {
    var batches := AllContents(RecordsPerReceive(receives));
    RecordsSoFar(id, ps, c, receives);
    ContentsConcat(RecordsPerReceive(receives));
    BatchesSoFar(id, ps, c, batches);
    SessionIsBatches(map[], receives);
    ServesBatchesOrNot(map[], batches);
    ArrivalsServed(id, ps, c);
    BeginningServed(BatchSession(map[], batches).delivered, Arrivals(id, ps, c));
  }

  lemma BeginningServed(a: seq<(byte, seq<byte>)>, all: seq<(byte, seq<byte>)>)
    requires a <= all && AllServed(all)
    ensures AllServed(a)
  {
    assert forall k :: 0 <= k < |a| ==> a[k] == all[k];
  }

  lemma RecordsSoFar(id: byte, ps: seq<Packet>, c: Config, receives: seq<seq<seq<byte>>>)
    requires AllTravel(ps, c) && AllOrderly(receives) && Input(receives) <= Stream.Stream(id, ps, c)
    ensures Concat(AllContents(RecordsPerReceive(receives))) <= AllFragments(id, ps, c)
  {
    var arrived, records, fs := Input(receives), Concat(RecordsPerReceive(receives)), AllFragments(id, ps, c);
    ReceivesAreFrames(receives);
    StreamFrames(id, ps, c);
    FramesSoFar(arrived, Stream.Stream(id, ps, c));
    ContentsConcat(RecordsPerReceive(receives));
    ContentsOfSealed(fs);
    ContentsOfFirst(records, Sealed(fs));
  }

  lemma ContentsOfFirst(a: seq<seq<byte>>, all: seq<seq<byte>>)
    requires a <= all
    ensures ContentsOfAll(a) <= ContentsOfAll(all)
  {
    assert forall k :: 0 <= k < |a| ==> ContentsOfAll(a)[k] == Contents(a[k]) == ContentsOfAll(all)[k];
  }

  lemma BatchesSoFar(id: byte, ps: seq<Packet>, c: Config, batches: seq<seq<seq<byte>>>)
    requires AllTravel(ps, c) && Concat(batches) <= AllFragments(id, ps, c)
    requires NothingBehindStops(Sizes(batches), GoOn(ps, c), 0)
    ensures BatchSession(map[], batches).delivered <= Arrivals(id, ps, c)
  {
    var all, fs := AllFragments(id, ps, c), Concat(batches);
    AllFragmentsAcceptable(id, ps, c);
    StreamMatches(id, ps, c);
    assert all == fs + all[|fs|..];
    AcceptableParts(fs, all[|fs|..]);
    PrefixMatches(fs, all[|fs|..], GoOn(ps, c));
    SeenSoFar(fs, batches, GoOn(ps, c));
    PacketsArrive(id, ps, c);
    BeginningComesOut(fs, all[|fs|..]);
  }

  lemma PrefixMatches(fs: seq<seq<byte>>, more: seq<seq<byte>>, goOn: seq<bool>)
    requires GoOnMatches(fs + more, goOn)
    ensures GoOnMatches(fs, goOn[..|fs|])
  {
    forall k | 0 <= k < |fs| ensures Matches(fs, goOn[..|fs|], k) {
      assert Matches(fs + more, goOn, k);
      SameInFront(fs, more, k);
    }
  }

  lemma SeenSoFar(fs: seq<seq<byte>>, batches: seq<seq<seq<byte>>>, goOn: seq<bool>)
    requires |fs| <= |goOn| && GoOnMatches(fs, goOn[..|fs|]) && AllAcceptable(fs) && fs == Concat(batches)
    requires NothingBehindStops(Sizes(batches), goOn, 0)
    ensures BatchSession(map[], batches) == Run(map[], fs)
  {
    assert fs[0..] == fs;
    ConcatAt(fs, 0, batches);
    BatchesInStep(fs, goOn[..|fs|], 0, batches);
    assert State(fs, 0) == map[];
    StopsSoFar(fs, batches, goOn, 0);
    SeenAllOrLess(map[], batches, goOn[..|fs|], 0);
    SessionRunsWhatItSees(map[], batches);
  }

  lemma {:induction false} StopsSoFar(fs: seq<seq<byte>>, batches: seq<seq<seq<byte>>>, goOn: seq<bool>, from: nat)
    requires |fs| <= |goOn| && BatchesAt(fs, from, batches) && NothingBehindStops(Sizes(batches), goOn, from)
    ensures NothingBehindStops(Sizes(batches), goOn[..|fs|], from)
    decreases |batches|
  {
    if batches != [] {
      StopsOfFirst(batches, goOn, from);
      StopsOfFirst(batches, goOn[..|fs|], from);
      StopsSoFar(fs, batches[1..], goOn, from + |batches[0]|);
    }
  }

  /** A receive without an overrun never holds more than two records. */
  lemma AtMostTwoRecords(chunks: seq<seq<byte>>)
    requires Orderly(chunks)
    ensures 1 <= |Received(chunks)| <= 2
  {
    CleanOrLossy(EMPTY, [], chunks);
    ObjectCount(ReceiveAll(EMPTY, chunks).data, ReceiveAll(EMPTY, chunks).separators);
  }

  lemma {:induction false} ObjectCount(data: seq<byte>, separators: seq<Separator>)
    ensures |Objects(data, separators)| == |separators|
  {
    if separators != [] {
      ObjectCount(data, separators[1..]);
    }
  }

  // ----- a receive for every record -----

  /** The receives bring these records, one each, in whatever chunks. */
  predicate BringEach(receives: seq<seq<seq<byte>>>, records: seq<seq<byte>>) {
    |receives| == |records| && forall i :: 0 <= i < |records| ==> Brings(receives[i], records[i])
  }

  predicate Brings(chunks: seq<seq<byte>>, record: seq<byte>) {
    Flatten(chunks) == record && forall k :: 0 <= k < |chunks| ==> chunks[k] != []
  }

  /**
   * When every record comes in a receive of its own, split packets, too, are delivered, and nothing but
   * packets that the server cannot serve can keep the session from delivering everything.
   */
  lemma EachRecordAlone(id: byte, ps: seq<Packet>, c: Config, receives: seq<seq<seq<byte>>>)
    requires AllTravel(ps, c) && BringEach(receives, Sealed(AllFragments(id, ps, c)))
    ensures ServerSession(map[], receives) == Some(Outputs(map[], Arrivals(id, ps, c))) <==> AllServable(ps)
  {
    var records := Sealed(AllFragments(id, ps, c));
    AllFragmentSizes(id, ps, c);
    AllFragmentsAcceptable(id, ps, c);
    forall i | 0 <= i < |receives| ensures Orderly(receives[i]) && |Received(receives[i])| == 1 {
      assert Brings(receives[i], records[i]);
      RecordIsRecord(AllFragments(id, ps, c)[i]);
      OneRecordReceived(receives[i], records[i]);
    }
    InputOfRecords(receives, records);
    SizesOfOne(receives);
    OneEach(Sizes(RecordsPerReceive(receives)), GoOn(ps, c), 0);
    OrderlySession(id, ps, c, receives);
  }

  lemma OneRecordReceived(chunks: seq<seq<byte>>, record: seq<byte>)
    requires IsRecord(record) && Brings(chunks, record)
    ensures Orderly(chunks) && |Received(chunks)| == 1
  {
    assert record[0..] == record && record + [] == record;
    SingleRecord(EMPTY, record, 0, chunks);
    FirstFrame(record, []);
    assert Objects(record, [(0, |record|)]) == [record] + Objects(record, []);
    assert Frames(record) == Framing([record], []);
    SafeReceiveExact(chunks);
  }

  lemma {:induction false} InputOfRecords(receives: seq<seq<seq<byte>>>, records: seq<seq<byte>>)
    requires BringEach(receives, records)
    ensures Input(receives) == Flatten(records)
  {
    if records != [] {
      assert Brings(receives[0], records[0]);
      forall i | 0 <= i < |records| - 1 ensures Brings(receives[1..][i], records[1..][i]) {
        assert Brings(receives[i + 1], records[i + 1]);
      }
      InputOfRecords(receives[1..], records[1..]);
    }
  }

  lemma {:induction false} SizesOfOne(receives: seq<seq<seq<byte>>>)
    requires forall i :: 0 <= i < |receives| ==> |Received(receives[i])| == 1
    ensures forall i :: 0 <= i < |receives| ==> Sizes(RecordsPerReceive(receives))[i] == 1
  {
    if receives != [] {
      assert forall i :: 0 <= i < |receives| - 1 ==> receives[1..][i] == receives[i + 1];
      SizesOfOne(receives[1..]);
      assert RecordsPerReceive(receives)[1..] == RecordsPerReceive(receives[1..]);
    }
  }

  lemma {:induction false} OneEach(sizes: seq<nat>, goOn: seq<bool>, from: nat)
    requires from + |sizes| <= |goOn| && forall i :: 0 <= i < |sizes| ==> sizes[i] == 1
    ensures NothingBehindStops(sizes, goOn, from)
    decreases |sizes|
  {
    if sizes != [] {
      OneEach(sizes[1..], goOn, from + 1);
    }
  }

  // ----- what the server makes of it -----

  /**
   * From a TCP header at the sender to the packet the server sends on: what came out under the packet's
   * number is served with lengths and checksums that are right.
   */
  lemma TcpServed(id: byte, ps: seq<Packet>, c: Config, k: nat, h: seq<byte>, server: seq<byte>, length: u16)
    returns (q: IpPacket.Parts)
    requires AllTravel(ps, c) && k < |ps| && |server| == 4
    requires ps[k].proxy.net == 4 && ps[k].proxy.transport == 6
    requires Headers.IsTcpHeader(h) && ps[k].proxy.proto == TunnelHeaders.EncodeTcp(h)
    requires ps[k].proxy.srcPort == U16At(h, 0) && ps[k].proxy.dstPort == U16At(h, 2)
    requires length == |h| + |Sent(ps[k], c).payload| && 20 + length <= 0xFFFF
    ensures var t := ParseTunnel(Arrivals(id, ps, c)[k].1);
            && t.Parsed? && SenderPacket(t.proxy, server, t.payload) == Some(Whole(q))
            && SentTo(q, ps[k].proxy, server, Sent(ps[k], c).payload)
    ensures IpPacket.TrueLength(q) && IpPacket.ChecksumsVerify(q, length)
  {
    ArrivalsParse(id, ps, c, k);
    q := TcpSentOn(ps[k].proxy, h, server, Sent(ps[k], c).payload, length);
  }
}
