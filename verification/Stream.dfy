/** Sequences of packets through the whole tunnel: split, sealed, cut into chunks, framed, rebuilt, parsed. */
module Stream {
  import opened Bytes
  import opened Fragments
  import opened Manager
  import opened Proxy
  import opened Records
  import opened Tunnel
  import opened Delivery
  import opened Wrappers
  import Checksum
  import Headers
  import TunnelHeaders

  datatype Packet = Packet(proxy: QTunnelProxy, payload: seq<byte>)

  /** The configuration a manager starts with. */
  const DEFAULT := Config(65229, 32615)

  /** All octets a packet takes on the wire: every fragment has a record header and a builder header. */
  function WireSize(p: Packet, c: Config): nat
    requires Splits(|p.payload|, c)
  {
    |ProxyBytes(p.proxy)| + Covered(|p.payload|, c) + Count(|p.payload|, c) * (RECORD_HEADER + BUILDER_HEADER)
  }

  /** The sender can split the packet, no later offset fits an octet, and the whole stays below 64 KiB. */
  predicate Travels(p: Packet, c: Config) {
    && WellFormed(p.proxy) && |p.payload| <= 0xFFFF && Splits(|p.payload|, c)
    && (Count(|p.payload|, c) > 1 ==> c.splitSize > 0xFF)
    && WireSize(p, c) <= 0xFFFF
  }

  function View(p: Packet, c: Config): Split
    requires Splits(|p.payload|, c)
  {
    SplitView(|p.payload|, c.maxSize, c.splitSize)
  }

  lemma ViewIsAdjacent(p: Packet, c: Config)
    requires |p.payload| <= 0xFFFF && Splits(|p.payload|, c)
    ensures View(p, c).dataSize == Covered(|p.payload|, c) <= |p.payload|
    ensures |View(p, c).separators| == Count(|p.payload|, c)
    ensures Adjacent(View(p, c), |p.payload|)
    ensures forall i :: 0 < i < |View(p, c).separators| ==> View(p, c).separators[i].0 >= c.splitSize
  {
    var n := |p.payload|;
    var count, piece := Count(n, c), PieceSize(n, c);
    ViewOfPacket(n, c);
    PiecesMeet(count, piece);
  }

  lemma PiecesMeet(count: nat, piece: nat)
    requires count > 0 && (count == 1 || piece > 0)
    ensures Pieces(count, piece)[0].0 == 0 && Pieces(count, piece)[count - 1].1 == count * piece
    ensures forall i :: 0 < i < count ==>
              Pieces(count, piece)[i - 1].1 == Pieces(count, piece)[i].0 < Pieces(count, piece)[i].1
    ensures forall i :: 0 < i < count ==> Pieces(count, piece)[i].0 >= piece
  {
    PiecesAt(count, piece);
    forall i | 0 < i < count
      ensures Pieces(count, piece)[i - 1].1 == Pieces(count, piece)[i].0
      ensures Pieces(count, piece)[i].0 >= piece
    {
      assert i * piece == (i - 1) * piece + piece;
      AtLeast(i, piece);
    }
    assert (count - 1) * piece + piece == count * piece;
  }

  lemma ViewFits(p: Packet, c: Config)
    requires Travels(p, c)
    ensures View(p, c).dataSize == Covered(|p.payload|, c) <= |p.payload|
    ensures |View(p, c).separators| == Count(|p.payload|, c)
    ensures Fits(p.proxy, p.payload, View(p, c))
    ensures forall i :: 0 < i < |View(p, c).separators| ==> View(p, c).separators[i].0 > 0xFF
  {
    ViewIsAdjacent(p, c);
  }

  /** The part of a packet that reaches the far end. */
  function Sent(p: Packet, c: Config): Packet
    requires Travels(p, c)
  {
    ViewFits(p, c);
    Packet(p.proxy, p.payload[..Covered(|p.payload|, c)])
  }

  function FragmentsOf(id: byte, p: Packet, c: Config): seq<seq<byte>>
    requires Travels(p, c)
  {
    ViewFits(p, c);
    Bodies(id, p.proxy, p.payload, View(p, c))
  }

  lemma {:induction false} LargeOffsetsUnseen(data: seq<byte>, fs: seq<seq<byte>>)
    requires forall i :: 0 <= i < |fs| ==> |fs[i]| > BUILDER_HEADER
    requires forall i :: 0 <= i < |fs| ==> U16At(fs[i], 1) > 0xFF || (i == 0 && data == [])
    ensures Unseen(data, fs)
    decreases |fs|
  {
    if fs != [] {
      assert forall i :: 0 <= i < |fs| - 1 ==> fs[1..][i] == fs[i + 1];
      LargeOffsetsUnseen(data + Octets(fs[0]), fs[1..]);
    }
  }

  /** One packet, with anything else in progress. */
  lemma PacketArrives(packets: Packets, id: byte, p: Packet, c: Config)
    requires id !in packets && Travels(p, c)
    ensures Run(packets, FragmentsOf(id, p, c))
            == Outputs(packets, [(id, ProxyBytes(p.proxy) + Sent(p, c).payload)])
  {
    ViewFits(p, c);
    var s, fs := View(p, c), FragmentsOf(id, p, c);
    DeliverOne(packets, id, p.proxy, p.payload, s);
    forall i | 0 <= i < |fs| ensures U16At(fs[i], 1) > 0xFF || i == 0 {
      BodyFields(id, p.proxy, p.payload, s, i);
    }
    LargeOffsetsUnseen([], fs);
  }

  // ----- a sequence of packets -----

  function NextId(id: byte): byte {
    (id + 1) % 0x100
  }

  predicate AllTravel(ps: seq<Packet>, c: Config) {
    forall i :: 0 <= i < |ps| ==> Travels(ps[i], c)
  }

  function AllFragments(id: byte, ps: seq<Packet>, c: Config): seq<seq<byte>>
    requires AllTravel(ps, c)
    decreases |ps|
  {
    if ps == [] then [] else FragmentsOf(id, ps[0], c) + AllFragments(NextId(id), ps[1..], c)
  }

  /** What ought to come out. */
  function Arrivals(id: byte, ps: seq<Packet>, c: Config): (r: seq<(byte, seq<byte>)>)
    requires AllTravel(ps, c)
    ensures |r| == |ps|
    decreases |ps|
  {
    if ps == [] then []
    else [(id, ProxyBytes(ps[0].proxy) + Sent(ps[0], c).payload)] + Arrivals(NextId(id), ps[1..], c)
  }

  lemma {:induction false} PacketsArrive(id: byte, ps: seq<Packet>, c: Config)
    requires AllTravel(ps, c)
    ensures Run(map[], AllFragments(id, ps, c)) == Outputs(map[], Arrivals(id, ps, c))
    decreases |ps|
  {
    if ps != [] {
      PacketArrives(map[], id, ps[0], c);
      PacketsArrive(NextId(id), ps[1..], c);
      RunAppend(map[], FragmentsOf(id, ps[0], c), AllFragments(NextId(id), ps[1..], c));
    }
  }

  /** Parsing what comes out gives back the proxies and payloads that were sent. */
  lemma {:induction false} ArrivalsParse(id: byte, ps: seq<Packet>, c: Config, k: nat)
    requires AllTravel(ps, c) && k < |ps|
    ensures ParseTunnel(Arrivals(id, ps, c)[k].1) == Parsed(ps[k].proxy, Sent(ps[k], c).payload)
    decreases |ps|
  {
    if k == 0 {
      ParseUndoesWrite(ps[0].proxy, Sent(ps[0], c).payload);
    } else {
      ArrivalsParse(NextId(id), ps[1..], c, k - 1);
    }
  }

  // ----- on the wire -----

  function Opened(records: seq<seq<byte>>): seq<seq<byte>>
    requires forall i :: 0 <= i < |records| ==> |records[i]| >= RECORD_HEADER
  {
    seq(|records|, i requires 0 <= i < |records| => records[i][RECORD_HEADER..])
  }

  lemma OpenedUndoesSealed(bodies: seq<seq<byte>>)
    ensures Opened(Sealed(bodies)) == bodies
  {
    forall i | 0 <= i < |bodies| ensures Opened(Sealed(bodies))[i] == bodies[i] {
      RecordIsRecord(bodies[i]);
    }
  }

  function Stream(id: byte, ps: seq<Packet>, c: Config): seq<byte>
    requires AllTravel(ps, c)
  {
    Flatten(Sealed(AllFragments(id, ps, c)))
  }

  lemma FragmentSizes(id: byte, p: Packet, c: Config)
    requires Travels(p, c)
    ensures forall i :: 0 <= i < |FragmentsOf(id, p, c)| ==> |FragmentsOf(id, p, c)[i]| + RECORD_HEADER <= 0xFFFF
  {
    ViewFits(p, c);
    AtLeast(Count(|p.payload|, c), RECORD_HEADER + BUILDER_HEADER);
    forall i | 0 <= i < |FragmentsOf(id, p, c)| ensures |FragmentsOf(id, p, c)[i]| + RECORD_HEADER <= 0xFFFF {
      BodyIs(id, p.proxy, p.payload, View(p, c), i);
    }
  }

  lemma {:induction false} AllFragmentSizes(id: byte, ps: seq<Packet>, c: Config)
    requires AllTravel(ps, c)
    ensures forall i :: 0 <= i < |AllFragments(id, ps, c)| ==> |AllFragments(id, ps, c)[i]| + RECORD_HEADER <= 0xFFFF
    decreases |ps|
  {
    if ps != [] {
      FragmentSizes(id, ps[0], c);
      AllFragmentSizes(NextId(id), ps[1..], c);
    }
  }

  lemma StreamFrames(id: byte, ps: seq<Packet>, c: Config)
    requires AllTravel(ps, c)
    ensures Frames(Stream(id, ps, c)) == Framing(Sealed(AllFragments(id, ps, c)), [])
  {
    var bodies := AllFragments(id, ps, c);
    AllFragmentSizes(id, ps, c);
    forall i | 0 <= i < |bodies| ensures IsRecord(Sealed(bodies)[i]) {
      RecordIsRecord(bodies[i]);
    }
    FramesOfRecords(Sealed(bodies), []);
    assert Stream(id, ps, c) + [] == Stream(id, ps, c);
  }

  /**
   * What the stream carries: a sequence of packets is split, labelled with consecutive ids, sealed and
   * sent; a receiver that keeps the remainder from chunk to chunk and decodes every record gets the
   * packets, each exactly once and in order, with their proxy data and the part of their payload that
   * was sent. The server is not such a receiver: module `Session` says when it gets the same.
   */
  lemma TunnelDelivers(id: byte, ps: seq<Packet>, c: Config, chunks: seq<seq<byte>>)
    requires AllTravel(ps, c) && Flatten(chunks) == Stream(id, ps, c)
    ensures var framing := FrameChunks([], chunks);
            && framing.rest == []
            && (forall i :: 0 <= i < |framing.records| ==> |framing.records[i]| >= RECORD_HEADER)
            && Run(map[], Opened(framing.records)) == Outputs(map[], Arrivals(id, ps, c))
    ensures forall k :: 0 <= k < |ps| ==>
              ParseTunnel(Arrivals(id, ps, c)[k].1) == Parsed(ps[k].proxy, Sent(ps[k], c).payload)
  {
    ChunkingIrrelevant([], chunks);
    assert [] + Flatten(chunks) == Flatten(chunks);
    StreamFrames(id, ps, c);
    OpenedUndoesSealed(AllFragments(id, ps, c));
    PacketsArrive(id, ps, c);
    forall k | 0 <= k < |ps|
      ensures ParseTunnel(Arrivals(id, ps, c)[k].1) == Parsed(ps[k].proxy, Sent(ps[k], c).payload)
    {
      ArrivalsParse(id, ps, c, k);
    }
  }

  // ----- the 16-bit separators of the sender -----

  lemma {:induction false} SealedSize(id: byte, p: QTunnelProxy, payload: seq<byte>, s: Split, i: nat)
    requires Adjacent(s, |payload|) && |p.proto| != 1 && i < |s.separators|
    ensures |Flatten(Sealed(Bodies(id, p, payload, s))[i..])|
            == (|s.separators| - i) * (RECORD_HEADER + BUILDER_HEADER) + (if i == 0 then |ProxyBytes(p)| else 0)
               + s.dataSize - s.separators[i].0
    decreases |s.separators| - i
  {
    var records := Sealed(Bodies(id, p, payload, s));
    var (b, e) := s.separators[i];
    assert records[i..] == [records[i]] + records[i + 1..];
    assert |records[i]| == RECORD_HEADER + BUILDER_HEADER + (if i == 0 then |ProxyBytes(p)| else 0) + e - b;
    if i + 1 < |s.separators| {
      SealedSize(id, p, payload, s, i + 1);
    }
  }

  /** A packet that can be split is sent as encoded exactly when it stays below 64 KiB on the wire. */
  lemma SentAsEncoded(id: byte, p: Packet, c: Config)
    requires |p.proxy.proto| != 1 && |p.payload| <= 0xFFFF && Splits(|p.payload|, c)
    ensures Readable(View(p, c), |p.payload|)
    ensures var records := Sealed(Bodies(id, p.proxy, p.payload, View(p, c)));
            RawPackets(Flatten(records), Cuts(0, records)) == AllOf(records) <==> WireSize(p, c) <= 0xFFFF
  {
    ViewIsAdjacent(p, c);
    var records := Sealed(Bodies(id, p.proxy, p.payload, View(p, c)));
    SealedSize(id, p.proxy, p.payload, View(p, c), 0);
    assert records[0..] == records;
    SentIntact(records);
  }

  // ----- runs of the sender -----

  function ConfigOf(manager: QVPNPacketManager): Config
    reads manager
  {
    Config(manager.dataMaxSize, manager.dataSplitSize)
  }

  /**
   * `encode_and_send`: the packet is encoded, and what lies between two separators sent, one after the
   * other. That is every record as it was encoded exactly for packets below 64 KiB on the wire.
   */
  method EncodeAndSend(driver: QVPNDriver, p: Packet) returns (sent: seq<Option<seq<byte>>>)
    requires |p.proxy.proto| != 1 && |p.payload| <= 0xFFFF && Splits(|p.payload|, ConfigOf(driver.manager))
    modifies driver.manager`lastPacketId
    ensures driver.manager.lastPacketId == (old(driver.manager.lastPacketId) + 1) % 0x100
    ensures var c := ConfigOf(driver.manager);
            && Readable(View(p, c), |p.payload|)
            && (sent == AllOf(Sealed(Bodies(old(driver.manager.lastPacketId), p.proxy, p.payload, View(p, c))))
                <==> WireSize(p, c) <= 0xFFFF)
            && (Travels(p, c) ==> sent == AllOf(Sealed(FragmentsOf(old(driver.manager.lastPacketId), p, c))))
  {
    SentAsEncoded(driver.manager.lastPacketId, p, ConfigOf(driver.manager));
    var sp := driver.EncodeData(p.proxy, p.payload);
    sent := [];
    for i := 0 to |sp.separators|
      invariant sent + RawPackets(sp.data, sp.separators[i..]) == RawPackets(sp.data, sp.separators)
    {
      sent := sent + [RawPacket(sp.data, sp.separators[i])];
      assert sp.separators[i..] == [sp.separators[i]] + sp.separators[i + 1..];
    }
  }

  /** What has gone out over the connection. */
  function OnWire(sent: seq<Option<seq<byte>>>): seq<byte> {
    if sent == [] then []
    else (if sent[0].Some? then sent[0].value else []) + OnWire(sent[1..])
  }

  lemma {:induction false} AllOnWire(parts: seq<seq<byte>>)
    ensures OnWire(AllOf(parts)) == Flatten(parts)
  {
    if parts != [] {
      AllOnWire(parts[1..]);
    }
  }

  lemma RestTravels(ps: seq<Packet>, c: Config)
    requires ps != [] && AllTravel(ps, c)
    ensures Travels(ps[0], c) && AllTravel(ps[1..], c)
  {
    assert forall i :: 0 <= i < |ps| - 1 ==> ps[1..][i] == ps[i + 1];
  }

  /** The stream begins with the records of its first packet. */
  lemma StreamFirst(id: byte, ps: seq<Packet>, c: Config)
    requires AllTravel(ps, c) && ps != []
    ensures Travels(ps[0], c) && AllTravel(ps[1..], c)
    ensures Stream(id, ps, c) == Flatten(Sealed(FragmentsOf(id, ps[0], c))) + Stream(NextId(id), ps[1..], c)
  {
    var a, b := FragmentsOf(id, ps[0], c), AllFragments(NextId(id), ps[1..], c);
    assert Sealed(a + b) == Sealed(a) + Sealed(b);
    FlattenAppend(Sealed(a), Sealed(b));
  }

  /**
   * The capture loop of the sender over a sequence of packets that travel: what goes out is their stream
   * from the driver's id on, and every packet steps the id once.
   */
  method SendAll(driver: QVPNDriver, ps: seq<Packet>) returns (wire: seq<byte>)
    requires AllTravel(ps, ConfigOf(driver.manager))
    modifies driver.manager`lastPacketId
    ensures wire == Stream(old(driver.manager.lastPacketId), ps, ConfigOf(driver.manager))
    ensures driver.manager.lastPacketId == (old(driver.manager.lastPacketId) + |ps|) % 0x100
  {
    ghost var c, id := ConfigOf(driver.manager), driver.manager.lastPacketId;
    ghost var all := Stream(id, ps, c);
    wire := [];
    NothingSent(id, ps, c);
    for i := 0 to |ps|
      invariant ConfigOf(driver.manager) == c && driver.manager.lastPacketId == IdAfter(id, i)
      invariant StillToSend(wire, driver.manager.lastPacketId, ps, i, c, all)
    {
      ghost var now := driver.manager.lastPacketId;
      NextTravels(ps, i, c);
      var sent := EncodeAndSend(driver, ps[i]);
      WireStep(wire, sent, now, ps, i, i + 1, c, all);
      LaterId(id, i, i + 1);
      wire := wire + OnWire(sent);
    }
  }

  function IdAfter(id: byte, count: nat): byte {
    (id + count) % 0x100
  }

  lemma LaterId(id: byte, count: nat, more: nat)
    requires more == count + 1
    ensures NextId(IdAfter(id, count)) == IdAfter(id, more) == IdAfter(NextId(id), count)
  {}

  /** Sent so far, and what the packets from number `i` on will add to it. */
  ghost predicate StillToSend(wire: seq<byte>, id: byte, ps: seq<Packet>, i: nat, c: Config, all: seq<byte>) {
    i <= |ps| && AllTravel(ps[i..], c) && wire + Stream(id, ps[i..], c) == all
  }

  lemma NothingSent(id: byte, ps: seq<Packet>, c: Config)
    requires AllTravel(ps, c)
    ensures StillToSend([], id, ps, 0, c, Stream(id, ps, c)) && IdAfter(id, 0) == id
  {
    WholeRun(ps);
    NothingInFront(Stream(id, ps, c));
  }

  lemma WholeRun(ps: seq<Packet>)
    ensures ps[0..] == ps
  {}

  lemma NothingInFront(s: seq<byte>)
    ensures [] + s == s
  {}

  lemma NextTravels(ps: seq<Packet>, i: nat, c: Config)
    requires i < |ps| && AllTravel(ps[i..], c)
    ensures Travels(ps[i], c)
  {
    assert ps[i] == ps[i..][0];
  }

  lemma WireStep(wire: seq<byte>, sent: seq<Option<seq<byte>>>, id: byte, ps: seq<Packet>, i: nat, next: nat,
                 c: Config, all: seq<byte>)
    requires i < |ps| && next == i + 1 && StillToSend(wire, id, ps, i, c, all)
    requires Travels(ps[i], c) && sent == AllOf(Sealed(FragmentsOf(id, ps[i], c)))
    ensures StillToSend(wire + OnWire(sent), NextId(id), ps, next, c, all)
  {
    RestOf(ps, i, next);
    FirstOnWire(wire, sent, id, ps[i..], ps[next..], c);
  }

  lemma RestOf(ps: seq<Packet>, i: nat, next: nat)
    requires i < |ps| && next == i + 1
    ensures ps[i..] != [] && ps[i..][0] == ps[i] && ps[i..][1..] == ps[next..]
  {}

  lemma FirstOnWire(wire: seq<byte>, sent: seq<Option<seq<byte>>>, id: byte, ps: seq<Packet>, later: seq<Packet>,
                    c: Config)
    requires ps != [] && later == ps[1..] && AllTravel(ps, c)
    requires Travels(ps[0], c) && sent == AllOf(Sealed(FragmentsOf(id, ps[0], c)))
    ensures AllTravel(later, c)
    ensures (wire + OnWire(sent)) + Stream(NextId(id), later, c) == wire + Stream(id, ps, c)
  {
    StreamFirst(id, ps, c);
    AllOnWire(Sealed(FragmentsOf(id, ps[0], c)));
    Regroup(wire, OnWire(sent), Stream(NextId(id), later, c));
  }

  lemma Regroup(a: seq<byte>, b: seq<byte>, c: seq<byte>)
    ensures (a + b) + c == a + (b + c)
  {}

  /** Consecutive ids, modulo 256. */
  lemma {:induction false} ArrivalIds(id: byte, ps: seq<Packet>, c: Config, k: nat)
    requires AllTravel(ps, c) && k < |ps|
    ensures Arrivals(id, ps, c)[k].0 == (id + k) % 0x100
    decreases |ps|
  {
    if k > 0 {
      RestTravels(ps, c);
      ArrivalIds(NextId(id), ps[1..], c, k - 1);
      LaterId(id, k - 1, k);
    }
  }

  // ----- safety: cut the stream anywhere -----

  /** For that receiver: from any beginning of the stream comes a beginning of what was sent. */
  lemma OnlyPrefixesComeOut(id: byte, ps: seq<Packet>, c: Config, arrived: seq<byte>)
    requires AllTravel(ps, c) && arrived <= Stream(id, ps, c)
    ensures var framing := Frames(arrived);
            && (forall i :: 0 <= i < |framing.records| ==> |framing.records[i]| >= RECORD_HEADER)
            && Run(map[], Opened(framing.records)).delivered <= Arrivals(id, ps, c)
  {
    StreamFrames(id, ps, c);
    FramesSoFar(arrived, Stream(id, ps, c));
    RecordsSoFar(Frames(arrived).records, AllFragments(id, ps, c));
    PacketsArrive(id, ps, c);
  }

  lemma RecordsSoFar(records: seq<seq<byte>>, fs: seq<seq<byte>>)
    requires records <= Sealed(fs)
    ensures forall i :: 0 <= i < |records| ==> |records[i]| >= RECORD_HEADER
    ensures Run(map[], Opened(records)).delivered <= Run(map[], fs).delivered
  {
    var n := |records|;
    assert forall i :: 0 <= i < n ==> records[i] == Sealed(fs)[i];
    OpenedUndoesSealed(fs);
    assert forall i :: 0 <= i < n ==> Opened(records)[i] == Opened(Sealed(fs))[i];
    assert fs == fs[..n] + fs[n..] && Opened(records) == fs[..n];
    BeginningComesOut(fs[..n], fs[n..]);
  }

  lemma BeginningComesOut(a: seq<seq<byte>>, b: seq<seq<byte>>)
    ensures Run(map[], a).delivered <= Run(map[], a + b).delivered
  {
    RunAppend(map[], a, b);
  }

  // ----- the format on the wire -----

  /**
   * Record `i` of a packet, octet for octet: application data of TLS 1.2 with its length, the packet's id,
   * the offset of the piece, the size announced, and the piece itself - the first with the proxy data in
   * front, which it alone counts.
   */
  lemma WireFormat(id: byte, p: Packet, c: Config, i: nat, from: nat, to: nat, front: seq<byte>, size: nat)
    requires Travels(p, c) && i < Count(|p.payload|, c) && front == if i == 0 then ProxyBytes(p.proxy) else []
    requires from == i * PieceSize(|p.payload|, c) && to == from + PieceSize(|p.payload|, c)
    requires size == |front| + Covered(|p.payload|, c)
    ensures |FragmentsOf(id, p, c)| == Count(|p.payload|, c) && to <= Covered(|p.payload|, c) <= |p.payload|
    ensures size <= 0xFFFF && 5 + |front| + to - from <= 0xFFFF
    ensures Sealed(FragmentsOf(id, p, c))[i]
            == [23, 3, 3] + Put16(5 + |front| + to - from) + [id] + Put16(from) + Put16(size)
               + front + p.payload[from..to]
  {
    FragmentAt(id, p, c, i, from, to, front);
    FragmentSizes(id, p, c);
    FragmentOctets(id, from, size, front, p.payload[from..to]);
  }

  lemma FragmentAt(id: byte, p: Packet, c: Config, i: nat, from: nat, to: nat, front: seq<byte>)
    requires Travels(p, c) && i < Count(|p.payload|, c) && front == if i == 0 then ProxyBytes(p.proxy) else []
    requires from == i * PieceSize(|p.payload|, c) && to == from + PieceSize(|p.payload|, c)
    ensures |FragmentsOf(id, p, c)| == Count(|p.payload|, c) && to <= Covered(|p.payload|, c) <= |p.payload|
    ensures |front| + Covered(|p.payload|, c) <= 0xFFFF
    ensures FragmentsOf(id, p, c)[i]
            == Fragment(id, from, |front| + Covered(|p.payload|, c), front + p.payload[from..to])
  {
    PieceAt(p, c, i, from, to);
    ViewFits(p, c);
    BodyAt(id, p, View(p, c), i, from, to, front);
  }

  lemma BodyAt(id: byte, p: Packet, s: Split, i: nat, from: nat, to: nat, front: seq<byte>)
    requires Fits(p.proxy, p.payload, s) && i < |s.separators| && s.separators[i] == (from, to)
    requires to <= s.dataSize <= |p.payload| && front == if i == 0 then ProxyBytes(p.proxy) else []
    ensures |front| + s.dataSize <= 0xFFFF
    ensures Body(id, p.proxy, p.payload, s, i) == Fragment(id, from, |front| + s.dataSize, front + p.payload[from..to])
  {
    BodyIs(id, p.proxy, p.payload, s, i);
    NothingInFront(p.payload[from..to]);
  }

  lemma PieceAt(p: Packet, c: Config, i: nat, from: nat, to: nat)
    requires |p.payload| <= 0xFFFF && Splits(|p.payload|, c) && i < Count(|p.payload|, c)
    requires from == i * PieceSize(|p.payload|, c) && to == from + PieceSize(|p.payload|, c)
    ensures |View(p, c).separators| == Count(|p.payload|, c) && View(p, c).dataSize == Covered(|p.payload|, c)
    ensures View(p, c).separators[i] == (from, to) && from <= to <= Covered(|p.payload|, c) <= |p.payload|
  {
    ViewOfPacket(|p.payload|, c);
    PiecesAt(Count(|p.payload|, c), PieceSize(|p.payload|, c));
  }

  lemma FragmentOctets(id: byte, offset: u16, size: u16, front: seq<byte>, piece: seq<byte>)
    requires 5 + |front| + |piece| <= 0xFFFF
    ensures Record(Fragment(id, offset, size, front + piece))
            == [23, 3, 3] + Put16(5 + |front| + |piece|) + [id] + Put16(offset) + Put16(size) + front + piece
  {}

  // ----- what a configuration delivers -----

  /**
   * Under any sizes, a packet that can be split is sent whole exactly when it need not be split, or
   * when the split size divides its length and the number of pieces fits its eight bits.
   */
  lemma SentWholeExactly(n: nat, c: Config)
    requires Splits(n, c)
    ensures Covered(n, c) == n <==> n < c.maxSize || (n % c.splitSize == 0 && n / c.splitSize <= 0xFF)
  {
    if n >= c.maxSize {
      WholeExactly(n, c.splitSize, n / c.splitSize, PieceCount(n, c.splitSize), n % c.splitSize);
    }
  }

  lemma WholeExactly(n: nat, piece: nat, quotient: nat, count: nat, over: nat)
    requires piece > 0 && n == piece * quotient + over && over < piece && count == quotient % 0x100
    ensures count * piece == n <==> over == 0 && quotient <= 0xFF
  {
    if count < quotient {
      FewerPieces(count + 1, quotient, piece);
      assert (count + 1) * piece == count * piece + piece;
    }
  }

  /**
   * With the default sizes and the metadata the code reckons with, a packet travels unless it is split
   * in two and its proxy data take the last octets below 64 KiB; and it arrives whole exactly when it
   * need not be split or fills both pieces.
   */
  lemma DefaultConfiguration(p: Packet)
    requires WellFormed(p.proxy) && |p.payload| <= 0xFFFF && |ProxyBytes(p.proxy)| <= 40 + 256
    ensures Travels(p, DEFAULT) <==> |p.payload| < 65230 || |ProxyBytes(p.proxy)| <= 285
    ensures Travels(p, DEFAULT) ==> (Sent(p, DEFAULT) == p <==> |p.payload| < 65229 || |p.payload| == 65230)
  {
    var n := |p.payload|;
    if n >= 65229 {
      FourPiecesAtMost(n, DEFAULT.splitSize);
      assert PieceCount(n, DEFAULT.splitSize) == if n < 65230 then 1 else 2;
    }
    assert Splits(n, DEFAULT);
    SentWholeExactly(n, DEFAULT);
    assert Covered(n, DEFAULT) == if n < 65229 then n else if n < 65230 then 32615 else 65230;
  }

  /**
   * Under any sizes, in plain numbers. A packet that need not be split travels if it fits a record. One
   * that is split travels in one piece when the eight bits of the number of pieces say so, and in two to
   * four pieces when a piece is longer than any octet is large, if all its records fit 64 KiB.
   */
  lemma TravelsExactly(p: Packet, c: Config)
    ensures var n, front := |p.payload|, 6 + |p.proxy.src| + |p.proxy.dst| + |p.proxy.proto|;
            Travels(p, c)
            <==> && WellFormed(p.proxy) && n <= 0xFFFF
                 && if n < c.maxSize then front + n + 10 <= 0xFFFF
                    else c.splitSize > 0
                         && var pieces := n / c.splitSize;
                            && (pieces % 0x100 == 1 || (2 <= pieces <= 4 && c.splitSize > 0xFF))
                            && front + pieces % 0x100 * (c.splitSize + 10) <= 0xFFFF
  {
    var n := |p.payload|;
    if c.maxSize <= n <= 0xFFFF && c.splitSize > 0 {
      SplitsExactly(n, c);
      if Splits(n, c) {
        SizeOfPieces(Count(n, c), c.splitSize);
      }
    }
  }

  lemma SizeOfPieces(count: nat, piece: nat)
    ensures count * piece + count * (RECORD_HEADER + BUILDER_HEADER) == count * (piece + 10)
  {}

  lemma SplitsExactly(n: u16, c: Config)
    requires n >= c.maxSize && c.splitSize > 0
    ensures var pieces := n / c.splitSize;
            Splits(n, c) && (PieceCount(n, c.splitSize) > 1 ==> c.splitSize > 0xFF)
            <==> pieces % 0x100 == 1 || (2 <= pieces <= 4 && c.splitSize > 0xFF)
  {
    if c.splitSize > 0xFF {
      LongPieces(n, c, n / c.splitSize);
    } else {
      ShortPieces(n, c, n / c.splitSize);
    }
  }

  lemma LongPieces(n: u16, c: Config, pieces: nat)
    requires n >= c.maxSize && c.splitSize > 0xFF && pieces == n / c.splitSize
    ensures pieces <= 0xFF && (Splits(n, c) <==> 1 <= pieces <= 4)
  {
    QuotientBounds(n, c.splitSize, pieces);
    LargePieces(n, c.splitSize, pieces);
    FourPiecesAtMost(n, c.splitSize);
    if pieces > 0 {
      AtLeast(pieces, c.splitSize);
    }
  }

  lemma ShortPieces(n: u16, c: Config, pieces: nat)
    requires n >= c.maxSize && c.splitSize > 0 && pieces == n / c.splitSize
    ensures Splits(n, c) && PieceCount(n, c.splitSize) <= 1 <==> pieces % 0x100 == 1
  {
    QuotientBounds(n, c.splitSize, pieces);
    if pieces % 0x100 == 1 {
      AtLeast(pieces, c.splitSize);
      assert LoopStart(0, c.splitSize) == 0;
    }
  }

  lemma LargePieces(n: u16, piece: nat, pieces: nat)
    requires piece > 0xFF && pieces * piece <= n
    ensures pieces <= 0xFF
  {
    if pieces > 0xFF {
      FewerPieces(0x100, pieces, piece);
    }
  }

  // ----- packets as the sender collects them -----

  /** Addresses of the right size and an encoded header make proxy data that are well-formed. */
  lemma EncodedWellFormed(p: QTunnelProxy, h: seq<byte>)
    requires (p.net == 4 && |p.src| == |p.dst| == 4) || (p.net == 6 && |p.src| == |p.dst| == 16)
    requires (Headers.IsTcpHeader(h) && p.proto == TunnelHeaders.EncodeTcp(h))
             || (|h| == 8 && p.proto == TunnelHeaders.EncodeUdp(h))
    ensures WellFormed(p) && |p.proto| <= 57
  {
    if |h| == 8 {
      TunnelHeaders.UdpScheme(h);
    } else {
      TunnelHeaders.EncodedLength(h);
    }
  }

  /** With the default sizes such a packet arrives as it was sent, whatever else is in progress. */
  lemma EncodedArrives(packets: Packets, id: byte, p: Packet, h: seq<byte>)
    requires (p.proxy.net == 4 && |p.proxy.src| == |p.proxy.dst| == 4)
             || (p.proxy.net == 6 && |p.proxy.src| == |p.proxy.dst| == 16)
    requires (Headers.IsTcpHeader(h) && p.proxy.proto == TunnelHeaders.EncodeTcp(h))
             || (|h| == 8 && p.proxy.proto == TunnelHeaders.EncodeUdp(h))
    requires id !in packets && |p.payload| < 65229
    ensures Travels(p, DEFAULT)
    ensures Run(packets, FragmentsOf(id, p, DEFAULT)) == Outputs(packets, [(id, ProxyBytes(p.proxy) + p.payload)])
    ensures ParseTunnel(ProxyBytes(p.proxy) + p.payload) == Parsed(p.proxy, p.payload)
  {
    EncodedWellFormed(p.proxy, h);
    DefaultConfiguration(p);
    PacketArrives(packets, id, p, DEFAULT);
    ParseUndoesWrite(p.proxy, p.payload);
  }

  // ----- a TCP packet end to end -----

  /**
   * A TCP header carried as transport data and rebuilt at the far end from what came out. On any source
   * port it is, once its checksum is recalculated, the header that was sent, from that port and with a
   * fresh checksum - exactly when reserved and NS bits are clear. On the original port, the one the
   * server uses, it is the header octet for octet exactly when its checksum was a fresh one, too.
   */
  lemma TcpHeaderEndToEnd(id: byte, ps: seq<Packet>, c: Config, k: nat, h: seq<byte>, pseudo: seq<byte>, local: u16)
    requires AllTravel(ps, c) && k < |ps|
    requires Headers.IsTcpHeader(h) && ps[k].proxy.proto == TunnelHeaders.EncodeTcp(h)
    requires ps[k].proxy.srcPort == U16At(h, 0) && ps[k].proxy.dstPort == U16At(h, 2)
    ensures var t := ParseTunnel(Arrivals(id, ps, c)[k].1);
            && t.Parsed? && |t.proxy.proto| >= 17
            && (var own := TunnelHeaders.RebuildTcp(t.proxy.proto, local, t.proxy.dstPort);
                Checksum.StoreChecksum(own, Headers.TCP_CHECKSUM, pseudo, t.payload)
                == Checksum.StoreChecksum(Splice(h, 0, Put16(local)), Headers.TCP_CHECKSUM, pseudo, t.payload)
                <==> h[12] % 16 == 0)
            && var rebuilt := TunnelHeaders.RebuildTcp(t.proxy.proto, t.proxy.srcPort, t.proxy.dstPort);
               Checksum.StoreChecksum(rebuilt, Headers.TCP_CHECKSUM, pseudo, t.payload) == h
               <==> h[12] % 16 == 0 && h == Checksum.StoreChecksum(h, Headers.TCP_CHECKSUM, pseudo, t.payload)
  {
    ArrivalsParse(id, ps, c, k);
    TunnelHeaders.TcpHeaderFromAnyPort(h, local, pseudo, Sent(ps[k], c).payload);
    TunnelHeaders.TcpTunnelIdentity(h, pseudo, Sent(ps[k], c).payload);
  }

  /**
   * The same for a UDP header. From any source port the header rebuilt at the far end is the original one
   * from that port with a fresh checksum, and on the original port the header itself if and only if its
   * checksum was a fresh one.
   */
  lemma UdpHeaderEndToEnd(id: byte, ps: seq<Packet>, c: Config, k: nat, h: seq<byte>, pseudo: seq<byte>, local: u16)
    requires AllTravel(ps, c) && k < |ps|
    requires |h| == 8 && ps[k].proxy.proto == TunnelHeaders.EncodeUdp(h)
    requires ps[k].proxy.srcPort == U16At(h, 0) && ps[k].proxy.dstPort == U16At(h, 2)
    ensures var t := ParseTunnel(Arrivals(id, ps, c)[k].1);
            && t.Parsed? && |t.proxy.proto| >= 4
            && (var own := TunnelHeaders.RebuildUdp(t.proxy.proto, local, t.proxy.dstPort);
                Checksum.StoreChecksum(own, Headers.UDP_CHECKSUM, pseudo, t.payload)
                == Checksum.StoreChecksum(Splice(h, 0, Put16(local)), Headers.UDP_CHECKSUM, pseudo, t.payload))
            && var rebuilt := TunnelHeaders.RebuildUdp(t.proxy.proto, t.proxy.srcPort, t.proxy.dstPort);
               Checksum.StoreChecksum(rebuilt, Headers.UDP_CHECKSUM, pseudo, t.payload) == h
               <==> h == Checksum.StoreChecksum(h, Headers.UDP_CHECKSUM, pseudo, t.payload)
  {
    ArrivalsParse(id, ps, c, k);
    TunnelHeaders.UdpScheme(h);
    TunnelHeaders.UdpHeaderFromAnyPort(h, local, pseudo, Sent(ps[k], c).payload);
    TunnelHeaders.UdpTunnelIdentity(h, pseudo, Sent(ps[k], c).payload);
  }
}
