/**
 * One exchange worked out octet for octet: two packets on the wire, what the server makes of them and what
 * the dissector shows; and the numbers that published documents give.
 */
module KnownAnswers {
  import opened Bytes
  import opened Checksum
  import opened AddressText
  import opened Delivery
  import opened Entries
  import opened Filter
  import opened Fragments
  import opened Hello
  import opened Outgoing
  import opened Proxy
  import opened Records
  import opened Session
  import opened ServerLoop
  import opened Stream
  import opened Tunnel
  import opened TunnelHeaders
  import opened Wrappers
  import IpPacket = Packet

  /** From port 443 to port 80. */
  function UdpHeader(): seq<byte> {
    [1, 187, 0, 80, 0, 10, 0, 0]
  }

  function TcpHeader(): seq<byte> {
    [1, 187, 0, 80, 0, 0, 0, 1, 0, 0, 0, 2, 80, 24, 255, 255, 0, 0, 0, 0]
  }

  function Hi(): seq<byte> {
    [104, 105]
  }

  function ProxyOf(transport: byte, proto: seq<byte>): QTunnelProxy {
    QTunnelProxy(4, transport, [10, 0, 0, 2], 443, [10, 0, 0, 1], 80, proto)
  }

  function UdpPacket(): Packet {
    Packet(ProxyOf(17, EncodeUdp(UdpHeader())), Hi())
  }

  function TcpPacket(): Packet {
    Packet(ProxyOf(6, EncodeTcp(TcpHeader())), Hi())
  }

  lemma Schemes()
    ensures EncodeUdp(UdpHeader()) == [0, 2, 0, 10]
    ensures EncodeTcp(TcpHeader()) == [0, 15, 0, 0, 0, 1, 0, 0, 0, 2, 0, 24, 5, 255, 255, 0, 0]
  {
    TcpFields();
    assert TcpHeader()[20..] == [];
    assert Put32(1) == [0, 0, 0, 1] && Put32(2) == [0, 0, 0, 2];
  }

  lemma TcpFields()
    ensures var h := TcpHeader();
            U32At(h, 4) == 1 && U32At(h, 8) == 2 && U16At(h, 14) == 0xFFFF && U16At(h, 18) == 0
  {}

  /** Protocols, source, destination, and behind them the scheme. */
  lemma ProxyOctets(transport: byte, proto: seq<byte>)
    ensures ProxyBytes(ProxyOf(transport, proto))
            == [4, transport, 10, 0, 0, 2, 1, 187, 10, 0, 0, 1, 0, 80] + proto
  {
    assert Put16(443) == [1, 187] && Put16(80) == [0, 80];
  }

  /** A packet in one record. */
  lemma OneRecord(id: byte, p: Packet, front: seq<byte>, length: byte, size: byte)
    requires Travels(p, DEFAULT) && |p.payload| == 2 && front == ProxyBytes(p.proxy)
    requires length == 7 + |front| && size == 2 + |front|
    ensures Sealed(FragmentsOf(id, p, DEFAULT)) == [[23, 3, 3, 0, length, id, 0, 0, 0, size] + front + p.payload]
  {
    WireFormat(id, p, DEFAULT, 0, 0, 2, front, size);
    assert p.payload[0..2] == p.payload;
    assert Put16(length) == [0, length] && Put16(size) == [0, size] && Put16(0) == [0, 0];
    assert [23, 3, 3] + Put16(length) + [id] + Put16(0) + Put16(size) == [23, 3, 3, 0, length, id, 0, 0, 0, size];
  }

  function UdpFront(): seq<byte> {
    [4, 17, 10, 0, 0, 2, 1, 187, 10, 0, 0, 1, 0, 80, 0, 2, 0, 10]
  }

  function TcpFront(): seq<byte> {
    [4, 6, 10, 0, 0, 2, 1, 187, 10, 0, 0, 1, 0, 80, 0, 15, 0, 0, 0, 1, 0, 0, 0, 2, 0, 24, 5, 255, 255, 0, 0]
  }

  lemma Fronts()
    ensures ProxyBytes(UdpPacket().proxy) == UdpFront()
    ensures ProxyBytes(TcpPacket().proxy) == TcpFront()
  {
    UdpFrontWritten();
    TcpFrontWritten();
  }

  lemma UdpFrontWritten()
    ensures ProxyBytes(UdpPacket().proxy) == UdpFront()
  {
    Schemes();
    FrontOf(17, EncodeUdp(UdpHeader()), [0, 2, 0, 10], UdpFront());
  }

  lemma TcpFrontWritten()
    ensures ProxyBytes(TcpPacket().proxy) == TcpFront()
  {
    Schemes();
    FrontOf(6, EncodeTcp(TcpHeader()), [0, 15, 0, 0, 0, 1, 0, 0, 0, 2, 0, 24, 5, 255, 255, 0, 0], TcpFront());
  }

  lemma FrontOf(transport: byte, proto: seq<byte>, scheme: seq<byte>, front: seq<byte>)
    requires proto == scheme && front == [4, transport, 10, 0, 0, 2, 1, 187, 10, 0, 0, 1, 0, 80] + scheme
    ensures ProxyBytes(ProxyOf(transport, proto)) == front
  {
    ProxyOctets(transport, proto);
  }

  function UdpRecord(id: byte): seq<byte> {
    [23, 3, 3, 0, 25, id, 0, 0, 0, 20] + UdpFront() + Hi()
  }

  function TcpRecord(id: byte): seq<byte> {
    [23, 3, 3, 0, 38, id, 0, 0, 0, 33] + TcpFront() + Hi()
  }

  lemma UdpOnTheWire(id: byte)
    ensures Travels(UdpPacket(), DEFAULT) && Sealed(FragmentsOf(id, UdpPacket(), DEFAULT)) == [UdpRecord(id)]
  {
    Fronts();
    EncodedArrives(map[], id, UdpPacket(), UdpHeader());
    OneRecord(id, UdpPacket(), UdpFront(), 25, 20);
  }

  lemma TcpOnTheWire(id: byte)
    ensures Travels(TcpPacket(), DEFAULT) && Sealed(FragmentsOf(id, TcpPacket(), DEFAULT)) == [TcpRecord(id)]
  {
    Fronts();
    EncodedArrives(map[], id, TcpPacket(), TcpHeader());
    OneRecord(id, TcpPacket(), TcpFront(), 38, 33);
  }

  /**
   * The sender numbers the two packets 255 and 0; received record by record they come out under these
   * numbers, with their proxy data and payloads.
   */
  lemma Exchange()
    ensures AllTravel([UdpPacket(), TcpPacket()], DEFAULT)
    ensures Stream.Stream(255, [UdpPacket(), TcpPacket()], DEFAULT) == UdpRecord(255) + TcpRecord(0)
    ensures ServerSession(map[], [[UdpRecord(255)], [TcpRecord(0)]])
            == Some(Outputs(map[], [(255, UdpFront() + Hi()), (0, TcpFront() + Hi())]))
  {
    var ps, receives := [UdpPacket(), TcpPacket()], [[UdpRecord(255)], [TcpRecord(0)]];
    TwoFragments();
    TwoArrivals();
    TwoServed();
    TwoReceives(UdpRecord(255), TcpRecord(0));
    EachRecordAlone(255, ps, DEFAULT, receives);
  }

  lemma TwoReceives(a: seq<byte>, b: seq<byte>)
    requires a != [] && b != []
    ensures BringEach([[a], [b]], [a, b])
  {
    ChunkAlone(a);
    ChunkAlone(b);
  }

  lemma ChunkAlone(record: seq<byte>)
    requires record != []
    ensures Brings([record], record)
  {
    assert Flatten([record]) == record + [];
  }

  lemma TwoFragments()
    ensures var ps := [UdpPacket(), TcpPacket()];
            && AllTravel(ps, DEFAULT) && Sealed(AllFragments(255, ps, DEFAULT)) == [UdpRecord(255), TcpRecord(0)]
            && Stream.Stream(255, ps, DEFAULT) == UdpRecord(255) + TcpRecord(0)
  {
    var ps := [UdpPacket(), TcpPacket()];
    UdpOnTheWire(255);
    TcpOnTheWire(0);
    assert ps[1..] == [TcpPacket()] && ps[1..][1..] == [];
    var a, b := FragmentsOf(255, UdpPacket(), DEFAULT), FragmentsOf(0, TcpPacket(), DEFAULT);
    assert AllFragments(255, ps, DEFAULT) == a + (b + []);
    assert Sealed(a + (b + [])) == Sealed(a) + Sealed(b);
    assert Flatten([UdpRecord(255), TcpRecord(0)]) == UdpRecord(255) + TcpRecord(0);
  }

  lemma TwoArrivals()
    ensures var ps := [UdpPacket(), TcpPacket()];
            && AllTravel(ps, DEFAULT)
            && Arrivals(255, ps, DEFAULT) == [(255, UdpFront() + Hi()), (0, TcpFront() + Hi())]
  {
    var ps := [UdpPacket(), TcpPacket()];
    TwoFragments();
    Fronts();
    assert ps[1..] == [TcpPacket()] && ps[1..][1..] == [];
    assert Hi()[..2] == Hi();
  }

  lemma TwoServed()
    ensures AllServable([UdpPacket(), TcpPacket()])
  {
    UdpServed();
    TcpServed();
  }

  lemma UdpServed()
    ensures Servable(UdpPacket().proxy)
  {
    EncodedServable(UdpPacket().proxy, UdpHeader());
  }

  lemma TcpServed()
    ensures Servable(TcpPacket().proxy)
  {
    EncodedServable(TcpPacket().proxy, TcpHeader());
  }

  // ----- checksums -----

  lemma FourWords(s: seq<byte>)
    requires |s| >= 8
    ensures Sum16(s) == U16At(s, 0) + U16At(s, 2) + U16At(s, 4) + U16At(s, 6) + Sum16(s[8..])
  {
    FirstWord(s, s[2..]);
    FirstWord(s[2..], s[4..]);
    FirstWord(s[4..], s[6..]);
    FirstWord(s[6..], s[8..]);
  }

  lemma FirstWord(s: seq<byte>, rest: seq<byte>)
    requires |s| >= 2 && rest == s[2..]
    ensures Sum16(s) == U16At(s, 0) + Sum16(rest)
  {}

  /** The example of section 3 of RFC 1071. */
  lemma PublishedChecksum()
    ensures Sum16([0x00, 0x01, 0xF2, 0x03, 0xF4, 0xF5, 0xF6, 0xF7]) == 0x2DDF0
    ensures Fold(0x2DDF0) == 0xDDF2 && Complement(0x2DDF0) == 0x220D
  {
    FourWords([0x00, 0x01, 0xF2, 0x03, 0xF4, 0xF5, 0xF6, 0xF7]);
  }

  // ----- other formats -----

  /** The three extensions of a hello with one version, one key share of one octet, and one host. */
  lemma HelloOctets()
    ensures EncodeAll(2, HelloExtensions([0x0304], [Entry(29, [7])], [[97]]))
            == [0, 43, 0, 3, 2, 3, 4] + [0, 40, 0, 7, 0, 5, 0, 29, 0, 1, 7] + [0, 0, 0, 6, 0, 4, 0, 0, 1, 97]
  {
    var es := HelloExtensions([0x0304], [Entry(29, [7])], [[97]]);
    VersionOctets();
    ShareOctets();
    HostOctets();
    assert es[1..] == [es[1], es[2]] && es[1..][1..] == [es[2]] && es[1..][1..][1..] == [];
  }

  lemma VersionOctets()
    ensures Encode(2, Entry(43, VersionsBytes([0x0304]))) == [0, 43, 0, 3, 2, 3, 4]
  {
    assert VersionsBytes([0x0304]) == [2, 3, 4];
  }

  lemma ShareOctets()
    ensures Encode(2, Entry(40, ListBytes(2, [Entry(29, [7])]))) == [0, 40, 0, 7, 0, 5, 0, 29, 0, 1, 7]
  {
    OneEntry(2, Entry(29, [7]));
    assert ListBytes(2, [Entry(29, [7])]) == [0, 5, 0, 29, 0, 1, 7];
  }

  lemma HostOctets()
    ensures Encode(2, Entry(0, SniBytes([[97]]))) == [0, 0, 0, 6, 0, 4, 0, 0, 1, 97]
  {
    OneEntry(1, Entry(0, [97]));
    assert [[97]][..1] == [[97]] && SniEntries([[97]]) == [Entry(0, [97])];
    assert SniBytes([[97]]) == [0, 4, 0, 0, 1, 97];
  }

  lemma OneEntry(w: Width, e: Entry)
    ensures EncodeAll(w, [e]) == Encode(w, e)
  {
    assert [e][1..] == [];
  }

  /** Random, session, cipher suites, compression methods and extensions of a hello without extensions. */
  lemma HelloRanges(random: seq<byte>)
    requires |random| == 32
    ensures SchemeOf([3, 3] + random + [1, 9, 0, 2, 19, 1, 1, 0, 0, 0])
            == Some(Scheme((2, 34), (34, 36), (36, 40), (40, 42), (42, 44)))
  {
    var data := [3, 3] + random + [1, 9, 0, 2, 19, 1, 1, 0, 0, 0];
    assert data[34] == 1 && data[36] == 0 && data[37] == 2 && data[40] == 1 && data[42] == 0 && data[43] == 0;
  }

  /** On a little-endian machine the key holds addresses and ports as they lie in the packet. */
  lemma KeyInMemory(unset: FilterKey)
    ensures KeyOf(Little, Connection(4, 6, [10, 0, 0, 1], 80, [10, 0, 0, 2], 443), unset)
            == FilterKey(4, 6, 0x0200_000A, 0xBB01, 0x0100_000A, 0x5000)
  {
    assert ToUint([10, 0, 0, 1]) == 0x0A00_0001 && ToUint([10, 0, 0, 2]) == 0x0A00_0002;
    assert Htonl(Little, 0x0A00_0001) == 0x0100_000A && Htonl(Little, 0x0A00_0002) == 0x0200_000A;
    assert Htons(Little, 443) == 0xBB01 && Htons(Little, 80) == 0x5000;
  }

  lemma DottedText()
    ensures Text([10, 0, 255, 1]) == "10.0.255.1"
  {
    Ipv4TextAgrees(10, 0, 255, 1);
  }
}
