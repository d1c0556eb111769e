/**
 * What the server sends on: the IP and transport headers it generates for a decoded packet, and the
 * checksums and lengths a receiver finds in them.
 */
module Outgoing {
  import opened Bytes
  import opened Checksum
  import opened Headers
  import opened Protocols
  import opened Proxy
  import opened TunnelHeaders
  import opened Wrappers
  import IpPacket = Packet

  // ----- generated headers -----

  /** `parse_packet` on a generated TCP header: as many octets as its data offset says, if there are so many. */
  function Fitted(h: seq<byte>): Option<seq<byte>>
    requires |h| >= 20
  {
    var size := 4 * (h[12] / 16);
    if 20 <= size <= |h| then Some(h[..size]) else None
  }

  /** `generate_transport_header`; nothing where it would read past the scheme, and for other protocols. */
  function TransportHeader(p: QTunnelProxy): Option<seq<byte>> {
    if p.transport == TCP && |p.proto| >= 17 then Fitted(RebuildTcp(p.proto, p.srcPort, p.dstPort))
    else if p.transport == UDP && |p.proto| >= 4 then Some(RebuildUdp(p.proto, p.srcPort, p.dstPort))
    else None
  }

  /** `get_transport_length`: four times the data offset of TCP, and four times the length field of UDP. */
  function TransportLength(p: QTunnelProxy, h: seq<byte>): u16
    requires TransportHeader(p) == Some(h)
  {
    if p.transport == TCP then 4 * (h[12] / 16) else 4 * U16At(h, 4) % 0x1_0000
  }

  /**
   * `generate_net_header` for what follows in `length` octets, checksum not yet set; nothing for other
   * protocols than IPv4, for which the source goes on with an empty header and reads through it.
   */
  function NetHeader(p: QTunnelProxy, server: seq<byte>, length: u16): Option<seq<byte>> {
    if p.net != IPV4 || |p.dst| != 4 || |server| != 4 then None
    else
      Some([0x45, 0] + Put16((length + 20) % 0x1_0000) + [0, 0, 0x40, 0, 64, p.transport, 0, 0] + server + p.dst)
  }

  /** Other transport protocols than TCP and UDP are sent on without any header. */
  datatype Sendable = Whole(parts: IpPacket.Parts) | Bare(payload: seq<byte>)

  function Generated(p: QTunnelProxy, server: seq<byte>, payload: seq<byte>): Option<Sendable> {
    if p.transport != TCP && p.transport != UDP then Some(Bare(payload))
    else
      var h := TransportHeader(p);
      if h == None then None
      else
        var ip := NetHeader(p, server, (TransportLength(p, h.value) + |payload|) % 0x1_0000);
        if ip == None then None else Some(Whole(IpPacket.Parts(ip.value, h.value, payload)))
  }

  /** A packet the server can generate headers for, whatever its own address and the payload. */
  predicate Servable(p: QTunnelProxy) {
    Generated(p, [0, 0, 0, 0], []).Some?
  }

  lemma ServableAnyway(p: QTunnelProxy, server: seq<byte>, payload: seq<byte>)
    requires |server| == 4
    ensures Generated(p, server, payload).Some? <==> Servable(p)
  {}

  /**
   * In plain numbers: TCP, 6, and UDP, 17, over IPv4, with a scheme that has their fields and, for TCP, all
   * octets it counts.
   */
  lemma ServableExactly(p: QTunnelProxy)
    ensures Servable(p)
            <==> && (p.transport == 6 ==>
                       && p.net == 4 && |p.dst| == 4 && |p.proto| >= 17
                       && 20 <= 4 * (p.proto[12] % 16) <= |p.proto| + 3)
                 && (p.transport == 17 ==> p.net == 4 && |p.dst| == 4 && |p.proto| >= 4)
  {
    if p.transport == TCP && |p.proto| >= 17 {
      OffsetGenerated(p);
    }
  }

  lemma OffsetGenerated(p: QTunnelProxy)
    requires |p.proto| >= 17
    ensures var h := RebuildTcp(p.proto, p.srcPort, p.dstPort);
            |h| == |p.proto| + 3 && h[12] / 16 == p.proto[12] % 16
  {
    NibbleBack(p.proto[12] % 16, FlagNs(DecodeTcp(p.proto).flags));
  }

  lemma NibbleBack(high: nat, low: nat)
    requires low <= 1
    ensures (high * 16 + low) / 16 == high
  {}

  /** So every TCP and UDP header that was encoded can be served over IPv4, and none over IPv6. */
  lemma EncodedServable(p: QTunnelProxy, h: seq<byte>)
    requires p.net == 4 && |p.dst| == 4
    requires (p.transport == 6 && IsTcpHeader(h) && p.proto == EncodeTcp(h))
             || (p.transport == 17 && |h| == 8 && p.proto == EncodeUdp(h))
    ensures Servable(p) && !Servable(p.(net := 6))
  {
    ServableExactly(p);
    ServableExactly(p.(net := 6));
    if p.transport == 6 {
      TcpOffset(h);
    } else {
      UdpScheme(h);
    }
  }

  // ----- what is sent -----

  function ChecksumPosition(p: QTunnelProxy): nat {
    if p.transport == TCP then TCP_CHECKSUM else UDP_CHECKSUM
  }

  /** `generate_sender_packet`: the checksums are recalculated over what was generated. */
  ghost function SenderPacket(p: QTunnelProxy, server: seq<byte>, payload: seq<byte>): Option<Sendable> {
    var g := Generated(p, server, payload);
    if g.Some? && g.value.Whole? then
      NetFields(p, server, payload);
      Some(Whole(IpPacket.Recalculated(g.value.parts, ChecksumPosition(p))))
    else g
  }

  /** Version, header length, total length, protocol and addresses of what is generated. */
  lemma NetFields(p: QTunnelProxy, server: seq<byte>, payload: seq<byte>)
    requires Generated(p, server, payload).Some? && Generated(p, server, payload).value.Whole?
    ensures var q := Generated(p, server, payload).value.parts;
            && IpPacket.WellFormed(q, ChecksumPosition(p))
            && |q.ip| == 20 && q.ip[0] == 0x45 && q.ip[9] == p.transport && 8 <= |q.transport| <= 60
            && q.ip[..2] == [0x45, 0] && q.ip[4..10] == [0, 0, 0x40, 0, 64, p.transport]
            && q.ip[12..16] == server && q.ip[16..20] == p.dst && q.payload == payload
            && q.transport == TransportHeader(p).value
            && U16At(q.ip, 2) == (TransportLength(p, q.transport) + |payload| + 20) % 0x1_0000
  {
    var h := TransportHeader(p).value;
    var length := (TransportLength(p, h) + |payload|) % 0x1_0000;
    TransportSize(p);
    NetOctets(p, server, length);
    AddedTwice(TransportLength(p, h) + |payload|, U16At(NetHeader(p, server, length).value, 2), length);
  }

  lemma TransportSize(p: QTunnelProxy)
    requires TransportHeader(p).Some?
    ensures var h := TransportHeader(p).value;
            && |h| % 2 == 0 && 8 <= |h| <= 60 && (p.transport == TCP ==> |h| >= 20 && p.transport != UDP)
            && (p.transport != TCP ==> p.transport == UDP && |h| == 8)
  {
    if p.transport == TCP {
      FittedSize(RebuildTcp(p.proto, p.srcPort, p.dstPort));
    }
  }

  lemma FittedSize(h: seq<byte>)
    requires |h| >= 20 && Fitted(h).Some?
    ensures |Fitted(h).value| % 2 == 0 && 20 <= |Fitted(h).value| == 4 * (h[12] / 16) <= 60 && Fitted(h).value <= h
  {}

  lemma AddedTwice(n: nat, total: u16, length: u16)
    requires length == n % 0x1_0000 && total == (length + 20) % 0x1_0000
    ensures total == (n + 20) % 0x1_0000
  {}

  lemma NetOctets(p: QTunnelProxy, server: seq<byte>, length: u16)
    requires NetHeader(p, server, length).Some?
    ensures var ip := NetHeader(p, server, length).value;
            && |ip| == 20 == 4 * (ip[0] % 16) && ip[..2] == [0x45, 0] && ip[4..10] == [0, 0, 0x40, 0, 64, p.transport]
            && ip[12..16] == server && ip[16..20] == p.dst && U16At(ip, 2) == (length + 20) % 0x1_0000
  {
    var ip, total := NetHeader(p, server, length).value, Put16((length + 20) % 0x1_0000);
    assert ip[2] == total[0] && ip[3] == total[1];
  }

  /** Recalculation leaves the lengths and addresses alone. */
  lemma SentFields(p: QTunnelProxy, server: seq<byte>, payload: seq<byte>)
    requires Generated(p, server, payload).Some? && Generated(p, server, payload).value.Whole?
    ensures var g, q := Generated(p, server, payload).value.parts, SenderPacket(p, server, payload).value.parts;
            && SentTo(q, p, server, payload) && |q.transport| == |g.transport|
            && U16At(q.ip, 2) == U16At(g.ip, 2)
            && q.ip == StoreChecksum(g.ip, IP_CHECKSUM, [], [])
  {
    var g := Generated(p, server, payload).value.parts;
    NetFields(p, server, payload);
    IpPacket.RecalculationTouches(g, ChecksumPosition(p));
    var ip := StoreChecksum(g.ip, IP_CHECKSUM, [], []);
    assert ip[..2] == g.ip[..2] && ip[2] == g.ip[2] && ip[3] == g.ip[3] && ip[4..10] == g.ip[4..10];
  }

  /**
   * The payload from the server to the destination, in an IPv4 packet without options that must not be
   * fragmented.
   */
  predicate SentTo(q: IpPacket.Parts, p: QTunnelProxy, server: seq<byte>, payload: seq<byte>) {
    && q.payload == payload && |q.ip| == 20 && q.ip[..2] == [0x45, 0]
    && q.ip[4..10] == [0, 0, 0x40, 0, 64, p.transport] && q.ip[12..16] == server && q.ip[16..20] == p.dst
  }

  /** What is neither TCP nor UDP is its payload alone. */
  lemma OthersSentBare(p: QTunnelProxy, server: seq<byte>, payload: seq<byte>)
    requires p.transport !in {6, 17}
    ensures SenderPacket(p, server, payload) == Some(Bare(payload))
  {}

  lemma RecalculatedFields(p: QTunnelProxy, server: seq<byte>, payload: seq<byte>, pos: nat,
                           g: IpPacket.Parts, q: IpPacket.Parts)
    requires Generated(p, server, payload) == Some(Whole(g)) && pos == ChecksumPosition(p)
    requires IpPacket.WellFormed(g, pos) && q == IpPacket.Recalculated(g, pos)
    ensures SenderPacket(p, server, payload) == Some(Whole(q)) && SentTo(q, p, server, payload)
    ensures |q.transport| == |g.transport| && |g.ip| == 20 && U16At(q.ip, 2) == U16At(g.ip, 2)
    ensures IpPacket.TrueLength(q) <==> IpPacket.TrueLength(g)
  {
    NetFields(p, server, payload);
    SentFields(p, server, payload);
  }

  // ----- TCP -----

  /** A TCP packet is sent on with lengths and checksums that are right, as long as it fits 64 KiB. */
  lemma TcpSentOn(p: QTunnelProxy, h: seq<byte>, server: seq<byte>, payload: seq<byte>, length: u16)
    returns (q: IpPacket.Parts)
    requires p.net == IPV4 && |p.dst| == 4 && |server| == 4 && p.transport == TCP
    requires IsTcpHeader(h) && p.proto == EncodeTcp(h) && p.srcPort == U16At(h, 0) && p.dstPort == U16At(h, 2)
    requires length == |h| + |payload| && 20 + length <= 0xFFFF
    ensures SenderPacket(p, server, payload) == Some(Whole(q)) && SentTo(q, p, server, payload)
    ensures IpPacket.TrueLength(q) && IpPacket.ChecksumsVerify(q, length)
    ensures h[12] % 16 == 0 ==>
              q.transport == StoreChecksum(h, TCP_CHECKSUM, IpPacket.ReceiverPrefix(q.ip, length), payload)
  {
    var g := TcpParts(p, h, server, payload);
    q := TcpRecalculated(p, server, payload, g, length);
    TcpFresh(h, g.transport, IpPacket.ReceiverPrefix(q.ip, length), payload);
  }

  lemma TcpRecalculated(p: QTunnelProxy, server: seq<byte>, payload: seq<byte>, g: IpPacket.Parts, length: u16)
    returns (q: IpPacket.Parts)
    requires p.transport == TCP && Generated(p, server, payload) == Some(Whole(g)) && g.payload == payload
    requires IpPacket.WellFormed(g, TCP_CHECKSUM) && |g.ip| == 20 && |g.transport| <= 60
    requires IpPacket.TrueLength(g) && length == |g.transport| + |payload|
    ensures SenderPacket(p, server, payload) == Some(Whole(q)) && SentTo(q, p, server, payload)
    ensures IpPacket.TrueLength(q) && IpPacket.ChecksumsVerify(q, length)
    ensures q.transport == StoreChecksum(g.transport, TCP_CHECKSUM, IpPacket.ReceiverPrefix(q.ip, length), payload)
  {
    q := IpPacket.Recalculated(g, TCP_CHECKSUM);
    TcpChecked(g, g.transport, length);
    RecalculatedFields(p, server, payload, TCP_CHECKSUM, g, q);
  }

  lemma TcpFresh(h: seq<byte>, t: seq<byte>, prefix: seq<byte>, payload: seq<byte>)
    requires IsTcpHeader(h) && |t| == |h|
    requires t == RebuildTcp(EncodeTcp(h), U16At(h, 0), U16At(h, 2))
    ensures h[12] % 16 == 0 ==>
              StoreChecksum(t, TCP_CHECKSUM, prefix, payload) == StoreChecksum(h, TCP_CHECKSUM, prefix, payload)
  {
    if h[12] % 16 == 0 {
      TcpHeaderSurvivesTunnel(h, prefix, payload);
    }
  }

  lemma TcpParts(p: QTunnelProxy, h: seq<byte>, server: seq<byte>, payload: seq<byte>) returns (g: IpPacket.Parts)
    requires p.net == IPV4 && |p.dst| == 4 && |server| == 4 && p.transport == TCP
    requires IsTcpHeader(h) && p.proto == EncodeTcp(h) && p.srcPort == U16At(h, 0) && p.dstPort == U16At(h, 2)
    requires 20 + |h| + |payload| <= 0xFFFF
    ensures Generated(p, server, payload) == Some(Whole(g)) && IpPacket.WellFormed(g, TCP_CHECKSUM)
    ensures |g.ip| == 20 && |g.transport| == |h| <= 60
    ensures g.transport == RebuildTcp(EncodeTcp(h), U16At(h, 0), U16At(h, 2))
    ensures g.payload == payload && IpPacket.TrueLength(g)
  {
    TcpGenerated(p, h);
    g := Generated(p, server, payload).value.parts;
    NetFields(p, server, payload);
    Fits16(20 + |h| + |payload|);
  }

  lemma TcpChecked(g: IpPacket.Parts, r: seq<byte>, length: u16)
    requires IpPacket.WellFormed(g, TCP_CHECKSUM) && |g.ip| == 20 && |g.transport| <= 60 && g.transport == r
    requires IpPacket.TrueLength(g) && length == |g.transport| + |g.payload|
    ensures var q := IpPacket.Recalculated(g, TCP_CHECKSUM);
            && IpPacket.ChecksumsVerify(q, length)
            && q.transport == StoreChecksum(r, TCP_CHECKSUM, IpPacket.ReceiverPrefix(q.ip, length), g.payload)
  {
    IpPacket.TrueLengthAnnounced(g, TCP_CHECKSUM);
    IpPacket.RecalculationVerifies(g, TCP_CHECKSUM);
    var q := IpPacket.Recalculated(g, TCP_CHECKSUM);
    AnnouncedSent(g.ip, q.ip);
    IpPacket.PrefixIsPseudoHeader(q.ip);
  }

  lemma AnnouncedSent(g: seq<byte>, q: seq<byte>)
    requires |g| == |q| >= 20 && q == StoreChecksum(g, IP_CHECKSUM, [], [])
    ensures IpPacket.Announced(q) == IpPacket.Announced(g)
  {
    assert q[0] == g[0] && q[2] == g[2] && q[3] == g[3];
  }

  lemma TcpGenerated(p: QTunnelProxy, h: seq<byte>)
    requires p.transport == TCP && IsTcpHeader(h) && p.proto == EncodeTcp(h)
    ensures var r := RebuildTcp(p.proto, p.srcPort, p.dstPort);
            |r| == |h| && TransportHeader(p) == Some(r) && 4 * (r[12] / 16) == |h|
  {
    TcpOffset(h);
    OffsetGenerated(p);
    WholeSlice(RebuildTcp(p.proto, p.srcPort, p.dstPort));
  }

  lemma TcpOffset(h: seq<byte>)
    requires IsTcpHeader(h)
    ensures |EncodeTcp(h)| == |h| - 3 >= 17 && 4 * (EncodeTcp(h)[12] % 16) == |h| >= 20
  {
    EncodedLength(h);
    SchemeMiddle(h);
    Nibble(h[12]);
  }

  lemma Nibble(octet: byte)
    ensures octet / 16 % 16 == octet / 16
  {}

  lemma WholeSlice(h: seq<byte>)
    ensures h[..|h|] == h
  {}

  // ----- UDP -----

  /**
   * A UDP packet is sent on with a total length and a checksum that a receiver takes for right exactly for
   * payloads of 16378, 32762 and 49146 octets: the length field, which counts the payload already, is
   * multiplied by four and the payload added again.
   */
  lemma UdpSentOn(p: QTunnelProxy, h: seq<byte>, server: seq<byte>, payload: seq<byte>, length: u16)
    returns (q: IpPacket.Parts)
    requires p.net == IPV4 && |p.dst| == 4 && |server| == 4 && p.transport == UDP
    requires |h| == 8 && p.proto == EncodeUdp(h) && U16At(h, 4) == length == 8 + |payload|
    ensures SenderPacket(p, server, payload) == Some(Whole(q)) && SentTo(q, p, server, payload)
    ensures |q.transport| == 8 && U16At(q.transport, 4) == length
    ensures IpPacket.TrueLength(q) <==> |payload| % 0x4000 == 16378
    ensures IpPacket.ChecksumsVerify(q, length) <==> |payload| % 0x4000 == 16378
  {
    var g := UdpParts(p, h, server, payload, length);
    q := IpPacket.Recalculated(g, UDP_CHECKSUM);
    RecalculatedFields(p, server, payload, UDP_CHECKSUM, g, q);
    UdpLengths(g, length, |payload|, q);
  }

  lemma UdpLengths(g: IpPacket.Parts, length: u16, n: nat, q: IpPacket.Parts)
    requires IpPacket.WellFormed(g, UDP_CHECKSUM) && |g.ip| == 20 && g.ip[0] == 0x45 && g.ip[9] != 0
    requires |g.transport| == 8 && |g.payload| == n && length == 8 + n
    requires U16At(g.ip, 2) == (4 * length % 0x1_0000 + n + 20) % 0x1_0000
    requires q == IpPacket.Recalculated(g, UDP_CHECKSUM)
    ensures IpPacket.TrueLength(g) <==> n % 0x4000 == 16378
    ensures IpPacket.ChecksumsVerify(q, length) <==> n % 0x4000 == 16378
    ensures U16At(q.transport, 4) == U16At(g.transport, 4)
  {
    UdpTotal(n, U16At(g.ip, 2));
    UdpAnnounced(n, U16At(g.ip, 2), IpPacket.Announced(g.ip));
    UdpChecked(g, length);
  }

  lemma UdpParts(p: QTunnelProxy, h: seq<byte>, server: seq<byte>, payload: seq<byte>, length: u16)
    returns (g: IpPacket.Parts)
    requires p.net == IPV4 && |p.dst| == 4 && |server| == 4 && p.transport == UDP
    requires |h| == 8 && p.proto == EncodeUdp(h) && U16At(h, 4) == length == 8 + |payload|
    ensures Generated(p, server, payload) == Some(Whole(g)) && IpPacket.WellFormed(g, UDP_CHECKSUM)
    ensures |g.ip| == 20 && g.ip[0] == 0x45 && g.ip[9] == UDP
    ensures |g.transport| == 8 && U16At(g.transport, 4) == length && g.payload == payload
    ensures U16At(g.ip, 2) == (4 * length % 0x1_0000 + |payload| + 20) % 0x1_0000
  {
    UdpGenerated(p, h);
    g := Generated(p, server, payload).value.parts;
    NetFields(p, server, payload);
  }

  lemma UdpChecked(g: IpPacket.Parts, length: u16)
    requires IpPacket.WellFormed(g, UDP_CHECKSUM) && |g.ip| == 20 && g.ip[9] != 0
    requires |g.transport| == 8 && |g.payload| <= 0xFFFF
    ensures var q := IpPacket.Recalculated(g, UDP_CHECKSUM);
            && (IpPacket.ChecksumsVerify(q, length) <==> (length - IpPacket.Announced(g.ip)) % 0xFFFF == 0)
            && U16At(q.transport, 4) == U16At(g.transport, 4)
  {
    var q := IpPacket.Recalculated(g, UDP_CHECKSUM);
    AnnouncedSent(g.ip, q.ip);
    IpPacket.PrefixIsPseudoHeader(q.ip);
    IpPacket.IpHeaderVerifies(g.ip);
    assert q.ip[9] == g.ip[9];
    OtherLength(q.ip, g.transport, UDP_CHECKSUM, g.payload, IpPacket.Announced(g.ip), length, q.transport);
    assert q.transport[4] == g.transport[4] && q.transport[5] == g.transport[5];
  }

  lemma UdpGenerated(p: QTunnelProxy, h: seq<byte>)
    requires p.transport == UDP && |h| == 8 && p.proto == EncodeUdp(h)
    ensures var r := RebuildUdp(p.proto, p.srcPort, p.dstPort);
            |r| == 8 && TransportHeader(p) == Some(r) && U16At(r, 4) == U16At(h, 4)
  {
    UdpScheme(h);
    var length := Put16(U16At(h, 4));
    var r := RebuildUdp(p.proto, p.srcPort, p.dstPort);
    assert r[4] == length[0] && r[5] == length[1];
  }

  lemma UdpTotal(n: nat, total: u16)
    requires n + 8 <= 0xFFFF && total == (4 * (8 + n) % 0x1_0000 + n + 20) % 0x1_0000
    ensures total == 20 + 8 + n <==> n % 0x4000 == 16378
  {
    ReducedFirst(4 * (8 + n), n + 20);
    FourTimes(n, 20);
  }

  lemma ReducedFirst(a: nat, b: nat)
    ensures (a % 0x1_0000 + b) % 0x1_0000 == (a + b) % 0x1_0000
  {}

  /** Five times a number, and eight and the number itself: when they agree in sixteen bits. */
  lemma FourTimes(n: nat, more: nat)
    requires n <= 0xFFF7
    ensures (5 * n + 32 + more) % 0x1_0000 == n + 8 + more <==> n + 8 + more <= 0xFFFF && n % 0x4000 == 16378
  {
    var sum, own := 5 * n + 32 + more, n + 8 + more;
    var k := sum / 0x1_0000;
    assert sum == k * 0x1_0000 + sum % 0x1_0000;
    var m := n / 0x4000;
    assert n == m * 0x4000 + n % 0x4000;
    if n % 0x4000 == 16378 {
      assert sum == own + (m + 1) * 0x1_0000;
    }
  }

  lemma UdpAnnounced(n: nat, total: u16, announced: u16)
    requires 8 + n <= 0xFFFF && total == (4 * (8 + n) % 0x1_0000 + n + 20) % 0x1_0000
    requires announced == (total - 20) % 0x1_0000
    ensures (8 + n - announced) % 0xFFFF == 0 <==> n % 0x4000 == 16378
  {
    ReducedFirst(4 * (8 + n), n + 20);
    TakenOff(5 * n + 32, total, announced);
    FourTimes(n, 0);
    SameWord(8 + n, announced);
  }

  lemma SameWord(a: u16, b: u16)
    requires a > 0 && (a == 0xFFFF ==> b > 0)
    ensures (a - b) % 0xFFFF == 0 <==> a == b
  {}

  lemma TakenOff(n: nat, total: u16, announced: u16)
    requires total == (n + 20) % 0x1_0000 && announced == (total - 20) % 0x1_0000
    ensures announced == n % 0x1_0000
  {}

  // ----- a checksum for one length, checked for another -----

  /** It verifies for the other length, too, exactly when the two are congruent modulo 65535. */
  lemma OtherLength(ip: seq<byte>, header: seq<byte>, pos: nat, payload: seq<byte>, stored: u16, checked: u16,
                    t: seq<byte>)
    requires |ip| >= 20 && ip[9] != 0 && |header| % 2 == 0 && |header| <= 60 && |payload| <= 0xFFFF
    requires pos % 2 == 0 && pos + 2 <= |header|
    requires t == StoreChecksum(header, pos, IpPacket.ReceiverPrefix(ip, stored), payload)
    ensures Verifies(Sum16(IpPacket.ReceiverPrefix(ip, checked) + t + payload)) <==> (checked - stored) % 0xFFFF == 0
  {
    var before, after := IpPacket.ReceiverPrefix(ip, stored), IpPacket.ReceiverPrefix(ip, checked);
    var base := Sum16(ip[12..20] + [0, ip[9]]);
    StoredSum(header, pos, before, payload, Splice(header, pos, Put16(0)));
    PrefixSum(ip, stored);
    PrefixSum(ip, checked);
    OtherPrefix(before, after, Splice(header, pos, Put16(0)), t, payload, base, stored, checked);
  }

  lemma OtherPrefix(before: seq<byte>, after: seq<byte>, zeroed: seq<byte>, t: seq<byte>, payload: seq<byte>,
                    base: nat, stored: u16, checked: u16)
    requires |after| == 12 && |t| % 2 == 0 && base > 0
    requires Sum16(t) == Sum16(zeroed) + Complement(SegmentSum(before, zeroed, payload))
    requires Sum16(before) == base + stored && Sum16(after) == base + checked
    ensures Verifies(Sum16(after + t + payload)) <==> (checked - stored) % 0xFFFF == 0
  {
    SegmentSumIsSum(after, t, payload);
    OtherLengthSums(base, Sum16(zeroed), Sum16(t), Sum16(payload), stored, checked);
  }

  lemma OtherLengthSums(base: nat, zeroed: nat, header: nat, payload: nat, stored: u16, checked: u16)
    requires base > 0 && header == zeroed + Complement(base + stored + zeroed + payload)
    ensures Verifies(base + checked + header + payload) <==> (checked - stored) % 0xFFFF == 0
  {
    ShiftedVerifies(base + stored + zeroed + payload, checked - stored);
  }

  lemma StoredSum(header: seq<byte>, pos: nat, prefix: seq<byte>, payload: seq<byte>, zeroed: seq<byte>)
    requires |prefix| == 12 && |header| <= 60 && |payload| <= 0xFFFF && pos % 2 == 0 && pos + 2 <= |header|
    requires zeroed == Splice(header, pos, Put16(0))
    ensures Sum16(StoreChecksum(header, pos, prefix, payload))
            == Sum16(zeroed) + Complement(SegmentSum(prefix, zeroed, payload))
  {
    NoWrap(prefix, zeroed, payload);
    SumSplice(header, pos, Complement(SegmentSum(prefix, zeroed, payload)));
    NotReduced(SegmentSum(prefix, zeroed, payload));
  }

  lemma NotReduced(n: nat)
    requires n < U32_RANGE
    ensures n % U32_RANGE == n
  {}

  lemma PrefixSum(ip: seq<byte>, length: u16)
    requires |ip| >= 20
    ensures Sum16(IpPacket.ReceiverPrefix(ip, length)) == Sum16(ip[12..20] + [0, ip[9]]) + length >= ip[9] + length
  {
    var front := ip[12..20] + [0, ip[9]];
    SumConcat(front, Put16(length));
    SumConcat(ip[12..20], [0, ip[9]]);
    WordSum([0, ip[9]]);
    WordSum(Put16(length));
  }

  lemma WordSum(w: seq<byte>)
    requires |w| == 2
    ensures Sum16(w) == U16At(w, 0)
  {
    assert w[2..] == [];
  }

  lemma ShiftedVerifies(sum: nat, shift: int)
    requires sum > 0 && sum + shift > 0
    ensures Verifies(sum + Complement(sum) + shift) <==> shift % 0xFFFF == 0
  {
    var q := FoldQuotient(sum);
    assert sum + Complement(sum) == (q + 1) * 0xFFFF;
    FoldKeepsResidue(sum + Complement(sum) + shift);
    MultipleAside(q + 1, shift);
  }

  lemma MultipleAside(k: nat, shift: int)
    ensures (k * 0xFFFF + shift) % 0xFFFF == shift % 0xFFFF
  {}
}
