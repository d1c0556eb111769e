/** A whole IPv4 packet whose addresses and ports are rewritten on its way through the tunnel. */
module Packet {
  import opened Bytes
  import opened Checksum
  import opened Headers

  type Addr4 = a: seq<byte> | |a| == 4 witness [0, 0, 0, 0]

  /** The parts of a `FullPacket` object; the transport checksum lies at `pos` of the transport header. */
  datatype Parts = Parts(ip: seq<byte>, transport: seq<byte>, payload: seq<byte>)

  datatype Endpoints = Endpoints(src: seq<byte>, dst: seq<byte>, srcPort: u16, dstPort: u16)

  datatype Rewrite = SrcAddr(addr: Addr4) | DstAddr(addr: Addr4) | SrcPort(port: u16) | DstPort(port: u16)

  predicate WellFormed(p: Parts, pos: nat) {
    && 20 <= |p.ip| == 4 * (p.ip[0] % 16)
    && |p.transport| % 2 == 0
    && 4 <= pos && pos % 2 == 0 && pos + 2 <= |p.transport|
  }

  /** The twelve octets of `TransportIpv4PseudoHeader`. */
  function PseudoHeader(src: seq<byte>, dst: seq<byte>, protocol: byte, length: u16): seq<byte> {
    src + dst + [0, protocol] + Put16(length)
  }

  /** The pseudo-header `recalculate_checksums` builds from the IP header it has in hand. */
  function PseudoHeaderOf(ip: seq<byte>): (r: seq<byte>)
    requires |ip| >= 20
    ensures |r| == 12
  {
    PseudoHeader(ip[12..16], ip[16..20], ip[9], (U16At(ip, 2) - 4 * (ip[0] % 16)) % 0x1_0000)
  }

  function EndpointsOf(p: Parts): Endpoints
    requires |p.ip| >= 20 && |p.transport| >= 4
  {
    Endpoints(p.ip[12..16], p.ip[16..20], U16At(p.transport, 0), U16At(p.transport, 2))
  }

  function Redirect(e: Endpoints, r: Rewrite): Endpoints {
    match r
    case SrcAddr(a) => e.(src := a)
    case DstAddr(a) => e.(dst := a)
    case SrcPort(p) => e.(srcPort := p)
    case DstPort(p) => e.(dstPort := p)
  }

  function Apply(p: Parts, r: Rewrite): (q: Parts)
    requires |p.ip| >= 20 && |p.transport| >= 4
    ensures |q.ip| == |p.ip| && |q.transport| == |p.transport|
  {
    match r
    case SrcAddr(a) => p.(ip := Splice(p.ip, 12, a))
    case DstAddr(a) => p.(ip := Splice(p.ip, 16, a))
    case SrcPort(n) => p.(transport := Splice(p.transport, 0, Put16(n)))
    case DstPort(n) => p.(transport := Splice(p.transport, 2, Put16(n)))
  }

  function Run(p: Parts, run: seq<Rewrite>): (q: Parts)
    requires |p.ip| >= 20 && |p.transport| >= 4
    ensures |q.ip| == |p.ip| && |q.transport| == |p.transport|
    decreases |run|
  {
    if run == [] then p else Run(Apply(p, run[0]), run[1..])
  }

  function RedirectAll(e: Endpoints, run: seq<Rewrite>): Endpoints
    decreases |run|
  {
    if run == [] then e else RedirectAll(Redirect(e, run[0]), run[1..])
  }

  /** First the IP checksum, then the transport checksum over the pseudo-header of the addresses now in place. */
  ghost function Recalculated(p: Parts, pos: nat): Parts
    requires WellFormed(p, pos)
  {
    var ip := StoreChecksum(p.ip, IP_CHECKSUM, [], []);
    Parts(ip, StoreChecksum(p.transport, pos, PseudoHeaderOf(ip), p.payload), p.payload)
  }

  class FullPacket {
    const net: Ipv4PacketLittleEndian
    const tcp: TcpPacketLittleEndian
    const data: array<byte>

    constructor (net: Ipv4PacketLittleEndian, tcp: TcpPacketLittleEndian, data: array<byte>)
      ensures this.net == net && this.tcp == tcp && this.data == data
    {
      this.net, this.tcp, this.data := net, tcp, data;
    }

    function State(): Parts
      reads net, tcp, data
    {
      Parts(net.header, tcp.header, data[..])
    }

    method RecalculateChecksums()
      requires WellFormed(State(), TCP_CHECKSUM) && |tcp.header| >= 20
      modifies net, tcp
      ensures State() == Recalculated(old(State()), TCP_CHECKSUM)
    {
      net.RecalculateIpChecksum();
      var pseudo := PseudoHeaderOf(net.header);
      tcp.RecalculateTransportChecksum(pseudo, data, 0, data.Length);
      assert data[0..data.Length] == data[..];
    }
  }

  // ----- rewriting runs -----

  lemma ApplyRedirects(p: Parts, r: Rewrite)
    requires |p.ip| >= 20 && |p.transport| >= 4
    ensures EndpointsOf(Apply(p, r)) == Redirect(EndpointsOf(p), r)
    ensures SameElsewhere(p, Apply(p, r))
  {
    match r
    case SrcPort(n) => ReadSpliced(p.transport, 0, Put16(n));
    case DstPort(n) => ReadSpliced(p.transport, 2, Put16(n));
    case SrcAddr(a) => SliceSpliced(p.ip, 12, a, 12, 16, 20);
    case DstAddr(a) => SliceSpliced(p.ip, 16, a, 12, 16, 20);
  }

  /** A spliced slice is what was put there, its neighbours are what they were. */
  lemma SliceSpliced(s: seq<byte>, i: nat, t: seq<byte>, a: nat, b: nat, c: nat)
    requires i + |t| <= |s| && a <= b <= c <= |s| && b - a == c - b == |t| && i in {a, b}
    ensures var r := Splice(s, i, t);
            r[a..b] == (if i == a then t else s[a..b]) && r[b..c] == if i == b then t else s[b..c]
  {
    var r := Splice(s, i, t);
    if t != [] {
      assert forall k :: a <= k < b ==> r[k] == if i == a then t[k - a] else s[k];
      assert forall k :: b <= k < c ==> r[k] == if i == b then t[k - b] else s[k];
    }
  }

  /** Nothing but addresses and ports differs. */
  predicate SameElsewhere(p: Parts, q: Parts) {
    && |p.ip| == |q.ip| && |p.transport| == |q.transport| && p.payload == q.payload
    && (forall k :: 0 <= k < |p.ip| && !(12 <= k < 20) ==> q.ip[k] == p.ip[k])
    && (forall k :: 4 <= k < |p.transport| ==> q.transport[k] == p.transport[k])
  }

  lemma {:induction false} RunRedirects(p: Parts, run: seq<Rewrite>)
    requires |p.ip| >= 20 && |p.transport| >= 4
    ensures EndpointsOf(Run(p, run)) == RedirectAll(EndpointsOf(p), run)
    ensures SameElsewhere(p, Run(p, run))
    decreases |run|
  {
    if run != [] {
      ApplyRedirects(p, run[0]);
      RunRedirects(Apply(p, run[0]), run[1..]);
    }
  }

  /** Nothing but addresses, ports and the two checksum fields differs. */
  predicate SameButChecksums(p: Parts, q: Parts, pos: nat) {
    && |p.ip| == |q.ip| && |p.transport| == |q.transport| && p.payload == q.payload
    && (forall k :: 0 <= k < |p.ip| && !(10 <= k < 12) && !(12 <= k < 20) ==> q.ip[k] == p.ip[k])
    && (forall k :: 4 <= k < |p.transport| && !(pos <= k < pos + 2) ==> q.transport[k] == p.transport[k])
  }

  /**
   * The twelve octets a receiver puts in front of a segment of `length` octets: both addresses, zero, the
   * protocol and the length (section 3.1 of RFC 9293).
   */
  function ReceiverPrefix(ip: seq<byte>, length: u16): (r: seq<byte>)
    requires |ip| >= 20
    ensures |r| == 12
  {
    ip[12..20] + [0, ip[9]] + Put16(length)
  }

  /** Both checksums verify over the octets a receiver adds up, for a segment of `length` octets. */
  ghost predicate ChecksumsVerify(p: Parts, length: u16)
    requires |p.ip| >= 20
  {
    Verifies(Sum16(p.ip)) && Verifies(Sum16(ReceiverPrefix(p.ip, length) + p.transport + p.payload))
  }

  /** The length of the segment as the IP header announces it. */
  function Announced(ip: seq<byte>): u16
    requires |ip| >= 20
  {
    (U16At(ip, 2) - 4 * (ip[0] % 16)) % 0x1_0000
  }

  /** The total length in the IP header is the length of the packet. */
  predicate TrueLength(p: Parts)
    requires |p.ip| >= 20
  {
    U16At(p.ip, 2) == |p.ip| + |p.transport| + |p.payload|
  }

  /**
   * After any run of rewrites a recalculation leaves a packet that carries the last address and port
   * written (or the original one), whose IP and transport checksums both verify for the length it
   * announces - its own, if that is right - and that differs from the original in no other octet but the
   * two checksum fields.
   */
  lemma RewritingRun(p: Parts, run: seq<Rewrite>, pos: nat)
    requires WellFormed(p, pos) && |p.transport| <= 60 && |p.payload| <= 0xFFFF
    ensures WellFormed(Run(p, run), pos)
    ensures var q := Recalculated(Run(p, run), pos);
            && EndpointsOf(q) == RedirectAll(EndpointsOf(p), run)
            && ChecksumsVerify(q, Announced(p.ip))
            && (TrueLength(p) ==>
                  |p.transport| + |p.payload| <= 0xFFFF && ChecksumsVerify(q, |p.transport| + |p.payload|))
            && SameButChecksums(p, q, pos)
  {
    RunRedirects(p, run);
    RecalculationTouches(Run(p, run), pos);
    AnnouncedKept(p, Run(p, run));
    RecalculationVerifies(Run(p, run), pos);
    if TrueLength(p) {
      TrueLengthAnnounced(p, pos);
    }
  }

  lemma AnnouncedKept(p: Parts, q: Parts)
    requires |p.ip| >= 20 && SameElsewhere(p, q)
    ensures Announced(q.ip) == Announced(p.ip) && q.ip[0] == p.ip[0]
  {
    assert q.ip[2] == p.ip[2] && q.ip[3] == p.ip[3];
  }

  lemma TrueLengthAnnounced(p: Parts, pos: nat)
    requires WellFormed(p, pos) && TrueLength(p)
    ensures |p.transport| + |p.payload| <= 0xFFFF && Announced(p.ip) == |p.transport| + |p.payload|
  {
    Fits16(|p.transport| + |p.payload|);
  }

  lemma RecalculationTouches(p: Parts, pos: nat)
    requires WellFormed(p, pos)
    ensures EndpointsOf(Recalculated(p, pos)) == EndpointsOf(p)
    ensures SameButChecksums(p, Recalculated(p, pos), pos)
  {
    var q := Recalculated(p, pos);
    assert q.ip[12..16] == p.ip[12..16] && q.ip[16..20] == p.ip[16..20];
  }

  lemma RecalculationVerifies(p: Parts, pos: nat)
    requires WellFormed(p, pos) && |p.transport| <= 60 && |p.payload| <= 0xFFFF
    ensures ChecksumsVerify(Recalculated(p, pos), Announced(p.ip))
  {
    var ip := StoreChecksum(p.ip, IP_CHECKSUM, [], []);
    IpHeaderVerifies(p.ip);
    StoreKeepsLength(p.ip);
    PrefixIsPseudoHeader(ip);
    TransportVerifies(p.transport, pos, PseudoHeaderOf(ip), p.payload);
  }

  lemma StoreKeepsLength(ip: seq<byte>)
    requires |ip| >= 20
    ensures Announced(StoreChecksum(ip, IP_CHECKSUM, [], [])) == Announced(ip)
  {
    var r := StoreChecksum(ip, IP_CHECKSUM, [], []);
    assert r[0] == ip[0] && r[2] == ip[2] && r[3] == ip[3];
  }

  /** The octets the code builds are those a receiver puts in front. */
  lemma PrefixIsPseudoHeader(ip: seq<byte>)
    requires |ip| >= 20
    ensures PseudoHeaderOf(ip) == ReceiverPrefix(ip, Announced(ip))
  {
    assert ip[12..16] + ip[16..20] == ip[12..20];
  }

  lemma TransportVerifies(header: seq<byte>, pos: nat, pseudo: seq<byte>, payload: seq<byte>)
    requires pos % 2 == 0 && pos + 2 <= |header| <= 60 && |header| % 2 == 0 && |pseudo| == 12 && |payload| <= 0xFFFF
    ensures Verifies(Sum16(pseudo + StoreChecksum(header, pos, pseudo, payload) + payload))
  {
    StoredOctetsVerify(header, pos, pseudo, payload);
    SmallSegment(pseudo, Splice(header, pos, Put16(0)), payload);
  }

  lemma SmallSegment(pseudo: seq<byte>, header: seq<byte>, payload: seq<byte>)
    requires |header| <= 60 && |header| % 2 == 0 && |pseudo| == 12 && |payload| <= 0xFFFF
    ensures (Sum16(pseudo + header + payload) / U32_RANGE) % 0xFFFF == 0
  {
    NoWrap(pseudo, header, payload);
    SegmentSumIsSum(pseudo, header, payload);
    NoQuotient(Sum16(pseudo + header + payload));
  }

  lemma NoQuotient(n: nat)
    requires n < U32_RANGE
    ensures (n / U32_RANGE) % 0xFFFF == 0
  {}

  /** Every IP header of up to fifteen words verifies after recalculation. */
  lemma IpHeaderVerifies(ip: seq<byte>)
    requires 20 <= |ip| <= 60 && |ip| % 2 == 0
    ensures Verifies(Sum16(StoreChecksum(ip, IP_CHECKSUM, [], [])))
  {
    NoWrap([], Splice(ip, IP_CHECKSUM, Put16(0)), []);
    StoreVerifies(ip, IP_CHECKSUM, [], []);
  }
}
