/** The kernel-side packet filter and the lookup key that user space builds for it. */
module Filter {
  import opened Bytes
  import opened Protocols
  import opened Wrappers

  /** The byte order of the machine both halves run on. */
  datatype Order = Little | Big

  // ----- byte orders -----

  function Load16(o: Order, s: seq<byte>, i: nat): u16
    requires i + 2 <= |s|
  {
    if o == Big then U16At(s, i) else s[i + 1] as int * 0x100 + s[i] as int
  }

  function Load32(o: Order, s: seq<byte>, i: nat): u32
    requires i + 4 <= |s|
  {
    if o == Big then U32At(s, i)
    else s[i + 3] as int * 0x100_0000 + s[i + 2] as int * 0x1_0000 + s[i + 1] as int * 0x100 + s[i] as int
  }

  function Htons(o: Order, x: u16): u16 {
    if o == Big then x else x % 0x100 * 0x100 + x / 0x100
  }

  function Htonl(o: Order, x: u32): u32 {
    if o == Big then x
    else x % 0x100 * 0x100_0000 + x / 0x100 % 0x100 * 0x1_0000 + x / 0x1_0000 % 0x100 * 0x100 + x / 0x100_0000
  }

  /** Storing a converted number and loading it in the machine's own order is the same number. */
  lemma LoadOfPut(o: Order, s: seq<byte>, i: nat)
    ensures i + 2 <= |s| ==> Load16(o, s, i) == Htons(o, U16At(s, i))
    ensures i + 4 <= |s| ==> Load32(o, s, i) == Htonl(o, U32At(s, i))
  {
    if i + 4 <= |s| {
      FourOctets(s[i], s[i + 1], s[i + 2], s[i + 3]);
    }
  }

  lemma FourOctets(a: byte, b: byte, c: byte, d: byte)
    ensures var x := (a * 0x100 + b) * 0x1_0000 + (c * 0x100 + d);
            x % 0x100 == d && x / 0x100 % 0x100 == c && x / 0x1_0000 % 0x100 == b && x / 0x100_0000 == a
  {}

  lemma ConversionInjective(o: Order, x: u32, y: u32)
    ensures Htonl(o, x) == Htonl(o, y) <==> x == y
    ensures x <= 0xFFFF && y <= 0xFFFF ==> (Htons(o, x) == Htons(o, y) <==> x == y)
  {
    if o == Little {
      SwapFour(x);
      SwapFour(y);
      if x <= 0xFFFF && y <= 0xFFFF {
        SwapTwo(x);
        SwapTwo(y);
      }
    }
  }

  /** The conversion undoes itself. */
  lemma SwapTwo(x: u16)
    ensures Htons(Little, Htons(Little, x)) == x
  {}

  lemma SwapFour(x: u32)
    ensures Htonl(Little, Htonl(Little, x)) == x
  {
    var a, b, c, d := x / 0x100_0000, x / 0x1_0000 % 0x100, x / 0x100 % 0x100, x % 0x100;
    OctetsOf(x);
    FourOctets(d, c, b, a);
    FourOctets(a, b, c, d);
  }

  lemma OctetsOf(x: u32)
    ensures x == (x / 0x100_0000 * 0x100 + x / 0x1_0000 % 0x100) * 0x1_0000 + (x / 0x100 % 0x100 * 0x100 + x % 0x100)
    ensures 0 <= x / 0x100_0000 <= 0xFF
  {
    var high, low := x / 0x1_0000, x % 0x1_0000;
    var a, b, c, d := high / 0x100, high % 0x100, low / 0x100, low % 0x100;
    Halves(x);
    assert high == a * 0x100 + b && low == c * 0x100 + d;
    FourOctets(a, b, c, d);
  }

  lemma Halves(x: u32)
    ensures x == x / 0x1_0000 * 0x1_0000 + x % 0x1_0000 && 0 <= x / 0x1_0000 < 0x1_0000
  {}

  // ----- the key -----

  datatype FilterKey = FilterKey(net: byte, transport: byte, srcIp: u32, srcPort: u16, dstIp: u32, dstPort: u16)

  /** `QVPNSocketData`; on the server the local address is the server's. */
  datatype Connection = Connection(net: byte, transport: byte, local: seq<byte>, localPort: u16,
                                   remote: seq<byte>, remotePort: u16)

  /** `NetAddr::to_uint`: zero for anything but an IPv4 address. */
  function ToUint(addr: seq<byte>): u32 {
    if |addr| == 4 then U32At(addr, 0) else 0
  }

  /** The key of a connection; the addresses are not written unless it is an IPv4 one. */
  function KeyOf(o: Order, c: Connection, unset: FilterKey): FilterKey {
    FilterKey(c.net, c.transport,
              if c.net == IPV4 then Htonl(o, ToUint(c.remote)) else unset.srcIp, Htons(o, c.remotePort),
              if c.net == IPV4 then Htonl(o, ToUint(c.local)) else unset.dstIp, Htons(o, c.localPort))
  }

  class QVPN_SocketFilter {
    const order: Order
    var filter: FilterKey

    /** `unset` is whatever the memory of the key held before. */
    constructor (order: Order, c: Connection, unset: FilterKey)
      ensures this.order == order && filter == KeyOf(order, c, unset)
    {
      this.order := order;
      filter := unset.(net := c.net, transport := c.transport);
      new;
      if c.net == IPV4 {
        filter := filter.(dstIp := Htonl(order, ToUint(c.local)));
        filter := filter.(srcIp := Htonl(order, ToUint(c.remote)));
      }
      filter := filter.(dstPort := Htons(order, c.localPort));
      filter := filter.(srcPort := Htons(order, c.remotePort));
    }

    /** `ipv4`, `ipv6` and `net_ver`. */
    method NetVersion(net: byte)
      modifies this
      ensures filter == SetKey(order, old(filter), Net(net))
    {
      filter := filter.(net := net);
    }

    /** `tcp`, `udp` and `custom_protocol`. */
    method CustomProtocol(transport: byte)
      modifies this
      ensures filter == SetKey(order, old(filter), Transport(transport))
    {
      filter := filter.(transport := transport);
    }

    method Src(addr: seq<byte>)
      modifies this
      ensures filter == SetKey(order, old(filter), SrcAddr(addr))
    {
      if |addr| == 4 {
        filter := filter.(srcIp := Htonl(order, ToUint(addr)));
      }
    }

    method Dst(addr: seq<byte>)
      modifies this
      ensures filter == SetKey(order, old(filter), DstAddr(addr))
    {
      if |addr| == 4 {
        filter := filter.(dstIp := Htonl(order, ToUint(addr)));
      }
    }

    method SrcPort(port: u16)
      modifies this
      ensures filter == SetKey(order, old(filter), Setter.SrcPort(port))
    {
      filter := filter.(srcPort := Htons(order, port));
    }

    method DstPort(port: u16)
      modifies this
      ensures filter == SetKey(order, old(filter), Setter.DstPort(port))
    {
      filter := filter.(dstPort := Htons(order, port));
    }
  }

  // ----- runs of setters -----

  datatype Setter =
    | Net(net: byte) | Transport(transport: byte) | SrcAddr(addr: seq<byte>) | DstAddr(addr: seq<byte>)
    | SrcPort(port: u16) | DstPort(port: u16)

  /** What a setter does to the key: addresses that are not IPv4 ones are ignored. */
  function SetKey(o: Order, k: FilterKey, s: Setter): FilterKey {
    match s
    case Net(n) => k.(net := n)
    case Transport(t) => k.(transport := t)
    case SrcAddr(a) => if |a| == 4 then k.(srcIp := Htonl(o, U32At(a, 0))) else k
    case DstAddr(a) => if |a| == 4 then k.(dstIp := Htonl(o, U32At(a, 0))) else k
    case SrcPort(p) => k.(srcPort := Htons(o, p))
    case DstPort(p) => k.(dstPort := Htons(o, p))
  }

  function RunKey(o: Order, k: FilterKey, run: seq<Setter>): FilterKey
    decreases |run|
  {
    if run == [] then k else RunKey(o, SetKey(o, k, run[0]), run[1..])
  }

  /** What it means: packets come from the source, the remote side, and go to the local one. */
  function Describe(c: Connection, s: Setter): Connection {
    match s
    case Net(n) => c.(net := n)
    case Transport(t) => c.(transport := t)
    case SrcAddr(a) => if |a| == 4 then c.(remote := a) else c
    case DstAddr(a) => if |a| == 4 then c.(local := a) else c
    case SrcPort(p) => c.(remotePort := p)
    case DstPort(p) => c.(localPort := p)
  }

  function DescribeAll(c: Connection, run: seq<Setter>): Connection
    decreases |run|
  {
    if run == [] then c else DescribeAll(Describe(c, run[0]), run[1..])
  }

  /** The fields a setter writes, numbered from network protocol to destination port. */
  function Written(s: Setter): set<nat> {
    match s
    case Net(_) => {0}
    case Transport(_) => {1}
    case SrcAddr(a) => if |a| == 4 then {2} else {}
    case DstAddr(a) => if |a| == 4 then {3} else {}
    case SrcPort(_) => {4}
    case DstPort(_) => {5}
  }

  function AllWritten(run: seq<Setter>): set<nat> {
    if run == [] then {} else Written(run[0]) + AllWritten(run[1..])
  }

  /** The key holds the connection, as far as the fields in `known` go. */
  predicate Holds(o: Order, k: FilterKey, c: Connection, known: set<nat>) {
    && (0 in known ==> k.net == c.net)
    && (1 in known ==> k.transport == c.transport)
    && (2 in known ==> k.srcIp == Htonl(o, ToUint(c.remote)))
    && (3 in known ==> k.dstIp == Htonl(o, ToUint(c.local)))
    && (4 in known ==> k.srcPort == Htons(o, c.remotePort))
    && (5 in known ==> k.dstPort == Htons(o, c.localPort))
  }

  /**
   * After any run of setters each field written at all holds the value last written to it, converted,
   * and each other field holds what it held before.
   */
  lemma {:induction false} SetterRunDescribes(o: Order, k: FilterKey, c: Connection, run: seq<Setter>, known: set<nat>)
    requires Holds(o, k, c, known)
    ensures Holds(o, RunKey(o, k, run), DescribeAll(c, run), known + AllWritten(run))
    decreases |run|
  {
    if run == [] {
      assert known + AllWritten(run) == known;
    } else {
      var s := run[0];
      SetterDescribes(o, k, c, s, known);
      SetterRunDescribes(o, SetKey(o, k, s), Describe(c, s), run[1..], known + Written(s));
      assert known + AllWritten(run) == known + Written(s) + AllWritten(run[1..]);
    }
  }

  lemma SetterDescribes(o: Order, k: FilterKey, c: Connection, s: Setter, known: set<nat>)
    requires Holds(o, k, c, known)
    ensures Holds(o, SetKey(o, k, s), Describe(c, s), known + Written(s))
  {}

  /**
   * A run of setters in any order that writes every field, on a key with whatever in it, makes the
   * filter accept exactly the packets of the connection the last values describe.
   */
  lemma SettersMakeFilter(o: Order, k: FilterKey, c: Connection, run: seq<Setter>, skb: seq<byte>)
    requires AllWritten(run) == {0, 1, 2, 3, 4, 5} && DescribeAll(c, run).net == IPV4
    ensures var d := DescribeAll(c, run);
            && |d.local| == 4 && |d.remote| == 4
            && (PacketKey(o, skb) == Some(RunKey(o, k, run)) <==> Belongs(d, skb, 20))
  {
    SetterRunDescribes(o, k, c, run, {});
    AddressesDescribed(c, run);
    FilterIsConnection(o, DescribeAll(c, run), k, skb);
  }

  lemma {:induction false} AddressesDescribed(c: Connection, run: seq<Setter>)
    ensures 2 in AllWritten(run) || |c.remote| == 4 ==> |DescribeAll(c, run).remote| == 4
    ensures 3 in AllWritten(run) || |c.local| == 4 ==> |DescribeAll(c, run).local| == 4
    decreases |run|
  {
    if run != [] {
      AddressesDescribed(Describe(c, run[0]), run[1..]);
    }
  }

  // ----- the filter -----

  /** `filter_by_addr_port`: true to accept. The map holds the one key, allowed. */
  method FilterByAddrPort(o: Order, key: FilterKey, skb: seq<byte>) returns (accept: bool)
    ensures accept <==> PacketKey(o, skb) == Some(key)
  {
    if |skb| < 20 {
      return false;
    }
    var version := skb[0] / 16;
    if version == IPV6 || version != IPV4 {
      return false;
    }
    var transport := skb[9];
    var srcPort: u16, dstPort: u16 := 0, 0;
    if transport == TCP {
      if |skb| < 20 + 20 {
        return false;
      }
      srcPort, dstPort := Load16(o, skb, 20), Load16(o, skb, 22);
    } else if transport == UDP {
      if |skb| < 20 + 8 {
        return false;
      }
      srcPort, dstPort := Load16(o, skb, 20), Load16(o, skb, 22);
    }
    return FilterKey(version, transport, Load32(o, skb, 12), srcPort, Load32(o, skb, 16), dstPort) == key;
  }

  /** The key the kernel looks up; none for packets it rejects without looking. */
  function PacketKey(o: Order, skb: seq<byte>): Option<FilterKey> {
    if |skb| < 20 || skb[0] / 16 != IPV4 || (skb[9] == TCP && |skb| < 40) || (skb[9] == UDP && |skb| < 28) then None
    else
      var ports := skb[9] in {TCP, UDP};
      Some(FilterKey(IPV4, skb[9], Load32(o, skb, 12), if ports then Load16(o, skb, 20) else 0,
                     Load32(o, skb, 16), if ports then Load16(o, skb, 22) else 0))
  }

  // ----- what that means -----

  /**
   * An IPv4 packet of the connection, from the remote side, with the ports of TCP, 6, or UDP, 17, behind a
   * header of `ihl` octets.
   */
  predicate Belongs(c: Connection, skb: seq<byte>, ihl: nat) {
    && 20 <= |skb| && skb[0] / 16 == 4 == c.net && skb[9] == c.transport
    && skb[12..16] == c.remote && skb[16..20] == c.local
    && if skb[9] in {6, 17} then
         && ihl + (if skb[9] == 6 then 20 else 8) <= |skb|
         && U16At(skb, ihl) == c.remotePort && U16At(skb, ihl + 2) == c.localPort
       else c.remotePort == 0 && c.localPort == 0
  }

  /**
   * On machines of either byte order, whatever the key's memory held before, the filter accepts
   * exactly the packets of the connection, with the ports looked for behind twenty octets of header.
   */
  lemma FilterIsConnection(o: Order, c: Connection, unset: FilterKey, skb: seq<byte>)
    requires |c.local| == 4 && |c.remote| == 4
    ensures PacketKey(o, skb) == Some(KeyOf(o, c, unset)) <==> Belongs(c, skb, 20)
  {
    if PacketKey(o, skb).Some? {
      AddressMatches(o, skb, 12, c.remote);
      AddressMatches(o, skb, 16, c.local);
      if skb[9] in {TCP, UDP} {
        LoadOfPut(o, skb, 20);
        LoadOfPut(o, skb, 22);
        ConversionInjective(o, U16At(skb, 20), c.remotePort);
        ConversionInjective(o, U16At(skb, 22), c.localPort);
      } else {
        ConversionInjective(o, 0, c.remotePort);
        ConversionInjective(o, 0, c.localPort);
      }
    }
  }

  lemma AddressMatches(o: Order, skb: seq<byte>, i: nat, addr: seq<byte>)
    requires i + 4 <= |skb| && |addr| == 4
    ensures Load32(o, skb, i) == Htonl(o, ToUint(addr)) <==> skb[i..i + 4] == addr
  {
    var a := skb[i..i + 4];
    LoadOfPut(o, skb, i);
    ConversionInjective(o, U32At(skb, i), U32At(addr, 0));
    PutReadBack(a, 0);
    PutReadBack(addr, 0);
    assert a[0..4] == a && addr[0..4] == addr && U32At(a, 0) == U32At(skb, i);
  }

  /** A transport header of TCP or UDP fits behind `at` octets. */
  predicate TransportFits(skb: seq<byte>, at: nat)
    requires |skb| >= 20
  {
    at + (if skb[9] == 6 then 20 else 8) <= |skb|
  }

  /**
   * What a packet has to be like for its header length not to matter: no ports are looked at, or no
   * transport header fits either way, or one fits both ways and the same ports are found.
   */
  predicate LengthIrrelevant(skb: seq<byte>, ihl: nat)
    requires |skb| >= 20
  {
    skb[9] in {6, 17} && (TransportFits(skb, 20) || TransportFits(skb, ihl)) ==>
      && TransportFits(skb, 20) && TransportFits(skb, ihl)
      && U16At(skb, ihl) == U16At(skb, 20) && U16At(skb, ihl + 2) == U16At(skb, 22)
  }

  /** The filter decides as the connection predicate does, whatever IPv4 or other connection its key is built from. */
  ghost predicate Agrees(o: Order, unset: FilterKey, skb: seq<byte>, ihl: nat) {
    forall c: Connection :: |c.local| == 4 && |c.remote| == 4 ==>
      (PacketKey(o, skb) == Some(KeyOf(o, c, unset)) <==> Belongs(c, skb, ihl))
  }

  /**
   * For every IPv4 packet: the filter agrees with the connection predicate - ports behind the header
   * the packet says it has - exactly when the header length does not matter.
   */
  lemma FilterExactly(o: Order, unset: FilterKey, skb: seq<byte>)
    requires |skb| >= 20 && skb[0] / 16 == IPV4
    ensures var ihl := 4 * (skb[0] % 16);
            Agrees(o, unset, skb, ihl) <==> LengthIrrelevant(skb, ihl)
  {
    var ihl := 4 * (skb[0] % 16);
    if LengthIrrelevant(skb, ihl) {
      forall c: Connection | |c.local| == 4 && |c.remote| == 4
        ensures PacketKey(o, skb) == Some(KeyOf(o, c, unset)) <==> Belongs(c, skb, ihl)
      {
        FilterIsConnection(o, c, unset, skb);
        assert Belongs(c, skb, 20) <==> Belongs(c, skb, ihl);
      }
    } else {
      var c := ConnectionAt(skb, if TransportFits(skb, 20) then 20 else ihl);
      FilterIsConnection(o, c, unset, skb);
    }
  }

  /** The connection a packet belongs to if its ports stand behind `at` octets. */
  function ConnectionAt(skb: seq<byte>, at: nat): (c: Connection)
    requires |skb| >= 20 && skb[0] / 16 == IPV4 && skb[9] in {TCP, UDP} && TransportFits(skb, at)
    ensures |c.local| == 4 && |c.remote| == 4 && Belongs(c, skb, at)
  {
    Connection(IPV4, skb[9], skb[16..20], U16At(skb, at + 2), skb[12..16], U16At(skb, at))
  }

  /** So for headers without options the filter is the connection predicate. */
  lemma FilterExactWithoutOptions(o: Order, c: Connection, unset: FilterKey, skb: seq<byte>)
    requires |c.local| == 4 && |c.remote| == 4 && |skb| >= 20 && skb[0] % 16 == 5
    ensures PacketKey(o, skb) == Some(KeyOf(o, c, unset)) <==> Belongs(c, skb, 4 * (skb[0] % 16))
  {
    FilterIsConnection(o, c, unset, skb);
  }

  /** With options it is not: here a packet of the connection is turned down. */
  lemma OptionsMislead(o: Order, unset: FilterKey) returns (c: Connection, skb: seq<byte>)
    ensures |c.local| == 4 && |c.remote| == 4 && |skb| >= 20
    ensures Belongs(c, skb, 4 * (skb[0] % 16)) && PacketKey(o, skb) != Some(KeyOf(o, c, unset))
  {
    c := Connection(IPV4, UDP, [10, 0, 0, 1], 80, [10, 0, 0, 2], 443);
    skb := PacketWithOptions(c.remote, c.local);
    FilterIsConnection(o, c, unset, skb);
  }

  /** A UDP packet from port 443 to port 80 whose header has four octets of options. */
  lemma PacketWithOptions(src: seq<byte>, dst: seq<byte>) returns (skb: seq<byte>)
    requires |src| == 4 && |dst| == 4
    ensures |skb| == 32 && skb[0] == 0x46 && skb[9] == UDP && skb[12..16] == src && skb[16..20] == dst
    ensures U16At(skb, 20) == 0x101 && U16At(skb, 24) == 443 && U16At(skb, 26) == 80
  {
    var front: seq<byte>, options: seq<byte> := [0x46, 0, 0, 32, 0, 0, 0, 0, 64, UDP, 0, 0], [1, 1, 1, 1];
    var udp: seq<byte> := [1, 187, 0, 80, 0, 8, 0, 0];
    var addresses := front + src + dst;
    skb := addresses + options + udp;
    Inside(front, src, dst);
    Inside(front + src, dst, options + udp);
    assert skb == front + src + dst + (options + udp);
    assert skb[0] == front[0] && skb[9] == front[9];
    assert skb[12..16] == addresses[12..16];
    assert skb[20] == options[0] && skb[21] == options[1];
    assert skb[24] == udp[0] && skb[25] == udp[1] && skb[26] == udp[2] && skb[27] == udp[3];
  }

  lemma Inside(front: seq<byte>, part: seq<byte>, rest: seq<byte>)
    ensures (front + part + rest)[|front|..|front| + |part|] == part
  {}
}
