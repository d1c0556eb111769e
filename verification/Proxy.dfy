/** The addresses and transport data that travel in front of the payload of a tunnelled packet. */
module Proxy {
  import opened Bytes
  import opened Protocols

  /** `proto` is the transport scheme with its own two-octet length in front. */
  datatype QTunnelProxy = QTunnelProxy(net: byte, transport: byte, src: seq<byte>, srcPort: u16,
                                       dst: seq<byte>, dstPort: u16, proto: seq<byte>)

  /** Addresses of the size the network protocol asks for, and a transport scheme that counts its octets. */
  predicate WellFormed(p: QTunnelProxy) {
    && p.net in {IPV4, IPV6}
    && |p.src| == |p.dst| == (if p.net == IPV4 then 4 else 16)
    && 2 <= |p.proto| == 2 + U16At(p.proto, 0)
  }

  /** The order in which the application-data generator writes the fields. */
  function ProxyBytes(p: QTunnelProxy): (r: seq<byte>)
    ensures |r| == 6 + |p.src| + |p.dst| + |p.proto|
  {
    [p.net, p.transport] + EndpointBytes(p) + p.proto
  }

  function EndpointBytes(p: QTunnelProxy): (r: seq<byte>)
    ensures |r| == 4 + |p.src| + |p.dst|
  {
    p.src + Put16(p.srcPort) + p.dst + Put16(p.dstPort)
  }

  /** `get_proxy_data_size`, a 16-bit sum that trusts the length field of the transport data. */
  function ProxyDataSize(p: QTunnelProxy): u16
    requires |p.proto| != 1
  {
    (6 + |p.src| + |p.dst| + (if p.proto == [] then 0 else U16At(p.proto, 0)) + 2) % 0x1_0000
  }

  lemma ProxyDataSizeIsLength(p: QTunnelProxy)
    requires WellFormed(p) && |ProxyBytes(p)| <= 0xFFFF
    ensures ProxyDataSize(p) == |ProxyBytes(p)|
  {}

  /** `OutOfBounds` stands for the reads past the end of a packet too short for what it announces. */
  datatype QTunnelData = Parsed(proxy: QTunnelProxy, payload: seq<byte>) | OutOfBounds

  const NO_ADDRESS: seq<byte> := [0, 0, 0, 0, 0, 0, 0, 0, 0, 0, 0, 0, 0, 0, 0, 0]

  /** The constructor of `QTunnelData`. */
  function ParseTunnel(data: seq<byte>): QTunnelData {
    if |data| < 2 then OutOfBounds
    else
      var net, d := data[0], data[2..];
      var size := if net == IPV4 then 4 else 16;
      var meta := 2 * size + 4;
      if |d| < meta + 2 then OutOfBounds
      else
        var rest := d[meta..];
        var proto := U16At(rest, 0) + 2;
        if |rest| < proto then OutOfBounds
        else if net in {IPV4, IPV6} then
          Parsed(QTunnelProxy(net, data[1], d[..size], U16At(d, size),
                              d[size + 2..2 * size + 2], U16At(d, 2 * size + 2), rest[..proto]),
                 rest[proto..])
        else
          Parsed(QTunnelProxy(net, data[1], NO_ADDRESS, 0, NO_ADDRESS, 0, rest[..proto]), rest[proto..])
  }

  lemma EndpointsRead(p: QTunnelProxy, rest: seq<byte>)
    requires |p.src| == |p.dst|
    ensures var d, size := EndpointBytes(p) + rest, |p.src|;
            && d[..size] == p.src && U16At(d, size) == p.srcPort
            && d[size + 2..2 * size + 2] == p.dst && U16At(d, 2 * size + 2) == p.dstPort
            && d[2 * size + 4..] == rest
  {
    var d, size := EndpointBytes(p) + rest, |p.src|;
    var a, b := Put16(p.srcPort), Put16(p.dstPort);
    assert d[size] == a[0] && d[size + 1] == a[1];
    assert d[2 * size + 2] == b[0] && d[2 * size + 3] == b[1];
  }

  lemma EndpointsWritten(p: QTunnelProxy, d: seq<byte>)
    requires |p.src| == |p.dst| && 2 * |p.src| + 4 <= |d|
    requires p.src == d[..|p.src|] && p.srcPort == U16At(d, |p.src|)
    requires p.dst == d[|p.src| + 2..2 * |p.src| + 2] && p.dstPort == U16At(d, 2 * |p.src| + 2)
    ensures EndpointBytes(p) == d[..2 * |p.src| + 4]
  {
    var size := |p.src|;
    PutReadBack(d, size);
    PutReadBack(d, 2 * size + 2);
    assert d[..2 * size + 4]
           == d[..size] + d[size..size + 2] + d[size + 2..2 * size + 2] + d[2 * size + 2..2 * size + 4];
  }

  /** Parsing undoes writing: what was written in front of a payload is read off it again. */
  lemma ParseUndoesWrite(p: QTunnelProxy, payload: seq<byte>)
    requires WellFormed(p)
    ensures ParseTunnel(ProxyBytes(p) + payload) == Parsed(p, payload)
  {
    var data, rest := ProxyBytes(p) + payload, p.proto + payload;
    EndpointsRead(p, rest);
    assert data[0] == p.net && data[1] == p.transport && data[2..] == EndpointBytes(p) + rest;
    SchemeRead(p.proto, payload);
  }

  lemma SchemeRead(proto: seq<byte>, payload: seq<byte>)
    requires |proto| >= 2
    ensures var rest := proto + payload;
            U16At(rest, 0) == U16At(proto, 0) && rest[..|proto|] == proto && rest[|proto|..] == payload
  {
  }

  /** ... and the other way round: an IPv4 or IPv6 packet that parses is what writing its parts gives. */
  lemma WriteUndoesParse(data: seq<byte>)
    requires ParseTunnel(data).Parsed? && data[0] in {IPV4, IPV6}
    ensures var t := ParseTunnel(data);
            WellFormed(t.proxy) && ProxyBytes(t.proxy) + t.payload == data
  {
    var t := ParseTunnel(data);
    var p, d, meta := t.proxy, data[2..], 2 * |t.proxy.src| + 4;
    EndpointsWritten(p, d);
    var rest := d[meta..];
    TakeDrop(rest, |p.proto|);
    TakeDrop(d, meta);
    assert data == [p.net, p.transport] + d;
    InOneGo([p.net, p.transport], d[..meta], p.proto, t.payload);
  }

  /** Of other network protocols nothing is read but the scheme behind 36 octets, which are skipped. */
  lemma UnknownNetwork(data: seq<byte>)
    requires ParseTunnel(data).Parsed? && data[0] != 4 && data[0] != 6
    ensures var t := ParseTunnel(data);
            && t.proxy.src == t.proxy.dst == seq(16, i => 0) && t.proxy.srcPort == t.proxy.dstPort == 0
            && |data| >= 40 && |t.proxy.proto| == U16At(data, 38) + 2 && t.proxy.proto + t.payload == data[38..]
  {
    var d, zeros := data[2..], seq(16, i => 0);
    assert NO_ADDRESS == zeros;
    assert d[36..] == data[38..];
  }

  lemma InOneGo(a: seq<byte>, b: seq<byte>, c: seq<byte>, d: seq<byte>)
    ensures a + (b + (c + d)) == a + b + c + d
  {}
}
