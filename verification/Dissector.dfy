/** The Wireshark dissector: a second, independent reader of the records the encoders write. */
module Dissector {
  import opened Bytes
  import opened Fragments
  import opened Protocols
  import opened Proxy
  import opened Records
  import opened TunnelHeaders
  import Headers
  import opened Wrappers

  const APPLICATION_DATA := 0x17
  const MIN_BUFFER := 25

  /** Sizes in front of the addresses, and of network protocol, transport protocol, two addresses and two ports. */
  const PROXY_AT := 10
  const SCHEME_AT := 24

  /** What the dissector shows of one record. */
  datatype Shown = Shown(version: u16, length: u16, id: byte, offset: u16, size: u16, net: byte, transport: byte,
                         src: u32, srcPort: u16, dst: u32, dstPort: u16, tcp: Option<TcpScheme>)

  /** `parse_tcp_proto_data` at `i`; nothing where a range would leave the buffer. */
  function TcpProtoData(b: seq<byte>, i: nat): Option<TcpScheme> {
    if i + 17 > |b| then None
    else
      var n := U16At(b, i);
      if n < TCP_SCHEME_FIXED || i + 2 + n > |b| then None
      else
        Some(TcpScheme(U32At(b, i + 2), U32At(b, i + 6), U16At(b, i + 10), b[i + 12], U16At(b, i + 13),
                       U16At(b, i + 15), b[i + 17..i + 2 + n]))
  }

  /** One record at `i`: its header, the builder fields behind it, the addresses, and TCP data if there is any. */
  function ShowRecord(b: seq<byte>, i: nat): Option<Shown> {
    if i + SCHEME_AT > |b| then None
    else
      var tcp := if b[i + PROXY_AT + 1] == TCP then TcpProtoData(b, i + SCHEME_AT) else None;
      if b[i + PROXY_AT + 1] == TCP && tcp.None? then None
      else
        Some(Shown(U16At(b, i + 1), U16At(b, i + 3), b[i + 5], U16At(b, i + 6), U16At(b, i + 8), b[i + 10], b[i + 11],
                   U32At(b, i + 12), U16At(b, i + 16), U32At(b, i + 18), U16At(b, i + 22), tcp))
  }

  datatype End = Done | NotOurs | OutOfRange

  datatype Dissection = Dissection(visited: seq<(nat, Shown)>, end: End)

  /** `parse_fake_tls`: records at growing offsets until the buffer ends or something else shows up. */
  function Dissect(b: seq<byte>, i: nat): Dissection
    decreases |b| - i
  {
    if i >= |b| || |b| < MIN_BUFFER then Dissection([], Done)
    else if i + RECORD_HEADER > |b| then Dissection([], OutOfRange)
    else if b[i] != APPLICATION_DATA then Dissection([], NotOurs)
    else if ShowRecord(b, i).None? then Dissection([], OutOfRange)
    else
      var next := i + RECORD_HEADER + U16At(b, i + 3);
      var later := if |b| > next then Dissect(b, next) else Dissection([], Done);
      Dissection([(i, ShowRecord(b, i).value)] + later.visited, later.end)
  }

  // ----- agreement with the framing -----

  /** An application-data record that the dissector can show by itself. */
  predicate Showable(r: seq<byte>) {
    IsRecord(r) && r[0] == APPLICATION_DATA && ShowRecord(r, 0).Some?
  }

  predicate AllShowable(records: seq<seq<byte>>) {
    forall k :: 0 <= k < |records| ==> Showable(records[k])
  }

  /** The records stand one behind the other from `i` to the end. */
  predicate RecordsAt(b: seq<byte>, i: nat, records: seq<seq<byte>>)
    decreases |records|
  {
    if records == [] then i == |b| else StandsAt(b, i, records[0]) && RecordsAt(b, i + |records[0]|, records[1..])
  }

  predicate StandsAt(b: seq<byte>, i: nat, r: seq<byte>) {
    i + |r| <= |b| && b[i..i + |r|] == r
  }

  /** The offsets the records begin at, each with what it shows by itself. */
  function Expected(i: nat, records: seq<seq<byte>>): seq<(nat, Shown)>
    requires AllShowable(records)
    decreases |records|
  {
    if records == [] then []
    else [(i, ShowRecord(records[0], 0).value)] + Expected(i + |records[0]|, records[1..])
  }

  lemma {:induction false} FlattenStands(b: seq<byte>, i: nat, records: seq<seq<byte>>)
    requires i <= |b| && b[i..] == Flatten(records)
    ensures RecordsAt(b, i, records)
    decreases |records|
  {
    if records != [] {
      var r := records[0];
      SuffixSplit(b, i, r, Flatten(records[1..]));
      assert b[i..i + |r|] == r;
      FlattenStands(b, i + |r|, records[1..]);
    }
  }

  /** Reading numbers inside a buffer is reading them inside the record that stands there. */
  lemma ReadInside(b: seq<byte>, i: nat, r: seq<byte>, k: nat)
    requires StandsAt(b, i, r)
    ensures k < |r| ==> b[i + k] == r[k]
    ensures k + 2 <= |r| ==> U16At(b, i + k) == U16At(r, k)
    ensures k + 4 <= |r| ==> U32At(b, i + k) == U32At(r, k)
  {
    assert forall j :: 0 <= j < |r| ==> b[i + j] == b[i..i + |r|][j] == r[j];
    assert k + 1 < |r| ==> b[i + (k + 1)] == r[k + 1];
    assert k + 2 < |r| ==> b[i + (k + 2)] == r[k + 2];
    assert k + 3 < |r| ==> b[i + (k + 3)] == r[k + 3];
  }

  lemma SchemeInside(b: seq<byte>, i: nat, r: seq<byte>, k: nat)
    requires StandsAt(b, i, r) && TcpProtoData(r, k).Some?
    ensures TcpProtoData(b, i + k) == TcpProtoData(r, k)
  {
    var n := U16At(r, k);
    ReadInside(b, i, r, k);
    ReadInside(b, i, r, k + 2);
    ReadInside(b, i, r, k + 6);
    ReadInside(b, i, r, k + 10);
    ReadInside(b, i, r, k + 12);
    ReadInside(b, i, r, k + 13);
    ReadInside(b, i, r, k + 15);
    SliceInside(b, i, r, k + 17, k + 2 + n);
  }

  lemma SliceInside(b: seq<byte>, i: nat, r: seq<byte>, x: nat, y: nat)
    requires StandsAt(b, i, r) && x <= y <= |r|
    ensures b[i + x..i + y] == r[x..y]
  {
    forall k | 0 <= k < y - x ensures b[i + x..i + y][k] == r[x..y][k] {
      assert b[i..i + |r|][x + k] == b[i + x + k];
    }
  }

  lemma RecordInside(b: seq<byte>, i: nat, r: seq<byte>)
    requires StandsAt(b, i, r) && ShowRecord(r, 0).Some?
    ensures ShowRecord(b, i) == ShowRecord(r, 0)
  {
    ReadInside(b, i, r, 1);
    ReadInside(b, i, r, 3);
    ReadInside(b, i, r, 5);
    ReadInside(b, i, r, 6);
    ReadInside(b, i, r, 8);
    ReadInside(b, i, r, 10);
    ReadInside(b, i, r, 11);
    ReadInside(b, i, r, 12);
    ReadInside(b, i, r, 16);
    ReadInside(b, i, r, 18);
    ReadInside(b, i, r, 22);
    if r[11] == TCP {
      SchemeInside(b, i, r, SCHEME_AT);
    }
  }

  // ----- exactly when it agrees -----

  /** Application-data records, whatever they carry. */
  predicate AllApplicationData(records: seq<seq<byte>>) {
    forall k :: 0 <= k < |records| ==> IsRecord(records[k]) && records[k][0] == APPLICATION_DATA
  }

  /** Where the records begin. */
  function Offsets(i: nat, records: seq<seq<byte>>): (r: seq<nat>)
    ensures |r| == |records|
    decreases |records|
  {
    if records == [] then [] else [i] + Offsets(i + |records[0]|, records[1..])
  }

  function OffsetsOf(visited: seq<(nat, Shown)>): (r: seq<nat>)
    ensures |r| == |visited|
  {
    seq(|visited|, k requires 0 <= k < |visited| => visited[k].0)
  }

  /** From each of these places the dissector stays inside the buffer. */
  predicate AllShown(b: seq<byte>, offsets: seq<nat>) {
    forall k :: 0 <= k < |offsets| ==> ShowRecord(b, offsets[k]).Some?
  }

  /**
   * A dissection that visits what stands at these places one after the other, each shown from where it
   * begins, up to the first from which it would leave the buffer, where it runs out of range.
   */
  predicate GetsUpTo(b: seq<byte>, d: Dissection, offsets: seq<nat>) {
    && |d.visited| <= |offsets|
    && (forall k :: 0 <= k < |d.visited| ==>
          d.visited[k].0 == offsets[k] && ShowRecord(b, offsets[k]) == Some(d.visited[k].1))
    && if |d.visited| == |offsets| then d.end == Done
       else d.end == OutOfRange && ShowRecord(b, offsets[|d.visited|]).None?
  }

  lemma GetsFurther(b: seq<byte>, i: nat, shown: Shown, later: Dissection, others: seq<nat>)
    requires GetsUpTo(b, later, others) && ShowRecord(b, i) == Some(shown)
    ensures GetsUpTo(b, Dissection([(i, shown)] + later.visited, later.end), [i] + others)
  {
    var visited, offsets := [(i, shown)] + later.visited, [i] + others;
    forall k | 0 <= k < |visited|
      ensures visited[k].0 == offsets[k] && ShowRecord(b, offsets[k]) == Some(visited[k].1)
    {
      if k > 0 {
        assert visited[k] == later.visited[k - 1] && offsets[k] == others[k - 1];
      }
    }
    assert |visited| < |offsets| ==> offsets[|visited|] == others[|later.visited|];
  }

  lemma RestApplicationData(records: seq<seq<byte>>)
    requires records != [] && AllApplicationData(records)
    ensures AllApplicationData(records[1..])
  {
    assert forall k :: 0 <= k < |records| - 1 ==> records[1..][k] == records[k + 1];
  }

  /** Among application-data records the dissector does so. */
  lemma {:induction false} DissectsUpTo(b: seq<byte>, i: nat, records: seq<seq<byte>>)
    requires |b| >= MIN_BUFFER && RecordsAt(b, i, records) && AllApplicationData(records)
    ensures GetsUpTo(b, Dissect(b, i), Offsets(i, records))
    decreases |records|
  {
    if records != [] {
      var rest, next := records[1..], i + |records[0]|;
      FirstStands(b, i, records, next);
      DissectsUpTo(b, next, rest);
      FirstVisited(b, i, records[0], next, Offsets(next, rest));
    }
  }

  lemma FirstVisited(b: seq<byte>, i: nat, r: seq<byte>, next: nat, others: seq<nat>)
    requires |b| >= MIN_BUFFER && StandsAt(b, i, r) && IsRecord(r) && r[0] == APPLICATION_DATA && next == i + |r|
    requires GetsUpTo(b, Dissect(b, next), others)
    ensures GetsUpTo(b, Dissect(b, i), [i] + others)
  {
    DissectFirst(b, i, r);
    if ShowRecord(b, i).Some? {
      GetsFurther(b, i, ShowRecord(b, i).value, Dissect(b, next), others);
    }
  }

  lemma FirstStands(b: seq<byte>, i: nat, records: seq<seq<byte>>, next: nat)
    requires records != [] && RecordsAt(b, i, records) && AllApplicationData(records) && next == i + |records[0]|
    ensures StandsAt(b, i, records[0]) && IsRecord(records[0]) && records[0][0] == APPLICATION_DATA
    ensures RecordsAt(b, next, records[1..]) && AllApplicationData(records[1..])
  {
    RestApplicationData(records);
  }

  lemma DissectFirst(b: seq<byte>, i: nat, r: seq<byte>)
    requires |b| >= MIN_BUFFER && StandsAt(b, i, r) && IsRecord(r) && r[0] == APPLICATION_DATA
    ensures var later := Dissect(b, i + |r|);
            Dissect(b, i) == if ShowRecord(b, i).None? then Dissection([], OutOfRange)
                             else Dissection([(i, ShowRecord(b, i).value)] + later.visited, later.end)
  {
    ReadInside(b, i, r, 0);
    ReadInside(b, i, r, 3);
  }

  /** The dissector got to the end of the buffer and visited exactly the records at these places. */
  predicate Agrees(d: Dissection, offsets: seq<nat>) {
    d.end == Done && OffsetsOf(d.visited) == offsets
  }

  lemma AgreesWhenShown(b: seq<byte>, d: Dissection, offsets: seq<nat>)
    requires GetsUpTo(b, d, offsets)
    ensures Agrees(d, offsets) <==> AllShown(b, offsets)
  {
    assert |OffsetsOf(d.visited)| == |d.visited|;
  }

  /**
   * The two readers of a buffer of application-data records. Iterated parsing cuts off the records; the
   * dissector ends with the buffer, having visited exactly these, if and only if from the place of each
   * it stays inside the buffer - or there is nothing, or too little for it to look at anything.
   */
  lemma DissectorAgreesExactly(records: seq<seq<byte>>)
    requires AllApplicationData(records)
    ensures var b, offsets := Flatten(records), Offsets(0, records);
            && Frames(b) == Framing(records, [])
            && (Agrees(Dissect(b, 0), offsets) <==> records == [] || (|b| >= MIN_BUFFER && AllShown(b, offsets)))
  {
    var b, offsets := Flatten(records), Offsets(0, records);
    assert b[0..] == b && b + [] == b;
    FramesOfRecords(records, []);
    FlattenStands(b, 0, records);
    if |b| >= MIN_BUFFER {
      DissectsUpTo(b, 0, records);
      AgreesWhenShown(b, Dissect(b, 0), offsets);
    } else if records != [] {
      assert |offsets| > 0 && |OffsetsOf(Dissect(b, 0).visited)| == 0;
    }
  }

  /**
   * Records the dissector can show by themselves are among those, and then it shows of each what it
   * shows of the record alone.
   */
  lemma {:induction false} DissectRecords(b: seq<byte>, i: nat, records: seq<seq<byte>>)
    requires |b| >= MIN_BUFFER && RecordsAt(b, i, records) && AllShowable(records)
    ensures Dissect(b, i) == Dissection(Expected(i, records), Done)
    decreases |records|
  {
    if records != [] {
      RestShowable(records);
      DissectRecords(b, i + |records[0]|, records[1..]);
      ShownFirst(b, i, records[0], Expected(i + |records[0]|, records[1..]));
    }
  }

  lemma ShownFirst(b: seq<byte>, i: nat, r: seq<byte>, others: seq<(nat, Shown)>)
    requires |b| >= MIN_BUFFER && StandsAt(b, i, r) && Showable(r)
    requires Dissect(b, i + |r|) == Dissection(others, Done)
    ensures Dissect(b, i) == Dissection([(i, ShowRecord(r, 0).value)] + others, Done)
  {
    DissectAlone(b, i, r);
  }

  lemma RestShowable(records: seq<seq<byte>>)
    requires records != [] && AllShowable(records)
    ensures AllShowable(records[1..])
  {
    forall k | 0 <= k < |records| - 1 ensures Showable(records[1..][k]) {
      assert records[1..][k] == records[k + 1];
    }
  }

  lemma DissectAlone(b: seq<byte>, i: nat, r: seq<byte>)
    requires |b| >= MIN_BUFFER && StandsAt(b, i, r) && Showable(r)
    ensures var later := Dissect(b, i + |r|);
            Dissect(b, i) == Dissection([(i, ShowRecord(r, 0).value)] + later.visited, later.end)
  {
    RecordInside(b, i, r);
    DissectFirst(b, i, r);
  }

  lemma DissectorAgreesWithFraming(records: seq<seq<byte>>)
    requires AllShowable(records) && |Flatten(records)| >= MIN_BUFFER
    ensures Frames(Flatten(records)) == Framing(records, [])
    ensures Dissect(Flatten(records), 0) == Dissection(Expected(0, records), Done)
  {
    var b := Flatten(records);
    assert b[0..] == b;
    DissectorAgreesExactly(records);
    FlattenStands(b, 0, records);
    DissectRecords(b, 0, records);
  }

  // ----- later fragments -----

  /** Payload that reads like addresses with TCP in front of a scheme too short for its own fields. */
  predicate LooksLikeShortScheme(payload: seq<byte>) {
    |payload| >= 16 && payload[1] == TCP && U16At(payload, 14) < TCP_SCHEME_FIXED
  }

  /**
   * A later fragment of a split packet carries bare payload, which the dissector takes for addresses and
   * a transport scheme. Such a payload runs it out of range wherever the record stands: the record is
   * framed like any other, and neither it nor any behind it is visited.
   */
  lemma LaterFragmentNotShown(id: byte, offset: u16, size: u16, payload: seq<byte>, b: seq<byte>, i: nat)
    requires LooksLikeShortScheme(payload) && |payload| + BUILDER_HEADER + RECORD_HEADER <= 0xFFFF
    requires |b| >= MIN_BUFFER && StandsAt(b, i, Record(Fragment(id, offset, size, payload)))
    ensures IsRecord(Record(Fragment(id, offset, size, payload)))
    ensures ShowRecord(b, i).None? && Dissect(b, i) == Dissection([], OutOfRange)
  {
    var f := Fragment(id, offset, size, payload);
    var r := Record(f);
    RecordIsRecord(f);
    PayloadInside(f, id, offset, size, payload);
    ReadInside(b, i, r, PROXY_AT + 1);
    ReadInside(b, i, r, SCHEME_AT);
    DissectFirst(b, i, r);
  }

  lemma PayloadInside(f: seq<byte>, id: byte, offset: u16, size: u16, payload: seq<byte>)
    requires f == Fragment(id, offset, size, payload) && |payload| >= 16
    ensures Record(f)[PROXY_AT + 1] == payload[1] && U16At(Record(f), SCHEME_AT) == U16At(payload, 14)
  {
    var r := Record(f);
    RecordIsRecord(f);
    FragmentFields(id, offset, size, payload);
    assert r[RECORD_HEADER..] == f && f[BUILDER_HEADER..] == payload;
    assert r[11] == f[6] && r[24] == f[19] && r[25] == f[20];
  }

  lemma {:induction false} ExpectedOffsets(i: nat, records: seq<seq<byte>>, k: nat)
    requires AllShowable(records) && k < |records|
    ensures |Expected(i, records)| == |records|
    ensures Expected(i, records)[k] == (i + |Flatten(records[..k])|, ShowRecord(records[k], 0).value)
    decreases |records|
  {
    if k > 0 {
      ExpectedOffsets(i + |records[0]|, records[1..], k - 1);
      assert records[..k][1..] == records[1..][..k - 1];
    } else if |records| > 1 {
      ExpectedOffsets(i + |records[0]|, records[1..], 0);
    } else {
      assert records[1..] == [];
    }
  }

  // ----- agreement with the encoders -----

  /** The record of a first fragment that carries an IPv4 TCP header. */
  function FirstRecord(id: byte, offset: u16, size: u16, p: QTunnelProxy, chunk: seq<byte>): seq<byte> {
    Record(Fragment(id, offset, size, ProxyBytes(p) + chunk))
  }

  /**
   * What the dissector shows of such a record is what the encoders put in: the record's own length, the
   * builder fields, protocols, addresses and ports, and the scheme of the TCP header, options included.
   */
  lemma ShowsWhatWasWritten(id: byte, offset: u16, size: u16, p: QTunnelProxy, h: seq<byte>, chunk: seq<byte>)
    requires WellFormed(p) && p.net == IPV4 && p.transport == TCP && Headers.IsTcpHeader(h) && p.proto == EncodeTcp(h)
    requires |FirstRecord(id, offset, size, p, chunk)| <= 0xFFFF
    ensures var r := FirstRecord(id, offset, size, p, chunk);
            && Showable(r)
            && ShowRecord(r, 0).value
               == Shown(0x0303, |r| - RECORD_HEADER, id, offset, size, IPV4, TCP, U32At(p.src, 0), p.srcPort,
                        U32At(p.dst, 0), p.dstPort, Some(DecodeTcp(EncodeTcp(h))))
  {
    var r := FirstRecord(id, offset, size, p, chunk);
    FrontShown(id, offset, size, p, chunk);
    AddressesShown(id, offset, size, p, chunk);
    assert r[SCHEME_AT..] == p.proto + chunk;
    TcpSchemeRoundTrip(h);
    SchemeShown(r, SCHEME_AT, h, chunk);
  }

  /** Of a first fragment with another transport protocol it shows everything but the scheme. */
  lemma ShowsOtherTransports(id: byte, offset: u16, size: u16, p: QTunnelProxy, chunk: seq<byte>)
    requires WellFormed(p) && p.net == IPV4 && p.transport != TCP
    requires |FirstRecord(id, offset, size, p, chunk)| <= 0xFFFF
    ensures var r := FirstRecord(id, offset, size, p, chunk);
            && Showable(r)
            && ShowRecord(r, 0).value
               == Shown(0x0303, |r| - RECORD_HEADER, id, offset, size, IPV4, p.transport, U32At(p.src, 0), p.srcPort,
                        U32At(p.dst, 0), p.dstPort, None)
  {
    FrontShown(id, offset, size, p, chunk);
    AddressesShown(id, offset, size, p, chunk);
  }

  /** What it shows of a first fragment with IPv4 addresses, in numbers. */
  function ShownOf(id: byte, offset: u16, size: u16, p: QTunnelProxy, length: u16): Shown
    requires WellFormed(p) && p.net == 4 && (p.transport == 6 ==> |p.proto| >= 17)
  {
    Shown(0x0303, length, id, offset, size, 4, p.transport, U32At(p.src, 0), p.srcPort, U32At(p.dst, 0), p.dstPort,
          if p.transport == 6 then Some(DecodeTcp(p.proto)) else None)
  }

  /** However short the payload, a first fragment with IPv4 addresses is visited when it comes alone. */
  lemma FirstFragmentVisited(id: byte, offset: u16, size: u16, p: QTunnelProxy, h: seq<byte>, chunk: seq<byte>)
    requires WellFormed(p) && p.net == 4
    requires p.transport == 6 ==> Headers.IsTcpHeader(h) && p.proto == EncodeTcp(h)
    requires |FirstRecord(id, offset, size, p, chunk)| <= 0xFFFF
    ensures p.transport == 6 ==> |p.proto| >= 17
    ensures var r := FirstRecord(id, offset, size, p, chunk);
            Dissect(r, 0) == Dissection([(0, ShownOf(id, offset, size, p, |r| - 5))], Done)
  {
    var r := FirstRecord(id, offset, size, p, chunk);
    if p.transport == TCP {
      EncodedLength(h);
      ShowsWhatWasWritten(id, offset, size, p, h, chunk);
    } else {
      ShowsOtherTransports(id, offset, size, p, chunk);
    }
    assert r[0..|r|] == r;
    DissectAlone(r, 0, r);
  }

  /**
   * Of a first fragment with IPv6 addresses, if it shows anything, it shows octets of the source address
   * for all addresses and ports.
   */
  lemma Ipv6Misread(id: byte, offset: u16, size: u16, p: QTunnelProxy, chunk: seq<byte>)
    requires WellFormed(p) && p.net == IPV6
    requires |FirstRecord(id, offset, size, p, chunk)| <= 0xFFFF
    ensures var shown := ShowRecord(FirstRecord(id, offset, size, p, chunk), 0);
            shown.Some? ==>
              && shown.value.net == IPV6 && shown.value.transport == p.transport
              && shown.value.src == U32At(p.src, 0) && shown.value.srcPort == U16At(p.src, 4)
              && shown.value.dst == U32At(p.src, 6) && shown.value.dstPort == U16At(p.src, 10)
  {
    var r := FirstRecord(id, offset, size, p, chunk);
    FrontShown(id, offset, size, p, chunk);
    SourceInside(r, p, chunk);
    ReadInside(r, 12, p.src, 0);
    ReadInside(r, 12, p.src, 4);
    ReadInside(r, 12, p.src, 6);
    ReadInside(r, 12, p.src, 10);
  }

  lemma SourceInside(r: seq<byte>, p: QTunnelProxy, chunk: seq<byte>)
    requires |r| >= PROXY_AT && r[PROXY_AT..] == ProxyBytes(p) + chunk
    ensures r[10] == p.net && r[11] == p.transport && StandsAt(r, 12, p.src)
  {
    var t, behind := r[PROXY_AT..], Put16(p.srcPort) + p.dst + Put16(p.dstPort) + p.proto + chunk;
    assert t == [p.net, p.transport] + (p.src + behind);
    assert r[10] == t[0] && r[11] == t[1];
    assert r[12..] == t[2..] == p.src + behind;
    SuffixSplit(r, 12, p.src, behind);
  }

  lemma FrontShown(id: byte, offset: u16, size: u16, p: QTunnelProxy, chunk: seq<byte>)
    requires |FirstRecord(id, offset, size, p, chunk)| <= 0xFFFF
    ensures var r := FirstRecord(id, offset, size, p, chunk);
            && IsRecord(r) && r[0] == APPLICATION_DATA && U16At(r, 1) == 0x0303 && U16At(r, 3) == |r| - RECORD_HEADER
            && r[5] == id && U16At(r, 6) == offset && U16At(r, 8) == size && r[PROXY_AT..] == ProxyBytes(p) + chunk
  {
    var f := Fragment(id, offset, size, ProxyBytes(p) + chunk);
    var r := Record(f);
    RecordIsRecord(f);
    FragmentFields(id, offset, size, ProxyBytes(p) + chunk);
    assert r[RECORD_HEADER..] == f;
    assert r[5] == f[0] && U16At(r, 6) == U16At(f, 1) && U16At(r, 8) == U16At(f, 3);
    assert r[PROXY_AT..] == f[BUILDER_HEADER..];
  }

  lemma AddressesShown(id: byte, offset: u16, size: u16, p: QTunnelProxy, chunk: seq<byte>)
    requires |p.src| == 4 && |p.dst| == 4
    ensures var r := FirstRecord(id, offset, size, p, chunk);
            && |r| >= SCHEME_AT && r[10] == p.net && r[11] == p.transport
            && U32At(r, 12) == U32At(p.src, 0) && U16At(r, 16) == p.srcPort
            && U32At(r, 18) == U32At(p.dst, 0) && U16At(r, 22) == p.dstPort && r[SCHEME_AT..] == p.proto + chunk
  {
    var t := ProxyBytes(p) + chunk;
    var f := Fragment(id, offset, size, t);
    var r, rest := Record(f), p.proto + chunk;
    assert r[PROXY_AT..] == t by {
      FragmentFields(id, offset, size, t);
      RecordIsRecord(f);
      assert r[PROXY_AT..] == r[RECORD_HEADER..][BUILDER_HEADER..];
    }
    EndpointsRead(p, rest);
    var d := EndpointBytes(p) + rest;
    assert t == [p.net, p.transport] + d;
    AddressesInside(r, d, p);
  }

  lemma AddressesInside(r: seq<byte>, d: seq<byte>, p: QTunnelProxy)
    requires |r| >= SCHEME_AT && r[PROXY_AT..] == [p.net, p.transport] + d && |p.src| == |p.dst| == 4
    requires d[..4] == p.src && U16At(d, 4) == p.srcPort && d[6..10] == p.dst && U16At(d, 10) == p.dstPort
    ensures r[10] == p.net && r[11] == p.transport && r[SCHEME_AT..] == d[12..]
    ensures U32At(r, 12) == U32At(p.src, 0) && U16At(r, 16) == p.srcPort
    ensures U32At(r, 18) == U32At(p.dst, 0) && U16At(r, 22) == p.dstPort
  {
    var t := r[PROXY_AT..];
    assert r[10] == t[0] && r[11] == t[1];
    assert r[12..12 + |d|] == t[2..] == d;
    ReadInside(r, 12, d, 0);
    ReadInside(r, 12, d, 4);
    ReadInside(r, 12, d, 6);
    ReadInside(r, 12, d, 10);
    AddressRead(d, 0, p.src);
    AddressRead(d, 6, p.dst);
    SliceInside(r, 12, d, 12, |d|);
    assert |r| == 12 + |d|;
  }

  lemma AddressRead(d: seq<byte>, i: nat, addr: seq<byte>)
    requires |addr| == 4 && i + 4 <= |d| && d[i..i + 4] == addr
    ensures U32At(d, i) == U32At(addr, 0)
  {
    var s := d[i..i + 4];
    assert s[0] == d[i] && s[1] == d[i + 1] && s[2] == d[i + 2] && s[3] == d[i + 3];
  }

  lemma OwnScheme(h: seq<byte>)
    requires Headers.IsTcpHeader(h)
    ensures TcpProtoData(EncodeTcp(h), 0) == Some(DecodeTcp(EncodeTcp(h)))
  {
    var e := EncodeTcp(h);
    EncodedLength(h);
    assert U16At(e, 0) == |h| - 5;
    assert e[17..2 + U16At(e, 0)] == e[17..];
  }

  lemma SchemeShown(r: seq<byte>, i: nat, h: seq<byte>, chunk: seq<byte>)
    requires Headers.IsTcpHeader(h) && i <= |r| && r[i..] == EncodeTcp(h) + chunk
    ensures TcpProtoData(r, i) == Some(DecodeTcp(EncodeTcp(h)))
  {
    var e := EncodeTcp(h);
    EncodedLength(h);
    SuffixSplit(r, i, e, chunk);
    assert StandsAt(r, i, e);
    OwnScheme(h);
    SchemeInside(r, i, e, 0);
  }
}
