/**
 * The server's loop over the records of one receive: they are decoded until one of them completes no
 * packet or ends its connection. A packet the server cannot generate a header for leaves it without a
 * defined result.
 */
module ServerLoop {
  import opened Bytes
  import opened Fragments
  import opened Manager
  import opened Outgoing
  import opened Tunnel
  import opened Delivery
  import opened Stream
  import opened Protocols
  import opened Proxy
  import opened Wrappers
  import Headers
  import TunnelHeaders

  // ----- one receive -----

  /** FIN or RST among the flags. */
  predicate FinOrRst(flags: u16) {
    flags % 2 == 1 || flags / 4 % 2 == 1
  }

  /** A TCP packet whose scheme carries FIN or RST. */
  predicate Resets(p: QTunnelProxy) {
    p.transport == TCP && |p.proto| >= 17 && FinOrRst(p.proto[11])
  }

  predicate EndsConnection(packet: seq<byte>) {
    var t := ParseTunnel(packet);
    t.Parsed? && Resets(t.proxy)
  }

  /** That is `is_reset_connection_packet` of the header generated from the scheme, whatever the ports. */
  lemma ResetsAsGenerated(p: QTunnelProxy, srcPort: u16, dstPort: u16)
    requires p.transport == TCP && |p.proto| >= 17
    ensures Resets(p) <==> FinOrRst(TunnelHeaders.TcpFlags(TunnelHeaders.RebuildTcp(p.proto, srcPort, dstPort)))
  {
    var r := TunnelHeaders.RebuildTcp(p.proto, srcPort, dstPort);
    assert r[13] == p.proto[11];
    FlagsOfOctet(r);
  }

  lemma FlagsOfOctet(h: seq<byte>)
    requires |h| >= 20
    ensures FinOrRst(TunnelHeaders.TcpFlags(h)) <==> FinOrRst(h[13])
  {
    SynAside(h[13]);
  }

  /**
   * And for a header that was encoded it means the RST and FIN bits of its flags octet, the third from the
   * right and the last (section 3.1 of RFC 9293).
   */
  lemma ResetsByFlags(p: QTunnelProxy, h: seq<byte>, high: nat, rst: nat, syn: nat, fin: nat)
    requires Headers.IsTcpHeader(h) && p.transport == 6 && p.proto == TunnelHeaders.EncodeTcp(h)
    requires rst <= 1 && syn <= 1 && fin <= 1 && h[13] == 8 * high + 4 * rst + 2 * syn + fin
    ensures Resets(p) <==> rst == 1 || fin == 1
  {
    TunnelHeaders.EncodedLength(h);
    TunnelHeaders.SchemeMiddle(h);
    TunnelHeaders.FlagOctet(h);
    assert p.proto[11] == TunnelHeaders.TcpFlags(h);
    FlagsOfOctet(h);
    FlagBits(h[13], high, rst, syn, fin);
  }

  lemma FlagBits(flags: byte, high: nat, rst: nat, syn: nat, fin: nat)
    requires rst <= 1 && syn <= 1 && fin <= 1 && flags == 8 * high + 4 * rst + 2 * syn + fin
    ensures FinOrRst(flags) <==> rst == 1 || fin == 1
  {}

  /** Adding SYN to an octet without it leaves FIN and RST alone. */
  lemma SynAside(flags: byte)
    ensures flags / 2 % 2 == 0 ==> FinOrRst(flags + 2) == FinOrRst(flags)
  {}

  /** The server can generate the headers to send it on with. */
  predicate CanServe(packet: seq<byte>) {
    var t := ParseTunnel(packet);
    t.Parsed? && Servable(t.proxy)
  }

  predicate AllServed(delivered: seq<(byte, seq<byte>)>) {
    forall k :: 0 <= k < |delivered| ==> CanServe(delivered[k].1)
  }

  /**
   * The server decodes the objects of one receive until one completes no packet or what it completes
   * ends a connection; the rest is dropped. This is the loop as long as it can send on what it decodes.
   */
  datatype Batch = Batch(outputs: Outputs, seen: nat)

  function ServerBatch(packets: Packets, fs: seq<seq<byte>>): Batch
    decreases |fs|
  {
    if fs == [] then Batch(Outputs(packets, []), 0)
    else
      var step := Step(packets, fs[0]);
      if step.output == None then Batch(Outputs(step.packets, []), 1)
      else
        var now := [(fs[0][0], step.output.value)];
        if EndsConnection(step.output.value) then Batch(Outputs(step.packets, now), 1)
        else
          var later := ServerBatch(step.packets, fs[1..]);
          Batch(Outputs(later.outputs.packets, now + later.outputs.delivered), later.seen + 1)
  }

  /** The loop itself: without a result as soon as a packet cannot be sent on. */
  function ServeBatch(packets: Packets, fs: seq<seq<byte>>): Option<Batch>
    decreases |fs|
  {
    if fs == [] then Some(Batch(Outputs(packets, []), 0))
    else
      var step := Step(packets, fs[0]);
      if step.output == None then Some(Batch(Outputs(step.packets, []), 1))
      else if !CanServe(step.output.value) then None
      else
        var now := [(fs[0][0], step.output.value)];
        if EndsConnection(step.output.value) then Some(Batch(Outputs(step.packets, now), 1))
        else
          var later := ServeBatch(step.packets, fs[1..]);
          if later == None then None
          else
            Some(Batch(Outputs(later.value.outputs.packets, now + later.value.outputs.delivered), later.value.seen + 1))
  }

  /** It has a result exactly when all it would hand on can be served. */
  lemma {:induction false} ServesOrNot(packets: Packets, fs: seq<seq<byte>>)
    ensures ServeBatch(packets, fs)
            == if AllServed(ServerBatch(packets, fs).outputs.delivered) then Some(ServerBatch(packets, fs)) else None
    decreases |fs|
  {
    if fs != [] {
      var step := Step(packets, fs[0]);
      if step.output != None {
        var now, later := (fs[0][0], step.output.value), ServerBatch(step.packets, fs[1..]);
        ServesOrNot(step.packets, fs[1..]);
        OneServed(now);
        AllServedAppend([now], later.outputs.delivered);
      }
    }
  }

  lemma OneServed(d: (byte, seq<byte>))
    ensures AllServed([d]) <==> CanServe(d.1)
  {
    assert AllServed([d]) ==> CanServe([d][0].1);
  }

  lemma AllServedAppend(a: seq<(byte, seq<byte>)>, b: seq<(byte, seq<byte>)>)
    ensures AllServed(a + b) <==> AllServed(a) && AllServed(b)
  {
    var all := a + b;
    assert forall k :: 0 <= k < |a| ==> a[k] == all[k];
    assert forall k :: 0 <= k < |b| ==> b[k] == all[|a| + k];
  }

  /** The fragments of a split packet that arrive in one receive are lost but for the first, which stays behind. */
  lemma SplitPacketLostInOneBatch(packets: Packets, id: byte, p: Packet, c: Config)
    requires id !in packets && Travels(p, c) && Count(|p.payload|, c) > 1
    ensures var b := ServerBatch(packets, FragmentsOf(id, p, c));
            && b.seen == 1 && b.outputs.delivered == []
            && id in b.outputs.packets && !b.outputs.packets[id].full
  {
    ViewFits(p, c);
    var s, fs := View(p, c), FragmentsOf(id, p, c);
    BodyFields(id, p.proxy, p.payload, s, 0);
    BodyIs(id, p.proxy, p.payload, s, 0);
    EndsGrow(s, |p.payload|, 1);
    NewEntry(packets, fs[0]);
  }

  /**
   * What is left behind under an id spoils the next packet that gets it: sent in one fragment, it goes in
   * front of the first zero octet of what is there, comes out only if the sizes happen to add up, and
   * never as it was sent.
   */
  lemma StaleEntrySpoils(packets: Packets, id: byte, p: Packet, c: Config)
    requires id in packets && !packets[id].full && packets[id].data != []
    requires Travels(p, c) && Count(|p.payload|, c) == 1
    ensures |FragmentsOf(id, p, c)| == 1
    ensures var b, whole := packets[id], ProxyBytes(p.proxy) + Sent(p, c).payload;
            var step, mixed := Step(packets, FragmentsOf(id, p, c)[0]), InsertAt(b.data, FindValue(b.data, 0), whole);
            && step.output != Some(whole)
            && if |mixed| == b.originalSize then step == Outcome(packets - {id}, Some(mixed))
               else step == Outcome(packets[id := b.(data := mixed)], None)
  {
    ViewFits(p, c);
    var f := FragmentsOf(id, p, c)[0];
    BodyFields(id, p.proxy, p.payload, View(p, c), 0);
    Part(f);
    assert p.payload[0..Tunnel.Covered(|p.payload|, c)] == p.payload[..Tunnel.Covered(|p.payload|, c)];
  }

  /** What the loop gives is a run of the fragments it sees. */
  lemma {:induction false} BatchRunsWhatItSees(packets: Packets, fs: seq<seq<byte>>)
    ensures ServerBatch(packets, fs).seen <= |fs|
    ensures ServerBatch(packets, fs).outputs == Run(packets, fs[..ServerBatch(packets, fs).seen])
    decreases |fs|
  {
    if fs != [] {
      var step, b := Step(packets, fs[0]), ServerBatch(packets, fs);
      if step.output == None || EndsConnection(step.output.value) {
        assert fs[..1][1..] == [];
      } else {
        BatchRunsWhatItSees(step.packets, fs[1..]);
        assert fs[..b.seen][1..] == fs[1..][..b.seen - 1];
      }
    }
  }

  // ----- octets are neither lost nor made -----

  /** The octets fragments carry behind their headers. */
  function Weight(fs: seq<seq<byte>>): nat {
    if fs == [] then 0 else (if |fs[0]| > BUILDER_HEADER then |fs[0]| - BUILDER_HEADER else 0) + Weight(fs[1..])
  }

  function DeliveredSize(delivered: seq<(byte, seq<byte>)>): nat {
    if delivered == [] then 0 else |delivered[0].1| + DeliveredSize(delivered[1..])
  }

  /** The octets of the packets in progress with ids below `n`. */
  function InProgress(packets: Packets, n: nat): nat {
    if n == 0 then 0 else InProgress(packets, n - 1) + InProgressOf(packets, n - 1)
  }

  function InProgressOf(packets: Packets, id: int): nat {
    if id in packets then |packets[id].data| else 0
  }

  predicate AllAcceptable(fs: seq<seq<byte>>) {
    forall i :: 0 <= i < |fs| ==> Acceptable(fs[i])
  }

  lemma {:induction false} InProgressChanges(before: Packets, after: Packets, id: byte, n: nat)
    requires forall k: byte :: k != id ==> InProgressOf(after, k) == InProgressOf(before, k)
    requires n <= 0x100
    ensures InProgress(after, n)
            == InProgress(before, n) + if id < n then InProgressOf(after, id) - InProgressOf(before, id) else 0
  {
    if n > 0 {
      InProgressChanges(before, after, id, n - 1);
    }
  }

  lemma {:induction false} NothingInProgress(n: nat)
    ensures InProgress(map[], n) == 0
  {
    if n > 0 {
      NothingInProgress(n - 1);
    }
  }

  /** A fragment's octets go to the packet in progress, and all of that goes out when it is full. */
  lemma StepConserves(packets: Packets, f: seq<byte>, n: nat)
    requires Acceptable(f) && n == 0x100
    ensures var step := Step(packets, f);
            InProgress(step.packets, n) + (if step.output == None then 0 else |step.output.value|)
            == InProgress(packets, n) + |f| - BUILDER_HEADER
  {
    var step, b := Step(packets, f), Grown(packets, f);
    assert |b.data| == InProgressOf(packets, f[0]) + |f| - BUILDER_HEADER by {
      Part(f);
    }
    InProgressChanges(packets, step.packets, f[0], n);
  }

  lemma {:induction false} RunConserves(packets: Packets, fs: seq<seq<byte>>, n: nat)
    requires AllAcceptable(fs) && n == 0x100
    ensures var r := Run(packets, fs);
            InProgress(r.packets, n) + DeliveredSize(r.delivered) == InProgress(packets, n) + Weight(fs)
    decreases |fs|
  {
    if fs != [] {
      var step := Step(packets, fs[0]);
      StepConserves(packets, fs[0], n);
      RunConserves(step.packets, fs[1..], n);
      if step.output != None {
        var r := Run(packets, fs);
        assert r.delivered[1..] == Run(step.packets, fs[1..]).delivered;
      }
    }
  }

  lemma {:induction false} WeightAppend(a: seq<seq<byte>>, b: seq<seq<byte>>)
    ensures Weight(a + b) == Weight(a) + Weight(b)
    decreases |a|
  {
    if a == [] {
      assert a + b == b;
    } else {
      assert (a + b)[1..] == a[1..] + b;
      WeightAppend(a[1..], b);
    }
  }

  lemma {:induction false} HeavierThanEmpty(fs: seq<seq<byte>>)
    requires AllAcceptable(fs)
    ensures Weight(fs) >= |fs|
  {
    if fs != [] {
      assert forall i :: 0 <= i < |fs| - 1 ==> fs[1..][i] == fs[i + 1];
      HeavierThanEmpty(fs[1..]);
    }
  }

  lemma AcceptableParts(a: seq<seq<byte>>, b: seq<seq<byte>>)
    requires AllAcceptable(a + b)
    ensures AllAcceptable(a) && AllAcceptable(b)
  {
    assert forall i :: 0 <= i < |a| ==> a[i] == (a + b)[i];
    assert forall i :: 0 <= i < |b| ==> b[i] == (a + b)[|a| + i];
  }

  // ----- behind which fragments the loop goes on -----

  /** For each of the fragments of one packet whether the loop goes on behind it: only the last completes it. */
  function GoOnInPacket(count: nat, resets: bool): (r: seq<bool>)
    ensures |r| == count && forall i :: 0 <= i < count ==> r[i] == (i == count - 1 && !resets)
  {
    seq(count, i => i == count - 1 && !resets)
  }

  /** The same for the fragments of the whole stream. */
  function GoOn(ps: seq<Packet>, c: Config): (r: seq<bool>)
    requires AllTravel(ps, c)
    decreases |ps|
  {
    if ps == [] then []
    else GoOnInPacket(Count(|ps[0].payload|, c), Resets(ps[0].proxy)) + GoOn(ps[1..], c)
  }

  lemma FragmentsAcceptable(id: byte, p: Packet, c: Config)
    requires Travels(p, c)
    ensures AllAcceptable(FragmentsOf(id, p, c)) && |FragmentsOf(id, p, c)| == Count(|p.payload|, c) > 0
  {
    ViewFits(p, c);
    forall i | 0 <= i < |FragmentsOf(id, p, c)| ensures Acceptable(FragmentsOf(id, p, c)[i]) {
      BodyFields(id, p.proxy, p.payload, View(p, c), i);
    }
  }

  lemma {:induction false} AllFragmentsAcceptable(id: byte, ps: seq<Packet>, c: Config)
    requires AllTravel(ps, c)
    ensures AllAcceptable(AllFragments(id, ps, c)) && |AllFragments(id, ps, c)| == |GoOn(ps, c)|
    decreases |ps|
  {
    if ps != [] {
      FragmentsAcceptable(id, ps[0], c);
      AllFragmentsAcceptable(NextId(id), ps[1..], c);
    }
  }

  /** The octets of a packet come out with its last fragment, so no earlier one can bring anything out. */
  lemma NothingBeforeTheLast(id: byte, p: Packet, c: Config, k: nat)
    requires Travels(p, c) && k < |FragmentsOf(id, p, c)|
    ensures Run(map[], FragmentsOf(id, p, c)[..k]).delivered == []
  {
    var fs := FragmentsOf(id, p, c);
    FragmentsAcceptable(id, p, c);
    PacketArrives(map[], id, p, c);
    assert fs == fs[..k] + fs[k..];
    AcceptableParts(fs[..k], fs[k..]);
    OneComesLast(fs[..k], fs[k..]);
  }

  lemma OneComesLast(front: seq<seq<byte>>, back: seq<seq<byte>>)
    requires AllAcceptable(front) && AllAcceptable(back) && back != []
    requires Run(map[], front + back).packets == map[] && |Run(map[], front + back).delivered| == 1
    ensures Run(map[], front).delivered == []
  {
    var n := 0x100;
    var first := Run(map[], front);
    RunAppend(map[], front, back);
    RunConserves(map[], front, n);
    RunConserves(first.packets, back, n);
    NothingInProgress(n);
    HeavierThanEmpty(back);
  }

  /** The packets in progress after the first `k` fragments. */
  function State(fs: seq<seq<byte>>, k: nat): Packets
    requires k <= |fs|
  {
    Run(map[], fs[..k]).packets
  }

  /** What fragment `k` does when all before it were seen. */
  function StepAt(fs: seq<seq<byte>>, k: nat): Outcome
    requires k < |fs|
  {
    Step(State(fs, k), fs[k])
  }

  /** It completes a packet, and one that does not end a connection. */
  predicate GoesOn(step: Outcome) {
    step.output != None && !EndsConnection(step.output.value)
  }

  predicate GoesOnBehind(fs: seq<seq<byte>>, k: nat)
    requires k < |fs|
  {
    GoesOn(StepAt(fs, k))
  }

  /** Of a packet sent alone, the last fragment and no other brings it out. */
  lemma LastBringsOut(id: byte, p: Packet, c: Config, k: nat)
    requires Travels(p, c) && k < |FragmentsOf(id, p, c)|
    ensures StepAt(FragmentsOf(id, p, c), k).output
            == if k == |FragmentsOf(id, p, c)| - 1 then Some(ProxyBytes(p.proxy) + Sent(p, c).payload) else None
  {
    var fs := FragmentsOf(id, p, c);
    NothingBeforeTheLast(id, p, c, k);
    RunNext(fs, k);
    if k + 1 < |fs| {
      NothingBeforeTheLast(id, p, c, k + 1);
    } else {
      assert fs[..k + 1] == fs;
      PacketArrives(map[], id, p, c);
    }
  }

  lemma RunNext(fs: seq<seq<byte>>, k: nat)
    requires k < |fs|
    ensures State(fs, k + 1) == StepAt(fs, k).packets
    ensures Run(map[], fs[..k]).delivered == [] ==>
              var out := StepAt(fs, k).output;
              Run(map[], fs[..k + 1]).delivered == if out == None then [] else [(fs[k][0], out.value)]
  {
    var none: seq<seq<byte>> := [];
    assert fs[..k + 1] == fs[..k] + [fs[k]] && [fs[k]][1..] == none;
    RunAppend(map[], fs[..k], [fs[k]]);
  }

  /** So behind it alone the loop goes on, unless the packet ends its connection. */
  lemma LastGoesOn(id: byte, p: Packet, c: Config, k: nat)
    requires Travels(p, c) && k < |FragmentsOf(id, p, c)|
    ensures GoesOnBehind(FragmentsOf(id, p, c), k) <==> k == |FragmentsOf(id, p, c)| - 1 && !Resets(p.proxy)
  {
    LastBringsOut(id, p, c, k);
    ParseUndoesWrite(p.proxy, Sent(p, c).payload);
  }

  /** More fragments behind change nothing, and a whole packet in front leaves no trace. */
  lemma SameInFront(a: seq<seq<byte>>, b: seq<seq<byte>>, k: nat)
    requires k < |a|
    ensures GoesOnBehind(a + b, k) <==> GoesOnBehind(a, k)
  {
    assert (a + b)[..k] == a[..k];
  }

  lemma SameBehind(id: byte, p: Packet, c: Config, b: seq<seq<byte>>, k: nat, j: nat)
    requires Travels(p, c) && j < |b| && k == |FragmentsOf(id, p, c)| + j
    ensures GoesOnBehind(FragmentsOf(id, p, c) + b, k) <==> GoesOnBehind(b, j)
  {
    var a := FragmentsOf(id, p, c);
    PacketArrives(map[], id, p, c);
    RunAppend(map[], a, b[..j]);
    assert (a + b)[..k] == a + b[..j] && (a + b)[k] == b[j];
  }

  /** The same in the stream of all packets. */
  lemma {:induction false} StreamGoesOn(id: byte, ps: seq<Packet>, c: Config, k: nat)
    requires AllTravel(ps, c) && k < |AllFragments(id, ps, c)| == |GoOn(ps, c)|
    ensures GoesOnBehind(AllFragments(id, ps, c), k) <==> GoOn(ps, c)[k]
    decreases |ps|
  {
    if k < |FragmentsOf(id, ps[0], c)| {
      FirstPacketGoesOn(id, ps, c, k);
    } else {
      var j := k - |FragmentsOf(id, ps[0], c)|;
      LaterAgree(id, ps, c, k, j);
      StreamGoesOn(NextId(id), ps[1..], c, j);
    }
  }

  lemma LaterAgree(id: byte, ps: seq<Packet>, c: Config, k: nat, j: nat)
    requires AllTravel(ps, c) && ps != [] && k < |AllFragments(id, ps, c)| == |GoOn(ps, c)|
    requires k == |FragmentsOf(id, ps[0], c)| + j
    ensures AllTravel(ps[1..], c) && j < |AllFragments(NextId(id), ps[1..], c)| == |GoOn(ps[1..], c)|
    ensures GoesOnBehind(AllFragments(id, ps, c), k) <==> GoesOnBehind(AllFragments(NextId(id), ps[1..], c), j)
    ensures GoOn(ps, c)[k] == GoOn(ps[1..], c)[j]
  {
    AllFragmentsAcceptable(NextId(id), ps[1..], c);
    FragmentsAcceptable(id, ps[0], c);
    SameBehind(id, ps[0], c, AllFragments(NextId(id), ps[1..], c), k, j);
    LaterGoOn(ps, c, k, j);
  }

  lemma FirstPacketGoesOn(id: byte, ps: seq<Packet>, c: Config, k: nat)
    requires AllTravel(ps, c) && ps != [] && k < |FragmentsOf(id, ps[0], c)|
    ensures k < |AllFragments(id, ps, c)| && k < |GoOn(ps, c)|
    ensures GoesOnBehind(AllFragments(id, ps, c), k) <==> GoOn(ps, c)[k]
  {
    FragmentsAcceptable(id, ps[0], c);
    LastGoesOn(id, ps[0], c, k);
    SameInFront(FragmentsOf(id, ps[0], c), AllFragments(NextId(id), ps[1..], c), k);
    ReadJoined(GoOnInPacket(Count(|ps[0].payload|, c), Resets(ps[0].proxy)), GoOn(ps[1..], c), k);
  }

  lemma LaterGoOn(ps: seq<Packet>, c: Config, k: nat, j: nat)
    requires AllTravel(ps, c) && ps != [] && k < |GoOn(ps, c)| && k == Count(|ps[0].payload|, c) + j
    ensures j < |GoOn(ps[1..], c)| && GoOn(ps, c)[k] == GoOn(ps[1..], c)[j]
  {
    ReadJoined(GoOnInPacket(Count(|ps[0].payload|, c), Resets(ps[0].proxy)), GoOn(ps[1..], c), k);
  }

  lemma ReadJoined(a: seq<bool>, b: seq<bool>, k: nat)
    requires k < |a + b|
    ensures (a + b)[k] == if k < |a| then a[k] else b[k - |a|]
  {}

  // ----- batches -----

  function Concat(batches: seq<seq<seq<byte>>>): seq<seq<byte>> {
    if batches == [] then [] else batches[0] + Concat(batches[1..])
  }

  function Sizes(batches: seq<seq<seq<byte>>>): (r: seq<nat>)
    ensures |r| == |batches|
  {
    if batches == [] then [] else [|batches[0]|] + Sizes(batches[1..])
  }

  /** The server loop batch after batch, the packets in progress carried on. */
  function BatchSession(packets: Packets, batches: seq<seq<seq<byte>>>): Outputs
    decreases |batches|
  {
    if batches == [] then Outputs(packets, [])
    else
      var now := ServerBatch(packets, batches[0]).outputs;
      var later := BatchSession(now.packets, batches[1..]);
      Outputs(later.packets, now.delivered + later.delivered)
  }

  function ServeBatches(packets: Packets, batches: seq<seq<seq<byte>>>): Option<Outputs>
    decreases |batches|
  {
    if batches == [] then Some(Outputs(packets, []))
    else
      var now := ServeBatch(packets, batches[0]);
      if now == None then None
      else
        var later := ServeBatches(now.value.outputs.packets, batches[1..]);
        if later == None then None
        else Some(Outputs(later.value.packets, now.value.outputs.delivered + later.value.delivered))
  }

  lemma {:induction false} ServesBatchesOrNot(packets: Packets, batches: seq<seq<seq<byte>>>)
    ensures ServeBatches(packets, batches)
            == if AllServed(BatchSession(packets, batches).delivered) then Some(BatchSession(packets, batches))
               else None
    decreases |batches|
  {
    if batches != [] {
      var now := ServerBatch(packets, batches[0]).outputs;
      ServesOrNot(packets, batches[0]);
      ServesBatchesOrNot(now.packets, batches[1..]);
      AllServedAppend(now.delivered, BatchSession(now.packets, batches[1..]).delivered);
    }
  }

  /** The fragments the loop gets to see. */
  function Seen(packets: Packets, batches: seq<seq<seq<byte>>>): seq<seq<byte>>
    decreases |batches|
  {
    if batches == [] then []
    else
      var now := ServerBatch(packets, batches[0]);
      BatchRunsWhatItSees(packets, batches[0]);
      batches[0][..now.seen] + Seen(now.outputs.packets, batches[1..])
  }

  lemma {:induction false} SessionRunsWhatItSees(packets: Packets, batches: seq<seq<seq<byte>>>)
    ensures BatchSession(packets, batches) == Run(packets, Seen(packets, batches))
    decreases |batches|
  {
    if batches != [] {
      var now := ServerBatch(packets, batches[0]);
      BatchRunsWhatItSees(packets, batches[0]);
      SessionRunsWhatItSees(now.outputs.packets, batches[1..]);
      RunAppend(packets, batches[0][..now.seen], Seen(now.outputs.packets, batches[1..]));
    }
  }

  /** Of the fragments numbered `from` up to `to`, the loop goes on behind all but the last. */
  predicate OnlyLastMayStop(goOn: seq<bool>, from: nat, to: nat)
    requires from <= to <= |goOn|
  {
    forall i :: from <= i < to - 1 ==> goOn[i]
  }

  /**
   * From fragment `from` on: the loop goes on behind all but the last of the `sizes[0]` that come first,
   * and so on for the later sizes, so that no fragment stands in a batch behind one that stops the loop.
   */
  predicate NothingBehindStops(sizes: seq<nat>, goOn: seq<bool>, from: nat)
    decreases |sizes|
  {
    sizes != [] ==>
      && from + sizes[0] <= |goOn|
      && OnlyLastMayStop(goOn, from, from + sizes[0])
      && NothingBehindStops(sizes[1..], goOn, from + sizes[0])
  }

  /** `goOn` says of fragment `k` whether the loop goes on behind it when all before it were seen. */
  predicate Matches(fs: seq<seq<byte>>, goOn: seq<bool>, k: nat)
    requires k < |fs| == |goOn|
  {
    GoesOnBehind(fs, k) <==> goOn[k]
  }

  ghost predicate GoOnMatches(fs: seq<seq<byte>>, goOn: seq<bool>) {
    |goOn| == |fs| && forall k :: 0 <= k < |fs| ==> Matches(fs, goOn, k)
  }

  /** One batch met in step: all of it is seen exactly when only its last fragment may stop the loop. */
  lemma {:induction false} BatchInStep(fs: seq<seq<byte>>, goOn: seq<bool>, from: nat, to: nat, batch: seq<seq<byte>>)
    requires GoOnMatches(fs, goOn) && from <= to <= |fs| && batch == fs[from..to]
    ensures var now := ServerBatch(State(fs, from), batch);
            && (now.seen == |batch| <==> OnlyLastMayStop(goOn, from, to))
            && (now.seen == |batch| ==> now.outputs.packets == State(fs, to))
    decreases |batch|
  {
    if batch != [] {
      var f, later, next := fs[from], fs[from + 1..to], from + 1;
      assert batch == [f] + later;
      FirstInStep(fs, goOn, from);
      BatchFirst(State(fs, from), f, later);
      FirstMayStop(goOn, from, next, to);
      if goOn[from] {
        BatchInStep(fs, goOn, next, to, later);
      }
    }
  }

  lemma FirstInStep(fs: seq<seq<byte>>, goOn: seq<bool>, k: nat)
    requires GoOnMatches(fs, goOn) && k < |fs|
    ensures GoesOn(Step(State(fs, k), fs[k])) <==> goOn[k]
    ensures Step(State(fs, k), fs[k]).packets == State(fs, k + 1)
  {
    assert Matches(fs, goOn, k);
    RunNext(fs, k);
  }

  lemma BatchFirst(packets: Packets, f: seq<byte>, later: seq<seq<byte>>)
    ensures var step, b := Step(packets, f), ServerBatch(packets, [f] + later);
            if !GoesOn(step) then b.seen == 1 && b.outputs.packets == step.packets
            else b.seen == ServerBatch(step.packets, later).seen + 1
                 && b.outputs.packets == ServerBatch(step.packets, later).outputs.packets
  {
    assert ([f] + later)[1..] == later;
  }

  lemma FirstMayStop(goOn: seq<bool>, from: nat, next: nat, to: nat)
    requires from + 1 == next <= to <= |goOn|
    ensures OnlyLastMayStop(goOn, from, to) <==> next == to || (goOn[from] && OnlyLastMayStop(goOn, next, to))
  {}

  lemma {:induction false} SeenWeighsNoMore(packets: Packets, batches: seq<seq<seq<byte>>>)
    ensures Weight(Seen(packets, batches)) <= Weight(Concat(batches))
    decreases |batches|
  {
    if batches != [] {
      var now := ServerBatch(packets, batches[0]);
      BatchRunsWhatItSees(packets, batches[0]);
      SeenWeighsNoMore(now.outputs.packets, batches[1..]);
      assert batches[0] == batches[0][..now.seen] + batches[0][now.seen..];
      WeightAppend(batches[0][..now.seen], batches[0][now.seen..]);
      WeightAppend(batches[0][..now.seen], Seen(now.outputs.packets, batches[1..]));
      WeightAppend(batches[0], Concat(batches[1..]));
    }
  }

  /** Dropping the end of a batch loses weight. */
  lemma DroppedWeighs(batch: seq<seq<byte>>, seen: nat, seenLater: seq<seq<byte>>, later: seq<seq<byte>>)
    requires AllAcceptable(batch) && seen < |batch| && Weight(seenLater) <= Weight(later)
    ensures Weight(batch[..seen] + seenLater) < Weight(batch + later)
  {
    assert batch == batch[..seen] + batch[seen..];
    WeightAppend(batch[..seen], batch[seen..]);
    WeightAppend(batch[..seen], seenLater);
    WeightAppend(batch, later);
    HeavierThanEmpty(batch[seen..]);
  }

  /** The batches make up the fragments from number `from` on. */
  predicate BatchesAt(fs: seq<seq<byte>>, from: nat, batches: seq<seq<seq<byte>>>)
    decreases |batches|
  {
    if batches == [] then from == |fs|
    else
      var n := |batches[0]|;
      from + n <= |fs| && batches[0] == fs[from..from + n] && BatchesAt(fs, from + n, batches[1..])
  }

  lemma {:induction false} ConcatAt(fs: seq<seq<byte>>, from: nat, batches: seq<seq<seq<byte>>>)
    requires from <= |fs| && Concat(batches) == fs[from..]
    ensures BatchesAt(fs, from, batches)
    decreases |batches|
  {
    if batches != [] {
      var n, rest := |batches[0]|, fs[from..];
      assert rest[..n] == batches[0] && rest[n..] == Concat(batches[1..]);
      assert fs[from + n..] == rest[n..] && fs[from..from + n] == rest[..n];
      ConcatAt(fs, from + n, batches[1..]);
    }
  }

  /** In every batch all of it is seen exactly when only its last may stop the loop, as long as that has been so. */
  predicate InStep(packets: Packets, batches: seq<seq<seq<byte>>>, goOn: seq<bool>, from: nat)
    decreases |batches|
  {
    batches != [] ==>
      var now, n := ServerBatch(packets, batches[0]), |batches[0]|;
      && from + n <= |goOn|
      && (now.seen == n <==> OnlyLastMayStop(goOn, from, from + n))
      && (now.seen == n ==> InStep(now.outputs.packets, batches[1..], goOn, from + n))
  }

  lemma {:induction false} BatchesInStep(fs: seq<seq<byte>>, goOn: seq<bool>, from: nat, batches: seq<seq<seq<byte>>>)
    requires GoOnMatches(fs, goOn) && from <= |fs| && BatchesAt(fs, from, batches)
    ensures InStep(State(fs, from), batches, goOn, from)
    decreases |batches|
  {
    if batches != [] {
      var to := from + |batches[0]|;
      BatchInStep(fs, goOn, from, to, batches[0]);
      BatchesInStep(fs, goOn, to, batches[1..]);
    }
  }

  /** Everything is seen when nothing stands behind a stop; otherwise what is seen weighs less. */
  lemma {:induction false} SeenAllOrLess(packets: Packets, batches: seq<seq<seq<byte>>>, goOn: seq<bool>, from: nat)
    requires InStep(packets, batches, goOn, from) && AllAcceptable(Concat(batches))
    ensures if NothingBehindStops(Sizes(batches), goOn, from) then Seen(packets, batches) == Concat(batches)
            else Weight(Seen(packets, batches)) < Weight(Concat(batches))
    decreases |batches|
  {
    if batches != [] {
      var batch, later := batches[0], Concat(batches[1..]);
      var now := ServerBatch(packets, batch);
      var seenLater := Seen(now.outputs.packets, batches[1..]);
      StopsOfFirst(batches, goOn, from);
      SeenFirst(packets, batches);
      AcceptableParts(batch, later);
      if now.seen == |batch| {
        SeenAllOrLess(now.outputs.packets, batches[1..], goOn, from + |batch|);
        WholeBatch(batch, seenLater, later);
      } else {
        SeenWeighsNoMore(now.outputs.packets, batches[1..]);
        DroppedWeighs(batch, now.seen, seenLater, later);
      }
    }
  }

  lemma SeenFirst(packets: Packets, batches: seq<seq<seq<byte>>>)
    requires batches != []
    ensures var now := ServerBatch(packets, batches[0]);
            && now.seen <= |batches[0]|
            && Seen(packets, batches) == batches[0][..now.seen] + Seen(now.outputs.packets, batches[1..])
  {
    BatchRunsWhatItSees(packets, batches[0]);
  }

  lemma StopsOfFirst(batches: seq<seq<seq<byte>>>, goOn: seq<bool>, from: nat)
    requires batches != [] && from + |batches[0]| <= |goOn|
    ensures NothingBehindStops(Sizes(batches), goOn, from)
            <==> OnlyLastMayStop(goOn, from, from + |batches[0]|)
                 && NothingBehindStops(Sizes(batches[1..]), goOn, from + |batches[0]|)
  {
    assert Sizes(batches)[1..] == Sizes(batches[1..]);
  }

  lemma WholeBatch(batch: seq<seq<byte>>, seenLater: seq<seq<byte>>, later: seq<seq<byte>>)
    ensures seenLater == later ==> batch[..|batch|] + seenLater == batch + later
    ensures Weight(seenLater) < Weight(later) ==> Weight(batch[..|batch|] + seenLater) < Weight(batch + later)
  {
    assert batch[..|batch|] == batch;
    WeightAppend(batch, seenLater);
    WeightAppend(batch, later);
  }

  /** As long as all can be served, that decides what comes out. */
  lemma BatchesDecode(id: byte, ps: seq<Packet>, c: Config, batches: seq<seq<seq<byte>>>)
    requires AllTravel(ps, c) && Concat(batches) == AllFragments(id, ps, c)
    ensures BatchSession(map[], batches) == Outputs(map[], Arrivals(id, ps, c))
            <==> NothingBehindStops(Sizes(batches), GoOn(ps, c), 0)
  {
    var fs, goOn, n := AllFragments(id, ps, c), GoOn(ps, c), 0x100;
    AllFragmentsAcceptable(id, ps, c);
    StreamMatches(id, ps, c);
    assert fs[0..] == fs;
    ConcatAt(fs, 0, batches);
    BatchesInStep(fs, goOn, 0, batches);
    assert State(fs, 0) == map[];
    SeenAllOrLess(map[], batches, goOn, 0);
    SessionRunsWhatItSees(map[], batches);
    PacketsArrive(id, ps, c);
    var seen := Seen(map[], batches);
    if !NothingBehindStops(Sizes(batches), goOn, 0) {
      SeenAcceptable(map[], batches);
      RunConserves(map[], seen, n);
      RunConserves(map[], fs, n);
    }
  }

  lemma StreamMatches(id: byte, ps: seq<Packet>, c: Config)
    requires AllTravel(ps, c)
    ensures GoOnMatches(AllFragments(id, ps, c), GoOn(ps, c))
  {
    var fs := AllFragments(id, ps, c);
    AllFragmentsAcceptable(id, ps, c);
    forall k | 0 <= k < |fs|
      ensures Matches(fs, GoOn(ps, c), k)
    {
      StreamGoesOn(id, ps, c, k);
    }
  }

  predicate AllServable(ps: seq<Packet>) {
    forall k :: 0 <= k < |ps| ==> Servable(ps[k].proxy)
  }

  lemma ArrivalsServed(id: byte, ps: seq<Packet>, c: Config)
    requires AllTravel(ps, c)
    ensures AllServed(Arrivals(id, ps, c)) <==> AllServable(ps)
  {
    forall k | 0 <= k < |ps|
      ensures CanServe(Arrivals(id, ps, c)[k].1) <==> Servable(ps[k].proxy)
    {
      ArrivalsParse(id, ps, c, k);
    }
  }

  /**
   * The stream in batches: the server gets exactly the packets sent, each once and in order, if and
   * only if it can serve them all and no fragment stands in a batch behind one that stops the loop.
   */
  lemma BatchesDeliver(id: byte, ps: seq<Packet>, c: Config, batches: seq<seq<seq<byte>>>)
    requires AllTravel(ps, c) && Concat(batches) == AllFragments(id, ps, c)
    ensures ServeBatches(map[], batches) == Some(Outputs(map[], Arrivals(id, ps, c)))
            <==> AllServable(ps) && NothingBehindStops(Sizes(batches), GoOn(ps, c), 0)
  {
    BatchesDecode(id, ps, c, batches);
    ServesBatchesOrNot(map[], batches);
    ArrivalsServed(id, ps, c);
  }

  lemma {:induction false} SeenAcceptable(packets: Packets, batches: seq<seq<seq<byte>>>)
    requires AllAcceptable(Concat(batches))
    ensures AllAcceptable(Seen(packets, batches))
    decreases |batches|
  {
    if batches != [] {
      var now := ServerBatch(packets, batches[0]);
      BatchRunsWhatItSees(packets, batches[0]);
      AcceptableParts(batches[0], Concat(batches[1..]));
      SeenAcceptable(now.outputs.packets, batches[1..]);
    }
  }

  // ----- the whole stream in one go -----

  /** No packet is split, and none but the last ends its connection. */
  predicate NothingStops(ps: seq<Packet>, c: Config)
    requires AllTravel(ps, c)
  {
    forall i :: 0 <= i < |ps| ==> Count(|ps[i].payload|, c) == 1 && (i < |ps| - 1 ==> !Resets(ps[i].proxy))
  }

  /** Decoded as one batch, the stream comes out whole exactly under that condition, if all can be served. */
  lemma OneBatchDelivers(id: byte, ps: seq<Packet>, c: Config)
    requires AllTravel(ps, c)
    ensures var b := ServeBatch(map[], AllFragments(id, ps, c));
            b.Some? && b.value.outputs == Outputs(map[], Arrivals(id, ps, c))
            <==> AllServable(ps) && NothingStops(ps, c)
  {
    var fs := AllFragments(id, ps, c);
    var batches := [fs];
    assert batches[1..] == [];
    assert Concat(batches) == fs + [] == fs;
    AllFragmentsAcceptable(id, ps, c);
    BatchesDecode(id, ps, c, batches);
    OnlyBatch(fs);
    ServesOrNot(map[], fs);
    ArrivalsServed(id, ps, c);
    assert Sizes(batches) == [|fs|] && Sizes(batches)[1..] == [];
    assert NothingBehindStops(Sizes(batches), GoOn(ps, c), 0) <==> OnlyLastMayStop(GoOn(ps, c), 0, |fs|);
    if ps != [] {
      OnlyLastStops(ps, c);
    }
  }

  lemma OnlyBatch(fs: seq<seq<byte>>)
    ensures BatchSession(map[], [fs]) == ServerBatch(map[], fs).outputs
  {
    var now := ServerBatch(map[], fs).outputs;
    assert [fs][1..] == [];
    assert now.delivered + [] == now.delivered;
  }

  lemma {:induction false} OnlyLastStops(ps: seq<Packet>, c: Config)
    requires AllTravel(ps, c) && ps != []
    ensures OnlyLastMayStop(GoOn(ps, c), 0, |GoOn(ps, c)|) <==> NothingStops(ps, c)
    decreases |ps|
  {
    var count, resets, rest := Count(|ps[0].payload|, c), Resets(ps[0].proxy), ps[1..];
    var first, later := GoOnInPacket(count, resets), GoOn(rest, c);
    FragmentsAcceptable(0, ps[0], c);
    OnePacket(count, resets);
    assert GoOn(ps, c) == first + later;
    if rest == [] {
      assert first + later == first;
    } else {
      OnlyLastStops(rest, c);
      SomeFragments(rest, c);
      FirstThenLater(first, later);
      FirstPacketThenRest(ps, c);
    }
  }

  lemma OnePacket(count: nat, resets: bool)
    requires count > 0
    ensures var r := GoOnInPacket(count, resets);
            && (OnlyLastMayStop(r, 0, |r|) <==> count == 1)
            && ((forall i :: 0 <= i < |r| ==> r[i]) <==> count == 1 && !resets)
  {
    var r := GoOnInPacket(count, resets);
    assert r[0] == (0 == count - 1 && !resets);
  }

  lemma FirstPacketThenRest(ps: seq<Packet>, c: Config)
    requires AllTravel(ps, c) && |ps| > 1
    ensures NothingStops(ps, c)
            <==> Count(|ps[0].payload|, c) == 1 && !Resets(ps[0].proxy) && NothingStops(ps[1..], c)
  {
    assert forall i :: 0 <= i < |ps| - 1 ==> ps[1..][i] == ps[i + 1];
    assert forall i :: 0 < i < |ps| ==> ps[i] == ps[1..][i - 1];
  }

  lemma FirstThenLater(first: seq<bool>, later: seq<bool>)
    requires later != []
    ensures OnlyLastMayStop(first + later, 0, |first + later|)
            <==> (forall i :: 0 <= i < |first| ==> first[i]) && OnlyLastMayStop(later, 0, |later|)
  {
    var all := first + later;
    assert forall i :: 0 <= i < |first| ==> all[i] == first[i];
    assert forall i :: 0 <= i < |later| ==> later[i] == all[|first| + i];
  }

  lemma SomeFragments(ps: seq<Packet>, c: Config)
    requires AllTravel(ps, c) && ps != []
    ensures |GoOn(ps, c)| > 0
  {
    FragmentsAcceptable(0, ps[0], c);
  }
}
