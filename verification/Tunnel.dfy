/** Both ends of the tunnel: packets split, labelled and sealed in records; records opened and rebuilt. */
module Tunnel {
  import opened Bytes
  import opened Fragments
  import opened Manager
  import opened Proxy
  import opened Records
  import opened Wrappers

  // ----- sending -----

  datatype Config = Config(maxSize: u32, splitSize: u16)

  /** The view has a first piece, and every piece is a stretch of the packet. */
  predicate Readable(s: Split, n: nat) {
    s.separators != [] && forall i :: 0 <= i < |s.separators| ==> 0 <= s.separators[i].0 <= s.separators[i].1 <= n
  }

  /** Fragment `i`: the first carries the proxy data and counts it into the size, later ones do neither. */
  function Body(id: byte, p: QTunnelProxy, payload: seq<byte>, s: Split, i: nat): seq<byte>
    requires Readable(s, |payload|) && i < |s.separators| && |p.proto| != 1
  {
    var (b, e) := s.separators[i];
    if i == 0 then
      Fragment(id, b % 0x1_0000, (s.dataSize + ProxyDataSize(p)) % 0x1_0000, ProxyBytes(p) + payload[b..e])
    else
      Fragment(id, b % 0x1_0000, s.dataSize, payload[b..e])
  }

  function Bodies(id: byte, p: QTunnelProxy, payload: seq<byte>, s: Split): (r: seq<seq<byte>>)
    requires Readable(s, |payload|) && |p.proto| != 1
    ensures |r| == |s.separators|
  {
    seq(|s.separators|, i requires 0 <= i < |s.separators| => Body(id, p, payload, s, i))
  }

  /** Every fragment in a record of its own. */
  function Sealed(bodies: seq<seq<byte>>): (r: seq<seq<byte>>)
    ensures |r| == |bodies|
  {
    seq(|bodies|, i requires 0 <= i < |bodies| => Record(bodies[i]))
  }

  /** How many octets of a packet of `n` are sent, as `Count` pieces of `PieceSize`. */
  function Covered(n: nat, c: Config): nat
    requires Splits(n, c)
  {
    Count(n, c) * PieceSize(n, c)
  }

  /** The packet is short enough to travel whole, or the split loop yields pieces and stays inside it. */
  predicate Splits(n: nat, c: Config) {
    n < c.maxSize
    || (0 < c.splitSize <= n && PieceCount(n, c.splitSize) > 0 && LoopStaysInside(n, c.splitSize))
  }

  function Count(n: nat, c: Config): nat
    requires Splits(n, c)
  {
    if n < c.maxSize then 1 else PieceCount(n, c.splitSize)
  }

  function PieceSize(n: nat, c: Config): nat
    requires Splits(n, c)
  {
    if n < c.maxSize then n else c.splitSize
  }

  /** The split view of such a packet: adjacent pieces, their total announced. */
  lemma ViewOfPacket(n: u16, c: Config)
    requires Splits(n, c)
    ensures Covered(n, c) <= n
    ensures SplitView(n, c.maxSize, c.splitSize) == Split(Pieces(Count(n, c), PieceSize(n, c)), Covered(n, c))
    ensures Readable(SplitView(n, c.maxSize, c.splitSize), n)
  {
    if n >= c.maxSize {
      SplitsIntoPieces(n, c.maxSize, c.splitSize);
    } else {
      assert Pieces(1, n) == [] + [(0, n as int)];
    }
    PiecesAt(Count(n, c), PieceSize(n, c));
  }

  lemma {:induction false} PiecesAt(count: nat, piece: nat)
    ensures forall i :: 0 <= i < count ==> Pieces(count, piece)[i] == (i * piece, i * piece + piece)
    ensures forall i :: 0 <= i < count ==> 0 <= i * piece <= i * piece + piece <= count * piece
  {
    if count > 0 {
      PiecesAt(count - 1, piece);
      assert count * piece == (count - 1) * piece + piece;
    }
  }

  /** The records of a packet one behind the other, with separators of 16 bits. */
  class SplittedPacket {
    var data: seq<byte>
    var separators: seq<(u16, u16)>

    constructor ()
      ensures Holds([])
    {
      data, separators := [], [];
    }

    ghost predicate Holds(parts: seq<seq<byte>>)
      reads this
    {
      data == Flatten(parts) && separators == Cuts(0, parts)
    }

    method AddData(bytes: seq<byte>, ghost parts: seq<seq<byte>>)
      requires Holds(parts)
      modifies this
      ensures Holds(parts + [bytes])
    {
      FlattenAppend(parts, [bytes]);
      assert Flatten([bytes]) == bytes + [];
      CutsAppend(0, parts, bytes);
      var start := |data|;
      data := data + bytes;
      separators := separators + [Cut(start, |bytes|)];
    }
  }

  /** Both ends of a separator are cut to 16 bits. */
  function Cut(start: nat, size: nat): (u16, u16) {
    (start % 0x1_0000, (start + size) % 0x1_0000)
  }

  function Cuts(start: nat, parts: seq<seq<byte>>): (r: seq<(u16, u16)>)
    ensures |r| == |parts|
    decreases |parts|
  {
    if parts == [] then [] else [Cut(start, |parts[0]|)] + Cuts(start + |parts[0]|, parts[1..])
  }

  lemma {:induction false} CutsAppend(start: nat, parts: seq<seq<byte>>, bytes: seq<byte>)
    ensures Cuts(start, parts + [bytes]) == Cuts(start, parts) + [Cut(start + |Flatten(parts)|, |bytes|)]
    decreases |parts|
  {
    if parts == [] {
      assert parts + [bytes] == [bytes] && [bytes][1..] == parts;
    } else {
      assert (parts + [bytes])[1..] == parts[1..] + [bytes];
      CutsAppend(start + |parts[0]|, parts[1..], bytes);
    }
  }

  /** `get_raw_packet`: nothing to send when the end has wrapped to before the start. */
  function RawPacket(data: seq<byte>, cut: (u16, u16)): Option<seq<byte>> {
    if cut.0 <= cut.1 <= |data| then Some(data[cut.0..cut.1]) else None
  }

  function RawPackets(data: seq<byte>, cuts: seq<(u16, u16)>): seq<Option<seq<byte>>> {
    if cuts == [] then [] else [RawPacket(data, cuts[0])] + RawPackets(data, cuts[1..])
  }

  /** What the send loop is meant to send. */
  function AllOf(parts: seq<seq<byte>>): seq<Option<seq<byte>>> {
    if parts == [] then [] else [Some(parts[0])] + AllOf(parts[1..])
  }

  /** Every record is sent as it was added exactly when all of them together stay below 64 KiB. */
  lemma SentIntact(parts: seq<seq<byte>>)
    requires forall i :: 0 <= i < |parts| ==> parts[i] != []
    ensures RawPackets(Flatten(parts), Cuts(0, parts)) == AllOf(parts) <==> |Flatten(parts)| <= 0xFFFF
  {
    assert [] + Flatten(parts) == Flatten(parts);
    SentFrom([], parts);
  }

  lemma {:induction false} SentFrom(before: seq<byte>, parts: seq<seq<byte>>)
    requires |before| <= 0xFFFF && forall i :: 0 <= i < |parts| ==> parts[i] != []
    ensures RawPackets(before + Flatten(parts), Cuts(|before|, parts)) == AllOf(parts)
            <==> |before| + |Flatten(parts)| <= 0xFFFF
    decreases |parts|
  {
    if parts != [] {
      var part, after := parts[0], Flatten(parts[1..]);
      var data, cuts := before + Flatten(parts), Cuts(|before|, parts);
      assert data == before + part + after;
      CutOfPart(before, part, after);
      assert RawPackets(data, cuts) == [RawPacket(data, cuts[0])] + RawPackets(data, cuts[1..]);
      if |before| + |part| <= 0xFFFF {
        SentFrom(before + part, parts[1..]);
        var sent, wanted := RawPackets(data, cuts), AllOf(parts);
        assert sent[1..] == RawPackets(data, cuts[1..]) && wanted[1..] == AllOf(parts[1..]);
      } else {
        assert RawPackets(data, cuts)[0] != AllOf(parts)[0];
      }
    }
  }

  lemma CutOfPart(before: seq<byte>, part: seq<byte>, after: seq<byte>)
    requires |before| <= 0xFFFF && part != []
    ensures RawPacket(before + part + after, Cut(|before|, |part|)) == Some(part) <==> |before| + |part| <= 0xFFFF
  {
    var data, end := before + part + after, (|before| + |part|) % 0x1_0000;
    if |before| + |part| <= 0xFFFF {
      assert data[|before|..end] == part;
    } else {
      assert end < |before| + |part|;
      assert |before| <= end <= |data| ==> |data[|before|..end]| < |part|;
    }
  }

  // ----- receiving -----

  datatype Outcome = Outcome(packets: Packets, output: Option<seq<byte>>)

  /** What one fragment does to the packets in progress: the one it completes is handed out at once. */
  function Step(packets: Packets, f: seq<byte>): Outcome {
    if !Acceptable(f) then Outcome(packets, None)
    else
      var b := Grown(packets, f);
      if b.full then Outcome(packets - {f[0]}, Some(b.data)) else Outcome(packets[f[0] := b], None)
  }

  class QVPNDriver {
    const manager: QVPNPacketManager

    constructor ()
      ensures Ready() && manager.packets == map[] && fresh(manager)
      ensures manager.lastPacketId == 0 && manager.dataMaxSize == 65229 && manager.dataSplitSize == 32615
    {
      manager := new QVPNPacketManager();
    }

    /** Between two calls nothing is cached and no full packet waits. */
    ghost predicate Ready()
      reads manager
    {
      manager.cache == None && !SomeFull(manager.packets) && NoEmptyEntry(manager.packets)
    }

    method EncodeData(p: QTunnelProxy, payload: seq<byte>) returns (sp: SplittedPacket)
      requires |p.proto| != 1 && |payload| <= 0xFFFF
      requires Splits(|payload|, Config(manager.dataMaxSize, manager.dataSplitSize))
      modifies manager`lastPacketId
      ensures fresh(sp) && manager.lastPacketId == (old(manager.lastPacketId) + 1) % 0x100
      ensures Readable(SplitView(|payload|, manager.dataMaxSize, manager.dataSplitSize), |payload|)
      ensures var view := SplitView(|payload|, manager.dataMaxSize, manager.dataSplitSize);
              sp.Holds(Sealed(Bodies(old(manager.lastPacketId), p, payload, view)))
    {
      ViewOfPacket(|payload|, Config(manager.dataMaxSize, manager.dataSplitSize));
      var id, view := manager.SplitPacketView(|payload|);
      ghost var records := Sealed(Bodies(id, p, payload, view));
      sp := new SplittedPacket();
      var first := Record(Body(id, p, payload, view, 0));
      sp.AddData(first, []);
      assert [] + [first] == records[..1];
      for i := 1 to |view.separators|
        invariant fresh(sp) && sp.Holds(records[..i])
        invariant manager.lastPacketId == (old(manager.lastPacketId) + 1) % 0x100
      {
        var part := Record(Body(id, p, payload, view, i));
        sp.AddData(part, records[..i]);
        OneMoreRecord(records, i);
      }
      assert records[..|records|] == records;
    }

    /** Whatever octets arrive in a record, at most one packet comes out and the driver is ready again. */
    method DecodeData(record: seq<byte>) returns (reply: Option<QTunnelData>)
      requires Ready() && |record| >= RECORD_HEADER
      modifies manager`packets, manager`cache
      ensures Ready()
      ensures var step := Step(old(manager.packets), record[RECORD_HEADER..]);
              && manager.packets == step.packets
              && reply == if step.output == None then None else Some(ParseTunnel(step.output.value))
    {
      var f := record[RECORD_HEADER..];
      ghost var before := manager.packets;
      BuiltKeepsNoEmptyEntry(before, f);
      var signal := manager.BuildPacket(f);
      var found := manager.HaveFullPackets();
      if found {
        FullIsPopped(before, f, manager.cache.value);
        var packet := manager.GetAndPopPacket();
        return Some(ParseTunnel(packet.data));
      }
      NothingFull(before, f);
      return None;
    }
  }

  lemma OneMoreRecord(records: seq<seq<byte>>, i: nat)
    requires i < |records|
    ensures records[..i] + [records[i]] == records[..i + 1]
  {}

  /** A full packet after a fragment is the one the fragment belongs to, and the only one. */
  lemma FullIsPopped(before: Packets, f: seq<byte>, id: byte)
    requires !SomeFull(before) && NoEmptyEntry(before) && id in Built(before, f) && Built(before, f)[id].full
    ensures var built := Built(before, f);
            && Step(before, f) == Outcome(built - {id}, Some(built[id].data))
            && !SomeFull(built - {id}) && NoEmptyEntry(built - {id}) && Assigned(FRESH, built[id]) == built[id]
  {
    var built := Built(before, f);
    BuiltKeepsNoEmptyEntry(before, f);
    assert Acceptable(f) && id == f[0];
    PoppedUnchanged(built, id);
    assert built - {id} == before - {id};
  }

  lemma NothingFull(before: Packets, f: seq<byte>)
    requires !SomeFull(Built(before, f))
    ensures Step(before, f) == Outcome(Built(before, f), None)
  {
    var built := Built(before, f);
    assert Acceptable(f) ==> f[0] in built && built[f[0]] == Grown(before, f);
  }

  // ----- runs -----

  datatype Outputs = Outputs(packets: Packets, delivered: seq<(byte, seq<byte>)>)

  /** A run of fragments; what comes out is tagged with the id it came out under. */
  function Run(packets: Packets, fs: seq<seq<byte>>): Outputs
    decreases |fs|
  {
    if fs == [] then Outputs(packets, [])
    else
      var step := Step(packets, fs[0]);
      var later := Run(step.packets, fs[1..]);
      if step.output == None then later
      else Outputs(later.packets, [(fs[0][0], step.output.value)] + later.delivered)
  }

  lemma {:induction false} RunAppend(packets: Packets, a: seq<seq<byte>>, b: seq<seq<byte>>)
    ensures var first := Run(packets, a);
            var second := Run(first.packets, b);
            Run(packets, a + b) == Outputs(second.packets, first.delivered + second.delivered)
    decreases |a|
  {
    if a == [] {
      assert a + b == b;
    } else {
      var step := Step(packets, a[0]);
      assert (a + b)[1..] == a[1..] + b;
      RunAppend(step.packets, a[1..], b);
      var first := Run(step.packets, a[1..]);
      var second := Run(first.packets, b);
      if step.output != None {
        var now := [(a[0][0], step.output.value)];
        assert now + (first.delivered + second.delivered) == (now + first.delivered) + second.delivered;
      }
    }
  }

  // ----- packets do not interfere -----

  function Only(packets: Packets, id: byte): Packets {
    map k | k in packets && k == id :: packets[k]
  }

  function Select(fs: seq<seq<byte>>, id: byte): seq<seq<byte>> {
    if fs == [] then []
    else if fs[0] != [] && fs[0][0] == id then [fs[0]] + Select(fs[1..], id)
    else Select(fs[1..], id)
  }

  function Tagged(delivered: seq<(byte, seq<byte>)>, id: byte): seq<(byte, seq<byte>)> {
    if delivered == [] then []
    else if delivered[0].0 == id then [delivered[0]] + Tagged(delivered[1..], id)
    else Tagged(delivered[1..], id)
  }

  /**
   * Packets with different ids do not interfere: in any interleaving, what comes out under an id is
   * what the fragments with that id, alone and in their order, would have given.
   */
  lemma {:induction false} PacketsDoNotInterfere(packets: Packets, fs: seq<seq<byte>>, id: byte)
    ensures var all, alone := Run(packets, fs), Run(Only(packets, id), Select(fs, id));
            Tagged(all.delivered, id) == alone.delivered && Only(all.packets, id) == alone.packets
    decreases |fs|
  {
    if fs != [] {
      var f := fs[0];
      var step := Step(packets, f);
      PacketsDoNotInterfere(step.packets, fs[1..], id);
      StepAlone(packets, f, id);
      if f != [] && f[0] == id {
        assert Select(fs, id)[1..] == Select(fs[1..], id);
      }
    }
  }

  lemma StepAlone(packets: Packets, f: seq<byte>, id: byte)
    ensures var step := Step(packets, f);
            if f != [] && f[0] == id then Step(Only(packets, id), f) == Outcome(Only(step.packets, id), step.output)
            else Only(step.packets, id) == Only(packets, id)
  {
    var step := Step(packets, f);
    if Acceptable(f) {
      assert f[0] in packets && f[0] == id ==> f[0] in Only(packets, id);
      if f[0] == id {
        assert Grown(Only(packets, id), f) == Grown(packets, f);
        assert Only(packets - {id}, id) == Only(packets, id) - {id};
        assert Only(packets[id := Grown(packets, f)], id) == Only(packets, id)[id := Grown(packets, f)];
      }
    }
  }
}
