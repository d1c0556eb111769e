/** What comes out of the far end of the tunnel. */
module Delivery {
  import opened Bytes
  import opened Words
  import opened Fragments
  import opened Manager
  import opened Proxy
  import opened Tunnel

  // ----- one packet, any fragments -----

  function Octets(f: seq<byte>): seq<byte>
    requires |f| >= BUILDER_HEADER
  {
    f[BUILDER_HEADER..]
  }

  /** Acceptable fragments of one packet. */
  predicate Parts(id: byte, fs: seq<seq<byte>>) {
    forall i :: 0 <= i < |fs| ==> Acceptable(fs[i]) && fs[i][0] == id
  }

  function Join(fs: seq<seq<byte>>): (r: seq<byte>)
    requires forall i :: 0 <= i < |fs| ==> |fs[i]| > BUILDER_HEADER
    ensures |r| >= |fs|
  {
    if fs == [] then [] else Octets(fs[0]) + Join(fs[1..])
  }

  /** The octets as the builder arranges them, each fragment inserted at the octet that equals its offset. */
  function Assemble(data: seq<byte>, fs: seq<seq<byte>>): seq<byte>
    requires forall i :: 0 <= i < |fs| ==> |fs[i]| > BUILDER_HEADER
    decreases |fs|
  {
    if fs == [] then data
    else Assemble(InsertAt(data, FindValue(data, U16At(fs[0], 1)), Octets(fs[0])), fs[1..])
  }

  /** No offset is, taken as an octet, among the octets that arrived before. */
  predicate Unseen(data: seq<byte>, fs: seq<seq<byte>>)
    requires forall i :: 0 <= i < |fs| ==> |fs[i]| > BUILDER_HEADER
    decreases |fs|
  {
    fs != [] ==> U16At(fs[0], 1) !in data && Unseen(data + Octets(fs[0]), fs[1..])
  }

  lemma {:induction false} UnseenAppends(data: seq<byte>, fs: seq<seq<byte>>)
    requires forall i :: 0 <= i < |fs| ==> |fs[i]| > BUILDER_HEADER
    requires Unseen(data, fs)
    ensures Assemble(data, fs) == data + Join(fs)
    decreases |fs|
  {
    if fs != [] {
      AppendsExactlyWhen(data, U16At(fs[0], 1), Octets(fs[0]));
      UnseenAppends(data + Octets(fs[0]), fs[1..]);
    } else {
      assert data + Join(fs) == data;
    }
  }

  /**
   * Where an offset is among the octets before it, those from its first occurrence on and the new ones
   * repeat one common word.
   */
  ghost predicate Restored(data: seq<byte>, fs: seq<seq<byte>>)
    requires forall i :: 0 <= i < |fs| ==> |fs[i]| > BUILDER_HEADER
    decreases |fs|
  {
    fs != [] ==>
      var offset, octets := U16At(fs[0], 1), Octets(fs[0]);
      && (offset !in data || CommonRoot(data[FindValue(data, offset)..], octets))
      && Restored(data + octets, fs[1..])
  }

  /** After the first `k` fragments the octets stand in the order they were cut in. */
  predicate InOrder(data: seq<byte>, fs: seq<seq<byte>>, k: nat)
    requires k <= |fs| && forall i :: 0 <= i < |fs| ==> |fs[i]| > BUILDER_HEADER
  {
    Assemble(data, fs[..k]) == data + Join(fs[..k])
  }

  /** For any number of fragments: the octets are in order after each of them exactly when `Restored` says so. */
  lemma {:induction false} InOrderExactly(data: seq<byte>, fs: seq<seq<byte>>)
    requires forall i :: 0 <= i < |fs| ==> |fs[i]| > BUILDER_HEADER
    ensures (forall k :: 0 <= k <= |fs| ==> InOrder(data, fs, k)) <==> Restored(data, fs)
    decreases |fs|
  {
    NoneInOrder(data, fs);
    if fs != [] {
      var octets, rest := Octets(fs[0]), fs[1..];
      AppendsExactlyWhen(data, U16At(fs[0], 1), octets);
      OneInOrder(data, fs);
      if InOrder(data, fs, 1) {
        InOrderExactly(data + octets, rest);
        forall k | 0 <= k <= |rest| ensures InOrder(data, fs, k + 1) <==> InOrder(data + octets, rest, k) {
          LaterInOrder(data, fs, k);
        }
        assert (forall k :: 0 <= k <= |rest| ==> InOrder(data + octets, rest, k))
               ==> forall k :: 1 <= k <= |fs| ==> InOrder(data + octets, rest, k - 1) && InOrder(data, fs, k);
      }
    }
  }

  lemma NoneInOrder(data: seq<byte>, fs: seq<seq<byte>>)
    requires forall i :: 0 <= i < |fs| ==> |fs[i]| > BUILDER_HEADER
    ensures InOrder(data, fs, 0)
  {
    assert data + Join(fs[..0]) == data;
  }

  lemma OneInOrder(data: seq<byte>, fs: seq<seq<byte>>)
    requires fs != [] && forall i :: 0 <= i < |fs| ==> |fs[i]| > BUILDER_HEADER
    ensures InOrder(data, fs, 1)
            <==> InsertAt(data, FindValue(data, U16At(fs[0], 1)), Octets(fs[0])) == data + Octets(fs[0])
  {
    var first := fs[..1];
    assert first[1..] == fs[..0];
    NoneInOrder(InsertAt(data, FindValue(data, U16At(fs[0], 1)), Octets(fs[0])), fs);
    assert Join(first) == Octets(fs[0]);
  }

  lemma LaterInOrder(data: seq<byte>, fs: seq<seq<byte>>, k: nat)
    requires fs != [] && forall i :: 0 <= i < |fs| ==> |fs[i]| > BUILDER_HEADER
    requires k < |fs| && InsertAt(data, FindValue(data, U16At(fs[0], 1)), Octets(fs[0])) == data + Octets(fs[0])
    ensures InOrder(data, fs, k + 1) <==> InOrder(data + Octets(fs[0]), fs[1..], k)
  {
    var f, later := fs[0], fs[1..][..k];
    assert forall i :: 0 <= i < k ==> later[i] == fs[i + 1];
    assert fs[..k + 1] == [f] + later;
    InOrderCons(data, f, later, data + Octets(f));
  }

  lemma InOrderCons(data: seq<byte>, f: seq<byte>, later: seq<seq<byte>>, now: seq<byte>)
    requires |f| > BUILDER_HEADER && forall i :: 0 <= i < |later| ==> |later[i]| > BUILDER_HEADER
    requires InsertAt(data, FindValue(data, U16At(f, 1)), Octets(f)) == now == data + Octets(f)
    ensures Assemble(data, [f] + later) == data + Join([f] + later) <==> Assemble(now, later) == now + Join(later)
  {
    AssembleCons(data, f, later);
    Regroup(data, Octets(f), Join(later));
  }

  lemma AssembleCons(data: seq<byte>, f: seq<byte>, later: seq<seq<byte>>)
    requires |f| > BUILDER_HEADER && forall i :: 0 <= i < |later| ==> |later[i]| > BUILDER_HEADER
    ensures Assemble(data, [f] + later) == Assemble(InsertAt(data, FindValue(data, U16At(f, 1)), Octets(f)), later)
    ensures Join([f] + later) == Octets(f) + Join(later)
  {
    assert ([f] + later)[1..] == later;
  }

  // ----- the octets in the end -----

  /** Octets inserted into `x` end up as if put behind `y`. */
  lemma InsertedAsBehind(x: seq<byte>, y: seq<byte>, i: nat, octets: seq<byte>)
    requires |x| == |y| && i <= |x|
    ensures InsertAt(x, i, octets) == y + octets
            <==> x[..i] == y[..i] && (i == |x| || Conjugate(x[i..], y[i..], octets))
  {
    var l, r := octets + x[i..], y[i..] + octets;
    assert InsertAt(x, i, octets) == x[..i] + l && y + octets == y[..i] + r;
    assert (x[..i] + l)[..i] == x[..i] && (x[..i] + l)[i..] == l;
    assert (y[..i] + r)[..i] == y[..i] && (y[..i] + r)[i..] == r;
    ConjugateExactly(x[i..], y[i..], octets);
  }

  /**
   * For any number of fragments, whatever went wrong on the way: the octets are right in the end exactly
   * when those in front of the place of the last fragment are right before it, and those it displaces are
   * the right ones rotated, with the last fragment going round in them.
   */
  ghost predicate RightInTheEnd(fs: seq<seq<byte>>)
    requires fs != [] && forall i :: 0 <= i < |fs| ==> |fs[i]| > BUILDER_HEADER
  {
    var front, last := fs[..|fs| - 1], fs[|fs| - 1];
    var x, y := Assemble([], front), Join(front);
    var i := FindValue(x, U16At(last, 1));
    |x| == |y| && x[..i] == y[..i] && (i == |x| || Conjugate(x[i..], y[i..], Octets(last)))
  }

  lemma LastDecides(fs: seq<seq<byte>>)
    requires fs != [] && forall i :: 0 <= i < |fs| ==> |fs[i]| > BUILDER_HEADER
    ensures Assemble([], fs) == Join(fs) <==> RightInTheEnd(fs)
  {
    var front, last := fs[..|fs| - 1], fs[|fs| - 1];
    var x, y := Assemble([], front), Join(front);
    assert fs == front + [last];
    AssembleSnoc([], front, last);
    JoinSnoc(front, last);
    AssembledSize([], front);
    InsertedAsBehind(x, y, FindValue(x, U16At(last, 1)), Octets(last));
  }

  lemma {:induction false} AssembleSnoc(data: seq<byte>, front: seq<seq<byte>>, last: seq<byte>)
    requires |last| > BUILDER_HEADER && forall i :: 0 <= i < |front| ==> |front[i]| > BUILDER_HEADER
    ensures var x := Assemble(data, front);
            Assemble(data, front + [last]) == InsertAt(x, FindValue(x, U16At(last, 1)), Octets(last))
    decreases |front|
  {
    var all := front + [last];
    if front == [] {
      assert all[0] == last && all[1..] == front;
    } else {
      assert all[0] == front[0] && all[1..] == front[1..] + [last];
      AssembleSnoc(InsertAt(data, FindValue(data, U16At(front[0], 1)), Octets(front[0])), front[1..], last);
    }
  }

  lemma {:induction false} JoinSnoc(front: seq<seq<byte>>, last: seq<byte>)
    requires |last| > BUILDER_HEADER && forall i :: 0 <= i < |front| ==> |front[i]| > BUILDER_HEADER
    ensures Join(front + [last]) == Join(front) + Octets(last)
    decreases |front|
  {
    var all := front + [last];
    if front == [] {
      assert all[0] == last && all[1..] == front;
    } else {
      assert all[0] == front[0] && all[1..] == front[1..] + [last];
      JoinSnoc(front[1..], last);
      Regroup(Octets(front[0]), Join(front[1..]), Octets(last));
    }
  }

  lemma {:induction false} AssembledSize(data: seq<byte>, fs: seq<seq<byte>>)
    requires forall i :: 0 <= i < |fs| ==> |fs[i]| > BUILDER_HEADER
    ensures |Assemble(data, fs)| == |data| + |Join(fs)|
    decreases |fs|
  {
    if fs != [] {
      AssembledSize(InsertAt(data, FindValue(data, U16At(fs[0], 1)), Octets(fs[0])), fs[1..]);
    }
  }

  lemma Part(f: seq<byte>)
    requires |f| >= BUILDER_HEADER
    ensures U16At(f[1..], 0) == U16At(f, 1) && U16At(f[1..], 2) == U16At(f, 3) && f[1..][4..] == Octets(f)
  {}

  lemma {:induction false} RunAssembles(packets: Packets, id: byte, b: Builder, fs: seq<seq<byte>>)
    requires id !in packets && fs != [] && Parts(id, fs)
    requires !b.full && |b.data| + |Join(fs)| == b.originalSize
    ensures Run(packets[id := b], fs) == Outputs(packets, [(id, Assemble(b.data, fs))])
    decreases |fs|
  {
    var now, f, later := packets[id := b], fs[0], fs[1..];
    Part(f);
    var grown := Grown(now, f);
    assert grown.data == InsertAt(b.data, FindValue(b.data, U16At(f, 1)), Octets(f));
    assert |grown.data| + |Join(later)| == b.originalSize;
    if later == [] {
      assert now - {id} == packets;
      assert Run(packets, later) == Outputs(packets, []);
    } else {
      assert now[id := grown] == packets[id := grown];
      RunAssembles(packets, id, grown, later);
    }
  }

  lemma NewEntry(packets: Packets, f: seq<byte>)
    requires Acceptable(f) && f[0] !in packets
    ensures Grown(packets, f) == Builder(U16At(f, 3), Octets(f), |Octets(f)| == U16At(f, 3))
    ensures InsertAt([], FindValue([], U16At(f, 1)), Octets(f)) == Octets(f)
  {
    Part(f);
  }

  /**
   * Acceptable fragments of one id whose octets together make up the size the first one announces
   * are delivered as one packet, with the last of them, and leave nothing behind.
   */
  lemma PacketIsDelivered(packets: Packets, id: byte, fs: seq<seq<byte>>)
    requires id !in packets && fs != [] && Parts(id, fs) && U16At(fs[0], 3) == |Join(fs)|
    ensures Run(packets, fs) == Outputs(packets, [(id, Assemble([], fs))])
  {
    var f, later := fs[0], fs[1..];
    NewEntry(packets, f);
    var b := Grown(packets, f);
    assert Assemble([], fs) == Assemble(b.data, later);
    if later == [] {
      assert packets - {id} == packets;
      assert Run(packets, later) == Outputs(packets, []);
    } else {
      RunAssembles(packets, id, b, later);
    }
  }

  // ----- the fragments the sender makes -----

  /** Adjacent pieces from the start of the packet, none but the first empty, that add up to the size announced. */
  predicate Adjacent(s: Split, n: nat) {
    && Readable(s, n)
    && s.separators[0].0 == 0 && s.separators[|s.separators| - 1].1 == s.dataSize
    && forall i :: 0 < i < |s.separators| ==> s.separators[i - 1].1 == s.separators[i].0 < s.separators[i].1
  }

  predicate Fits(p: QTunnelProxy, payload: seq<byte>, s: Split) {
    WellFormed(p) && Adjacent(s, |payload|) && |ProxyBytes(p)| + s.dataSize <= 0xFFFF
  }

  /** Proxy data and the part of the payload that is sent. */
  function Whole(p: QTunnelProxy, payload: seq<byte>, s: Split): seq<byte>
    requires Fits(p, payload, s)
  {
    ProxyBytes(p) + payload[..s.dataSize]
  }

  lemma {:induction false} EndsGrow(s: Split, n: nat, i: nat)
    requires Adjacent(s, n) && i < |s.separators|
    ensures s.separators[i].1 <= s.dataSize
    decreases |s.separators| - i
  {
    if i + 1 < |s.separators| {
      EndsGrow(s, n, i + 1);
      assert s.separators[i].1 == s.separators[i + 1].0;
    }
  }

  /** A piece as it is sent: nothing wraps. */
  lemma BodyIs(id: byte, p: QTunnelProxy, payload: seq<byte>, s: Split, i: nat)
    requires Fits(p, payload, s) && i < |s.separators|
    ensures s.separators[i].1 <= s.dataSize
    ensures var (b, e) := s.separators[i];
            Body(id, p, payload, s, i)
            == if i == 0 then Fragment(id, b, |ProxyBytes(p)| + s.dataSize, ProxyBytes(p) + payload[b..e])
               else Fragment(id, b, s.dataSize, payload[b..e])
  {
    EndsGrow(s, |payload|, i);
    if i == 0 {
      FirstBody(id, p, payload, s);
    } else {
      Fits16(s.separators[i].0);
    }
  }

  lemma FirstBody(id: byte, p: QTunnelProxy, payload: seq<byte>, s: Split)
    requires Fits(p, payload, s)
    ensures var (b, e) := s.separators[0];
            Body(id, p, payload, s, 0) == Fragment(id, b, |ProxyBytes(p)| + s.dataSize, ProxyBytes(p) + payload[b..e])
  {
    SizeIs(p, s.dataSize);
  }

  lemma SizeIs(p: QTunnelProxy, n: u16)
    requires WellFormed(p) && |ProxyBytes(p)| + n <= 0xFFFF
    ensures (n + ProxyDataSize(p)) % 0x1_0000 == |ProxyBytes(p)| + n
  {
    ProxyDataSizeIsLength(p);
    Fits16(n + |ProxyBytes(p)|);
  }

  lemma BodyFields(id: byte, p: QTunnelProxy, payload: seq<byte>, s: Split, i: nat)
    requires Fits(p, payload, s) && i < |s.separators|
    ensures var f, (b, e) := Body(id, p, payload, s, i), s.separators[i];
            && Acceptable(f) && f[0] == id && U16At(f, 1) == b
            && U16At(f, 3) == (if i == 0 then |ProxyBytes(p)| else 0) + s.dataSize
            && Octets(f) == (if i == 0 then ProxyBytes(p) else []) + payload[b..e]
  {
    var (b, e) := s.separators[i];
    BodyIs(id, p, payload, s, i);
    var octets := (if i == 0 then ProxyBytes(p) else []) + payload[b..e];
    if i > 0 {
      assert octets == payload[b..e];
    }
    FragmentRead(id, b, (if i == 0 then |ProxyBytes(p)| else 0) + s.dataSize, octets);
  }

  lemma FragmentRead(id: byte, offset: u16, size: u16, octets: seq<byte>)
    requires octets != [] && offset + |octets| <= size
    ensures var f := Fragment(id, offset, size, octets);
            Acceptable(f) && f[0] == id && U16At(f, 1) == offset && U16At(f, 3) == size && Octets(f) == octets
  {
    FragmentFields(id, offset, size, octets);
  }

  lemma {:induction false} BodiesJoin(id: byte, p: QTunnelProxy, payload: seq<byte>, s: Split, i: nat)
    requires Fits(p, payload, s) && i < |s.separators|
    ensures Parts(id, Bodies(id, p, payload, s)[i..])
    ensures s.separators[i].0 <= s.dataSize
    ensures Join(Bodies(id, p, payload, s)[i..])
            == (if i == 0 then ProxyBytes(p) else []) + payload[s.separators[i].0..s.dataSize]
    decreases |s.separators| - i
  {
    var fs, n := Bodies(id, p, payload, s), |s.separators|;
    var (b, e) := s.separators[i];
    BodyFields(id, p, payload, s, i);
    EndsGrow(s, |payload|, i);
    assert fs[i..][0] == fs[i] && fs[i..][1..] == fs[i + 1..];
    if i + 1 < n {
      BodiesJoin(id, p, payload, s, i + 1);
      assert e == s.separators[i + 1].0;
    } else {
      assert fs[n..] == [];
    }
    PartsCons(id, fs[i..]);
    NextSlice(if i == 0 then ProxyBytes(p) else [], payload, b, e, s.dataSize);
  }

  lemma PartsCons(id: byte, fs: seq<seq<byte>>)
    requires fs != [] && Acceptable(fs[0]) && fs[0][0] == id && Parts(id, fs[1..])
    ensures Parts(id, fs) && Join(fs) == Octets(fs[0]) + Join(fs[1..])
  {
    assert forall i :: 0 < i < |fs| ==> fs[i] == fs[1..][i - 1];
  }

  lemma NextSlice(front: seq<byte>, payload: seq<byte>, a: nat, b: nat, c: nat)
    requires a <= b <= c <= |payload|
    ensures front + payload[a..b] + ([] + payload[b..c]) == front + payload[a..c]
    ensures b == c ==> front + payload[a..b] + [] == front + payload[a..c]
  {
    assert payload[a..c] == payload[a..b] + payload[b..c];
  }

  /**
   * One packet through the tunnel: whatever else is in progress, it is delivered once, under its id,
   * with its last fragment. Its octets are in order after each fragment exactly when every offset is
   * new or what it displaces commutes with what it brings; and the packet arrives as it was sent exactly
   * when the last fragment puts right what was not.
   */
  lemma DeliverOne(packets: Packets, id: byte, p: QTunnelProxy, payload: seq<byte>, s: Split)
    requires id !in packets && Fits(p, payload, s)
    ensures var fs := Bodies(id, p, payload, s);
            && Parts(id, fs)
            && Run(packets, fs) == Outputs(packets, [(id, Assemble([], fs))])
            && ((forall k :: 0 <= k <= |fs| ==> InOrder([], fs, k)) <==> Restored([], fs))
            && (Unseen([], fs) ==> Assemble([], fs) == Whole(p, payload, s))
            && (Assemble([], fs) == Whole(p, payload, s) <==> RightInTheEnd(fs))
  {
    var fs := Bodies(id, p, payload, s);
    BodiesJoin(id, p, payload, s, 0);
    BodyFields(id, p, payload, s, 0);
    assert fs[0..] == fs;
    PacketIsDelivered(packets, id, fs);
    InOrderExactly([], fs);
    LastDecides(fs);
    if Unseen([], fs) {
      UnseenAppends([], fs);
    }
    assert [] + Join(fs) == Join(fs) == Whole(p, payload, s);
  }

  /** For a packet of two fragments the condition is exact, up to octets that repeat one common word. */
  lemma DeliverTwo(id: byte, p: QTunnelProxy, payload: seq<byte>, s: Split)
    requires Fits(p, payload, s) && |s.separators| == 2
    ensures var fs, cut := Bodies(id, p, payload, s), s.separators[1].0;
            var front := ProxyBytes(p) + payload[..cut];
            Assemble([], fs) == Whole(p, payload, s)
            <==> cut !in front || CommonRoot(front[FindValue(front, cut)..], payload[cut..s.dataSize])
  {
    var fs, cut := Bodies(id, p, payload, s), s.separators[1].0;
    TwoBodies(id, p, payload, s);
    AssembleTwo(fs);
    AppendsExactlyWhen(ProxyBytes(p) + payload[..cut], cut, payload[cut..s.dataSize]);
  }

  lemma TwoBodies(id: byte, p: QTunnelProxy, payload: seq<byte>, s: Split)
    requires Fits(p, payload, s) && |s.separators| == 2
    ensures var fs, cut := Bodies(id, p, payload, s), s.separators[1].0;
            var front, back := ProxyBytes(p) + payload[..cut], payload[cut..s.dataSize];
            && Parts(id, fs) && U16At(fs[1], 1) == cut
            && Octets(fs[0]) == front && Octets(fs[1]) == back && Whole(p, payload, s) == front + back
  {
    var fs, cut := Bodies(id, p, payload, s), s.separators[1].0;
    var front, back := ProxyBytes(p) + payload[..cut], payload[cut..s.dataSize];
    BodyFields(id, p, payload, s, 0);
    BodyFields(id, p, payload, s, 1);
    EndsGrow(s, |payload|, 0);
    TwoSlices(ProxyBytes(p), payload, cut, s.dataSize);
  }

  lemma TwoSlices(front: seq<byte>, payload: seq<byte>, cut: nat, end: nat)
    requires cut <= end <= |payload|
    ensures payload[0..cut] == payload[..cut] && [] + payload[cut..end] == payload[cut..end]
    ensures front + payload[..end] == front + payload[..cut] + payload[cut..end]
  {
    assert payload[..end] == payload[..cut] + payload[cut..end];
  }

  lemma AssembleTwo(fs: seq<seq<byte>>)
    requires |fs| == 2 && |fs[0]| > BUILDER_HEADER && |fs[1]| > BUILDER_HEADER
    ensures var front := Octets(fs[0]);
            Assemble([], fs) == InsertAt(front, FindValue(front, U16At(fs[1], 1)), Octets(fs[1]))
  {
    var none: seq<byte>, last := [], fs[1..];
    assert InsertAt(none, FindValue(none, U16At(fs[0], 1)), Octets(fs[0])) == Octets(fs[0]);
    assert last == [fs[1]] && last[1..] == [];
    var data := InsertAt(Octets(fs[0]), FindValue(Octets(fs[0]), U16At(fs[1], 1)), Octets(fs[1]));
    assert Assemble(data, last[1..]) == data;
    assert Assemble(Octets(fs[0]), last) == data;
  }
}
