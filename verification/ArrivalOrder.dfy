/** The fragments of one packet in any order: which orders deliver what. */
module ArrivalOrder {
  import opened Bytes
  import opened Fragments
  import opened Manager
  import opened Proxy
  import opened Tunnel
  import opened Delivery
  import opened Stream
  import opened Wrappers

  // ----- ids that are lost -----

  /** A packet in progress that has outgrown the size it was announced with. */
  predicate Blocked(packets: Packets, id: byte) {
    id in packets && !packets[id].full && |packets[id].data| > packets[id].originalSize
  }

  /** Whatever arrives from then on, nothing comes out under that id. */
  lemma {:induction false} BlockedForGood(packets: Packets, id: byte, fs: seq<seq<byte>>)
    requires Blocked(packets, id)
    ensures Blocked(Run(packets, fs).packets, id) && Tagged(Run(packets, fs).delivered, id) == []
    decreases |fs|
  {
    if fs != [] {
      var step := Step(packets, fs[0]);
      BlockedStep(packets, id, fs[0]);
      BlockedForGood(step.packets, id, fs[1..]);
      if step.output != None {
        var r := Run(packets, fs);
        assert r.delivered[1..] == Run(step.packets, fs[1..]).delivered;
      }
    }
  }

  lemma BlockedStep(packets: Packets, id: byte, f: seq<byte>)
    requires Blocked(packets, id)
    ensures Blocked(Step(packets, f).packets, id)
    ensures Step(packets, f).output != None ==> f[0] != id
  {}

  // ----- orders -----

  /** Each of the fragments once. */
  predicate IsOrder(order: seq<nat>, n: nat) {
    && |order| == n && (forall i :: 0 <= i < n ==> order[i] < n)
    && forall i, j :: 0 <= i < j < n ==> order[i] != order[j]
  }

  function Arranged(fs: seq<seq<byte>>, order: seq<nat>): (r: seq<seq<byte>>)
    requires forall i :: 0 <= i < |order| ==> order[i] < |fs|
    ensures |r| == |order|
  {
    seq(|order|, i requires 0 <= i < |order| => fs[order[i]])
  }

  /**
   * Fragments with one octet count each, but for number `k`, which has `extra` more and counts them into
   * the size it announces, where the others announce `size`.
   */
  predicate Pieced(id: byte, fs: seq<seq<byte>>, piece: nat, extra: nat, k: nat, size: nat) {
    && Parts(id, fs)
    && forall i :: 0 <= i < |fs| ==>
         && |Octets(fs[i])| == piece + (if i == k then extra else 0)
         && U16At(fs[i], 3) == size + (if i == k then extra else 0)
  }

  lemma FragmentsPieced(id: byte, p: Packet, c: Config)
    requires Travels(p, c) && Count(|p.payload|, c) > 1
    ensures var fs, n := FragmentsOf(id, p, c), Count(|p.payload|, c);
            && |fs| == n && Pieced(id, fs, c.splitSize, |ProxyBytes(p.proxy)|, 0, n * c.splitSize)
            && (forall i :: 0 < i < n ==> U16At(fs[i], 1) > 0xFF)
            && Join(fs) == ProxyBytes(p.proxy) + Sent(p, c).payload
  {
    ViewFits(p, c);
    var s, fs, n := View(p, c), FragmentsOf(id, p, c), Count(|p.payload|, c);
    ViewOfPacket(|p.payload|, c);
    PiecesAt(n, c.splitSize);
    forall i | 0 <= i < n
      ensures Acceptable(fs[i]) && fs[i][0] == id && (i > 0 ==> U16At(fs[i], 1) > 0xFF)
      ensures |Octets(fs[i])| == c.splitSize + if i == 0 then |ProxyBytes(p.proxy)| else 0
      ensures U16At(fs[i], 3) == n * c.splitSize + if i == 0 then |ProxyBytes(p.proxy)| else 0
    {
      BodyFields(id, p.proxy, p.payload, s, i);
    }
    BodiesJoin(id, p.proxy, p.payload, s, 0);
    assert fs[0..] == fs && p.payload[0..s.dataSize] == p.payload[..s.dataSize];
  }

  lemma ArrangedPieced(id: byte, fs: seq<seq<byte>>, piece: nat, extra: nat, size: nat, order: seq<nat>, k: nat)
    requires Pieced(id, fs, piece, extra, 0, size) && IsOrder(order, |fs|) && k < |fs| && order[k] == 0
    ensures Pieced(id, Arranged(fs, order), piece, extra, k, size)
  {
    var r := Arranged(fs, order);
    forall i | 0 <= i < |r|
      ensures r[i] == fs[order[i]] && (order[i] == 0 <==> i == k)
    {
      assert i < k ==> order[i] != order[k];
      assert k < i ==> order[k] != order[i];
    }
  }

  lemma {:induction false} PrefixSize(id: byte, fs: seq<seq<byte>>, piece: nat, extra: nat, k: nat, size: nat, i: nat)
    requires Pieced(id, fs, piece, extra, k, size) && i <= |fs|
    ensures Parts(id, fs[..i]) && |Join(fs[..i])| == i * piece + if i > k then extra else 0
    decreases i
  {
    if i > 0 {
      PrefixSize(id, fs, piece, extra, k, size, i - 1);
      OneMoreFragment(id, fs, i);
      OneMorePiece(i, piece);
    }
  }

  lemma OneMoreFragment(id: byte, fs: seq<seq<byte>>, i: nat)
    requires Parts(id, fs) && 0 < i <= |fs|
    ensures Parts(id, fs[..i - 1]) && Parts(id, fs[..i])
    ensures |Join(fs[..i])| == |Join(fs[..i - 1])| + |Octets(fs[i - 1])|
  {
    var front := fs[..i - 1];
    assert fs[..i] == front + [fs[i - 1]];
    assert Acceptable(fs[i - 1]);
    JoinSnoc(front, fs[i - 1]);
  }

  lemma OneMorePiece(i: nat, piece: nat)
    requires i > 0
    ensures i * piece == (i - 1) * piece + piece
  {}

  // ----- the first fragment first -----

  lemma PiecedFirstFirst(packets: Packets, id: byte, fs: seq<seq<byte>>, piece: nat, extra: nat, size: nat,
                         order: seq<nat>)
    requires id !in packets && fs != [] && Pieced(id, fs, piece, extra, 0, size) && size == |fs| * piece
    requires forall i :: 0 < i < |fs| ==> U16At(fs[i], 1) > 0xFF
    requires IsOrder(order, |fs|) && order[0] == 0
    ensures var arrived := Arranged(fs, order);
            Parts(id, arrived) && Run(packets, arrived) == Outputs(packets, [(id, Join(arrived))])
  {
    var arrived, n := Arranged(fs, order), |fs|;
    ArrangedPieced(id, fs, piece, extra, size, order, 0);
    PrefixSize(id, arrived, piece, extra, 0, size, n);
    assert arrived[..n] == arrived;
    PacketIsDelivered(packets, id, arrived);
    forall i | 0 < i < n ensures U16At(arrived[i], 1) > 0xFF {
      assert order[0] != order[i];
    }
    LargeOffsetsUnseen([], arrived);
    UnseenAppends([], arrived);
    assert [] + Join(arrived) == Join(arrived);
  }

  lemma PiecesInPlace(id: byte, fs: seq<seq<byte>>, piece: nat, extra: nat, size: nat, order: seq<nat>)
    requires Pieced(id, fs, piece, extra, 0, size) && fs != [] && IsOrder(order, |fs|) && order[0] == 0
    ensures Parts(id, Arranged(fs, order))
    ensures Join(Arranged(fs, order)) == Join(fs)
            <==> forall i :: 0 <= i < |order| ==> Octets(fs[order[i]]) == Octets(fs[i])
  {
    var arrived := Arranged(fs, order);
    ArrangedPieced(id, fs, piece, extra, size, order, 0);
    forall i | 0 <= i < |fs| ensures |Octets(arrived[i])| == |Octets(fs[i])| {
      assert arrived[i] == fs[order[i]];
    }
    SameSizesJoin(arrived, fs);
    ReadArranged(fs, order);
  }

  lemma ReadArranged(fs: seq<seq<byte>>, order: seq<nat>)
    requires IsOrder(order, |fs|)
    ensures |Arranged(fs, order)| == |order| && forall i :: 0 <= i < |order| ==> Arranged(fs, order)[i] == fs[order[i]]
  {}

  /**
   * When the first fragment arrives first, the packet comes out with the last to arrive, its octets in
   * the order of arrival: as it was sent exactly when every place got the octets that belong there.
   */
  lemma FirstFirst(packets: Packets, id: byte, p: Packet, c: Config, order: seq<nat>)
    requires id !in packets && Travels(p, c) && Count(|p.payload|, c) > 1
    requires IsOrder(order, Count(|p.payload|, c)) && order[0] == 0
    ensures |FragmentsOf(id, p, c)| == |order| && Parts(id, FragmentsOf(id, p, c))
    ensures var fs := FragmentsOf(id, p, c);
            var arrived := Arranged(fs, order);
            && Parts(id, arrived) && Run(packets, arrived) == Outputs(packets, [(id, Join(arrived))])
            && (Join(arrived) == ProxyBytes(p.proxy) + Sent(p, c).payload
                <==> forall i :: 0 <= i < |order| ==> Octets(fs[order[i]]) == Octets(fs[i]))
  {
    var fs, piece, extra := FragmentsOf(id, p, c), c.splitSize, |ProxyBytes(p.proxy)|;
    FragmentsPieced(id, p, c);
    PiecedFirstFirst(packets, id, fs, piece, extra, |fs| * piece, order);
    PiecesInPlace(id, fs, piece, extra, |fs| * piece, order);
  }

  lemma {:induction false} SameSizesJoin(a: seq<seq<byte>>, b: seq<seq<byte>>)
    requires |a| == |b|
    requires forall i :: 0 <= i < |a| ==> |a[i]| > BUILDER_HEADER && |b[i]| > BUILDER_HEADER
    requires forall i :: 0 <= i < |a| ==> |Octets(a[i])| == |Octets(b[i])|
    ensures Join(a) == Join(b) <==> forall i :: 0 <= i < |a| ==> Octets(a[i]) == Octets(b[i])
    decreases |a|
  {
    if a != [] {
      var x, y := a[1..], b[1..];
      assert forall i :: 0 <= i < |x| ==> x[i] == a[i + 1] && y[i] == b[i + 1];
      SameSizesJoin(x, y);
      CutsEqual(Octets(a[0]), Octets(b[0]), Join(x), Join(y));
      assert forall i :: 0 < i < |a| ==> a[i] == x[i - 1] && b[i] == y[i - 1];
    }
  }

  lemma CutsEqual(a: seq<byte>, b: seq<byte>, x: seq<byte>, y: seq<byte>)
    requires |a| == |b|
    ensures a + x == b + y <==> a == b && x == y
  {
    var n := |a|;
    assert (a + x)[..n] == a && (b + y)[..n] == b && (a + x)[n..] == x && (b + y)[n..] == y;
  }

  // ----- another fragment first -----

  /** As long as the octets do not add up to the size announced, a packet in progress stays so. */
  lemma {:induction false} StaysInProgress(packets: Packets, id: byte, b: Builder, fs: seq<seq<byte>>)
    requires id !in packets && Parts(id, fs) && !b.full
    requires forall i :: 0 < i <= |fs| ==> Parts(id, fs[..i]) && |b.data| + |Join(fs[..i])| != b.originalSize
    ensures var r := Run(packets[id := b], fs);
            && r.delivered == [] && id in r.packets && r.packets - {id} == packets && !r.packets[id].full
            && r.packets[id].originalSize == b.originalSize && |r.packets[id].data| == |b.data| + |Join(fs)|
    decreases |fs|
  {
    var now := packets[id := b];
    if fs == [] {
      assert now - {id} == packets;
    } else {
      var f, rest := fs[0], fs[1..];
      assert Acceptable(f) && f[0] == id;
      Part(f);
      var grown := Grown(now, f);
      assert now[id := grown] == packets[id := grown];
      FirstPrefix(id, fs);
      forall i | 0 < i <= |rest|
        ensures Parts(id, rest[..i]) && |grown.data| + |Join(rest[..i])| != b.originalSize
      {
        NextPrefix(id, fs, i);
      }
      RestParts(id, fs);
      StaysInProgress(packets, id, grown, rest);
    }
  }

  lemma RestParts(id: byte, fs: seq<seq<byte>>)
    requires fs != [] && Parts(id, fs)
    ensures Parts(id, fs[1..])
  {
    assert forall i :: 0 <= i < |fs| - 1 ==> fs[1..][i] == fs[i + 1];
  }

  lemma FirstPrefix(id: byte, fs: seq<seq<byte>>)
    requires fs != [] && Parts(id, fs)
    ensures Parts(id, fs[..1]) && Join(fs[..1]) == Octets(fs[0])
  {
    var none: seq<seq<byte>> := [];
    assert fs[..1] == [fs[0]] && [fs[0]][1..] == none;
    assert Octets(fs[0]) + Join(none) == Octets(fs[0]);
  }

  lemma NextPrefix(id: byte, fs: seq<seq<byte>>, i: nat)
    requires Parts(id, fs) && i < |fs|
    ensures Parts(id, fs[1..][..i]) && Parts(id, fs[..i + 1])
    ensures |Join(fs[..i + 1])| == |Octets(fs[0])| + |Join(fs[1..][..i])|
  {
    assert fs[..i + 1][1..] == fs[1..][..i];
    assert forall k :: 0 <= k < i ==> fs[1..][..i][k] == fs[k + 1];
  }

  /** The same from the first fragment to arrive on. */
  lemma NothingComesOut(packets: Packets, id: byte, fs: seq<seq<byte>>)
    requires id !in packets && fs != [] && Parts(id, fs)
    requires forall i :: 0 < i <= |fs| ==> Parts(id, fs[..i]) && |Join(fs[..i])| != U16At(fs[0], 3)
    ensures var r := Run(packets, fs);
            && r.delivered == [] && id in r.packets && r.packets - {id} == packets && !r.packets[id].full
            && r.packets[id].originalSize == U16At(fs[0], 3) && |r.packets[id].data| == |Join(fs)|
  {
    var f, rest := fs[0], fs[1..];
    assert Acceptable(f) && f[0] == id;
    NewEntry(packets, f);
    FirstPrefix(id, fs);
    var b := Grown(packets, f);
    forall i | 0 < i <= |rest|
      ensures Parts(id, rest[..i]) && |b.data| + |Join(rest[..i])| != b.originalSize
    {
      NextPrefix(id, fs, i);
    }
    RestParts(id, fs);
    StaysInProgress(packets, id, b, rest);
  }

  /** Some but not all fragments, the longer one among them, make up the size the others announce. */
  predicate AddsUp(piece: nat, extra: nat, k: nat, n: nat) {
    piece > 0 && extra % piece == 0 && k + 1 + extra / piece <= n
  }

  lemma AddsUpWhen(piece: nat, extra: nat, k: nat, n: nat, i: nat)
    requires piece > 0 && extra > 0 && 0 < i <= n && k < n
    ensures i * piece + (if i > k then extra else 0) == n * piece
            <==> AddsUp(piece, extra, k, n) && i == n - extra / piece
  {
    if i <= k {
      Less(i, n, piece);
      if AddsUp(piece, extra, k, n) && i == n - extra / piece {
        assert false;
      }
    } else {
      Difference(i, n, piece);
      Multiple(extra, piece, n - i);
    }
  }

  lemma Less(i: nat, n: nat, piece: nat)
    requires i < n && piece > 0
    ensures i * piece < n * piece
  {
    FewerPieces(i + 1, n, piece);
    assert (i + 1) * piece == i * piece + piece;
  }

  lemma Difference(i: nat, n: nat, piece: nat)
    requires i <= n
    ensures (n - i) * piece == n * piece - i * piece
  {}

  lemma Multiple(extra: nat, piece: nat, m: nat)
    requires piece > 0
    ensures extra == m * piece <==> extra % piece == 0 && m == extra / piece
  {
    var q := extra / piece;
    assert extra == q * piece + extra % piece;
    if q < m {
      Less(q, m, piece);
      FewerPieces(q + 1, m, piece);
      OneMorePiece(q + 1, piece);
    } else if m < q {
      Less(m, q, piece);
    }
  }

  /**
   * When another fragment arrives first, the packet never comes out as it was sent. Unless the proxy data
   * make up a whole number of pieces nothing comes out at all, and nothing ever will under that id; if
   * they do, and the first fragment arrives early enough, one packet comes out too soon, with the proxy
   * data for the pieces that are missing.
   */
  lemma OtherFirst(packets: Packets, id: byte, p: Packet, c: Config, order: seq<nat>, k: nat)
    requires id !in packets && Travels(p, c) && Count(|p.payload|, c) > 1
    requires IsOrder(order, Count(|p.payload|, c)) && 0 < k < |order| && order[k] == 0
    ensures |FragmentsOf(id, p, c)| == |order|
    ensures var n, piece, r := |order|, c.splitSize, Run(packets, Arranged(FragmentsOf(id, p, c), order));
            && (id, ProxyBytes(p.proxy) + Sent(p, c).payload) !in r.delivered
            && if AddsUp(piece, |ProxyBytes(p.proxy)|, k, n) then
                 |r.delivered| == 1 && r.delivered[0].0 == id && |r.delivered[0].1| == n * piece
               else r.delivered == [] && Blocked(r.packets, id)
  {
    var fs, n, piece, extra := FragmentsOf(id, p, c), |order|, c.splitSize, |ProxyBytes(p.proxy)|;
    var size := n * piece;
    FragmentsPieced(id, p, c);
    ArrangedPieced(id, fs, piece, extra, size, order, k);
    OrderDecides(packets, id, Arranged(fs, order), piece, extra, k, n, size);
    WholeSize(id, fs, piece, extra, n, size);
    OfOtherSize(Run(packets, Arranged(fs, order)).delivered, (id, Join(fs)), size);
  }

  lemma WholeSize(id: byte, fs: seq<seq<byte>>, piece: nat, extra: nat, n: nat, size: nat)
    requires Pieced(id, fs, piece, extra, 0, size) && 0 < n == |fs| && size == n * piece
    ensures |Join(fs)| == size + extra
  {
    PrefixSize(id, fs, piece, extra, 0, size, n);
    assert fs[..n] == fs;
  }

  lemma OfOtherSize(delivered: seq<(byte, seq<byte>)>, d: (byte, seq<byte>), size: nat)
    requires |delivered| <= 1 && (delivered != [] ==> |delivered[0].1| == size) && |d.1| != size
    ensures d !in delivered
  {}

  lemma OrderDecides(packets: Packets, id: byte, fs: seq<seq<byte>>, piece: nat, extra: nat, k: nat, n: nat, size: nat)
    requires id !in packets && Pieced(id, fs, piece, extra, k, size) && 0 < k < n == |fs| && size == n * piece
    requires piece > 0 && extra > 0
    ensures var r := Run(packets, fs);
            if AddsUp(piece, extra, k, n) then
              |r.delivered| == 1 && r.delivered[0].0 == id && |r.delivered[0].1| == size
            else r.delivered == [] && Blocked(r.packets, id)
  {
    if AddsUp(piece, extra, k, n) {
      ComesOutEarly(packets, id, fs, piece, extra, k, n, size);
    } else {
      NeverAddsUp(packets, id, fs, piece, extra, k, n, size);
    }
  }

  lemma NeverAddsUp(packets: Packets, id: byte, fs: seq<seq<byte>>, piece: nat, extra: nat, k: nat, n: nat, size: nat)
    requires id !in packets && Pieced(id, fs, piece, extra, k, size) && 0 < k < n == |fs| && size == n * piece
    requires piece > 0 && extra > 0 && !AddsUp(piece, extra, k, n)
    ensures var r := Run(packets, fs);
            r.delivered == [] && Blocked(r.packets, id)
  {
    forall i | 0 < i <= n ensures Parts(id, fs[..i]) && |Join(fs[..i])| != U16At(fs[0], 3) {
      PrefixSize(id, fs, piece, extra, k, size, i);
      AddsUpWhen(piece, extra, k, n, i);
    }
    NothingComesOut(packets, id, fs);
    PrefixSize(id, fs, piece, extra, k, size, n);
    assert fs[..n] == fs;
  }

  lemma ComesOutEarly(packets: Packets, id: byte, fs: seq<seq<byte>>, piece: nat, extra: nat, k: nat, n: nat,
                      size: nat)
    requires id !in packets && Pieced(id, fs, piece, extra, k, size) && 0 < k < n == |fs| && size == n * piece
    requires piece > 0 && extra > 0 && AddsUp(piece, extra, k, n)
    ensures var r := Run(packets, fs);
            |r.delivered| == 1 && r.delivered[0].0 == id && |r.delivered[0].1| == size
  {
    var i := n - extra / piece;
    Multiple(extra, piece, 0);
    AddsUpWhen(piece, extra, k, n, i);
    PrefixSize(id, fs, piece, extra, k, size, i);
    FullAt(packets, id, fs, size, i);
    LeftOver(packets, id, fs, piece, extra, k, n, size, i);
    RunAppend(packets, fs[..i], fs[i..]);
    assert fs == fs[..i] + fs[i..];
  }

  lemma FullAt(packets: Packets, id: byte, fs: seq<seq<byte>>, size: nat, i: nat)
    requires id !in packets && 0 < i <= |fs| && Parts(id, fs[..i]) && |Join(fs[..i])| == size == U16At(fs[0], 3)
    ensures var r := Run(packets, fs[..i]);
            r.packets == packets && |r.delivered| == 1 && r.delivered[0].0 == id && |r.delivered[0].1| == size
  {
    PacketIsDelivered(packets, id, fs[..i]);
    AssembledSize([], fs[..i]);
  }

  /** What arrives behind starts anew and stays incomplete. */
  lemma LeftOver(packets: Packets, id: byte, fs: seq<seq<byte>>, piece: nat, extra: nat, k: nat, n: nat, size: nat,
                 i: nat)
    requires id !in packets && Pieced(id, fs, piece, extra, k, size) && size == n * piece && piece > 0
    requires k < i < n == |fs|
    ensures Run(packets, fs[i..]).delivered == []
  {
    var rest := fs[i..];
    assert forall j :: 0 <= j < |rest| ==> rest[j] == fs[i + j];
    assert Pieced(id, rest, piece, 0, 0, size);
    forall j | 0 < j <= |rest| ensures Parts(id, rest[..j]) && |Join(rest[..j])| != U16At(rest[0], 3) {
      PrefixSize(id, rest, piece, 0, 0, size, j);
      Less(j, n, piece);
    }
    NothingComesOut(packets, id, rest);
  }

  /** Two fragments in the wrong order always block their id, whatever follows. */
  lemma SwappedBlocks(packets: Packets, id: byte, p: Packet, c: Config, later: seq<seq<byte>>)
    requires id !in packets && Travels(p, c) && Count(|p.payload|, c) == 2
    ensures |FragmentsOf(id, p, c)| == 2
    ensures var fs := FragmentsOf(id, p, c);
            var swapped, all := Run(packets, [fs[1], fs[0]]), Run(packets, [fs[1], fs[0]] + later);
            && swapped.delivered == [] && Tagged(all.delivered, id) == [] && Blocked(all.packets, id)
  {
    var fs, order: seq<nat> := FragmentsOf(id, p, c), [1, 0];
    assert IsOrder(order, 2);
    OtherFirst(packets, id, p, c, order, 1);
    TooFewToAddUp(c.splitSize, |ProxyBytes(p.proxy)|);
    var swapped := [fs[1], fs[0]];
    assert Arranged(fs, order) == swapped;
    var first := Run(packets, swapped);
    RunAppend(packets, swapped, later);
    BlockedForGood(first.packets, id, later);
    assert first.delivered + Run(first.packets, later).delivered == Run(first.packets, later).delivered;
  }

  lemma TooFewToAddUp(piece: nat, extra: nat)
    requires extra > 0
    ensures !AddsUp(piece, extra, 1, 2)
  {
    if AddsUp(piece, extra, 1, 2) {
      Multiple(extra, piece, 0);
      assert false;
    }
  }
}
