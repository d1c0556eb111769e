/**
 * Reassembly by offset: what the fragment headers promise, stated with a receiver that puts every
 * fragment where its header says.
 */
module Reassembly {
  import opened Bytes
  import opened Fragments

  type Piece = (nat, nat)

  datatype Slot = Hole | Octet(value: byte)

  /** Adjacent pieces that cover `[0, n)`; pieces may be empty. */
  ghost predicate Partition(pieces: seq<Piece>, n: nat) {
    && pieces != []
    && pieces[0].0 == 0 && pieces[|pieces| - 1].1 == n
    && (forall i :: 0 <= i < |pieces| ==> pieces[i].0 <= pieces[i].1)
    && (forall i :: 0 < i < |pieces| ==> pieces[i - 1].1 == pieces[i].0)
  }

  lemma {:induction false} PieceEndsGrow(pieces: seq<Piece>, n: nat, i: nat, j: nat)
    requires Partition(pieces, n) && i <= j < |pieces|
    ensures pieces[i].1 <= pieces[j].1 && (i < j ==> pieces[i].1 <= pieces[j].0)
    decreases j - i
  {
    if i < j {
      PieceEndsGrow(pieces, n, i, j - 1);
      assert pieces[j - 1].1 == pieces[j].0;
    }
  }

  /** `SplittedPacket::get`: piece `p` of a packet on the wire. */
  function FragmentOf(id: byte, data: seq<byte>, p: Piece): (r: seq<byte>)
    requires p.0 <= p.1 <= |data| <= 0xFFFF
    ensures |r| == BUILDER_HEADER + p.1 - p.0
    ensures U16At(r, 1) == p.0 && U16At(r, 3) == |data| && r[BUILDER_HEADER..] == data[p.0..p.1]
  {
    FragmentFields(id, p.0, |data|, data[p.0..p.1]);
    Fragment(id, p.0, |data|, data[p.0..p.1])
  }

  function Holes(n: nat): seq<Slot> {
    seq(n, _ => Hole)
  }

  /** Writes the octets of fragment `f` at the offset its header gives. */
  function Place(buffer: seq<Slot>, f: seq<byte>): (r: seq<Slot>)
    requires |f| >= BUILDER_HEADER && U16At(f, 1) + |f| - BUILDER_HEADER <= |buffer|
    ensures |r| == |buffer|
  {
    var at, size := U16At(f, 1), |f| - BUILDER_HEADER;
    seq(|buffer|, k requires 0 <= k < |buffer| =>
      if at <= k < at + size then Octet(f[BUILDER_HEADER + k - at]) else buffer[k])
  }

  /** The fragments of the pieces numbered in `arrivals` are placed one after the other. */
  function PlaceAll(id: byte, data: seq<byte>, pieces: seq<Piece>, arrivals: seq<nat>): (r: seq<Slot>)
    requires |data| <= 0xFFFF && forall i :: 0 <= i < |pieces| ==> pieces[i].0 <= pieces[i].1 <= |data|
    requires forall i :: 0 <= i < |arrivals| ==> arrivals[i] < |pieces|
    ensures |r| == |data|
  {
    if arrivals == [] then Holes(|data|)
    else
      var last := |arrivals| - 1;
      Place(PlaceAll(id, data, pieces, arrivals[..last]), FragmentOf(id, data, pieces[arrivals[last]]))
  }

  predicate Covers(p: Piece, k: nat) {
    p.0 <= k < p.1
  }

  /** A slot holds the octet of the packet when some arrival covers it, and is a hole otherwise. */
  lemma {:induction false} SlotAfter(id: byte, data: seq<byte>, pieces: seq<Piece>, arrivals: seq<nat>, k: nat)
    requires |data| <= 0xFFFF && forall i :: 0 <= i < |pieces| ==> pieces[i].0 <= pieces[i].1 <= |data|
    requires forall i :: 0 <= i < |arrivals| ==> arrivals[i] < |pieces|
    requires k < |data|
    ensures PlaceAll(id, data, pieces, arrivals)[k]
            == if Arrived(pieces, arrivals, k) then Octet(data[k]) else Hole
  {
    if arrivals != [] {
      var last := |arrivals| - 1;
      var before := arrivals[..last];
      SlotAfter(id, data, pieces, before, k);
      PlacedSlot(PlaceAll(id, data, pieces, before), id, data, pieces[arrivals[last]], k);
      LastArrival(pieces, arrivals, k);
    }
  }

  ghost predicate Arrived(pieces: seq<Piece>, arrivals: seq<nat>, k: nat)
    requires forall i :: 0 <= i < |arrivals| ==> arrivals[i] < |pieces|
  {
    exists i :: 0 <= i < |arrivals| && Covers(pieces[arrivals[i]], k)
  }

  lemma LastArrival(pieces: seq<Piece>, arrivals: seq<nat>, k: nat)
    requires arrivals != [] && forall i :: 0 <= i < |arrivals| ==> arrivals[i] < |pieces|
    ensures var last := |arrivals| - 1;
            Arrived(pieces, arrivals, k)
            <==> Covers(pieces[arrivals[last]], k) || Arrived(pieces, arrivals[..last], k)
  {
    var last := |arrivals| - 1;
    if i :| 0 <= i < |arrivals| && Covers(pieces[arrivals[i]], k) {
      assert i < last ==> arrivals[..last][i] == arrivals[i];
    }
    if i :| 0 <= i < last && Covers(pieces[arrivals[..last][i]], k) {
      assert arrivals[i] == arrivals[..last][i];
    }
  }

  lemma PlacedSlot(buffer: seq<Slot>, id: byte, data: seq<byte>, p: Piece, k: nat)
    requires p.0 <= p.1 <= |data| <= 0xFFFF && |buffer| == |data| && k < |data|
    ensures Place(buffer, FragmentOf(id, data, p))[k] == if Covers(p, k) then Octet(data[k]) else buffer[k]
  {
    var f := FragmentOf(id, data, p);
    if Covers(p, k) {
      assert f[BUILDER_HEADER..][k - p.0] == data[k];
    }
  }

  /** Every octet lies in some piece. */
  lemma {:induction false} SomePieceCovers(pieces: seq<Piece>, n: nat, k: nat, upTo: nat) returns (i: nat)
    requires Partition(pieces, n) && upTo < |pieces| && k < pieces[upTo].1
    ensures i <= upTo && Covers(pieces[i], k)
  {
    if pieces[upTo].0 <= k {
      i := upTo;
    } else {
      i := SomePieceCovers(pieces, n, k, upTo - 1);
    }
  }

  /** ... and in one only. */
  lemma OnePieceCovers(pieces: seq<Piece>, n: nat, i: nat, j: nat, k: nat)
    requires Partition(pieces, n) && i < |pieces| && j < |pieces| && Covers(pieces[i], k) && Covers(pieces[j], k)
    ensures i == j
  {
    if i < j {
      PieceEndsGrow(pieces, n, i, j);
    } else {
      PieceEndsGrow(pieces, n, j, i);
    }
  }

  ghost predicate IsWhole(buffer: seq<Slot>, data: seq<byte>) {
    |buffer| == |data| && forall k :: 0 <= k < |data| ==> buffer[k] == Octet(data[k])
  }

  /**
   * Whatever fragments arrive, in whatever order and however often, the packet is recovered exactly
   * when every nonempty piece is among them.
   */
  lemma OrderIndependentReassembly(id: byte, data: seq<byte>, pieces: seq<Piece>, arrivals: seq<nat>)
    requires |data| <= 0xFFFF && Partition(pieces, |data|)
    requires forall i :: 0 <= i < |arrivals| ==> arrivals[i] < |pieces|
    ensures forall i :: 0 <= i < |pieces| ==> pieces[i].0 <= pieces[i].1 <= |data|
    ensures IsWhole(PlaceAll(id, data, pieces, arrivals), data)
            <==> forall i :: 0 <= i < |pieces| && pieces[i].0 < pieces[i].1 ==> i in arrivals
  {
    forall i | 0 <= i < |pieces| ensures pieces[i].1 <= |data| {
      PieceEndsGrow(pieces, |data|, i, |pieces| - 1);
    }
    var buffer := PlaceAll(id, data, pieces, arrivals);
    if forall i :: 0 <= i < |pieces| && pieces[i].0 < pieces[i].1 ==> i in arrivals {
      forall k | 0 <= k < |data| ensures buffer[k] == Octet(data[k]) {
        var i := SomePieceCovers(pieces, |data|, k, |pieces| - 1);
        assert i in arrivals;
        SlotAfter(id, data, pieces, arrivals, k);
      }
    } else {
      var i :| 0 <= i < |pieces| && pieces[i].0 < pieces[i].1 && i !in arrivals;
      var k := pieces[i].0;
      SlotAfter(id, data, pieces, arrivals, k);
      if j :| 0 <= j < |arrivals| && Covers(pieces[arrivals[j]], k) {
        OnePieceCovers(pieces, |data|, i, arrivals[j], k);
      }
      assert buffer[k] == Hole;
    }
  }
}
