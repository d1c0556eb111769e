/** Packets cut into fragments, and the builder that puts the fragments of one packet together again. */
module Fragments {
  import opened Bytes
  import opened Words

  const BUILDER_HEADER := 5

  /** A fragment on the wire: packet id, offset, original size, octets. */
  function Fragment(id: byte, offset: u16, size: u16, octets: seq<byte>): (r: seq<byte>)
    ensures |r| == BUILDER_HEADER + |octets|
  {
    [id] + Put16(offset) + Put16(size) + octets
  }

  lemma FragmentFields(id: byte, offset: u16, size: u16, octets: seq<byte>)
    ensures var f := Fragment(id, offset, size, octets);
            f[0] == id && U16At(f, 1) == offset && U16At(f, 3) == size && f[BUILDER_HEADER..] == octets
  {
    var f := Fragment(id, offset, size, octets);
    assert f[1..3] == Put16(offset) && f[3..5] == Put16(size);
  }

  // ----- the builder -----

  datatype Builder = Builder(originalSize: u16, data: seq<byte>, full: bool)

  /** `std::find`: the first octet whose VALUE is `v`, or the end. */
  function FindValue(data: seq<byte>, v: nat): (i: nat)
    ensures i <= |data| && (i < |data| ==> data[i] == v) && forall k :: 0 <= k < i ==> data[k] != v
  {
    if data == [] || data[0] == v then 0 else 1 + FindValue(data[1..], v)
  }

  function InsertAt(data: seq<byte>, i: nat, octets: seq<byte>): seq<byte>
    requires i <= |data|
  {
    data[..i] + octets + data[i..]
  }

  /** `PacketBuilder::add_data` on a fragment without its id: the offset is looked up among the octets received. */
  function AddData(b: Builder, part: seq<byte>): Builder
    requires |part| >= 4
  {
    var data := InsertAt(b.data, FindValue(b.data, U16At(part, 0)), part[4..]);
    b.(data := data, full := b.full || |data| == b.originalSize)
  }

  /** The constructor: the first fragment to arrive fixes the original size. */
  function NewBuilder(part: seq<byte>): Builder
    requires |part| >= 4
  {
    AddData(Builder(U16At(part, 2), [], false), part)
  }

  /** `operator==` keeps only its last comparison, so assigning to a builder with equal data does nothing. */
  function Assigned(to: Builder, from: Builder): Builder {
    if to.data == from.data then to else from
  }

  /**
   * Adding a part appends its octets exactly when the offset is no octet received so far, or when
   * the octets from its first occurrence on and the new octets repeat one common word.
   */
  lemma AppendsExactlyWhen(data: seq<byte>, offset: u16, octets: seq<byte>)
    ensures var i := FindValue(data, offset);
            InsertAt(data, i, octets) == data + octets <==> offset !in data || CommonRoot(data[i..], octets)
  {
    var i := FindValue(data, offset);
    InsertedInside(data[..i], data[i..], octets);
    CommuteIffCommonRoot(data[i..], octets);
    assert data == data[..i] + data[i..];
    if offset !in data {
      assert data[i..] == [] && octets + [] == octets == [] + octets;
    }
  }

  lemma InsertedInside(front: seq<byte>, tail: seq<byte>, octets: seq<byte>)
    ensures front + octets + tail == (front + tail) + octets <==> tail + octets == octets + tail
  {
    var x, y := front + octets + tail, (front + tail) + octets;
    assert x[|front|..] == octets + tail && y[|front|..] == tail + octets;
    assert x == front + (octets + tail) && y == front + (tail + octets);
  }

  /** Offsets above 255 are never octets: their parts are always appended. */
  lemma LargeOffsetsAppend(data: seq<byte>, offset: u16, octets: seq<byte>)
    requires offset > 0xFF
    ensures InsertAt(data, FindValue(data, offset), octets) == data + octets
  {
    AppendsExactlyWhen(data, offset, octets);
  }

  /** A part with a small offset can land in the middle. */
  lemma SmallOffsetMisplaced()
    ensures var data: seq<byte> := [9, 2];
            InsertAt(data, FindValue(data, 2), [7]) == [9, 7, 2] && data + [7] == [9, 2, 7]
  {
    var data: seq<byte> := [9, 2];
    assert data[1..] == [2] && FindValue(data[1..], 2) == 0;
    assert FindValue(data, 2) == 1;
    assert data[..1] + [7] + data[1..] == [9, 7, 2];
  }

  /**
   * The first fragment, arriving after the second, goes to its place in front exactly when it and the
   * zero-free beginning of the second repeat one common word.
   */
  lemma SwappedFragments(first: seq<byte>, second: seq<byte>)
    ensures var i := FindValue(second, 0);
            InsertAt(second, i, first) == first + second <==> CommonRoot(first, second[..i])
  {
    var i := FindValue(second, 0);
    var head, tail := second[..i], second[i..];
    CommuteIffCommonRoot(first, head);
    assert second == head + tail;
    var inserted := InsertAt(second, i, first);
    assert inserted == (head + first) + tail && first + second == (first + head) + tail;
    if inserted == first + second {
      var n := |first| + i;
      assert inserted[..n] == head + first && (first + second)[..n] == first + head;
    }
  }

  /** A builder that has outgrown its packet - after a duplicate, say - never reports it full again. */
  lemma {:induction false} OverfullStaysIncomplete(b: Builder, parts: seq<seq<byte>>)
    requires |b.data| > b.originalSize && !b.full
    requires forall i :: 0 <= i < |parts| ==> |parts[i]| >= 4
    ensures !AddAll(b, parts).full
    decreases |parts|
  {
    if parts != [] {
      assert forall i :: 0 <= i < |parts| - 1 ==> parts[1..][i] == parts[i + 1];
      OverfullStaysIncomplete(AddData(b, parts[0]), parts[1..]);
    }
  }

  function AddAll(b: Builder, parts: seq<seq<byte>>): Builder
    requires forall i :: 0 <= i < |parts| ==> |parts[i]| >= 4
    decreases |parts|
  {
    if parts == [] then b else AddAll(AddData(b, parts[0]), parts[1..])
  }

  // ----- splitting -----

  datatype Split = Split(separators: seq<(int, int)>, dataSize: u16)

  /** `SplittedPacketView::add_data` of `size` octets. */
  function AddPiece(s: Split, size: int): Split {
    Split(s.separators + [(s.dataSize, s.dataSize + size)], (s.dataSize + size) % 0x1_0000)
  }

  /** The loop of `split_packet_view` from iteration `i` on; `start` and `end` are offsets into the packet. */
  function SplitFrom(s: Split, n: nat, piece: u16, count: byte, i: nat, start: int, end: int): Split
    requires i <= count
    decreases count - i
  {
    if i == count then s
    else
      var start' := start + i * piece;
      var end' := if n < end then n else start' + piece;
      SplitFrom(AddPiece(s, end' - start'), n, piece, count, i + 1, start', end')
  }

  /** The number of pieces is computed in eight bits. */
  function PieceCount(n: nat, piece: u16): byte
    requires piece > 0
  {
    n / piece % 0x100
  }

  /** `split_packet_view` of a packet of `n` octets. */
  function SplitView(n: nat, maxSize: u32, piece: u16): Split
    requires n >= maxSize ==> piece > 0
  {
    var empty := Split([], 0);
    if n >= maxSize then SplitFrom(empty, n, piece, PieceCount(n, piece), 0, 0, piece) else AddPiece(empty, n)
  }

  method SplitPacketView(n: nat, maxSize: u32, piece: u16) returns (s: Split)
    requires n >= maxSize ==> piece > 0
    ensures s == SplitView(n, maxSize, piece)
  {
    s := Split([], 0);
    if n >= maxSize {
      var count: byte := n / piece % 0x100;
      var start, end := 0, piece as int;
      for i := 0 to count
        invariant SplitFrom(s, n, piece, count, i, start, end) == SplitView(n, maxSize, piece)
      {
        start := start + i * piece;
        end := if n < end then n else start + piece;
        s := AddPiece(s, end - start);
      }
    } else {
      s := AddPiece(s, n);
    }
  }

  /** `count` adjacent pieces from the beginning. */
  function Pieces(count: nat, piece: nat): (r: seq<(int, int)>)
    ensures |r| == count
    ensures piece > 0 ==> forall i :: 0 <= i < count ==> r[i].0 < r[i].1
  {
    if count == 0 then [] else Pieces(count - 1, piece) + [((count - 1) * piece, count * piece)]
  }

  /** The loop moves `start` on by 0, 1, 2, ... pieces: where it is when iteration `i` begins. */
  function LoopStart(i: nat, piece: nat): nat {
    if i == 0 then 0 else LoopStart(i - 1, piece) + (i - 1) * piece
  }

  /** The packet reaches as far as the pointers of the loop do before its last iteration. */
  predicate LoopStaysInside(n: nat, piece: u16)
    requires piece > 0
  {
    var count := PieceCount(n, piece);
    count > 0 ==> LoopStart(count - 1, piece) + piece <= n
  }

  lemma {:induction false} LoopStartGrows(i: nat, j: nat, piece: nat)
    requires i <= j
    ensures LoopStart(i, piece) <= LoopStart(j, piece)
  {
    if i < j {
      LoopStartGrows(i, j - 1, piece);
    }
  }

  lemma {:induction false} StraightPieces(n: nat, piece: u16, count: byte, i: nat)
    requires i <= count && count * piece <= 0xFFFF
    requires i < count ==> LoopStart(count - 1, piece) + piece <= n
    ensures i * piece <= 0xFFFF
    ensures var start := LoopStart(i, piece);
            SplitFrom(Split(Pieces(i, piece), i * piece), n, piece, count, i, start, start + piece)
            == Split(Pieces(count, piece), count * piece)
    decreases count - i
  {
    FewerPieces(i, count, piece);
    if i < count {
      var next := i + 1;
      LoopStartGrows(i, count - 1, piece);
      FewerPieces(next, count, piece);
      NextPiece(i, piece, next);
      StraightPieces(n, piece, count, next);
    }
  }

  lemma NextPiece(i: nat, piece: nat, next: nat)
    requires next == i + 1 && piece <= 0xFFFF && next * piece <= 0xFFFF
    ensures i * piece <= 0xFFFF
    ensures AddPiece(Split(Pieces(i, piece), i * piece), piece) == Split(Pieces(next, piece), next * piece)
  {
    assert next * piece == i * piece + piece;
  }

  /** Some piece ends before it begins. */
  ghost predicate Crossed(s: Split) {
    exists k :: 0 <= k < |s.separators| && s.separators[k].1 < s.separators[k].0
  }

  lemma {:induction false} CrossedStays(s: Split, n: nat, piece: u16, count: byte, i: nat, start: int, end: int)
    requires i <= count && Crossed(s)
    ensures Crossed(SplitFrom(s, n, piece, count, i, start, end))
    decreases count - i
  {
    if i < count {
      var start' := start + i * piece;
      var end' := if n < end then n else start' + piece;
      var k :| 0 <= k < |s.separators| && s.separators[k].1 < s.separators[k].0;
      var s' := AddPiece(s, end' - start');
      assert s'.separators[k] == s.separators[k];
      CrossedStays(s', n, piece, count, i + 1, start', end');
    }
  }

  lemma {:induction false} LoopCrosses(s: Split, n: nat, piece: u16, count: byte, i: nat)
    requires i < count && piece <= n < LoopStart(count - 1, piece) + piece
    ensures var start := LoopStart(i, piece);
            Crossed(SplitFrom(s, n, piece, count, i, start, start + piece))
    decreases count - i
  {
    var start, start' := LoopStart(i, piece), LoopStart(i + 1, piece);
    if n < start + piece {
      var s' := AddPiece(s, n - start');
      assert i > 0;
      AtLeast(i, piece);
      assert s'.separators[|s.separators|] == (s.dataSize, s.dataSize + (n - start'));
      CrossedStays(s', n, piece, count, i + 1, start', n);
    } else {
      LoopCrosses(AddPiece(s, piece), n, piece, count, i + 1);
    }
  }

  lemma AtLeast(i: nat, piece: nat)
    requires i > 0
    ensures i * piece >= piece
  {
    assert i * piece == (i - 1) * piece + piece;
  }

  /**
   * A packet that is split at all is cut into adjacent pieces from its start exactly when the loop
   * stays inside it; otherwise some piece ends before it begins.
   */
  lemma SplitsIntoPieces(n: u16, maxSize: u32, piece: u16)
    requires n >= maxSize && 0 < piece <= n
    ensures PieceCount(n, piece) * piece <= n
    ensures var s, count := SplitView(n, maxSize, piece), PieceCount(n, piece);
            && (LoopStaysInside(n, piece) ==> s == Split(Pieces(count, piece), count * piece))
            && (!LoopStaysInside(n, piece) ==> Crossed(s))
  {
    var count := PieceCount(n, piece);
    WholePieces(n, piece);
    if LoopStaysInside(n, piece) {
      StraightPieces(n, piece, count, 0);
    } else {
      LoopCrosses(Split([], 0), n, piece, count, 0);
    }
  }

  lemma WholePieces(n: nat, piece: u16)
    requires piece > 0
    ensures PieceCount(n, piece) * piece <= n / piece * piece <= n
  {
    FewerPieces(n / piece % 0x100, n / piece, piece);
    Quotient(n, piece);
  }

  lemma Quotient(n: nat, piece: nat)
    requires piece > 0
    ensures n / piece * piece <= n
  {
    assert n == piece * (n / piece) + n % piece;
  }

  lemma FewerPieces(a: nat, b: nat, piece: nat)
    requires a <= b
    ensures a * piece <= b * piece
  {
    assert b * piece == a * piece + (b - a) * piece;
  }

  /** As long as the number of pieces fits its eight bits, that means: at most four pieces. */
  lemma FourPiecesAtMost(n: nat, piece: u16)
    requires 0 < piece && n / piece <= 0xFF
    ensures LoopStaysInside(n, piece) <==> n / piece <= 4
  {
    var count := n / piece;
    QuotientBounds(n, piece, count);
    if count > 4 {
      LoopOutruns(count, piece);
    } else if count > 0 {
      FirstLoopStarts(piece);
      FewerPieces(1, count, piece);
      assert count == 4 ==> 4 * piece <= n;
      assert count == 3 ==> 3 * piece <= n;
    }
  }

  lemma QuotientBounds(n: nat, piece: nat, count: nat)
    requires piece > 0 && count == n / piece
    ensures count * piece <= n < (count + 1) * piece
  {
    Quotient(n, piece);
  }

  lemma FirstLoopStarts(piece: nat)
    ensures LoopStart(1, piece) == 0 && LoopStart(2, piece) == piece
    ensures LoopStart(3, piece) == 3 * piece && LoopStart(4, piece) == 6 * piece
  {
    assert LoopStart(1, piece) == 0;
    assert LoopStart(2, piece) == piece;
    assert LoopStart(3, piece) == 3 * piece;
  }

  lemma {:induction false} LoopOutruns(count: nat, piece: nat)
    requires count >= 5
    ensures LoopStart(count - 1, piece) + piece >= (count + 1) * piece
  {
    if count == 5 {
      FirstLoopStarts(piece);
    } else {
      LoopOutruns(count - 1, piece);
      AtLeast(count - 2, piece);
      assert (count + 1) * piece == count * piece + piece;
    }
  }
}
