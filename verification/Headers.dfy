/** TCP, UDP and IPv4 headers: owning objects, in-place views, setters and checksum recalculation. */
module Headers {
  import opened Bytes
  import opened Checksum

  const TCP_CHECKSUM := 16
  const UDP_CHECKSUM := 6
  const IP_CHECKSUM := 10

  // ----- TCP fields -----

  datatype TcpFields = TcpFields(srcPort: u16, dstPort: u16, seqNo: u32, ackNo: u32,
                                 offset: byte, window: u16, checksum: u16, urgent: u16)

  /** One call of a setter; the offset is the only field that shares its octet with others. */
  datatype TcpSetter =
    | SrcPort(port: u16) | DstPort(port: u16) | SeqNumber(number: u32) | AckNumber(number: u32)
    | Offset(words: byte) | Window(size: u16) | TcpChecksum(sum: u16) | Urgent(pointer: u16)

  /** What the getters read out of a header. */
  function Fields(h: seq<byte>): TcpFields
    requires |h| >= 20
  {
    TcpFields(U16At(h, 0), U16At(h, 2), U32At(h, 4), U32At(h, 8), h[12] / 16, U16At(h, 14), U16At(h, 16), U16At(h, 18))
  }

  /** A header whose data offset counts exactly its own length. */
  predicate IsTcpHeader(h: seq<byte>) {
    |h| >= 20 && |h| == 4 * (h[12] / 16)
  }

  /** What a setter means for the record of fields: four bits are kept of an offset. */
  function UpdateFields(f: TcpFields, s: TcpSetter): TcpFields {
    match s
    case SrcPort(p) => f.(srcPort := p)
    case DstPort(p) => f.(dstPort := p)
    case SeqNumber(n) => f.(seqNo := n)
    case AckNumber(n) => f.(ackNo := n)
    case Offset(w) => f.(offset := w % 16)
    case Window(w) => f.(window := w)
    case TcpChecksum(c) => f.(checksum := c)
    case Urgent(u) => f.(urgent := u)
  }

  /** The data offset is shifted into the high half of its octet; the low half stays. */
  function OffsetOctet(words: byte, was: byte): (r: byte)
    ensures r / 16 == words % 16 && r % 16 == was % 16
  {
    words % 16 * 16 + was % 16
  }

  /** What a setter does to the octets. */
  function SetOctets(h: seq<byte>, s: TcpSetter): (r: seq<byte>)
    requires |h| >= 20
    ensures |r| == |h|
  {
    match s
    case SrcPort(p) => Splice(h, 0, Put16(p))
    case DstPort(p) => Splice(h, 2, Put16(p))
    case SeqNumber(n) => Splice(h, 4, Put32(n))
    case AckNumber(n) => Splice(h, 8, Put32(n))
    case Offset(w) => h[12 := OffsetOctet(w, h[12])]
    case Window(w) => Splice(h, 14, Put16(w))
    case TcpChecksum(c) => Splice(h, 16, Put16(c))
    case Urgent(u) => Splice(h, 18, Put16(u))
  }

  /** Where the fields lie: a header is its fields in the order of section 3.1 of RFC 9293. */
  lemma FieldsAreLayout(h: seq<byte>)
    requires |h| >= 20
    ensures var f := Fields(h);
            && f.offset <= 15
            && h == Put16(f.srcPort) + Put16(f.dstPort) + Put32(f.seqNo) + Put32(f.ackNo)
                    + [f.offset * 16 + h[12] % 16, h[13]]
                    + Put16(f.window) + Put16(f.checksum) + Put16(f.urgent) + h[20..]
  {
    PutReadBack(h, 0);
    PutReadBack(h, 2);
    PutReadBack(h, 4);
    PutReadBack(h, 8);
    PutReadBack(h, 14);
    PutReadBack(h, 16);
    PutReadBack(h, 18);
    HighAndLow(h[12]);
    TenSlices(h);
  }

  lemma HighAndLow(octet: byte)
    ensures octet / 16 * 16 + octet % 16 == octet && octet / 16 <= 15
  {}

  lemma TenSlices(h: seq<byte>)
    requires |h| >= 20
    ensures h == h[0..2] + h[2..4] + h[4..8] + h[8..12] + [h[12], h[13]] + h[14..16] + h[16..18] + h[18..20] + h[20..]
  {}

  function RunSetters(h: seq<byte>, run: seq<TcpSetter>): (r: seq<byte>)
    requires |h| >= 20
    ensures |r| == |h|
    decreases |run|
  {
    if run == [] then h else RunSetters(SetOctets(h, run[0]), run[1..])
  }

  function RunFields(f: TcpFields, run: seq<TcpSetter>): TcpFields
    decreases |run|
  {
    if run == [] then f else RunFields(UpdateFields(f, run[0]), run[1..])
  }

  lemma SetterUpdatesField(h: seq<byte>, s: TcpSetter)
    requires |h| >= 20
    ensures Fields(SetOctets(h, s)) == UpdateFields(Fields(h), s)
    ensures SetOctets(h, s)[12] % 16 == h[12] % 16 && SetOctets(h, s)[13] == h[13] && SetOctets(h, s)[20..] == h[20..]
  {
    match s
    case SeqNumber(n) => ReadSpliced(h, 4, Put32(n));
    case AckNumber(n) => ReadSpliced(h, 8, Put32(n));
    case SrcPort(p) => ReadSpliced(h, 0, Put16(p));
    case DstPort(p) => ReadSpliced(h, 2, Put16(p));
    case Window(w) => ReadSpliced(h, 14, Put16(w));
    case TcpChecksum(c) => ReadSpliced(h, 16, Put16(c));
    case Urgent(u) => ReadSpliced(h, 18, Put16(u));
    case Offset(w) =>
  }

  lemma ReadSpliced(h: seq<byte>, i: nat, t: seq<byte>)
    requires i + |t| <= |h|
    ensures |t| == 2 ==> U16At(Splice(h, i, t), i) == U16At(t, 0)
    ensures |t| == 4 ==> U32At(Splice(h, i, t), i) == U32At(t, 0)
  {}

  /**
   * After any run of setters every getter returns what a record of fields would hold, and the
   * reserved bits, the flags and the options are what they were.
   */
  lemma {:induction false} SetterRunRefinesRecord(h: seq<byte>, run: seq<TcpSetter>)
    requires |h| >= 20
    ensures Fields(RunSetters(h, run)) == RunFields(Fields(h), run)
    ensures RunSetters(h, run)[12] % 16 == h[12] % 16 && RunSetters(h, run)[13] == h[13]
    ensures RunSetters(h, run)[20..] == h[20..]
    decreases |run|
  {
    if run != [] {
      SetterUpdatesField(h, run[0]);
      SetterRunRefinesRecord(SetOctets(h, run[0]), run[1..]);
    }
  }

  // ----- objects: the header is a vector of its own -----

  class TcpPacketLittleEndian {
    var header: seq<byte>

    /** `parse_packet`: twenty octets, then as many options as the data offset announces. */
    constructor (data: seq<byte>)
      requires |data| >= 20 && data[12] / 16 >= 5 && 4 * (data[12] / 16) <= |data|
      ensures header == data[..4 * (data[12] / 16)] && IsTcpHeader(header)
    {
      header := data[..20] + data[20..20 + (data[12] / 16 - 5) * 4];
    }

    method Set(s: TcpSetter)
      requires |header| >= 20
      modifies this
      ensures header == SetOctets(old(header), s)
    {
      match s
      case SrcPort(p) => Set16(0, p);
      case DstPort(p) => Set16(2, p);
      case SeqNumber(n) => Set32(4, n);
      case AckNumber(n) => Set32(8, n);
      case Offset(w) => header := header[12 := OffsetOctet(w, header[12])];
      case Window(w) => Set16(14, w);
      case TcpChecksum(c) => Set16(16, c);
      case Urgent(u) => Set16(18, u);
    }

    method Set16(i: nat, n: u16)
      requires i + 2 <= |header|
      modifies this
      ensures header == Splice(old(header), i, Put16(n))
    {
      header := header[i := n / 0x100][i + 1 := n % 0x100];
    }

    method Set32(i: nat, n: u32)
      requires i + 4 <= |header|
      modifies this
      ensures header == Splice(old(header), i, Put32(n))
    {
      var b := Put32(n);
      header := header[i := b[0]][i + 1 := b[1]][i + 2 := b[2]][i + 3 := b[3]];
    }

    method RecalculateTransportChecksum(pseudo: seq<byte>, data: array<byte>, lo: nat, hi: nat)
      requires |header| >= 20 && |header| % 2 == 0 && |pseudo| % 2 == 0 && lo <= hi <= data.Length
      modifies this
      ensures header == StoreChecksum(old(header), TCP_CHECKSUM, pseudo, data[lo..hi])
    {
      Set16(16, 0);
      var sum := AddWords(0, pseudo);
      sum := AddWords(sum, header);
      sum := AddPayload(sum, data, lo, hi);
      StepsAddUp(Sum16(pseudo), Sum16(header), Sum16(data[lo..hi]));
      var checksum := FoldAndComplement(sum);
      Set16(16, checksum);
    }
  }

  class UdpPacketLittleEndian {
    var header: seq<byte>

    method SetChecksum(c: u16)
      requires |header| >= 8
      modifies this
      ensures header == Splice(old(header), UDP_CHECKSUM, Put16(c))
    {
      header := header[6 := c / 0x100][7 := c % 0x100];
    }

    method RecalculateTransportChecksum(pseudo: seq<byte>, data: array<byte>, lo: nat, hi: nat)
      requires |header| >= 8 && |header| % 2 == 0 && |pseudo| % 2 == 0 && lo <= hi <= data.Length
      modifies this
      ensures header == StoreChecksum(old(header), UDP_CHECKSUM, pseudo, data[lo..hi])
    {
      SetChecksum(0);
      var sum := AddWords(0, pseudo);
      sum := AddWords(sum, header);
      sum := AddPayload(sum, data, lo, hi);
      StepsAddUp(Sum16(pseudo), Sum16(header), Sum16(data[lo..hi]));
      var checksum := FoldAndComplement(sum);
      SetChecksum(checksum);
    }
  }

  class Ipv4PacketLittleEndian {
    var header: seq<byte>

    method SetChecksum(c: u16)
      requires |header| >= 20
      modifies this
      ensures header == Splice(old(header), IP_CHECKSUM, Put16(c))
    {
      header := header[10 := c / 0x100][11 := c % 0x100];
    }

    method RecalculateIpChecksum()
      requires |header| >= 20 && |header| % 2 == 0
      modifies this
      ensures header == StoreChecksum(old(header), IP_CHECKSUM, [], [])
    {
      SetChecksum(0);
      var sum := AddWords(0, header);
      var checksum := FoldAndComplement(sum);
      SetChecksum(checksum);
    }
  }

  // ----- views: the header lies inside somebody else's buffer -----

  class TcpPacketView {
    const buf: array<byte>
    const at: nat
    var optionsSize: nat

    ghost predicate Valid()
      reads this
    {
      at + 20 + optionsSize <= buf.Length && optionsSize % 4 == 0
    }

    ghost function Header(): seq<byte>
      requires Valid()
      reads this, buf
    {
      buf[at..at + 20 + optionsSize]
    }

    constructor (buf: array<byte>, begin: nat)
      requires begin + 20 <= buf.Length && buf[begin + 12] / 16 >= 5
      requires begin + 4 * (buf[begin + 12] / 16) <= buf.Length
      ensures Valid() && this.buf == buf && at == begin && IsTcpHeader(Header())
    {
      this.buf := buf;
      at := begin;
      optionsSize := (buf[begin + 12] / 16 - 5) * 4;
    }

    method Set(s: TcpSetter)
      requires Valid()
      modifies buf
      ensures buf[..] == Splice(old(buf[..]), at, SetOctets(old(Header()), s))
    {
      match s
      case SrcPort(p) => Set16(0, p);
      case DstPort(p) => Set16(2, p);
      case SeqNumber(n) => Set32(4, n);
      case AckNumber(n) => Set32(8, n);
      case Offset(w) => SetOffset(w);
      case Window(w) => Set16(14, w);
      case TcpChecksum(c) => Set16(16, c);
      case Urgent(u) => Set16(18, u);
    }

    method SetOffset(words: byte)
      requires Valid()
      modifies buf
      ensures buf[..] == Splice(old(buf[..]), at, SetOctets(old(Header()), Offset(words)))
    {
      ghost var h := Header();
      buf[at + 12] := OffsetOctet(words, buf[at + 12]);
      assert buf[..] == Splice(old(buf[..]), at, h[12 := OffsetOctet(words, h[12])]);
    }

    method Set16(i: nat, n: u16)
      requires Valid() && i + 2 <= 20
      modifies buf
      ensures buf[..] == Splice(old(buf[..]), at, Splice(old(Header()), i, Put16(n)))
    {
      ghost var was := buf[..];
      assert was[at..at + 20 + optionsSize] == Header();
      SpliceInSlice(was, at, 20 + optionsSize, i, Put16(n));
      var b := Put16(n);
      buf[at + i], buf[at + i + 1] := b[0], b[1];
      assert buf[..] == Splice(was, at + i, Put16(n));
    }

    method Set32(i: nat, n: u32)
      requires Valid() && i + 4 <= 20
      modifies buf
      ensures buf[..] == Splice(old(buf[..]), at, Splice(old(Header()), i, Put32(n)))
    {
      ghost var was := buf[..];
      assert was[at..at + 20 + optionsSize] == Header();
      SpliceInSlice(was, at, 20 + optionsSize, i, Put32(n));
      var b := Put32(n);
      buf[at + i], buf[at + i + 1], buf[at + i + 2], buf[at + i + 3] := b[0], b[1], b[2], b[3];
      assert buf[..] == Splice(was, at + i, Put32(n));
    }

    /**
     * Three separate loops - fixed header, options, payload - store what the object's single header
     * loop stores, and nothing in the shared buffer changes but the two checksum octets.
     */
    method RecalculateTransportChecksum(pseudo: seq<byte>, data: array<byte>, lo: nat, hi: nat)
      requires Valid() && |pseudo| % 2 == 0 && lo <= hi <= data.Length
      requires data == buf ==> hi <= at || at + 20 + optionsSize <= lo
      modifies buf
      ensures buf[..] == Splice(old(buf[..]), at, StoreChecksum(old(Header()), TCP_CHECKSUM, pseudo, old(data[lo..hi])))
      ensures forall k :: 0 <= k < buf.Length && k != at + 16 && k != at + 17 ==> buf[k] == old(buf[k])
    {
      ghost var was, header, payload := buf[..], Header(), data[lo..hi];
      ghost var zeroed := Splice(header, TCP_CHECKSUM, Put16(0));
      SetChecksum(0, data, lo, hi);
      var sum := Accumulate(pseudo, data, lo, hi);
      var checksum := FoldAndComplement(sum);
      SetChecksum(checksum, data, lo, hi);
      assert Header() == StoreChecksum(header, TCP_CHECKSUM, pseudo, payload);
      SpliceTwice(was, at, zeroed, Header());
    }

    /** Data outside the header stay as they are. */
    method SetChecksum(checksum: u16, ghost data: array<byte>, ghost lo: nat, ghost hi: nat)
      requires Valid() && lo <= hi <= data.Length
      requires data == buf ==> hi <= at || at + 20 + optionsSize <= lo
      modifies buf
      ensures Header() == Splice(old(Header()), TCP_CHECKSUM, Put16(checksum))
      ensures buf[..] == Splice(old(buf[..]), at, Header()) && data[lo..hi] == old(data[lo..hi])
      ensures forall k :: 0 <= k < buf.Length && k != at + 16 && k != at + 17 ==> buf[k] == old(buf[k])
    {
      ghost var was, t, n := buf[..], Splice(Header(), TCP_CHECKSUM, Put16(checksum)), 20 + optionsSize;
      Set16(TCP_CHECKSUM, checksum);
      SplicedSlices(was, at, t, 0, 0);
      assert Header() == buf[..][at..at + n];
      if data == buf {
        SplicedSlices(was, at, t, lo, hi);
        assert data[lo..hi] == buf[..][lo..hi] && was[lo..hi] == old(data[lo..hi]);
      }
      assert was[at..at + n] == old(Header());
      ChecksumOctetsOnly(was, at, old(Header()), checksum);
      assert forall k :: 0 <= k < buf.Length ==> buf[k] == buf[..][k];
    }

    /** Pseudo-header, fixed header, options and payload, one loop each. */
    method Accumulate(pseudo: seq<byte>, data: array<byte>, lo: nat, hi: nat) returns (sum: u32)
      requires Valid() && |pseudo| % 2 == 0 && lo <= hi <= data.Length
      ensures sum == SegmentSum(pseudo, Header(), data[lo..hi]) % U32_RANGE
    {
      var opt, end := at + 20, at + 20 + optionsSize;
      sum := AddWords(0, pseudo);
      ghost var s1 := sum;
      sum := AddBufferWords(sum, buf, at, opt);
      ghost var s2 := sum;
      EvenSize(optionsSize);
      assert end - opt == optionsSize;
      sum := AddBufferWords(sum, buf, opt, end);
      ghost var s3 := sum;
      sum := AddPayload(sum, data, lo, hi);
      FourSteps(Sum16(pseudo), Sum16(buf[at..opt]), Sum16(buf[opt..end]), Sum16(data[lo..hi]), s1, s2, s3, sum);
      HeaderSum(opt, end);
    }

    static lemma EvenSize(size: nat)
      requires size % 4 == 0
      ensures size % 2 == 0
    {
      var q, r := size / 4, size / 2;
      assert size == 4 * q;
      assert r == 2 * q;
    }

    lemma HeaderSum(opt: nat, end: nat)
      requires Valid() && opt == at + 20 && end == opt + optionsSize
      ensures Sum16(Header()) == Sum16(buf[at..opt]) + Sum16(buf[opt..end])
    {
      assert buf[at..opt] + buf[opt..end] == Header();
      SumConcat(buf[at..opt], buf[opt..end]);
    }
  }

  lemma ChecksumOctetsOnly(was: seq<byte>, at: nat, header: seq<byte>, checksum: u16)
    requires at + |header| <= |was| && was[at..at + |header|] == header && |header| >= 20
    ensures var now := Splice(was, at, Splice(header, TCP_CHECKSUM, Put16(checksum)));
            forall k :: 0 <= k < |was| && k != at + 16 && k != at + 17 ==> now[k] == was[k]
  {
    forall k | at <= k < at + |header| ensures was[k] == header[k - at] {
      assert was[at..at + |header|][k - at] == was[k];
    }
  }

  class UdpPacketView {
    const buf: array<byte>
    const at: nat

    constructor (buf: array<byte>, begin: nat)
      requires begin + 8 <= buf.Length
      ensures this.buf == buf && at == begin
    {
      this.buf := buf;
      at := begin;
    }

    method RecalculateTransportChecksum(pseudo: seq<byte>, data: array<byte>, lo: nat, hi: nat)
      requires at + 8 <= buf.Length && |pseudo| % 2 == 0 && lo <= hi <= data.Length
      requires data == buf ==> hi <= at || at + 8 <= lo
      modifies buf
      ensures buf[..] == Splice(old(buf[..]), at,
                                StoreChecksum(old(buf[at..at + 8]), UDP_CHECKSUM, pseudo, old(data[lo..hi])))
      ensures forall k :: 0 <= k < buf.Length && k != at + 6 && k != at + 7 ==> buf[k] == old(buf[k])
    {
      ghost var zeroed, payload := Splice(buf[at..at + 8], UDP_CHECKSUM, Put16(0)), data[lo..hi];
      SetChecksum(0);
      assert buf[at..at + 8] == buf[..][at..at + 8] == zeroed && data[lo..hi] == payload;
      var sum := Accumulate(pseudo, data, lo, hi);
      var checksum := FoldAndComplement(sum);
      SetChecksum(checksum);
    }

    method Accumulate(pseudo: seq<byte>, data: array<byte>, lo: nat, hi: nat) returns (sum: u32)
      requires at + 8 <= buf.Length && |pseudo| % 2 == 0 && lo <= hi <= data.Length
      ensures sum == SegmentSum(pseudo, buf[at..at + 8], data[lo..hi]) % U32_RANGE
    {
      sum := AddWords(0, pseudo);
      sum := AddBufferWords(sum, buf, at, at + 8);
      sum := AddPayload(sum, data, lo, hi);
      StepsAddUp(Sum16(pseudo), Sum16(buf[at..at + 8]), Sum16(data[lo..hi]));
    }

    method SetChecksum(c: u16)
      requires at + 8 <= buf.Length
      modifies buf
      ensures buf[..] == Splice(old(buf[..]), at, Splice(old(buf[at..at + 8]), UDP_CHECKSUM, Put16(c)))
    {
      ghost var was := buf[..];
      assert was[at..at + 8] == buf[at..at + 8];
      SpliceInSlice(was, at, 8, UDP_CHECKSUM, Put16(c));
      var b := Put16(c);
      buf[at + 6], buf[at + 7] := b[0], b[1];
      assert buf[..] == Splice(was, at + UDP_CHECKSUM, Put16(c));
    }
  }
}
