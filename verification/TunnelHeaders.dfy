/** Transport headers stripped to tunnel schemes on one side and rebuilt on the other. */
module TunnelHeaders {
  import opened Bytes
  import opened Checksum
  import opened Headers

  const TCP_SCHEME_FIXED := 15

  // ----- TCP flags -----

  /** `(h[12] & 1) << 1 | h[13]`: the NS bit lands on the place of SYN. */
  function TcpFlags(h: seq<byte>): u16
    requires |h| >= 20
  {
    if h[12] % 2 == 1 && h[13] / 2 % 2 == 0 then h[13] + 2 else h[13]
  }

  function FlagNs(flags: u16): byte { flags / 0x100 % 2 }

  function FlagsWithoutNs(flags: u16): byte { flags % 0x100 }

  // ----- TCP scheme -----

  /** `QTunnelTCPViewScheme::generate_object_bytes` on a view of `h`. */
  function EncodeTcp(h: seq<byte>): seq<byte>
    requires |h| >= 20
  {
    var f := Fields(h);
    Put16((TCP_SCHEME_FIXED + |h[20..]|) % 0x1_0000)
    + Put32(f.seqNo) + Put32(f.ackNo) + [FlagNs(TcpFlags(h)), FlagsWithoutNs(TcpFlags(h)), f.offset]
    + Put16(f.window) + Put16(f.urgent) + h[20..]
  }

  datatype TcpScheme = TcpScheme(seqNo: u32, ackNo: u32, flags: u16, offset: byte, window: u16, urgent: u16,
                                 options: seq<byte>)

  /** The getters of a scheme view over `s`. */
  function DecodeTcp(s: seq<byte>): TcpScheme
    requires |s| >= 17
  {
    TcpScheme(U32At(s, 2), U32At(s, 6), U16At(s, 10), s[12], U16At(s, 13), U16At(s, 15), s[17..])
  }

  /** `get_scheme_data_length`: the shift happens before the mask, so the high octet is lost. */
  function TcpSchemeLength(s: seq<byte>): u16
    requires |s| >= 2
  {
    s[1]
  }

  /** `TcpPacketLittleEndian::generate_object_bytes` */
  function GenerateTcp(srcPort: u16, dstPort: u16, t: TcpScheme): (r: seq<byte>)
    ensures |r| == 20 + |t.options|
  {
    Put16(srcPort) + Put16(dstPort) + Put32(t.seqNo) + Put32(t.ackNo)
    + [t.offset % 16 * 16 + FlagNs(t.flags), FlagsWithoutNs(t.flags)]
    + Put16(t.window) + Put16(0) + Put16(t.urgent) + t.options
  }

  /** The far side: the scheme is decoded and a header generated for the given ports. */
  function RebuildTcp(scheme: seq<byte>, srcPort: u16, dstPort: u16): seq<byte>
    requires |scheme| >= 17
  {
    GenerateTcp(srcPort, dstPort, DecodeTcp(scheme))
  }

  /**
   * Of any scheme whatever, encoded or not: which of its octets the generated header has, and where. The
   * low octet of the flags is taken over, of the high one the lowest bit, of the offset four bits.
   */
  lemma RebuiltFromScheme(s: seq<byte>, srcPort: u16, dstPort: u16)
    requires |s| >= 17
    ensures RebuildTcp(s, srcPort, dstPort)
            == Put16(srcPort) + Put16(dstPort) + s[2..10] + [s[12] % 16 * 16 + s[10] % 2, s[11]]
               + s[13..15] + [0, 0] + s[15..17] + s[17..]
  {
    PutReadBack(s, 2);
    PutReadBack(s, 6);
    PutReadBack(s, 13);
    PutReadBack(s, 15);
    FlagOctets(s[10], s[11]);
    GeneratedAs(srcPort, dstPort, DecodeTcp(s), s[2..6], s[6..10], s[13..15], s[15..17]);
    EightOctets(s);
  }

  lemma EightOctets(s: seq<byte>)
    requires |s| >= 10
    ensures s[2..6] + s[6..10] == s[2..10]
  {}

  lemma GeneratedAs(srcPort: u16, dstPort: u16, t: TcpScheme, seqNo: seq<byte>, ackNo: seq<byte>,
                    window: seq<byte>, urgent: seq<byte>)
    requires seqNo == Put32(t.seqNo) && ackNo == Put32(t.ackNo) && window == Put16(t.window)
    requires urgent == Put16(t.urgent)
    ensures GenerateTcp(srcPort, dstPort, t)
            == Put16(srcPort) + Put16(dstPort) + (seqNo + ackNo)
               + [t.offset % 16 * 16 + FlagNs(t.flags), FlagsWithoutNs(t.flags)] + window + [0, 0] + urgent + t.options
  {
    assert Put16(0) == [0, 0];
  }

  lemma FlagOctets(high: byte, low: byte)
    ensures FlagNs(high * 0x100 + low) == high % 2 && FlagsWithoutNs(high * 0x100 + low) == low
  {}

  /** Reading a scheme back gives the fields it was made from. */
  lemma TcpSchemeRoundTrip(h: seq<byte>)
    requires IsTcpHeader(h)
    ensures var f := Fields(h);
            DecodeTcp(EncodeTcp(h))
            == TcpScheme(f.seqNo, f.ackNo, FlagsWithoutNs(TcpFlags(h)), f.offset, f.window, f.urgent, h[20..])
  {
    var s, f := EncodeTcp(h), Fields(h);
    SchemeMiddle(h);
    assert s[2..6] == Put32(f.seqNo) && s[6..10] == Put32(f.ackNo);
    assert s[13..15] == Put16(f.window) && s[15..17] == Put16(f.urgent) && s[17..] == h[20..];
    ReadSlice(s, 2);
    ReadSlice(s, 6);
    ReadSlice(s, 13);
    ReadSlice(s, 15);
  }

  lemma SchemeMiddle(h: seq<byte>)
    requires |h| >= 20
    ensures U16At(EncodeTcp(h), 10) == FlagsWithoutNs(TcpFlags(h)) && EncodeTcp(h)[12] == Fields(h).offset
  {
    assert FlagNs(TcpFlags(h)) == 0;
  }

  lemma ReadSlice(s: seq<byte>, i: nat)
    requires i + 2 <= |s|
    ensures U16At(s, i) == U16At(s[i..i + 2], 0)
    ensures i + 4 <= |s| ==> U32At(s, i) == U32At(s[i..i + 4], 0)
  {}

  /** A rebuilt header is the original one with reserved bits and NS dropped and the checksum zeroed. */
  lemma RebuiltTcpHeader(h: seq<byte>)
    requires IsTcpHeader(h)
    ensures RebuildTcp(EncodeTcp(h), U16At(h, 0), U16At(h, 2))
            == h[..12] + [h[12] / 16 * 16, FlagsWithoutNs(TcpFlags(h))] + h[14..16] + [0, 0] + h[18..]
  {
    TcpSchemeRoundTrip(h);
    FieldsReadBack(h);
    OffsetOctet(h);
    assert h[18..] == h[18..20] + h[20..];
  }

  lemma OffsetOctet(h: seq<byte>)
    requires |h| >= 20
    ensures Fields(h).offset % 16 * 16 + FlagNs(FlagsWithoutNs(TcpFlags(h))) == h[12] / 16 * 16
  {}

  lemma FieldsReadBack(h: seq<byte>)
    requires |h| >= 20
    ensures Put16(U16At(h, 0)) + Put16(U16At(h, 2)) + Put32(U32At(h, 4)) + Put32(U32At(h, 8)) == h[..12]
    ensures Put16(U16At(h, 14)) == h[14..16] && Put16(U16At(h, 18)) == h[18..20]
  {
    PutReadBack(h, 0);
    PutReadBack(h, 2);
    PutReadBack(h, 4);
    PutReadBack(h, 8);
    PutReadBack(h, 14);
    PutReadBack(h, 18);
    FourSlices(h);
  }

  lemma FourSlices(h: seq<byte>)
    requires |h| >= 12
    ensures h[0..2] + h[2..4] + h[4..8] + h[8..12] == h[..12]
  {}

  /**
   * End to end, a header comes back octet for octet exactly when its reserved and NS bits are clear
   * and its checksum is the one recalculation would have stored.
   */
  lemma TcpTunnelIdentity(h: seq<byte>, pseudo: seq<byte>, payload: seq<byte>)
    requires IsTcpHeader(h)
    ensures var rebuilt := RebuildTcp(EncodeTcp(h), U16At(h, 0), U16At(h, 2));
            StoreChecksum(rebuilt, TCP_CHECKSUM, pseudo, payload) == h
            <==> h[12] % 16 == 0 && h == StoreChecksum(h, TCP_CHECKSUM, pseudo, payload)
  {
    RebuiltTcpHeader(h);
    var rebuilt := RebuildTcp(EncodeTcp(h), U16At(h, 0), U16At(h, 2));
    var back := StoreChecksum(rebuilt, TCP_CHECKSUM, pseudo, payload);
    assert back[12] == h[12] / 16 * 16;
    if h[12] % 16 == 0 {
      TcpHeaderSurvivesTunnel(h, pseudo, payload);
    }
  }

  /** With those bits clear, the far side - whatever its addresses - sends `h` with a fresh checksum. */
  lemma TcpHeaderSurvivesTunnel(h: seq<byte>, pseudo: seq<byte>, payload: seq<byte>)
    requires IsTcpHeader(h) && h[12] % 16 == 0
    ensures StoreChecksum(RebuildTcp(EncodeTcp(h), U16At(h, 0), U16At(h, 2)), TCP_CHECKSUM, pseudo, payload)
            == StoreChecksum(h, TCP_CHECKSUM, pseudo, payload)
  {
    OnlyChecksumDiffers(h);
    StoreForgetsOldChecksum(RebuildTcp(EncodeTcp(h), U16At(h, 0), U16At(h, 2)), h, TCP_CHECKSUM, pseudo, payload);
  }

  /** The scheme does not carry the ports. */
  lemma SchemeWithoutPorts(h: seq<byte>, port: u16)
    requires IsTcpHeader(h)
    ensures var moved := Splice(h, 0, Put16(port));
            && IsTcpHeader(moved) && EncodeTcp(moved) == EncodeTcp(h)
            && U16At(moved, 0) == port && U16At(moved, 2) == U16At(h, 2)
  {
    var moved := Splice(h, 0, Put16(port));
    assert moved[4..20] == h[4..20] && moved[20..] == h[20..];
    SameBehindPorts(h, moved);
  }

  lemma SameBehindPorts(h: seq<byte>, m: seq<byte>)
    requires |h| == |m| >= 20 && h[4..20] == m[4..20] && h[20..] == m[20..]
    ensures EncodeTcp(h) == EncodeTcp(m)
  {
    assert forall k :: 4 <= k < 20 ==> h[k] == h[4..20][k - 4];
    assert forall k :: 4 <= k < 20 ==> m[k] == m[4..20][k - 4];
    assert U32At(h, 4) == U32At(m, 4) && U32At(h, 8) == U32At(m, 8);
    assert h[12] == m[12] && h[13] == m[13] && U16At(h, 14) == U16At(m, 14) && U16At(h, 18) == U16At(m, 18);
  }

  /**
   * Whatever source port the far side puts in - the server the one it decoded - what it sends is the
   * original header from that port with a fresh checksum exactly when those bits are clear.
   */
  lemma TcpHeaderFromAnyPort(h: seq<byte>, port: u16, pseudo: seq<byte>, payload: seq<byte>)
    requires IsTcpHeader(h)
    ensures StoreChecksum(RebuildTcp(EncodeTcp(h), port, U16At(h, 2)), TCP_CHECKSUM, pseudo, payload)
            == StoreChecksum(Splice(h, 0, Put16(port)), TCP_CHECKSUM, pseudo, payload)
            <==> h[12] % 16 == 0
  {
    var moved := Splice(h, 0, Put16(port));
    SchemeWithoutPorts(h, port);
    assert moved[12] == h[12];
    if h[12] % 16 == 0 {
      TcpHeaderSurvivesTunnel(moved, pseudo, payload);
    } else {
      RebuiltTcpHeader(moved);
      var rebuilt := RebuildTcp(EncodeTcp(h), port, U16At(h, 2));
      assert StoreChecksum(rebuilt, TCP_CHECKSUM, pseudo, payload)[12] == h[12] / 16 * 16;
      assert StoreChecksum(moved, TCP_CHECKSUM, pseudo, payload)[12] == h[12];
    }
  }

  lemma OnlyChecksumDiffers(h: seq<byte>)
    requires IsTcpHeader(h) && h[12] % 16 == 0
    ensures var rebuilt := RebuildTcp(EncodeTcp(h), U16At(h, 0), U16At(h, 2));
            |rebuilt| == |h| && Splice(rebuilt, TCP_CHECKSUM, Put16(0)) == Splice(h, TCP_CHECKSUM, Put16(0))
  {
    RebuiltTcpHeader(h);
    FlagOctet(h);
  }

  /** The octet itself, unless NS is set and SYN clear. */
  lemma FlagOctet(h: seq<byte>)
    requires |h| >= 20
    ensures FlagsWithoutNs(TcpFlags(h)) == TcpFlags(h)
    ensures TcpFlags(h) == h[13] <==> h[12] % 2 == 0 || h[13] / 2 % 2 == 1
    ensures TcpFlags(h) != h[13] ==> TcpFlags(h) == h[13] as int + 2
  {
    BelowTop(h[13]);
  }

  lemma BelowTop(octet: byte)
    ensures octet / 2 % 2 == 0 ==> octet <= 253
  {}

  /** The flags octet is carried faithfully except that a set NS bit arrives as SYN. */
  lemma NsArrivesAsSyn(h: seq<byte>)
    requires IsTcpHeader(h)
    ensures var r := RebuildTcp(EncodeTcp(h), U16At(h, 0), U16At(h, 2));
            if h[12] % 2 == 0 || h[13] / 2 % 2 == 1 then r[13] == h[13] else r[13] == h[13] as int + 2
  {
    RebuiltTcpHeader(h);
    FlagOctet(h);
  }

  /** The length getter is right exactly for schemes shorter than 256 octets; every encoded header is one. */
  lemma SchemeLengthGetter(s: seq<byte>, h: seq<byte>)
    requires |s| >= 2 && IsTcpHeader(h)
    ensures TcpSchemeLength(s) == U16At(s, 0) <==> U16At(s, 0) < 0x100
    ensures TcpSchemeLength(EncodeTcp(h)) + 2 == |EncodeTcp(h)|
  {
    LowOctet(s);
    EncodedLength(h);
  }

  lemma EncodedLength(h: seq<byte>)
    requires IsTcpHeader(h)
    ensures |EncodeTcp(h)| == |h| - 3 && EncodeTcp(h)[0] == 0 && EncodeTcp(h)[1] == |h| - 5
  {
    SmallLength(TCP_SCHEME_FIXED + |h[20..]|);
  }

  lemma SmallLength(n: nat)
    requires n <= 0xFF
    ensures Put16(n % 0x1_0000) == [0, n]
  {}

  lemma LowOctet(s: seq<byte>)
    requires |s| >= 2
    ensures s[1] == U16At(s, 0) <==> U16At(s, 0) < 0x100
  {}

  // ----- UDP scheme -----

  function EncodeUdp(h: seq<byte>): seq<byte>
    requires |h| >= 8
  {
    Put16(2) + Put16(U16At(h, 4))
  }

  /** A length in front that counts what follows, and the length field of the header. */
  lemma UdpScheme(h: seq<byte>)
    requires |h| >= 8
    ensures var s := EncodeUdp(h);
            |s| == 4 && U16At(s, 0) + 2 == |s| && U16At(s, 2) == U16At(h, 4)
  {
    var s, length := EncodeUdp(h), Put16(U16At(h, 4));
    assert s[2] == length[0] && s[3] == length[1];
  }

  function GenerateUdp(srcPort: u16, dstPort: u16, length: u16): seq<byte> {
    Put16(srcPort) + Put16(dstPort) + Put16(length) + Put16(0)
  }

  function RebuildUdp(scheme: seq<byte>, srcPort: u16, dstPort: u16): seq<byte>
    requires |scheme| >= 4
  {
    GenerateUdp(srcPort, dstPort, U16At(scheme, 2))
  }

  /** A UDP header always comes back as recalculation would have left it. */
  lemma UdpTunnelIdentity(h: seq<byte>, pseudo: seq<byte>, payload: seq<byte>)
    requires |h| == 8
    ensures StoreChecksum(RebuildUdp(EncodeUdp(h), U16At(h, 0), U16At(h, 2)), UDP_CHECKSUM, pseudo, payload)
            == StoreChecksum(h, UDP_CHECKSUM, pseudo, payload)
  {
    var s := EncodeUdp(h);
    ReadSlice(s, 2);
    assert s[2..4] == Put16(U16At(h, 4));
    PutReadBack(h, 0);
    PutReadBack(h, 2);
    PutReadBack(h, 4);
    var r := RebuildUdp(s, U16At(h, 0), U16At(h, 2));
    assert r == h[0..2] + h[2..4] + h[4..6] + Put16(0);
    assert Splice(r, UDP_CHECKSUM, Put16(0)) == Splice(h, UDP_CHECKSUM, Put16(0));
    StoreForgetsOldChecksum(r, h, UDP_CHECKSUM, pseudo, payload);
  }

  /** And with another source port as the original header from that port. */
  lemma UdpHeaderFromAnyPort(h: seq<byte>, port: u16, pseudo: seq<byte>, payload: seq<byte>)
    requires |h| == 8
    ensures StoreChecksum(RebuildUdp(EncodeUdp(h), port, U16At(h, 2)), UDP_CHECKSUM, pseudo, payload)
            == StoreChecksum(Splice(h, 0, Put16(port)), UDP_CHECKSUM, pseudo, payload)
  {
    var moved := Splice(h, 0, Put16(port));
    assert U16At(moved, 0) == port && U16At(moved, 2) == U16At(h, 2) && U16At(moved, 4) == U16At(h, 4);
    UdpTunnelIdentity(moved, pseudo, payload);
  }
}
