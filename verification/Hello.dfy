/** The ClientHello: list builders, the offset scheme, and the server name a server finds in it. */
module Hello {
  import opened Bytes
  import opened Entries
  import opened Wrappers

  const KEY_SHARE := 40
  const SUPPORTED_VERSIONS := 43
  const RANDOM_SIZE := 32

  // ----- list builders -----

  /** Entries behind a 16-bit total: a list of key shares, of server names, or of extensions. */
  function ListBytes(w: Width, es: seq<Entry>): (r: seq<byte>)
    ensures |r| == 2 + |EncodeAll(w, es)|
  {
    Put16(|EncodeAll(w, es)| % 0x1_0000) + EncodeAll(w, es)
  }

  function SniEntries(hosts: seq<seq<byte>>): (r: seq<Entry>)
    ensures |r| == |hosts| && forall i :: 0 <= i < |hosts| ==> r[i] == Entry(SERVER_NAME, hosts[i])
  {
    seq(|hosts|, i requires 0 <= i < |hosts| => Entry(SERVER_NAME, hosts[i]))
  }

  /** The server-name list; the number of hosts is counted in 16 bits. */
  function SniBytes(hosts: seq<seq<byte>>): seq<byte> {
    ListBytes(1, SniEntries(hosts[..|hosts| % 0x1_0000]))
  }

  /** A single server name: kind, 16-bit length, host. */
  function HostEntry(host: seq<byte>): (r: seq<byte>)
    ensures r == Encode(1, Entry(SERVER_NAME, host))
  {
    [0] + Put16(|host| % 0x1_0000) + host
  }

  method GenerateSni(hosts: seq<seq<byte>>) returns (bytes: seq<byte>)
    ensures bytes == SniBytes(hosts)
  {
    bytes := [];
    var size: u16 := |hosts| % 0x1_0000;
    var listLength: u16 := 0;
    ghost var es := SniEntries(hosts[..size]);
    for i := 0 to size
      invariant bytes == EncodeAll(1, es[..i]) && listLength == |bytes| % 0x1_0000
    {
      var host := hosts[i];
      var entry := HostEntry(host);
      EncodeAllSnoc(1, es, i);
      CountedInWord(|bytes|, |entry|);
      listLength := (listLength + |entry|) % 0x1_0000;
      bytes := bytes + entry;
    }
    assert es[..size] == es;
    bytes := [listLength / 0x100, listLength % 0x100] + bytes;
  }

  /** The key-share list; the key octets are random, so they are a parameter. */
  method GenerateKeyShares(shares: seq<Entry>) returns (bytes: seq<byte>)
    requires AllEncodable(2, shares)
    ensures bytes == ListBytes(2, shares)
  {
    bytes := [];
    var listLength: u16 := 0;
    for i := 0 to |shares|
      invariant bytes == EncodeAll(2, shares[..i]) && listLength == |bytes| % 0x1_0000
    {
      var entry := Put16(shares[i].kind) + Put16(|shares[i].data|) + shares[i].data;
      EncodeAllSnoc(2, shares, i);
      CountedInWord(|bytes|, |entry|);
      Fits16(|shares[i].data|);
      listLength := (listLength + |entry|) % 0x1_0000;
      bytes := bytes + entry;
    }
    assert shares[..|shares|] == shares;
    bytes := [listLength / 0x100, listLength % 0x100] + bytes;
  }

  /** Versions in their order, two octets each. */
  function VersionList(vs: seq<u16>): (r: seq<byte>)
    ensures |r| == 2 * |vs|
  {
    if vs == [] then [] else VersionList(vs[..|vs| - 1]) + Put16(vs[|vs| - 1])
  }

  /** The total of a version list is counted in 8 bits. */
  function VersionsBytes(vs: seq<u16>): (r: seq<byte>)
    ensures |r| == 1 + 2 * |vs|
  {
    [2 * |vs| % 0x100] + VersionList(vs)
  }

  method GenerateVersions(vs: seq<u16>) returns (bytes: seq<byte>)
    ensures bytes == VersionsBytes(vs)
  {
    bytes := [];
    var listLength: byte := 0;
    for i := 0 to |vs|
      invariant bytes == VersionList(vs[..i]) && listLength == 2 * i % 0x100
    {
      assert vs[..i + 1][..i] == vs[..i];
      CountedInOctet(i);
      bytes := bytes + [vs[i] / 0x100, vs[i] % 0x100];
      listLength := (listLength + 2) % 0x100;
    }
    assert vs[..|vs|] == vs;
    bytes := [listLength] + bytes;
  }

  lemma CountedInWord(a: nat, b: nat)
    ensures (a % 0x1_0000 + b) % 0x1_0000 == (a + b) % 0x1_0000
  {}

  lemma CountedInOctet(i: nat)
    ensures (2 * i % 0x100 + 2) % 0x100 == 2 * (i + 1) % 0x100
  {}

  function ReadVersions(b: seq<byte>): seq<u16> {
    if |b| < 2 then [] else [U16At(b, 0)] + ReadVersions(b[2..])
  }

  // ----- round trips -----

  /** A list says how many octets follow and reads back exactly when all its entries fit the total. */
  lemma ListRoundTrip(w: Width, es: seq<Entry>)
    requires AllEncodable(w, es)
    ensures ReadAll(w, ListBytes(w, es)[2..]) == Some(es)
    ensures U16At(ListBytes(w, es), 0) == |ListBytes(w, es)| - 2 <==> |EncodeAll(w, es)| <= 0xFFFF
  {
    TotalInFront(EncodeAll(w, es));
    ReadUndoesEncode(w, es);
  }

  lemma TotalInFront(s: seq<byte>)
    ensures var b := Put16(|s| % 0x1_0000) + s;
            b[2..] == s && (U16At(b, 0) == |s| <==> |s| <= 0xFFFF)
  {
    var b, total := Put16(|s| % 0x1_0000) + s, Put16(|s| % 0x1_0000);
    assert b[0] == total[0] && b[1] == total[1];
    assert U16At(b, 0) == U16At(total, 0) == |s| % 0x1_0000;
  }

  /** Any list of hosts comes back, with the right total in front, exactly when it fits that total. */
  lemma SniRoundTrip(hosts: seq<seq<byte>>)
    ensures var b := SniBytes(hosts);
            U16At(b, 0) == |b| - 2 && ReadAll(1, b[2..]) == Some(SniEntries(hosts))
            <==> |EncodeAll(1, SniEntries(hosts))| <= 0xFFFF
  {
    var es, b := SniEntries(hosts), SniBytes(hosts);
    if |EncodeAll(1, es)| <= 0xFFFF {
      ShortEntries(1, es);
      AllHosts(hosts);
      ListRoundTrip(1, es);
    } else if ReadAll(1, b[2..]) == Some(es) {
      ReadIffEncoded(1, b[2..], es);
    }
  }

  /** Up to 65535 hosts the count does not wrap. */
  lemma AllHosts(hosts: seq<seq<byte>>)
    requires |hosts| <= 0xFFFF
    ensures SniBytes(hosts) == ListBytes(1, SniEntries(hosts))
  {
    assert hosts[..|hosts|] == hosts;
  }

  lemma {:induction false} ReadVersionList(vs: seq<u16>, rest: seq<byte>)
    ensures ReadVersions(VersionList(vs) + rest) == vs + ReadVersions(rest)
    decreases |vs|
  {
    if vs == [] {
      assert VersionList(vs) + rest == rest;
    } else {
      var front, last := vs[..|vs| - 1], vs[|vs| - 1];
      var tail := Put16(last) + rest;
      assert VersionList(vs) + rest == VersionList(front) + tail;
      ReadVersionList(front, tail);
      assert tail[2..] == rest && U16At(tail, 0) == last;
      assert front + ([last] + ReadVersions(rest)) == vs + ReadVersions(rest);
    }
  }

  /** Versions always read back; the total is right for at most 127 of them. */
  lemma VersionsRoundTrip(vs: seq<u16>)
    ensures ReadVersions(VersionsBytes(vs)[1..]) == vs
    ensures VersionsBytes(vs)[0] == |VersionsBytes(vs)| - 1 <==> |vs| <= 127
  {
    ReadVersionList(vs, []);
    assert VersionsBytes(vs)[1..] == VersionList(vs) + [];
    assert vs + ReadVersions([]) == vs;
  }

  // ----- the offset scheme -----

  datatype ClientHello = ClientHello(version: u16, random: seq<byte>, session: seq<byte>, ciphers: seq<byte>,
                                     compressions: seq<byte>, extensions: seq<byte>)

  type Range = (nat, nat)

  datatype Scheme = Scheme(random: Range, session: Range, ciphers: Range, compressions: Range, extensions: Range)

  /** Fields that fit their length prefixes, two octets short of the 16-bit limit where the full length is a sum. */
  predicate Sized(h: ClientHello) {
    && |h.random| == RANDOM_SIZE && |h.session| <= 0xFF && |h.compressions| <= 0xFF
    && |h.ciphers| <= 0xFFFD && |h.extensions| <= 0xFFFD
  }

  function Short(s: seq<byte>): (r: seq<byte>)
    ensures |r| == 1 + |s|
  {
    [|s| % 0x100] + s
  }

  function Long(s: seq<byte>): (r: seq<byte>)
    ensures |r| == 2 + |s|
  {
    Put16(|s| % 0x1_0000) + s
  }

  function EncodeHello(h: ClientHello): seq<byte> {
    Put16(h.version) + h.random + Short(h.session) + Long(h.ciphers) + Short(h.compressions) + Long(h.extensions)
  }

  /** `unified_parse_client_scheme`; no scheme where a length would be read past the end. */
  method ParseClientScheme(data: seq<byte>) returns (scheme: Option<Scheme>)
    ensures scheme == SchemeOf(data)
  {
    var start, end := 2, 2 + RANDOM_SIZE;
    var random := (start, end);
    if end + 1 > |data| { return None; }
    start := end;
    end := start + data[start] + 1;
    var session := (start, end);
    if end + 2 > |data| { return None; }
    start := end;
    end := start + (U16At(data, start) + 2) % 0x1_0000;
    var ciphers := (start, end);
    if end + 1 > |data| { return None; }
    start := end;
    end := start + data[start] + 1;
    var compressions := (start, end);
    if end + 2 > |data| { return None; }
    start := end;
    end := start + (U16At(data, start) + 2) % 0x1_0000;
    return Some(Scheme(random, session, ciphers, compressions, (start, end)));
  }

  function SchemeOf(data: seq<byte>): Option<Scheme> {
    var s := 2 + RANDOM_SIZE;
    if |data| < s + 1 then None
    else
      var c := s + data[s] + 1;
      if |data| < c + 2 then None
      else
        var m := c + (U16At(data, c) + 2) % 0x1_0000;
        if |data| < m + 1 then None
        else
          var x := m + data[m] + 1;
          if |data| < x + 2 then None
          else Some(Scheme((2, s), (s, c), (c, m), (m, x), (x, x + (U16At(data, x) + 2) % 0x1_0000)))
  }

  function At(data: seq<byte>, r: Range): seq<byte> {
    if r.0 <= r.1 <= |data| then data[r.0..r.1] else []
  }

  /** Five adjacent ranges from octet 2 to the end. */
  predicate Tiles(s: Scheme, n: nat) {
    && s.random == (2, 2 + RANDOM_SIZE) && s.random.1 == s.session.0 < s.session.1 == s.ciphers.0
    && s.ciphers.0 + 2 <= s.ciphers.1 == s.compressions.0 < s.compressions.1 == s.extensions.0
    && s.extensions.0 + 2 <= s.extensions.1 == n
  }

  lemma ShortAt(s: seq<byte>, front: seq<byte>, back: seq<byte>)
    requires |s| <= 0xFF
    ensures var b, i := front + Short(s) + back, |front|;
            b[i] == |s| && b[i..i + 1 + |s|] == Short(s)
  {}

  lemma LongAt(s: seq<byte>, front: seq<byte>, back: seq<byte>)
    requires |s| <= 0xFFFF
    ensures var b, i := front + Long(s) + back, |front|;
            U16At(b, i) == |s| && b[i..i + 2 + |s|] == Long(s)
  {
    var b, i := front + Long(s) + back, |front|;
    assert b[i..i + 2] == Put16(|s|);
    assert U16At(b, i) == U16At(b[i..i + 2], 0);
  }

  /** Parsing undoes concatenation: the ranges tile the hello, and each holds the field written there. */
  lemma SchemeUndoesEncode(h: ClientHello)
    requires Sized(h)
    ensures SchemeOf(EncodeHello(h)).Some?
    ensures var data, s := EncodeHello(h), SchemeOf(EncodeHello(h)).value;
            && Tiles(s, |data|)
            && At(data, s.random) == h.random && At(data, s.session) == Short(h.session)
            && At(data, s.ciphers) == Long(h.ciphers) && At(data, s.compressions) == Short(h.compressions)
            && At(data, s.extensions) == Long(h.extensions)
  {
    var data := EncodeHello(h);
    FrontFields(h);
    BackFields(h);
    SchemeAt(data, 35 + |h.session|, 37 + |h.session| + |h.ciphers|, 38 + |h.session| + |h.ciphers| + |h.compressions|);
  }

  lemma FrontFields(h: ClientHello)
    requires Sized(h)
    ensures var data, c := EncodeHello(h), 35 + |h.session|;
            && data[2..34] == h.random && data[34] == |h.session| && data[34..c] == Short(h.session)
            && U16At(data, c) == |h.ciphers| && data[c..c + 2 + |h.ciphers|] == Long(h.ciphers)
  {
    var f0, t2 := Put16(h.version) + h.random, Short(h.compressions) + Long(h.extensions);
    var f1, t1 := f0 + Short(h.session), Long(h.ciphers) + t2;
    assert EncodeHello(h) == f0 + Short(h.session) + t1;
    assert EncodeHello(h) == f1 + Long(h.ciphers) + t2;
    ShortAt(h.session, f0, t1);
    LongAt(h.ciphers, f1, t2);
  }

  lemma BackFields(h: ClientHello)
    requires Sized(h)
    ensures var data, m := EncodeHello(h), 37 + |h.session| + |h.ciphers|;
            var x := m + 1 + |h.compressions|;
            && data[m] == |h.compressions| && data[m..x] == Short(h.compressions)
            && U16At(data, x) == |h.extensions| && data[x..x + 2 + |h.extensions|] == Long(h.extensions)
  {
    var f2 := Put16(h.version) + h.random + Short(h.session) + Long(h.ciphers);
    assert EncodeHello(h) == f2 + Short(h.compressions) + Long(h.extensions);
    assert EncodeHello(h) == (f2 + Short(h.compressions)) + Long(h.extensions) + [];
    ShortAt(h.compressions, f2, Long(h.extensions));
    LongAt(h.extensions, f2 + Short(h.compressions), []);
  }

  lemma SchemeAt(data: seq<byte>, c: nat, m: nat, x: nat)
    requires 34 < c <= m - 2 && m < x <= |data| - 2
    requires c == 35 + data[34] as int && m == c + U16At(data, c) + 2 && x == m + data[m] as int + 1
    requires m - c <= 0xFFFF && U16At(data, x) <= 0xFFFD
    ensures SchemeOf(data) == Some(Scheme((2, 34), (34, c), (c, m), (m, x), (x, x + U16At(data, x) + 2)))
  {}

  /** The hello whose scheme tiles `data`. */
  function HelloOf(data: seq<byte>, s: Scheme): ClientHello
    requires |data| >= 2 && Tiles(s, |data|)
  {
    ClientHello(U16At(data, 0), At(data, s.random), data[s.session.0 + 1..s.session.1],
                data[s.ciphers.0 + 2..s.ciphers.1],
                data[s.compressions.0 + 1..s.compressions.1], data[s.extensions.0 + 2..s.extensions.1])
  }

  lemma PrefixedBack(data: seq<byte>, from: nat, to: nat)
    requires from < to <= |data|
    ensures to == from + data[from] + 1 ==> Short(data[from + 1..to]) == data[from..to]
    ensures from + 2 <= to && to == from + U16At(data, from) + 2 ==> Long(data[from + 2..to]) == data[from..to]
  {
    if from + 2 <= to && to == from + U16At(data, from) + 2 {
      PutReadBack(data, from);
      Fits16(to - from - 2);
      assert data[from..to] == data[from..from + 2] + data[from + 2..to];
    }
  }

  /** What a scheme that tiles says about the length fields. */
  lemma TiledLengths(data: seq<byte>)
    requires SchemeOf(data).Some? && Tiles(SchemeOf(data).value, |data|)
    ensures var s := SchemeOf(data).value;
            && s.session.1 == s.session.0 + data[s.session.0] + 1
            && s.ciphers.1 == s.ciphers.0 + U16At(data, s.ciphers.0) + 2
            && s.compressions.1 == s.compressions.0 + data[s.compressions.0] + 1
            && s.extensions.1 == s.extensions.0 + U16At(data, s.extensions.0) + 2
            && s.ciphers.1 - s.ciphers.0 <= 0xFFFF && s.extensions.1 - s.extensions.0 <= 0xFFFF
  {
    var s := SchemeOf(data).value;
    NoWrap(U16At(data, s.ciphers.0));
    NoWrap(U16At(data, s.extensions.0));
  }

  lemma NoWrap(n: u16)
    ensures (n + 2) % 0x1_0000 >= 2 <==> n <= 0xFFFD
    ensures n <= 0xFFFD ==> (n + 2) % 0x1_0000 == n + 2
  {}

  /** ... and conversely: octets that the scheme tiles are the concatenation of the fields read off them. */
  lemma EncodeUndoesScheme(data: seq<byte>)
    requires SchemeOf(data).Some? && Tiles(SchemeOf(data).value, |data|)
    ensures Sized(HelloOf(data, SchemeOf(data).value)) && EncodeHello(HelloOf(data, SchemeOf(data).value)) == data
  {
    var s := SchemeOf(data).value;
    FieldsBack(data);
    Joined(data, 2, 34, s.session.1, s.ciphers.1, s.compressions.1);
  }

  lemma FieldsBack(data: seq<byte>)
    requires SchemeOf(data).Some? && Tiles(SchemeOf(data).value, |data|)
    ensures var s, h := SchemeOf(data).value, HelloOf(data, SchemeOf(data).value);
            && Sized(h) && Put16(h.version) == data[0..2] && h.random == data[2..34]
            && Short(h.session) == data[34..s.session.1] && Long(h.ciphers) == data[s.session.1..s.ciphers.1]
            && Short(h.compressions) == data[s.ciphers.1..s.compressions.1]
            && Long(h.extensions) == data[s.compressions.1..|data|]
  {
    var s := SchemeOf(data).value;
    TiledLengths(data);
    PutReadBack(data, 0);
    PrefixedBack(data, s.session.0, s.session.1);
    PrefixedBack(data, s.ciphers.0, s.ciphers.1);
    PrefixedBack(data, s.compressions.0, s.compressions.1);
    PrefixedBack(data, s.extensions.0, s.extensions.1);
  }

  /** A string is the concatenation of its slices between increasing cuts. */
  lemma Joined(s: seq<byte>, a: nat, b: nat, c: nat, d: nat, e: nat)
    requires 0 <= a <= b <= c <= d <= e <= |s|
    ensures s == s[0..a] + s[a..b] + s[b..c] + s[c..d] + s[d..e] + s[e..|s|]
  {}

  // ----- from the client's host list to the server's view -----

  /** The three extensions of a generated hello, in the order they are written. */
  function HelloExtensions(vs: seq<u16>, shares: seq<Entry>, hosts: seq<seq<byte>>): seq<Entry> {
    [Entry(SUPPORTED_VERSIONS, VersionsBytes(vs)), Entry(KEY_SHARE, ListBytes(2, shares)),
     Entry(SERVER_NAME, SniBytes(hosts))]
  }

  /** The extensions a server searches are the ones the client wrote. */
  lemma ExtensionsReachServer(h: ClientHello)
    requires Sized(h)
    ensures SchemeOf(EncodeHello(h)).Some?
    ensures var data, range := EncodeHello(h), SchemeOf(EncodeHello(h)).value.extensions;
            range.0 + 2 <= range.1 <= |data| && data[range.0 + 2..range.1] == h.extensions
  {
    SchemeUndoesEncode(h);
    var data, range := EncodeHello(h), SchemeOf(EncodeHello(h)).value.extensions;
    assert data[range.0 + 2..range.1] == data[range.0..range.1][2..];
    assert Long(h.extensions)[2..] == h.extensions;
  }

  /** What a server gets to see: it parses the hello, searches its extensions and skips the header of the one found. */
  function ServerView(data: seq<byte>): Option<seq<byte>> {
    var s := SchemeOf(data);
    if s.None? || !(s.value.extensions.0 + 2 <= s.value.extensions.1 <= |data|) then None
    else
      var block := data[s.value.extensions.0 + 2..s.value.extensions.1];
      var found := FindFrom(block, 0);
      if found.Found? && found.at + 4 <= |block| then Some(block[found.at + 4..]) else None
  }

  /**
   * A server that parses a generated hello and searches its extensions is led past versions and key
   * shares to the server-name extension, and reads off it exactly the hosts the client named.
   */
  lemma HostsReachServer(h: ClientHello, vs: seq<u16>, shares: seq<Entry>, hosts: seq<seq<byte>>)
    requires Sized(h) && h.extensions == EncodeAll(2, HelloExtensions(vs, shares, hosts)) && |hosts| <= 0xFFFF
    ensures var seen := ServerView(EncodeHello(h));
            seen == Some(SniBytes(hosts)) && ReadAll(1, seen.value[2..]) == Some(SniEntries(hosts))
  {
    ExtensionsReachServer(h);
    var es := HelloExtensions(vs, shares, hosts);
    ThirdIsFound(es);
    ViewOf(EncodeHello(h), h.extensions);
    HostsRead(hosts);
  }

  lemma HostsRead(hosts: seq<seq<byte>>)
    requires |hosts| <= 0xFFFF && |SniBytes(hosts)| <= 0xFFFF
    ensures ReadAll(1, SniBytes(hosts)[2..]) == Some(SniEntries(hosts))
  {
    AllHosts(hosts);
    SniRoundTrip(hosts);
  }

  lemma ViewOf(data: seq<byte>, block: seq<byte>)
    requires SchemeOf(data).Some?
    requires var range := SchemeOf(data).value.extensions;
             range.0 + 2 <= range.1 <= |data| && data[range.0 + 2..range.1] == block
    requires FindFrom(block, 0).Found? && FindFrom(block, 0).at + 4 <= |block|
    ensures ServerView(data) == Some(block[FindFrom(block, 0).at + 4..])
  {}

  lemma ThirdIsFound(es: seq<Entry>)
    requires |es| == 3 && es[0].kind != SERVER_NAME && es[1].kind != SERVER_NAME && es[2].kind == SERVER_NAME
    requires |EncodeAll(2, es)| <= 0xFFFF
    ensures var block := EncodeAll(2, es);
            var found := FindFrom(block, 0);
            found.Found? && found.at + 4 <= |block| && block[found.at + 4..] == es[2].data && |es[2].data| <= |block|
  {
    ThreeEntries(es);
    ShortEntries(2, es);
    SearchIsLinear(es);
    TailOfThree(Encode(2, es[0]), Encode(2, es[1]), Encode(2, es[2]), 4);
    EncodedData(es[2]);
  }

  lemma TailOfThree(a: seq<byte>, b: seq<byte>, c: seq<byte>, k: nat)
    requires k <= |c|
    ensures (a + b + c)[|a| + |b| + k..] == c[k..]
  {}

  lemma EncodedData(e: Entry)
    ensures Encode(2, e)[4..] == e.data
  {}

  lemma ThreeEntries(es: seq<Entry>)
    requires |es| == 3 && es[0].kind != SERVER_NAME && es[1].kind != SERVER_NAME && es[2].kind == SERVER_NAME
    ensures EncodeAll(2, es) == Encode(2, es[0]) + Encode(2, es[1]) + Encode(2, es[2])
    ensures FirstServerName(es, 0) == Found(|Encode(2, es[0])| + |Encode(2, es[1])|)
  {
    var two, one := es[1..], es[2..];
    assert two[1..] == one && one == [es[2]];
    assert EncodeAll(2, one) == Encode(2, es[2]) + EncodeAll(2, one[1..]) == Encode(2, es[2]);
    assert EncodeAll(2, two) == Encode(2, es[1]) + EncodeAll(2, one);
    var at := |Encode(2, es[0])|;
    assert FirstServerName(one, at + |Encode(2, es[1])|) == Found(at + |Encode(2, es[1])|);
    assert FirstServerName(two, at) == Found(at + |Encode(2, es[1])|);
  }
}
