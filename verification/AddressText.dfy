/** Addresses as dotted decimal text, and back. */
module AddressText {
  import opened Bytes
  import opened Wrappers

  const MAX_COMPONENTS := 16

  // ----- printing -----

  function Digit(d: nat): char
    requires d < 10
  {
    ('0' as int + d) as char
  }

  /** What a stream prints for a non-negative `int`. */
  function Decimal(n: nat): (r: string)
    ensures r != []
  {
    (if n < 10 then [] else Decimal(n / 10)) + [Digit(n % 10)]
  }

  /** The components from number `i` on, separated by dots. */
  function TextFrom(ip: seq<byte>, i: nat): string
    requires i < |ip|
    decreases |ip| - i
  {
    Decimal(ip[i]) + if i + 1 == |ip| then "" else "." + TextFrom(ip, i + 1)
  }

  function Text(ip: seq<byte>): string {
    if ip == [] then "" else TextFrom(ip, 0)
  }

  /** `NetAddr::to_string`: a dot behind every component, the last one cut off. */
  method ToString(ip: seq<byte>) returns (str: string)
    ensures str == Text(ip)
  {
    var temp := "";
    for i := 0 to |ip|
      invariant i < |ip| ==> temp + TextFrom(ip, i) == Text(ip)
      invariant i == |ip| ==> temp == if ip == [] then "" else Text(ip) + "."
    {
      TextStep(temp, ip, i);
      temp := temp + Decimal(ip[i]) + ".";
    }
    str := if temp == "" then "" else temp[..|temp| - 1];
  }

  lemma TextStep(temp: string, ip: seq<byte>, i: nat)
    requires i < |ip|
    ensures i + 1 < |ip| ==> temp + TextFrom(ip, i) == temp + Decimal(ip[i]) + "." + TextFrom(ip, i + 1)
    ensures i + 1 == |ip| ==> temp + TextFrom(ip, i) == temp + Decimal(ip[i])
  {}

  /** `IPv4Address::to_string` prints the same text. */
  lemma Ipv4TextAgrees(a: byte, b: byte, c: byte, d: byte)
    ensures Decimal(a) + "." + Decimal(b) + "." + Decimal(c) + "." + Decimal(d) == Text([a, b, c, d])
  {
    var ip: seq<byte> := [a, b, c, d];
    var t3, t2 := TextFrom(ip, 3), TextFrom(ip, 2);
    assert t3 == Decimal(d) + "" == Decimal(d);
    assert t2 == Decimal(c) + ("." + Decimal(d));
    var t1 := TextFrom(ip, 1);
    assert t1 == Decimal(b) + ("." + t2);
    Dots(Decimal(a), Decimal(b), Decimal(c), Decimal(d));
  }

  lemma Dots(a: string, b: string, c: string, d: string)
    ensures a + "." + b + "." + c + "." + d == a + ("." + (b + ("." + (c + ("." + d)))))
  {
    assert a + "." + b + "." + c + "." + d == a + "." + b + "." + (c + ("." + d));
    assert a + "." + b + "." + (c + ("." + d)) == a + "." + (b + ("." + (c + ("." + d))));
  }

  // ----- parsing -----

  predicate IsSpace(c: char) {
    c == ' ' || '\t' <= c <= '\r'
  }

  predicate IsDigit(c: char) {
    '0' <= c <= '9'
  }

  function SkipSpace(s: string, i: nat, end: nat): (r: nat)
    requires i <= end <= |s|
    ensures i <= r <= end
    decreases end - i
  {
    if i < end && IsSpace(s[i]) then SkipSpace(s, i + 1, end) else i
  }

  /** Where the digits that begin at `i` end. */
  function DigitsEnd(s: string, i: nat, end: nat): (n: nat)
    requires i <= end <= |s|
    ensures i <= n <= end
    decreases end - i
  {
    if i < end && IsDigit(s[i]) then DigitsEnd(s, i + 1, end) else i
  }

  function Value(s: string, i: nat, n: nat): nat
    requires i <= n <= |s|
    decreases n
  {
    if i == n then 0 else 10 * Value(s, i, n - 1) + DigitValue(s[n - 1])
  }

  function DigitValue(c: char): nat {
    if IsDigit(c) then c as int - '0' as int else 0
  }

  /**
   * `std::stoi` of the substring from `start` to `end`: leading space, a sign, digits, the rest
   * ignored; nothing where it throws.
   */
  function Stoi(s: string, start: nat, end: nat): Option<int>
    requires start <= end <= |s|
  {
    var i := SkipSpace(s, start, end);
    var negative := i < end && s[i] == '-';
    var j := if i < end && (s[i] == '-' || s[i] == '+') then i + 1 else i;
    var n := DigitsEnd(s, j, end);
    var v: int := if negative then 0 - Value(s, j, n) else Value(s, j, n);
    if n == j || !(-0x8000_0000 <= v <= 0x7FFF_FFFF) then None else Some(v)
  }

  /** `"."` or `"::"` */
  datatype Delimiter = Dot | Colons

  predicate OccursAt(s: string, delimiter: Delimiter, i: nat) {
    match delimiter
    case Dot => i < |s| && s[i] == '.'
    case Colons => i + 1 < |s| && s[i] == ':' && s[i + 1] == ':'
  }

  /** `find(delimiter, i)`; the end of the text where it finds nothing. */
  function Find(s: string, delimiter: Delimiter, i: nat): (r: nat)
    requires i <= |s|
    ensures i <= r <= |s|
    decreases |s| - i
  {
    if i == |s| || OccursAt(s, delimiter, i) then i else Find(s, delimiter, i + 1)
  }

  /** The conversion of an `int` to an octet. */
  function Low(v: int): (b: int)
    ensures 0 <= b < 0x100
    ensures 0 <= v < 0x100 ==> b == v
  {
    v % 0x100
  }

  /**
   * The loop of `parse_net_addr`, `left` rounds before its end, with `octets` read so far; nothing
   * where `stoi` throws.
   */
  function ParseFrom(addr: string, delimiter: Delimiter, start: nat, left: nat, octets: seq<int>): Option<seq<int>>
    requires start <= |addr|
    decreases left, |addr|
  {
    if left == 0 then Some(octets)
    else
      var end := Find(addr, delimiter, start);
      var v := Stoi(addr, start, end);
      if v.None? then None
      else if end == |addr| then Some(octets + [Low(v.value)])
      else ParseFrom(addr, delimiter, end + 1, left - 1, octets + [Low(v.value)])
  }

  /** `parse_net_addr`: dots if there is one, double colons otherwise. */
  function ParseNetAddr(addr: string): Option<seq<int>> {
    ParseFrom(addr, if Find(addr, Dot, 0) < |addr| then Dot else Colons, 0, MAX_COMPONENTS, [])
  }

  method ParseAddress(addr: string) returns (ip: Option<seq<int>>)
    ensures ip == ParseNetAddr(addr)
  {
    ip := ParseComponents(addr, if Find(addr, Dot, 0) < |addr| then Dot else Colons, MAX_COMPONENTS);
  }

  /** Its loop. */
  method ParseComponents(addr: string, delimiter: Delimiter, rounds: nat) returns (ip: Option<seq<int>>)
    ensures ip == ParseFrom(addr, delimiter, 0, rounds, [])
  {
    var start: nat := 0;
    var octets: seq<int> := [];
    ghost var left: nat := rounds;
    for i := 0 to rounds
      invariant start <= |addr| && left == rounds - i
      invariant ParseFrom(addr, delimiter, start, left, octets) == ParseFrom(addr, delimiter, 0, rounds, [])
    {
      var end := Find(addr, delimiter, start);
      var v := Stoi(addr, start, end);
      if v.None? {
        return None;
      }
      ghost var fewer, more: seq<int> := left - 1, octets + [Low(v.value)];
      ParseRound(addr, delimiter, start, left, octets, end, v.value, end + 1, fewer, more);
      octets := octets + [Low(v.value)];
      if end == |addr| {
        return Some(octets);
      }
      start, left := end + 1, fewer;
    }
    return Some(octets);
  }

  // ----- round trip -----

  lemma {:induction false} DecimalReads(n: nat)
    ensures forall k :: 0 <= k < |Decimal(n)| ==> IsDigit(Decimal(n)[k])
    ensures Value(Decimal(n), 0, |Decimal(n)|) == n
  {
    DigitReads(n % 10);
    if n >= 10 {
      var s, t := Decimal(n), Decimal(n / 10);
      DecimalReads(n / 10);
      assert |t| == |s| - 1 && s[|s| - 1] == Digit(n % 10);
      assert forall k :: 0 <= k < |t| ==> s[0 + k] == t[k];
      SameValue(s, 0, t, |t|);
    }
  }

  lemma DigitReads(d: nat)
    requires d < 10
    ensures IsDigit(Digit(d)) && DigitValue(Digit(d)) == d
  {}

  /** The value of digits does not depend on where they stand. */
  lemma {:induction false} SameValue(s: string, i: nat, t: string, n: nat)
    requires i + n <= |s| && n <= |t| && forall k :: 0 <= k < n ==> s[i + k] == t[k]
    ensures Value(s, i, i + n) == Value(t, 0, n)
  {
    if n > 0 {
      SameValue(s, i, t, n - 1);
      assert s[i + (n - 1)] == t[n - 1];
    }
  }

  lemma {:induction false} AllDigits(s: string, i: nat, end: nat)
    requires i <= end <= |s| && forall k :: i <= k < end ==> IsDigit(s[k])
    ensures DigitsEnd(s, i, end) == end
    decreases end - i
  {
    if i < end {
      AllDigits(s, i + 1, end);
    }
  }

  /** Behind digits, the first dot is the one that ends them. */
  lemma {:induction false} DotBehindDigits(s: string, i: nat, n: nat)
    requires i <= n <= |s| && (n < |s| ==> s[n] == '.') && forall k :: i <= k < n ==> IsDigit(s[k])
    ensures Find(s, Dot, i) == n
    decreases n - i
  {
    if i < n {
      DotBehindDigits(s, i + 1, n);
    }
  }

  lemma {:induction false} NoColons(s: string, i: nat)
    requires i <= |s| && forall k :: i <= k < |s| ==> IsDigit(s[k])
    ensures Find(s, Colons, i) == |s|
    decreases |s| - i
  {
    if i < |s| {
      NoColons(s, i + 1);
    }
  }

  /** The digits of `b` stand at `start`. */
  predicate PrintedAt(addr: string, start: nat, b: byte) {
    start + |Decimal(b)| <= |addr| && forall k :: 0 <= k < |Decimal(b)| ==> addr[start + k] == Decimal(b)[k]
  }

  /** A printed octet inside a text is read back. */
  lemma StoiOfDecimal(s: string, start: nat, b: byte)
    requires PrintedAt(s, start, b)
    ensures Stoi(s, start, start + |Decimal(b)|) == Some(b)
  {
    DigitsOfPrinted(s, start, b);
    SameValue(s, start, Decimal(b), |Decimal(b)|);
    AllDigits(s, start, start + |Decimal(b)|);
  }

  lemma DigitsOfPrinted(s: string, start: nat, b: byte)
    requires PrintedAt(s, start, b)
    ensures forall k :: start <= k < start + |Decimal(b)| ==> IsDigit(s[k])
    ensures Value(Decimal(b), 0, |Decimal(b)|) == b
  {
    DecimalReads(b);
    forall k | start <= k < start + |Decimal(b)| ensures IsDigit(s[k]) {
      assert s[start + (k - start)] == Decimal(b)[k - start];
    }
  }

  /** From `start` on, `addr` is the text of the components from number `i` on. */
  predicate TextAt(addr: string, start: nat, ip: seq<byte>, i: nat)
    requires i < |ip|
    decreases |ip| - i
  {
    var end := start + |Decimal(ip[i])|;
    && PrintedAt(addr, start, ip[i])
    && if i + 1 == |ip| then end == |addr| else end < |addr| && addr[end] == '.' && TextAt(addr, end + 1, ip, i + 1)
  }

  lemma {:induction false} TextIsAt(addr: string, start: nat, ip: seq<byte>, i: nat)
    requires i < |ip| && IsSuffix(addr, start, TextFrom(ip, i))
    ensures TextAt(addr, start, ip, i)
    decreases |ip| - i
  {
    var d, t := Decimal(ip[i]), TextFrom(ip, i);
    assert forall k :: 0 <= k < |d| ==> addr[start + k] == t[k] == d[k];
    if i + 1 < |ip| {
      var rest := TextFrom(ip, i + 1);
      assert addr[start + |d|] == t[|d|] == '.';
      forall k | 0 <= k < |rest| ensures addr[start + |d| + 1 + k] == rest[k] {
        assert addr[start + (|d| + 1 + k)] == t[|d| + 1 + k];
      }
      TextIsAt(addr, start + |d| + 1, ip, i + 1);
    }
  }

  predicate IsSuffix(addr: string, start: nat, t: string) {
    start + |t| == |addr| && forall k :: 0 <= k < |t| ==> addr[start + k] == t[k]
  }

  /** The next delimiter is the dot behind the component, if there is one. */
  lemma FindPrinted(addr: string, start: nat, ip: seq<byte>, i: nat, end: nat)
    requires i < |ip| && TextAt(addr, start, ip, i) && end == start + |Decimal(ip[i])|
    ensures start <= end <= |addr| && Find(addr, Dot, start) == end && Stoi(addr, start, end) == Some(ip[i])
    ensures if i + 1 == |ip| then end == |addr| else end < |addr| && TextAt(addr, end + 1, ip, i + 1)
  {
    DigitsOfPrinted(addr, start, ip[i]);
    DotBehindDigits(addr, start, end);
    StoiOfDecimal(addr, start, ip[i]);
  }

  /** One round of the loop on any text. */
  lemma ParseRound(addr: string, delimiter: Delimiter, start: nat, left: nat, octets: seq<int>,
                   end: nat, v: int, next: nat, fewer: nat, more: seq<int>)
    requires start <= |addr| && end == Find(addr, delimiter, start) && Stoi(addr, start, end) == Some(v)
    requires next == end + 1 && left == fewer + 1 && more == octets + [Low(v)]
    ensures ParseFrom(addr, delimiter, start, left, octets)
            == if end == |addr| then Some(more) else ParseFrom(addr, delimiter, next, fewer, more)
  {}

  lemma {:induction false} ParseText(addr: string, start: nat, ip: seq<byte>, i: nat, left: nat,
                                     octets: seq<int>, to: nat)
    requires i < |ip| && start <= |addr| && TextAt(addr, start, ip, i)
    requires octets == ip[..i] && i <= to <= |ip| && to - i <= left && (to < |ip| ==> to - i == left)
    ensures ParseFrom(addr, Dot, start, left, octets) == Some(ip[..to])
    decreases |ip| - i
  {
    if left > 0 {
      var more, end := octets + [ip[i]], start + |Decimal(ip[i])|;
      var next, fewer := end + 1, left - 1;
      FindPrinted(addr, start, ip, i, end);
      ParseRound(addr, Dot, start, left, octets, end, ip[i], next, fewer, more);
      assert more == ip[..i + 1];
      if i + 1 < |ip| {
        ParseText(addr, next, ip, i + 1, fewer, more, to);
      }
    }
  }

  /** A single component has no double colon either. */
  lemma ParseOne(b: byte, left: nat)
    requires left > 0
    ensures ParseFrom(Decimal(b), Colons, 0, left, []) == Some([b])
  {
    var d := Decimal(b);
    DecimalReads(b);
    NoColons(d, 0);
    StoiOfDecimal(d, 0, b);
    var none: seq<byte> := [];
    assert none + [b] == [b];
  }

  lemma ParseSeveral(ip: seq<byte>, rounds: nat)
    requires |ip| > 1 && TextAt(Text(ip), 0, ip, 0)
    ensures ParseFrom(Text(ip), Dot, 0, rounds, []) == Some(if |ip| <= rounds then ip else ip[..rounds])
  {
    ParseText(Text(ip), 0, ip, 0, rounds, [], if |ip| <= rounds then |ip| else rounds);
    assert ip[..|ip|] == ip;
  }

  /** Parsing printed text gives the first sixteen octets of the address; the empty address throws. */
  lemma ParseOfPrinted(ip: seq<byte>, rounds: nat)
    requires rounds == MAX_COMPONENTS
    ensures ParseNetAddr(Text(ip)) == if ip == [] then None else Some(if |ip| <= rounds then ip else ip[..rounds])
  {
    if ip != [] {
      TextIsAt(Text(ip), 0, ip, 0);
      FindPrinted(Text(ip), 0, ip, 0, |Decimal(ip[0])|);
      if |ip| > 1 {
        ParseSeveral(ip, rounds);
      } else {
        ParseOne(ip[0], rounds);
        assert [ip[0]] == ip && Text(ip) == Decimal(ip[0]) + "" == Decimal(ip[0]);
      }
    } else {
      assert Stoi("", 0, 0) == None;
    }
  }

  /** So an address comes back from its text exactly when it has 1 to 16 octets. */
  lemma AddressTextRoundTrip(ip: seq<byte>)
    ensures ParseNetAddr(Text(ip)) == Some(ip) <==> 1 <= |ip| <= 16
  {
    ParseOfPrinted(ip, MAX_COMPONENTS);
  }

  /**
   * Numbers with leading space, a sign, and something behind them are read; numbers beyond 32 bits and
   * texts without digits are not; and of any number eight bits are kept.
   */
  lemma NumbersRead()
    ensures Stoi(" \t-17x", 0, 6) == Some(-17) && Stoi("+8", 0, 2) == Some(8) && Stoi(" -", 0, 2) == None
    ensures Low(-17) == 239 && Low(300) == 44
  {
    var s := " \t-17x";
    assert SkipSpace(s, 0, 6) == SkipSpace(s, 1, 6) == SkipSpace(s, 2, 6) == 2;
    assert DigitsEnd(s, 3, 6) == DigitsEnd(s, 4, 6) == DigitsEnd(s, 5, 6) == 5;
    assert Value(s, 3, 5) == 10 * Value(s, 3, 4) + 7 && Value(s, 3, 4) == 10 * Value(s, 3, 3) + 1;
    assert DigitsEnd("+8", 1, 2) == DigitsEnd("+8", 2, 2) == 2 && Value("+8", 1, 2) == 10 * Value("+8", 1, 1) + 8;
    assert SkipSpace(" -", 0, 2) == SkipSpace(" -", 1, 2) == 1;
  }

  // ----- texts with double colons -----

  lemma {:induction false} FoundThere(s: string, delimiter: Delimiter, i: nat)
    requires i <= |s|
    ensures Find(s, delimiter, i) < |s| ==> OccursAt(s, delimiter, Find(s, delimiter, i))
    decreases |s| - i
  {
    if i < |s| && !OccursAt(s, delimiter, i) {
      FoundThere(s, delimiter, i + 1);
    }
  }

  /** No number begins with a colon. */
  lemma ColonThrows(s: string, start: nat, end: nat)
    requires start <= end <= |s| && start < |s| && s[start] == ':'
    ensures Stoi(s, start, end) == None
  {
    assert SkipSpace(s, start, end) == start && DigitsEnd(s, start, end) == start;
  }

  /**
   * The loop goes on one character behind a delimiter, also where that has two: whatever stands around a
   * double colon, a text without dots that has one is not read.
   */
  lemma ColonsNeverRead(addr: string)
    requires Find(addr, Dot, 0) == |addr| && Find(addr, Colons, 0) < |addr|
    ensures ParseNetAddr(addr) == None
  {
    var end := Find(addr, Colons, 0);
    FoundThere(addr, Colons, 0);
    ColonThrows(addr, end + 1, Find(addr, Colons, end + 1));
    var v := Stoi(addr, 0, end);
    if v.Some? {
      assert ParseFrom(addr, Colons, end + 1, MAX_COMPONENTS - 1, [] + [Low(v.value)]) == None;
    }
  }
}
