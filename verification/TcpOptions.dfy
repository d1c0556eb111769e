/** The walk over a block of TCP options (section 3.1 of RFC 9293). */
module TcpOptions {
  import opened Bytes

  const EOL := 0
  const NOP := 1

  /** One round of the loop: a kind, and the step it made the loop take. */
  datatype Visit = Visit(kind: byte, step: byte)

  /**
   * How the loop comes to an end: exactly at the end of the block, beyond it, with a read of a length
   * past the end, or never, because an option announces length zero.
   */
  datatype WalkEnd = AtEnd | Beyond | OutOfBounds | Stuck

  datatype Walked = Walked(visits: seq<Visit>, end: WalkEnd)

  /** The loop over `get_next_option_offset` from offset `i` on. */
  function WalkFrom(b: seq<byte>, i: nat): Walked
    decreases |b| - i
  {
    if i >= |b| then Walked([], if i == |b| then AtEnd else Beyond)
    else if b[i] in {EOL, NOP} then After(Visit(b[i], 1), WalkFrom(b, i + 1))
    else if i + 1 == |b| then Walked([], OutOfBounds)
    else if b[i + 1] == 0 then Walked([], Stuck)
    else After(Visit(b[i], b[i + 1]), WalkFrom(b, i + b[i + 1]))
  }

  function After(v: Visit, w: Walked): Walked {
    Walked([v] + w.visits, w.end)
  }

  method WalkOptions(b: seq<byte>) returns (w: Walked)
    ensures w == WalkFrom(b, 0)
  {
    var i := 0;
    var visits := [];
    while i < |b|
      invariant Walked(visits + WalkFrom(b, i).visits, WalkFrom(b, i).end) == WalkFrom(b, 0)
      decreases |b| - i
    {
      var step := 1;
      if b[i] != NOP && b[i] != EOL {
        if i + 1 == |b| {
          assert visits + [] == visits;
          return Walked(visits, OutOfBounds);
        }
        step := b[i + 1];
      }
      if step == 0 {
        assert visits + [] == visits;
        return Walked(visits, Stuck);
      }
      assert visits + ([Visit(b[i], step)] + WalkFrom(b, i + step).visits)
          == visits + [Visit(b[i], step)] + WalkFrom(b, i + step).visits;
      visits := visits + [Visit(b[i], step)];
      i := i + step;
    }
    assert visits + [] == visits;
    return Walked(visits, if i == |b| then AtEnd else Beyond);
  }

  // ----- options -----

  datatype TcpOption = Single(kind: byte) | Sized(kind: byte, body: seq<byte>)

  predicate Valid(o: TcpOption) {
    match o
    case Single(kind) => kind in {EOL, NOP}
    case Sized(kind, body) => kind !in {EOL, NOP} && |body| <= 253
  }

  predicate AllValid(os: seq<TcpOption>) {
    forall i :: 0 <= i < |os| ==> Valid(os[i])
  }

  function Encode(o: TcpOption): seq<byte> {
    match o
    case Single(kind) => [kind]
    case Sized(kind, body) => [kind, (|body| + 2) % 0x100] + body
  }

  function EncodeAll(os: seq<TcpOption>): seq<byte> {
    if os == [] then [] else Encode(os[0]) + EncodeAll(os[1..])
  }

  function VisitsOf(os: seq<TcpOption>): seq<Visit>
    requires AllValid(os)
  {
    if os == [] then [] else [Visit(os[0].kind, |Encode(os[0])|)] + VisitsOf(os[1..])
  }

  /** The options stand one behind the other from `i` to the end of the block. */
  predicate OptionsAt(b: seq<byte>, i: nat, os: seq<TcpOption>)
    decreases |os|
  {
    if os == [] then i == |b| else OptionAt(b, i, os[0]) && OptionsAt(b, i + |Encode(os[0])|, os[1..])
  }

  predicate OptionAt(b: seq<byte>, i: nat, o: TcpOption) {
    i + |Encode(o)| <= |b| && forall k :: 0 <= k < |Encode(o)| ==> b[i + k] == Encode(o)[k]
  }

  lemma {:induction false} EncodedOptionsAt(b: seq<byte>, i: nat, os: seq<TcpOption>)
    requires i <= |b| && b[i..] == EncodeAll(os)
    ensures OptionsAt(b, i, os)
    decreases |os|
  {
    if os == [] {
      assert |b[i..]| == 0;
    } else {
      FirstOption(b, i, os);
      EncodedOptionsAt(b, i + |Encode(os[0])|, os[1..]);
    }
  }

  lemma FirstOption(b: seq<byte>, i: nat, os: seq<TcpOption>)
    requires os != [] && i <= |b| && b[i..] == EncodeAll(os)
    ensures OptionAt(b, i, os[0]) && b[i + |Encode(os[0])|..] == EncodeAll(os[1..])
  {
    OneOption(b, i, os[0], EncodeAll(os[1..]));
  }

  lemma OneOption(b: seq<byte>, i: nat, o: TcpOption, rest: seq<byte>)
    requires i <= |b| && b[i..] == Encode(o) + rest
    ensures OptionAt(b, i, o) && b[i + |Encode(o)|..] == rest
  {
    SuffixSplit(b, i, Encode(o), rest);
  }

  lemma {:induction false} WalkOfOptions(b: seq<byte>, i: nat, os: seq<TcpOption>)
    requires AllValid(os) && OptionsAt(b, i, os)
    ensures WalkFrom(b, i) == Walked(VisitsOf(os), AtEnd)
    decreases |os|
  {
    if os != [] {
      WalkPasses(b, i, os[0]);
      WalkOfOptions(b, i + |Encode(os[0])|, os[1..]);
    }
  }

  lemma WalkPasses(b: seq<byte>, i: nat, o: TcpOption)
    requires Valid(o) && OptionAt(b, i, o)
    ensures var size := |Encode(o)|;
            size <= 0xFF && WalkFrom(b, i) == After(Visit(o.kind, size), WalkFrom(b, i + size))
  {
    assert b[i + 0] == Encode(o)[0] == o.kind;
    if o.Sized? {
      assert b[i + 1] == Encode(o)[1];
    }
  }

  /** On any list of options the walk visits exactly the options encoded and stops exactly at the end. */
  lemma WalkInvertsEncoding(os: seq<TcpOption>)
    requires AllValid(os)
    ensures WalkFrom(EncodeAll(os), 0) == Walked(VisitsOf(os), AtEnd)
  {
    var b := EncodeAll(os);
    assert b[0..] == b;
    EncodedOptionsAt(b, 0, os);
    WalkOfOptions(b, 0, os);
  }

  /** A step of a single octet belongs to padding; other kinds take two at least. */
  predicate Proper(visits: seq<Visit>) {
    forall i :: 0 <= i < |visits| ==> visits[i].kind in {EOL, NOP} || visits[i].step >= 2
  }

  /** Conversely, a block that the walk tiles with proper steps is a list of options, the ones visited. */
  lemma {:induction false} TiledBlockIsOptions(b: seq<byte>, i: nat) returns (os: seq<TcpOption>)
    requires i <= |b| && WalkFrom(b, i).end == AtEnd && Proper(WalkFrom(b, i).visits)
    ensures AllValid(os) && b[i..] == EncodeAll(os) && WalkFrom(b, i).visits == VisitsOf(os)
    decreases |b| - i
  {
    if i == |b| {
      os := [];
    } else {
      var step := if b[i] in {EOL, NOP} then 1 else b[i + 1];
      var next := i + step;
      WalkBehind(b, i, step, next);
      var rest := TiledBlockIsOptions(b, next);
      var o := OptionOf(b, i, next);
      os := [o] + rest;
      OptionsCons(b, i, next, o, rest);
    }
  }

  lemma WalkBehind(b: seq<byte>, i: nat, step: nat, next: nat)
    requires i < |b| && WalkFrom(b, i).end == AtEnd && Proper(WalkFrom(b, i).visits)
    requires (b[i] !in {EOL, NOP} ==> i + 1 < |b|)
    requires step == (if b[i] in {EOL, NOP} then 1 else b[i + 1]) && next == i + step
    ensures step <= 0xFF && WalkFrom(b, i).visits == [Visit(b[i], step)] + WalkFrom(b, next).visits
    ensures i < next <= |b| && (b[i] in {EOL, NOP} || step >= 2)
    ensures WalkFrom(b, next).end == AtEnd && Proper(WalkFrom(b, next).visits)
  {
    var visits, later := WalkFrom(b, i).visits, WalkFrom(b, next).visits;
    assert visits == [Visit(b[i], step)] + later;
    assert visits[0] == Visit(b[i], step);
    LaterProper(visits[0], later);
    InsideBlock(b, next);
  }

  lemma LaterProper(first: Visit, later: seq<Visit>)
    requires Proper([first] + later)
    ensures Proper(later)
  {
    assert forall k :: 0 <= k < |later| ==> later[k] == ([first] + later)[k + 1];
  }

  lemma InsideBlock(b: seq<byte>, i: nat)
    requires WalkFrom(b, i).end == AtEnd
    ensures i <= |b|
  {}

  /** The option that stands from `i` to `next`. */
  lemma OptionOf(b: seq<byte>, i: nat, next: nat) returns (o: TcpOption)
    requires i < next <= |b|
    requires if b[i] in {EOL, NOP} then next == i + 1 else next >= i + 2 && next == i + b[i + 1]
    ensures Valid(o) && Encode(o) == b[i..next] && o.kind == b[i]
  {
    o := if b[i] in {EOL, NOP} then Single(b[i]) else Sized(b[i], b[i + 2..next]);
  }

  lemma OptionsCons(b: seq<byte>, i: nat, next: nat, o: TcpOption, rest: seq<TcpOption>)
    requires i <= next <= |b| && Valid(o) && AllValid(rest)
    requires Encode(o) == b[i..next] && b[next..] == EncodeAll(rest)
    ensures AllValid([o] + rest) && b[i..] == EncodeAll([o] + rest)
    ensures VisitsOf([o] + rest) == [Visit(o.kind, |Encode(o)|)] + VisitsOf(rest)
  {
    assert ([o] + rest)[1..] == rest && b[i..] == b[i..next] + b[next..];
  }

  /** The walk tiles a block with proper steps exactly when the block is a list of options. */
  lemma WalkTilesIffOptions(b: seq<byte>)
    ensures WalkFrom(b, 0).end == AtEnd && Proper(WalkFrom(b, 0).visits)
            <==> exists os :: AllValid(os) && b == EncodeAll(os)
  {
    if WalkFrom(b, 0).end == AtEnd && Proper(WalkFrom(b, 0).visits) {
      var os := TiledBlockIsOptions(b, 0);
      assert b[0..] == b;
    }
    if os :| AllValid(os) && b == EncodeAll(os) {
      WalkInvertsEncoding(os);
      VisitsProper(os);
    }
  }

  lemma {:induction false} VisitsProper(os: seq<TcpOption>)
    requires AllValid(os)
    ensures Proper(VisitsOf(os))
    decreases |os|
  {
    if os != [] {
      VisitsProper(os[1..]);
    }
  }

  /** Maximum segment size, no operation, window scale, end of options. */
  lemma OptionsWalked()
    ensures WalkFrom([2, 4, 5, 180, 1, 3, 3, 8, 0], 0)
            == Walked([Visit(2, 4), Visit(1, 1), Visit(3, 3), Visit(0, 1)], AtEnd)
  {
    var b: seq<byte> := [2, 4, 5, 180, 1, 3, 3, 8, 0];
    assert WalkFrom(b, 9) == Walked([], AtEnd);
    assert WalkFrom(b, 8) == After(Visit(0, 1), WalkFrom(b, 9));
    assert WalkFrom(b, 5) == After(Visit(3, 3), WalkFrom(b, 8));
    assert WalkFrom(b, 4) == After(Visit(1, 1), WalkFrom(b, 5));
  }
}
