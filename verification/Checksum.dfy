/**
 * The Internet checksum of RFC 1071: the exact 16-bit word sum, the one's-complement fold, and the
 * 32-bit accumulator loops that the IPv4, TCP and UDP classes all share.
 */
module Checksum {
  import opened Bytes

  const U32_RANGE := 0x1_0000_0000

  /** Sum of the big-endian words of `s`, a last odd octet counting as the high half of a word. */
  ghost function Sum16(s: seq<byte>): nat {
    if |s| == 0 then 0
    else if |s| == 1 then s[0] as int * 0x100
    else U16At(s, 0) as int + Sum16(s[2..])
  }

  /** One's-complement fold: carries out of 16 bits are added back until none is left. */
  ghost function Fold(n: nat): nat {
    if n < 0x1_0000 then n else Fold(n / 0x1_0000 + n % 0x1_0000)
  }

  /** The value stored in a header whose word sum, with a zeroed checksum field, is `sum`. */
  ghost function Complement(sum: nat): u16
  {
    FoldValue(sum);
    0xFFFF - Fold(sum)
  }

  /** What a receiver checks (section 1 of RFC 1071): the sum including the checksum folds to all ones. */
  ghost predicate Verifies(sum: nat) {
    Fold(sum) == 0xFFFF
  }

  /** `header` with the checksum of `prefix + header + payload` stored at `pos`, as 32-bit code computes it. */
  ghost function StoreChecksum(header: seq<byte>, pos: nat, prefix: seq<byte>, payload: seq<byte>): (r: seq<byte>)
    requires pos + 2 <= |header|
    ensures |r| == |header|
  {
    var zeroed := Splice(header, pos, Put16(0));
    Splice(header, pos, Put16(Complement(SegmentSum(prefix, zeroed, payload) % U32_RANGE)))
  }

  // ----- the fold -----

  lemma {:induction false} FoldValue(n: nat)
    ensures Fold(n) == if n == 0 then 0 else (n - 1) % 0xFFFF + 1
    decreases n
  {
    if n >= 0x1_0000 {
      var q, r := n / 0x1_0000, n % 0x1_0000;
      assert n == q * 0x1_0000 + r;
      FoldValue(q + r);
      AddMultiple(q + r - 1, q);
      assert n - 1 == (q + r - 1) + q * 0xFFFF;
    }
  }

  /** Any 32-bit accumulator is folded after at most two rounds. */
  lemma FoldTakesTwoRounds(n: u32)
    ensures var once := n / 0x1_0000 + n % 0x1_0000;
            var twice := once / 0x1_0000 + once % 0x1_0000;
            twice < 0x1_0000 && Fold(n) == twice
  {
    var once := n / 0x1_0000 + n % 0x1_0000;
    assert once <= 0x1_FFFE;
    assert Fold(n) == Fold(once);
  }

  /** The fold keeps the value modulo 65535 and reaches zero from zero alone. */
  lemma FoldKeepsResidue(n: nat)
    ensures Fold(n) < 0x1_0000
    ensures Fold(n) % 0xFFFF == n % 0xFFFF
    ensures Fold(n) == 0 <==> n == 0
    ensures Verifies(n) <==> n > 0 && n % 0xFFFF == 0
  {
    FoldValue(n);
    if n > 0 {
      var q := FoldQuotient(n);
      AddMultiple(Fold(n), q);
      OnesOrZero(Fold(n));
    }
  }

  // ----- which stored values verify -----

  /** A stored `c` verifies for exactly one value, except that 0xFFFF may stand in for a computed 0. */
  lemma StoredValueVerifies(sum: nat, c: u16)
    ensures Verifies(sum + c) <==> c == Complement(sum) || (c == 0xFFFF && Complement(sum) == 0)
  {
    FoldKeepsResidue(sum);
    FoldKeepsResidue(sum + c);
    if sum > 0 {
      var q := FoldQuotient(sum);
      assert sum + c == Fold(sum) + c + q * 0xFFFF;
      AddMultiple(Fold(sum) + c, q);
      OnesOrZero(Fold(sum) + c);
    }
  }

  lemma OnesOrZero(n: nat)
    requires 0 < n <= 2 * 0xFFFF
    ensures n % 0xFFFF == 0 <==> n == 0xFFFF || n == 2 * 0xFFFF
  {}

  /**
   * The checksum that a 32-bit accumulator produces verifies exactly when the number of times
   * the accumulator wrapped is a multiple of 65535 - in particular when it never wrapped.
   */
  lemma AccumulatorVerifies(sum: nat)
    ensures Verifies(sum + Complement(sum % U32_RANGE)) <==> (sum / U32_RANGE) % 0xFFFF == 0
  {
    var wraps, low := sum / U32_RANGE, sum % U32_RANGE;
    assert sum == wraps * U32_RANGE + low;
    FoldKeepsResidue(low);
    FoldKeepsResidue(sum + Complement(low));
    var q := FoldQuotient(low);
    assert sum + Complement(low) == wraps + (wraps * 0x1_0001 + q + 1) * 0xFFFF;
    AddMultiple(wraps, wraps * 0x1_0001 + q + 1);
  }

  lemma FoldQuotient(n: nat) returns (q: nat)
    ensures n == q * 0xFFFF + Fold(n)
  {
    FoldValue(n);
    q := if n == 0 then 0 else (n - 1) / 0xFFFF;
  }

  lemma AddMultiple(x: nat, k: nat)
    ensures (x + k * 0xFFFF) % 0xFFFF == x % 0xFFFF
  {}

  // ----- sums of concatenations -----

  lemma {:induction false} SumConcat(a: seq<byte>, b: seq<byte>)
    requires |a| % 2 == 0
    ensures Sum16(a + b) == Sum16(a) + Sum16(b)
  {
    if a == [] {
      assert a + b == b;
    } else {
      assert (a + b)[2..] == a[2..] + b;
      SumConcat(a[2..], b);
    }
  }

  lemma {:induction false} SumBound(s: seq<byte>)
    ensures Sum16(s) <= 0xFFFF * ((|s| + 1) / 2)
  {
    if |s| >= 2 {
      SumBound(s[2..]);
    }
  }

  /** The word at an even position contributes itself to the sum. */
  lemma SumSplice(s: seq<byte>, pos: nat, w: u16)
    requires pos % 2 == 0 && pos + 2 <= |s|
    ensures Sum16(Splice(s, pos, Put16(w))) == Sum16(Splice(s, pos, Put16(0))) + w
  {
    forall v: u16
      ensures Sum16(Splice(s, pos, Put16(v))) == Sum16(s[..pos]) + v + Sum16(s[pos + 2..])
    {
      var tail := Put16(v) + s[pos + 2..];
      assert Splice(s, pos, Put16(v)) == s[..pos] + tail;
      SumConcat(s[..pos], tail);
      assert tail[2..] == s[pos + 2..] && U16At(tail, 0) == v;
    }
  }

  /** Adding three parts one after the other, each step reduced to 32 bits, is reducing their sum. */
  lemma StepsAddUp(a: nat, b: nat, c: nat)
    ensures (((0 + a) % U32_RANGE + b) % U32_RANGE + c) % U32_RANGE == (a + b + c) % U32_RANGE
  {
    AddReduced(a, b);
    AddReduced(a + b, c);
  }

  lemma FourSteps(a: nat, b: nat, c: nat, d: nat, s1: u32, s2: u32, s3: u32, sum: u32)
    requires s1 == (0 + a) % U32_RANGE && s2 == (s1 + b) % U32_RANGE
    requires s3 == (s2 + c) % U32_RANGE && sum == (s3 + d) % U32_RANGE
    ensures sum == (a + (b + c) + d) % U32_RANGE
  {
    StepsAddUp(a, b, c);
    AddReduced(a + b + c, d);
  }

  lemma AddReduced(x: nat, y: nat)
    ensures (x % U32_RANGE + y) % U32_RANGE == (x + y) % U32_RANGE
  {
    var q := x / U32_RANGE;
    assert x == q * U32_RANGE + x % U32_RANGE;
  }

  /** The words of a whole segment, checksum field included. */
  ghost function SegmentSum(prefix: seq<byte>, header: seq<byte>, payload: seq<byte>): nat {
    Sum16(prefix) + Sum16(header) + Sum16(payload)
  }

  /** It is the sum of all octets one behind the other, as a receiver adds them up. */
  lemma SegmentSumIsSum(prefix: seq<byte>, header: seq<byte>, payload: seq<byte>)
    requires |prefix| % 2 == 0 && |header| % 2 == 0
    ensures SegmentSum(prefix, header, payload) == Sum16(prefix + header + payload)
  {
    SumConcat(prefix, header);
    SumConcat(prefix + header, payload);
  }

  /**
   * Storing makes the octets a receiver sums - prefix, header with the checksum in place, payload -
   * verify exactly when their true sum wraps 32 bits a multiple of 65535 times.
   */
  lemma StoredOctetsVerify(header: seq<byte>, pos: nat, prefix: seq<byte>, payload: seq<byte>)
    requires pos % 2 == 0 && pos + 2 <= |header| && |prefix| % 2 == 0 && |header| % 2 == 0
    ensures Verifies(Sum16(prefix + StoreChecksum(header, pos, prefix, payload) + payload))
            <==> (Sum16(prefix + Splice(header, pos, Put16(0)) + payload) / U32_RANGE) % 0xFFFF == 0
  {
    SegmentSumIsSum(prefix, StoreChecksum(header, pos, prefix, payload), payload);
    SegmentSumIsSum(prefix, Splice(header, pos, Put16(0)), payload);
    StoreVerifies(header, pos, prefix, payload);
  }

  /**
   * Storing makes the whole segment verify, for every header, prefix and payload, exactly when the
   * true sum wraps 32 bits a multiple of 65535 times.
   */
  lemma StoreVerifies(header: seq<byte>, pos: nat, prefix: seq<byte>, payload: seq<byte>)
    requires pos % 2 == 0 && pos + 2 <= |header|
    ensures Verifies(SegmentSum(prefix, StoreChecksum(header, pos, prefix, payload), payload))
            <==> (SegmentSum(prefix, Splice(header, pos, Put16(0)), payload) / U32_RANGE) % 0xFFFF == 0
  {
    var sum := SegmentSum(prefix, Splice(header, pos, Put16(0)), payload);
    SumSplice(header, pos, Complement(sum % U32_RANGE));
    AccumulatorVerifies(sum);
  }

  /** Up to 65537 words the accumulator never wraps, so every segment of an IP packet verifies. */
  lemma NoWrap(prefix: seq<byte>, header: seq<byte>, payload: seq<byte>)
    requires (|prefix| + 1) / 2 + (|header| + 1) / 2 + (|payload| + 1) / 2 <= 0x1_0001
    ensures SegmentSum(prefix, header, payload) < U32_RANGE
  {
    SumBound(prefix);
    SumBound(header);
    SumBound(payload);
  }

  /** Recalculating a second time changes nothing. */
  lemma StoreIdempotent(header: seq<byte>, pos: nat, prefix: seq<byte>, payload: seq<byte>)
    requires pos + 2 <= |header|
    ensures var once := StoreChecksum(header, pos, prefix, payload);
            StoreChecksum(once, pos, prefix, payload) == once
  {
    var once := StoreChecksum(header, pos, prefix, payload);
    assert Splice(once, pos, Put16(0)) == Splice(header, pos, Put16(0));
  }

  /** Headers that differ in the checksum field only get the same checksum. */
  lemma StoreForgetsOldChecksum(a: seq<byte>, b: seq<byte>, pos: nat, prefix: seq<byte>, payload: seq<byte>)
    requires pos + 2 <= |a| && |a| == |b|
    requires Splice(a, pos, Put16(0)) == Splice(b, pos, Put16(0))
    ensures StoreChecksum(a, pos, prefix, payload) == StoreChecksum(b, pos, prefix, payload)
  {
    var x, y := StoreChecksum(a, pos, prefix, payload), StoreChecksum(b, pos, prefix, payload);
    var za, zb := Splice(a, pos, Put16(0)), Splice(b, pos, Put16(0));
    forall k | 0 <= k < |a| ensures x[k] == y[k] {
      assert za[k] == zb[k];
    }
  }

  /** The bound of 65537 words is tight: one more word of all ones and the accumulator loses a carry. */
  lemma OneWordTooMany(s: seq<byte>)
    requires |s| == 2 * 0x1_0002 && forall k :: 0 <= k < |s| ==> s[k] == 0xFF
    ensures Sum16(s) >= U32_RANGE
    ensures !Verifies(Sum16(s) + Complement(Sum16(s) % U32_RANGE))
  {
    SumOfOnes(s);
    AccumulatorVerifies(Sum16(s));
  }

  lemma {:induction false} SumOfOnes(s: seq<byte>)
    requires |s| % 2 == 0 && forall k :: 0 <= k < |s| ==> s[k] == 0xFF
    ensures Sum16(s) == 0xFFFF * (|s| / 2)
  {
    if s != [] {
      SumOfOnes(s[2..]);
    }
  }

  // ----- the loops -----

  /** `sum += header_[i] << 8 | header_[i + 1]` over an even run of octets, in unsigned 32-bit arithmetic. */
  method AddWords(start: u32, s: seq<byte>) returns (sum: u32)
    requires |s| % 2 == 0
    ensures sum == (start + Sum16(s)) % U32_RANGE
  {
    sum := start;
    var i := 0;
    assert s[0..] == s;
    while i < |s|
      invariant 0 <= i <= |s| && i % 2 == 0
      invariant (sum + Sum16(s[i..])) % U32_RANGE == (start + Sum16(s)) % U32_RANGE
    {
      var word := U16At(s, i);
      WordFirst(s[i..], word, s[i + 2..], sum);
      sum := (sum + word) % U32_RANGE;
      i := i + 2;
    }
  }

  /** Taking the first word off what is left to add. */
  lemma WordFirst(rest: seq<byte>, word: u16, later: seq<byte>, sum: nat)
    requires |rest| >= 2 && word == U16At(rest, 0) && later == rest[2..]
    ensures ((sum + word) % U32_RANGE + Sum16(later)) % U32_RANGE == (sum + Sum16(rest)) % U32_RANGE
  {
    AddReduced(sum + word, Sum16(later));
  }

  /** The same loop through a view: words of the buffer from `lo` up to `hi`. */
  method AddBufferWords(start: u32, a: array<byte>, lo: nat, hi: nat) returns (sum: u32)
    requires lo <= hi <= a.Length && (hi - lo) % 2 == 0
    ensures sum == (start + Sum16(a[lo..hi])) % U32_RANGE
  {
    sum := start;
    var i := lo;
    while i < hi
      invariant lo <= i <= hi && (hi - i) % 2 == 0
      invariant (sum + Sum16(a[i..hi])) % U32_RANGE == (start + Sum16(a[lo..hi])) % U32_RANGE
    {
      EvenLeft(hi - i);
      var word: u16 := a[i] as int * 0x100 + a[i + 1] as int;
      ghost var rest, later := a[i..hi], a[i + 2..hi];
      assert rest[2..] == later && rest[0] == a[i] && rest[1] == a[i + 1];
      WordFirst(rest, word, later, sum);
      sum := (sum + word) % U32_RANGE;
      i := i + 2;
    }
  }

  lemma EvenLeft(n: nat)
    requires n > 0 && n % 2 == 0
    ensures n >= 2 && (n - 2) % 2 == 0
  {}

  lemma OddOctet(rest: seq<byte>, octet: byte, sum: nat)
    requires rest == [octet]
    ensures ((sum + octet * 0x100) % U32_RANGE + Sum16([])) % U32_RANGE == (sum + Sum16(rest)) % U32_RANGE
  {
    AddReduced(sum + octet * 0x100, 0);
  }

  /** The payload loop, with its odd tail. */
  method AddPayload(start: u32, a: array<byte>, lo: nat, hi: nat) returns (sum: u32)
    requires lo <= hi <= a.Length
    ensures sum == (start + Sum16(a[lo..hi])) % U32_RANGE
  {
    sum := start;
    var i := lo;
    while i < hi
      invariant lo <= i <= hi
      invariant (sum + Sum16(a[i..hi])) % U32_RANGE == (start + Sum16(a[lo..hi])) % U32_RANGE
    {
      if i + 1 < hi {
        var word: u16 := a[i] as int * 0x100 + a[i + 1] as int;
        ghost var rest, later := a[i..hi], a[i + 2..hi];
        assert rest[2..] == later && rest[0] == a[i] && rest[1] == a[i + 1];
        WordFirst(rest, word, later, sum);
        sum := (sum + word) % U32_RANGE;
        i := i + 1;
      } else {
        OddOctet(a[i..hi], a[i], sum);
        sum := (sum + a[i] as int * 0x100) % U32_RANGE;
      }
      i := i + 1;
    }
  }

  /** `while (sum >> 16) sum = (sum & 0xFFFF) + (sum >> 16)`, then `~`. */
  method FoldAndComplement(start: u32) returns (checksum: u16)
    ensures checksum == Complement(start)
  {
    var sum: u32 := start;
    while sum / 0x1_0000 != 0
      invariant Fold(sum) == Fold(start)
      decreases sum
    {
      sum := sum % 0x1_0000 + sum / 0x1_0000;
    }
    checksum := 0xFFFF - sum;
  }
}
