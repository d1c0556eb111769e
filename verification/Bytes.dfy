/** Octets and the big-endian fields every header of the tunnel is made of. */
module Bytes {

  type byte = x: int | 0 <= x < 0x100
  type u16 = x: int | 0 <= x < 0x1_0000
  type u32 = x: int | 0 <= x < 0x1_0000_0000

  /** The two octets a `push_back(x >> 8 & 0xFF); push_back(x & 0xFF)` pair appends. */
  function Put16(x: u16): (s: seq<byte>)
    ensures |s| == 2 && U16At(s, 0) == x
  {
    [x / 0x100, x % 0x100]
  }

  function Put32(x: u32): (s: seq<byte>)
    ensures |s| == 4 && U32At(s, 0) == x
  {
    Put16(x / 0x1_0000) + Put16(x % 0x1_0000)
  }

  /** `s[i] << 8 | s[i + 1]` */
  function U16At(s: seq<byte>, i: nat): u16
    requires i + 2 <= |s|
  {
    s[i] as int * 0x100 + s[i + 1] as int
  }

  function U32At(s: seq<byte>, i: nat): u32
    requires i + 4 <= |s|
  {
    U16At(s, i) as int * 0x1_0000 + U16At(s, i + 2) as int
  }

  /** `s` with the octets from position `i` on overwritten by `t`. */
  function Splice(s: seq<byte>, i: nat, t: seq<byte>): (r: seq<byte>)
    requires i + |t| <= |s|
    ensures |r| == |s|
    ensures forall k :: 0 <= k < |s| ==> r[k] == if i <= k < i + |t| then t[k - i] else s[k]
  {
    seq(|s|, k requires 0 <= k < |s| => if i <= k < i + |t| then t[k - i] else s[k])
  }

  /** Overwriting inside a slice and putting the slice back is overwriting in place. */
  lemma SpliceInSlice(s: seq<byte>, at: nat, size: nat, i: nat, t: seq<byte>)
    requires at + size <= |s| && i + |t| <= size
    ensures Splice(s, at, Splice(s[at..at + size], i, t)) == Splice(s, at + i, t)
  {}

  /** After overwriting, what was written stands there and what lies beside it is untouched. */
  lemma SplicedSlices(s: seq<byte>, at: nat, t: seq<byte>, lo: nat, hi: nat)
    requires at + |t| <= |s| && lo <= hi <= |s| && (hi <= at || at + |t| <= lo)
    ensures Splice(s, at, t)[at..at + |t|] == t && Splice(s, at, t)[lo..hi] == s[lo..hi]
  {}

  lemma SpliceTwice(s: seq<byte>, at: nat, t: seq<byte>, u: seq<byte>)
    requires |t| == |u| && at + |t| <= |s|
    ensures Splice(Splice(s, at, t), at, u) == Splice(s, at, u)
  {}

  /** Writing back what was read changes nothing. */
  lemma PutReadBack(s: seq<byte>, i: nat)
    requires i + 2 <= |s|
    ensures Put16(U16At(s, i)) == s[i..i + 2]
    ensures i + 4 <= |s| ==> Put32(U32At(s, i)) == s[i..i + 4]
  {
    if i + 4 <= |s| {
      assert Put32(U32At(s, i)) == Put16(U16At(s, i)) + Put16(U16At(s, i + 2));
    }
  }

  lemma Fits16(n: nat)
    requires n <= 0xFFFF
    ensures n % 0x1_0000 == n
  {}

  /** What stands at the beginning of the octets from `i` on, and behind it. */
  lemma SuffixSplit(b: seq<byte>, i: nat, e: seq<byte>, rest: seq<byte>)
    requires i <= |b| && b[i..] == e + rest
    ensures i + |e| <= |b| && b[i + |e|..] == rest
    ensures forall k :: 0 <= k < |e| ==> b[i + k] == e[k]
  {
    assert b[i..][|e|..] == rest;
    forall k | 0 <= k < |e| ensures b[i + k] == e[k] {
      assert b[i..][k] == e[k];
    }
  }

  lemma TakeDrop(b: seq<byte>, n: nat)
    requires n <= |b|
    ensures b[..n] + b[n..] == b
  {}

  /** Concatenation of a list of octet strings. */
  function Flatten(parts: seq<seq<byte>>): seq<byte> {
    if parts == [] then [] else parts[0] + Flatten(parts[1..])
  }

  lemma {:induction false} FlattenAppend(a: seq<seq<byte>>, b: seq<seq<byte>>)
    ensures Flatten(a + b) == Flatten(a) + Flatten(b)
  {
    if a == [] {
      assert a + b == b;
    } else {
      assert (a + b)[1..] == a[1..] + b;
      FlattenAppend(a[1..], b);
    }
  }
}
