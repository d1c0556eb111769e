/**
 * Lists of length-prefixed entries - TLS extensions, key shares, server names - each a kind of one or
 * two octets, a 16-bit length and that many octets.
 */
module Entries {
  import opened Bytes
  import opened Wrappers

  datatype Entry = Entry(kind: u16, data: seq<byte>)

  /** The width of the kind. */
  type Width = w: int | 1 <= w <= 2 witness 1

  /** Entries whose full length does not wrap in the 16 bits it is computed in. */
  predicate Encodable(w: Width, e: Entry) {
    (w == 1 ==> e.kind <= 0xFF) && |e.data| + w + 2 <= 0xFFFF
  }

  predicate AllEncodable(w: Width, es: seq<Entry>) {
    forall i :: 0 <= i < |es| ==> Encodable(w, es[i])
  }

  function Encode(w: Width, e: Entry): (r: seq<byte>)
    ensures |r| == w + 2 + |e.data|
  {
    (if w == 1 then [e.kind % 0x100] else Put16(e.kind)) + Put16(|e.data| % 0x1_0000) + e.data
  }

  function EncodeAll(w: Width, es: seq<Entry>): (r: seq<byte>)
    ensures |r| >= (w + 2) * |es|
  {
    if es == [] then [] else Encode(w, es[0]) + EncodeAll(w, es[1..])
  }

  function KindAt(w: Width, b: seq<byte>): u16
    requires |b| >= w + 2
  {
    if w == 1 then b[0] else U16At(b, 0)
  }

  /** `get_tls_..._full_length`, a 16-bit sum. */
  function EntryLength(w: Width, b: seq<byte>): u16
    requires |b| >= w + 2
  {
    (U16At(b, w) + w + 2) % 0x1_0000
  }

  /** Reading entries by their own lengths: nothing unless they tile the octets exactly. */
  function ReadAll(w: Width, b: seq<byte>): Option<seq<Entry>>
    decreases |b|
  {
    if b == [] then Some([])
    else if |b| < w + 2 || U16At(b, w) + w + 2 > 0xFFFF || EntryLength(w, b) > |b| then None
    else
      InFront(Entry(KindAt(w, b), b[w + 2..EntryLength(w, b)]), ReadAll(w, b[EntryLength(w, b)..]))
  }

  function InFront(e: Entry, es: Option<seq<Entry>>): Option<seq<Entry>> {
    if es.None? then None else Some([e] + es.value)
  }

  lemma FirstEntry(w: Width, e: Entry, rest: seq<byte>)
    requires Encodable(w, e)
    ensures var b := Encode(w, e) + rest;
            && KindAt(w, b) == e.kind && U16At(b, w) == |e.data|
            && b[w + 2..w + 2 + |e.data|] == e.data && b[w + 2 + |e.data|..] == rest
  {
    var kind := if w == 1 then [e.kind % 0x100] else Put16(e.kind);
    Fits16(|e.data|);
    BehindKind(kind, |e.data|, e.data, rest);
    KindInFront(w, kind, Put16(|e.data|), e.data, rest);
  }

  lemma KindInFront(w: Width, kind: seq<byte>, length: seq<byte>, data: seq<byte>, rest: seq<byte>)
    requires |kind| == w && |length| == 2
    ensures KindAt(w, kind + length + data + rest) == if w == 1 then kind[0] else U16At(kind, 0)
  {
    FrontOctets(kind, length, data, rest);
  }

  lemma BehindKind(kind: seq<byte>, n: u16, data: seq<byte>, rest: seq<byte>)
    ensures var b, at := kind + Put16(n) + data + rest, |kind|;
            U16At(b, at) == n && b[at + 2..at + 2 + |data|] == data && b[at + 2 + |data|..] == rest
  {
    var b, at, length := kind + Put16(n) + data + rest, |kind|, Put16(n);
    assert b[at] == length[0] && b[at + 1] == length[1];
  }

  lemma FrontOctets(kind: seq<byte>, length: seq<byte>, data: seq<byte>, rest: seq<byte>)
    ensures forall k :: 0 <= k < |kind| ==> (kind + length + data + rest)[k] == kind[k]
  {}

  lemma {:induction false} ReadUndoesEncode(w: Width, es: seq<Entry>)
    requires AllEncodable(w, es)
    ensures ReadAll(w, EncodeAll(w, es)) == Some(es)
    decreases |es|
  {
    if es != [] {
      ReadFirst(w, es[0], EncodeAll(w, es[1..]));
      ReadUndoesEncode(w, es[1..]);
      assert [es[0]] + es[1..] == es;
    }
  }

  lemma ReadFirst(w: Width, e: Entry, rest: seq<byte>)
    requires Encodable(w, e)
    ensures ReadAll(w, Encode(w, e) + rest) == InFront(e, ReadAll(w, rest))
  {
    FirstEntry(w, e, rest);
    Fits16(|e.data| + w + 2);
  }

  /** An entry read is encoded by the octets it was read from. */
  lemma FirstEntryBack(w: Width, b: seq<byte>, n: nat)
    requires w + 2 <= n <= |b| && n == U16At(b, w) + w + 2
    ensures Encode(w, Entry(KindAt(w, b), b[w + 2..n])) == b[..n]
  {
    PutReadBack(b, w);
    if w == 2 {
      PutReadBack(b, 0);
    }
    Fits16(n - w - 2);
    assert b[..n] == b[..w] + b[w..w + 2] + b[w + 2..n];
  }

  lemma {:induction false} EncodeUndoesRead(w: Width, b: seq<byte>)
    requires ReadAll(w, b).Some?
    ensures AllEncodable(w, ReadAll(w, b).value) && EncodeAll(w, ReadAll(w, b).value) == b
    decreases |b|
  {
    if b != [] {
      var n := U16At(b, w) + w + 2;
      ReadSplits(w, b, n);
      EncodeUndoesRead(w, b[n..]);
      FirstEntryBack(w, b, n);
      var e, rest := Entry(KindAt(w, b), b[w + 2..n]), ReadAll(w, b[n..]).value;
      assert ReadAll(w, b).value == [e] + rest;
      Prepend(w, e, rest);
      TakeDrop(b, n);
    }
  }

  lemma ReadSplits(w: Width, b: seq<byte>, n: nat)
    requires ReadAll(w, b).Some? && b != [] && (|b| >= w + 2 ==> n == U16At(b, w) + w + 2)
    ensures w + 2 <= n <= |b| && n <= 0xFFFF && ReadAll(w, b[n..]).Some?
    ensures ReadAll(w, b) == InFront(Entry(KindAt(w, b), b[w + 2..n]), ReadAll(w, b[n..]))
  {
    Fits16(n);
  }

  lemma Prepend(w: Width, e: Entry, es: seq<Entry>)
    requires Encodable(w, e) && AllEncodable(w, es)
    ensures AllEncodable(w, [e] + es) && EncodeAll(w, [e] + es) == Encode(w, e) + EncodeAll(w, es)
  {
    assert ([e] + es)[1..] == es;
  }

  /** Reading succeeds exactly on encodings, and with exactly the entries encoded. */
  lemma ReadIffEncoded(w: Width, b: seq<byte>, es: seq<Entry>)
    ensures ReadAll(w, b) == Some(es) <==> AllEncodable(w, es) && b == EncodeAll(w, es)
  {
    if ReadAll(w, b) == Some(es) {
      EncodeUndoesRead(w, b);
    }
    if AllEncodable(w, es) && b == EncodeAll(w, es) {
      ReadUndoesEncode(w, es);
    }
  }

  lemma {:induction false} EncodeAllAppend(w: Width, a: seq<Entry>, b: seq<Entry>)
    ensures EncodeAll(w, a + b) == EncodeAll(w, a) + EncodeAll(w, b)
    decreases |a|
  {
    if a == [] {
      assert a + b == b;
    } else {
      assert (a + b)[1..] == a[1..] + b;
      EncodeAllAppend(w, a[1..], b);
    }
  }

  lemma EncodeAllSnoc(w: Width, es: seq<Entry>, i: nat)
    requires i < |es|
    ensures EncodeAll(w, es[..i + 1]) == EncodeAll(w, es[..i]) + Encode(w, es[i])
  {
    assert es[..i + 1] == es[..i] + [es[i]];
    EncodeAllAppend(w, es[..i], [es[i]]);
    var none: seq<Entry> := [];
    assert [es[i]][1..] == none && EncodeAll(w, none) == [];
    assert EncodeAll(w, [es[i]]) == Encode(w, es[i]) + EncodeAll(w, none);
  }

  /** Short lists have short entries. */
  lemma {:induction false} ShortEntries(w: Width, es: seq<Entry>)
    requires |EncodeAll(w, es)| <= 0xFFFF && forall i :: 0 <= i < |es| ==> (w == 1 ==> es[i].kind <= 0xFF)
    ensures AllEncodable(w, es)
    decreases |es|
  {
    if es != [] {
      assert forall i :: 0 <= i < |es| - 1 ==> es[1..][i] == es[i + 1];
      ShortEntries(w, es[1..]);
      assert forall i :: 0 < i < |es| ==> es[i] == es[1..][i - 1];
    }
  }

  // ----- searching the extensions -----

  const SERVER_NAME := 0

  /**
   * What `get_tls_sni_data` comes to: a view at an offset, the empty view, a read past the extensions,
   * or a loop that makes no progress because the 16-bit full length of an extension is zero.
   */
  datatype Search = Found(at: nat) | NotFound | OutOfBounds | Stuck

  function FindFrom(b: seq<byte>, i: nat): Search
    decreases |b| - i
  {
    if i >= |b| then NotFound
    else if i + 4 > |b| then OutOfBounds
    else if U16At(b, i) == SERVER_NAME then Found(i)
    else
      var step := (U16At(b, i + 2) + 4) % 0x1_0000;
      if step == 0 then Stuck else FindFrom(b, i + step)
  }

  method GetTlsSniData(b: seq<byte>) returns (r: Search)
    ensures r == FindFrom(b, 0)
  {
    var i := 0;
    while i < |b|
      invariant FindFrom(b, i) == FindFrom(b, 0)
    {
      if i + 4 > |b| {
        return OutOfBounds;
      }
      if U16At(b, i) == SERVER_NAME {
        return Found(i);
      }
      var step := (U16At(b, i + 2) + 4) % 0x1_0000;
      if step == 0 {
        return Stuck;
      }
      i := i + step;
    }
    return NotFound;
  }

  /** The first of the entries with kind SERVER_NAME, by its offset. */
  function FirstServerName(es: seq<Entry>, at: nat): Search {
    if es == [] then NotFound
    else if es[0].kind == SERVER_NAME then Found(at)
    else FirstServerName(es[1..], at + |Encode(2, es[0])|)
  }

  /** The entries stand one behind the other from `at` to the end. */
  predicate EntriesAt(b: seq<byte>, at: nat, es: seq<Entry>)
    decreases |es|
  {
    if es == [] then at == |b| else EntryAt(b, at, es[0]) && EntriesAt(b, at + 4 + |es[0].data|, es[1..])
  }

  predicate EntryAt(b: seq<byte>, at: nat, e: Entry) {
    at + 4 + |e.data| <= |b| && U16At(b, at) == e.kind && U16At(b, at + 2) == |e.data|
  }

  lemma {:induction false} EncodedEntriesAt(b: seq<byte>, at: nat, es: seq<Entry>)
    requires AllEncodable(2, es) && at <= |b| && b[at..] == EncodeAll(2, es) + []
    ensures EntriesAt(b, at, es)
    decreases |es|
  {
    if es == [] {
      assert |b[at..]| == 0;
    } else {
      var next, others := at + 4 + |es[0].data|, es[1..];
      FirstOfEntries(b, at, es, []);
      EncodedEntriesAt(b, next, others);
      assert EntryAt(b, at, es[0]) && EntriesAt(b, next, others);
    }
  }

  /** The first of the entries that stand from `at` on, and behind it the others. */
  lemma FirstOfEntries(b: seq<byte>, at: nat, es: seq<Entry>, rest: seq<byte>)
    requires es != [] && AllEncodable(2, es) && at <= |b| && b[at..] == EncodeAll(2, es) + rest
    ensures AllEncodable(2, es[1..]) && Encodable(2, es[0]) && EntryAt(b, at, es[0])
    ensures b[at + 4 + |es[0].data|..] == EncodeAll(2, es[1..]) + rest
    ensures |EncodeAll(2, es)| == 4 + |es[0].data| + |EncodeAll(2, es[1..])|
  {
    var first, others := Encode(2, es[0]), EncodeAll(2, es[1..]);
    assert (first + others) + rest == first + (others + rest);
    EncodedEntryAt(b, at, es[0], others + rest);
  }

  lemma EncodedEntryAt(b: seq<byte>, at: nat, e: Entry, rest: seq<byte>)
    requires Encodable(2, e) && at <= |b| && b[at..] == Encode(2, e) + rest
    ensures EntryAt(b, at, e) && b[at + 4 + |e.data|..] == rest
  {
    FirstEntry(2, e, rest);
    assert U16At(b, at) == U16At(b[at..], 0) && U16At(b, at + 2) == U16At(b[at..], 2);
    SuffixSplit(b, at, Encode(2, e), rest);
  }

  lemma {:induction false} SearchOfEntries(b: seq<byte>, at: nat, es: seq<Entry>)
    requires AllEncodable(2, es) && EntriesAt(b, at, es)
    ensures FindFrom(b, at) == FirstServerName(es, at)
    decreases |es|
  {
    if es != [] {
      Fits16(|es[0].data| + 4);
      SearchOfEntries(b, at + 4 + |es[0].data|, es[1..]);
    }
  }

  /** On every list of extensions the search is linear search. */
  lemma SearchIsLinear(es: seq<Entry>)
    requires AllEncodable(2, es)
    ensures FindFrom(EncodeAll(2, es), 0) == FirstServerName(es, 0)
  {
    var b := EncodeAll(2, es);
    assert b[0..] == b + [];
    EncodedEntriesAt(b, 0, es);
    SearchOfEntries(b, 0, es);
  }

  /** The search says there is none exactly when there is none ... */
  lemma {:induction false} NotFoundIffNone(es: seq<Entry>, at: nat)
    ensures FirstServerName(es, at) == NotFound <==> forall i :: 0 <= i < |es| ==> es[i].kind != SERVER_NAME
    decreases |es|
  {
    if es != [] {
      NotFoundIffNone(es[1..], at + |Encode(2, es[0])|);
      assert forall i :: 0 < i < |es| ==> es[i] == es[1..][i - 1];
    }
  }

  /** ... and otherwise points at the first. */
  lemma {:induction false} FirstIsFound(front: seq<Entry>, e: Entry, rest: seq<Entry>, at: nat)
    requires e.kind == SERVER_NAME && forall i :: 0 <= i < |front| ==> front[i].kind != SERVER_NAME
    ensures FirstServerName(front + [e] + rest, at) == Found(at + |EncodeAll(2, front)|)
    decreases |front|
  {
    if front == [] {
      assert front + [e] + rest == [e] + rest;
    } else {
      assert (front + [e] + rest)[1..] == front[1..] + [e] + rest;
      FirstIsFound(front[1..], e, rest, at + |Encode(2, front[0])|);
    }
  }

  // ----- where the search ends, on any octets -----

  /** The header of an extension of another kind stands at `i`. */
  predicate OtherAt(b: seq<byte>, i: nat) {
    i + 4 <= |b| && U16At(b, i) != SERVER_NAME
  }

  /** `n` steps of the 16-bit full length lead from `i` to `p`, over headers of another kind. */
  predicate Leads(b: seq<byte>, i: nat, p: nat, n: nat)
    decreases n
  {
    if n == 0 then i == p
    else OtherAt(b, i) && Leads(b, i + (U16At(b, i + 2) + 4) % 0x1_0000, p, n - 1)
  }

  /** What the search comes to at a place it cannot step on from. */
  function Verdict(b: seq<byte>, p: nat): Search {
    if p >= |b| then NotFound else if p + 4 > |b| then OutOfBounds
    else if U16At(b, p) == SERVER_NAME then Found(p) else Stuck
  }

  /** The header at `p` announces the one length whose full length wraps to zero. */
  predicate HoldsUp(b: seq<byte>, p: nat) {
    OtherAt(b, p) && U16At(b, p + 2) == 0xFFFC
  }

  lemma ZeroStep(length: u16)
    ensures (length + 4) % 0x1_0000 == 0 <==> length == 0xFFFC
  {}

  /** Some number of steps leads to the place where the search ends. */
  lemma {:induction false} SearchEnds(b: seq<byte>, i: nat) returns (p: nat, n: nat)
    ensures Leads(b, i, p, n) && (HoldsUp(b, p) || !OtherAt(b, p)) && FindFrom(b, i) == Verdict(b, p)
    decreases |b| - i
  {
    if OtherAt(b, i) && U16At(b, i + 2) != 0xFFFC {
      ZeroStep(U16At(b, i + 2));
      p, n := SearchEnds(b, i + (U16At(b, i + 2) + 4) % 0x1_0000);
      n := n + 1;
    } else {
      p, n := i, 0;
    }
  }

  /** And wherever steps lead from which there is no further one, the search ends. */
  lemma {:induction false} StepsDecide(b: seq<byte>, i: nat, p: nat, n: nat)
    requires Leads(b, i, p, n) && (HoldsUp(b, p) || !OtherAt(b, p))
    ensures FindFrom(b, i) == Verdict(b, p)
    decreases n
  {
    if n > 0 {
      ZeroStep(U16At(b, i + 2));
      StepsDecide(b, i + (U16At(b, i + 2) + 4) % 0x1_0000, p, n - 1);
    }
  }

  ghost predicate Reaches(b: seq<byte>, i: nat, p: nat) {
    exists n: nat :: Leads(b, i, p, n)
  }

  /**
   * On any octets whatever, the search never ends exactly when its steps lead, over headers of other
   * kinds, to one that announces 65532 octets.
   */
  lemma SearchStuckExactly(b: seq<byte>, i: nat)
    ensures FindFrom(b, i) == Stuck <==> exists p: nat :: Reaches(b, i, p) && HoldsUp(b, p)
  {
    if FindFrom(b, i) == Stuck {
      var p, n := SearchEnds(b, i);
      assert Reaches(b, i, p) && HoldsUp(b, p);
    }
    if p: nat :| Reaches(b, i, p) && HoldsUp(b, p) {
      ReachedDecides(b, i, p);
    }
  }

  lemma ReachedDecides(b: seq<byte>, i: nat, p: nat)
    requires Reaches(b, i, p) && (HoldsUp(b, p) || !OtherAt(b, p))
    ensures FindFrom(b, i) == Verdict(b, p)
  {
    var n: nat :| Leads(b, i, p, n);
    StepsDecide(b, i, p, n);
  }

  /** It finds what it finds exactly when they lead to a server name there. */
  lemma SearchFoundExactly(b: seq<byte>, i: nat, p: nat)
    ensures FindFrom(b, i) == Found(p) <==> p + 4 <= |b| && U16At(b, p) == SERVER_NAME && Reaches(b, i, p)
  {
    if FindFrom(b, i) == Found(p) {
      var q, n := SearchEnds(b, i);
      assert Reaches(b, i, q);
    }
    if p + 4 <= |b| && U16At(b, p) == SERVER_NAME && Reaches(b, i, p) {
      ReachedDecides(b, i, p);
    }
  }

  /** Complete extensions of other kinds and then a header that announces 65532 octets, with whatever behind it. */
  lemma StuckBehindExtensions(es: seq<Entry>, rest: seq<byte>)
    requires AllEncodable(2, es) && forall k :: 0 <= k < |es| ==> es[k].kind != SERVER_NAME
    requires HoldsUp(rest, 0)
    ensures FindFrom(EncodeAll(2, es) + rest, 0) == Stuck
  {
    var b, p := EncodeAll(2, es) + rest, |EncodeAll(2, es)|;
    assert b[0..] == b;
    ExtensionsLead(b, 0, es, rest, p, |es|);
    HoldsUpBehind(EncodeAll(2, es), rest);
    StepsDecide(b, 0, p, |es|);
  }

  lemma HoldsUpBehind(front: seq<byte>, rest: seq<byte>)
    requires HoldsUp(rest, 0)
    ensures HoldsUp(front + rest, |front|)
  {
    var b := front + rest;
    assert b[|front|] == rest[0] && b[|front| + 1] == rest[1] && b[|front| + 2] == rest[2] && b[|front| + 3] == rest[3];
  }

  lemma {:induction false} ExtensionsLead(b: seq<byte>, at: nat, es: seq<Entry>, rest: seq<byte>, p: nat, n: nat)
    requires AllEncodable(2, es) && forall k :: 0 <= k < |es| ==> es[k].kind != SERVER_NAME
    requires at <= |b| && b[at..] == EncodeAll(2, es) + rest && p == at + |EncodeAll(2, es)| && n == |es|
    ensures Leads(b, at, p, n)
    decreases |es|
  {
    if es != [] {
      var next, fewer, others := at + 4 + |es[0].data|, n - 1, es[1..];
      FirstOfEntries(b, at, es, rest);
      assert forall k :: 0 <= k < |others| ==> others[k] == es[k + 1];
      ExtensionsLead(b, next, others, rest, p, fewer);
      LeadsOn(b, at, es[0], next, p, fewer, n);
    }
  }

  lemma LeadsOn(b: seq<byte>, at: nat, e: Entry, next: nat, p: nat, fewer: nat, n: nat)
    requires EntryAt(b, at, e) && Encodable(2, e) && e.kind != SERVER_NAME
    requires next == at + 4 + |e.data| && n == fewer + 1 && Leads(b, next, p, fewer)
    ensures Leads(b, at, p, n)
  {
    Fits16(|e.data| + 4);
  }

  /** The shortest witness: a header alone. */
  lemma SearchGetsStuck()
    ensures FindFrom([0, 43, 0xFF, 0xFC], 0) == Stuck
  {}
}
