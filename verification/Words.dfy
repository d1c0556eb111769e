/** Words that commute: needed to say exactly when a misplaced insertion goes unnoticed. */
module Words {

  function Power<T>(w: seq<T>, n: nat): seq<T> {
    if n == 0 then [] else w + Power(w, n - 1)
  }

  /** Both words are repetitions of one word. */
  ghost predicate CommonRoot<T(!new)>(u: seq<T>, v: seq<T>) {
    exists w: seq<T>, a: nat, b: nat :: u == Power(w, a) && v == Power(w, b)
  }

  lemma {:induction false} PowerAdd<T>(w: seq<T>, a: nat, b: nat)
    ensures Power(w, a + b) == Power(w, a) + Power(w, b)
  {
    if a > 0 {
      PowerAdd(w, a - 1, b);
      Regroup(w, Power(w, a - 1), Power(w, b));
    }
  }

  lemma Regroup<T>(a: seq<T>, b: seq<T>, c: seq<T>)
    ensures a + (b + c) == (a + b) + c
  {}

  lemma {:induction false} Root<T(!new)>(u: seq<T>, v: seq<T>) returns (w: seq<T>, a: nat, b: nat)
    requires u + v == v + u
    ensures u == Power(w, a) && v == Power(w, b)
    decreases |u| + |v|, |u|
  {
    if u == [] {
      w, a, b := v, 0, 1;
      assert Power(w, 1) == w + [];
    } else if v == [] {
      w, a, b := u, 1, 0;
      assert Power(w, 1) == w + [];
    } else if |u| <= |v| {
      var rest := v[|u|..];
      assert (u + v)[..|u|] == u && (v + u)[..|u|] == v[..|u|];
      assert v == u + rest;
      assert u + rest == v == (u + v)[|u|..] == (v + u)[|u|..] == rest + u;
      w, a, b := Root(u, rest);
      PowerAdd(w, a, b);
      b := a + b;
    } else {
      w, b, a := Root(v, u);
    }
  }

  /** Two words commute exactly when they are powers of a common word. */
  lemma CommuteIffCommonRoot<T(!new)>(u: seq<T>, v: seq<T>)
    ensures u + v == v + u <==> CommonRoot(u, v)
  {
    if u + v == v + u {
      var w, a, b := Root(u, v);
    }
    if CommonRoot(u, v) {
      var w: seq<T>, a: nat, b: nat :| u == Power(w, a) && v == Power(w, b);
      PowerAdd(w, a, b);
      PowerAdd(w, b, a);
    }
  }

  // ----- words that are shifted past one another -----

  /** `v` and `u` are one word read from two places, and `c` goes round in it from one to the other. */
  ghost predicate Conjugate<T(!new)>(u: seq<T>, v: seq<T>, c: seq<T>) {
    exists p: seq<T>, q: seq<T>, k: nat :: v == p + q && u == q + p && c == Power(p + q, k) + p
  }

  lemma {:induction false} Rotation<T(!new)>(u: seq<T>, v: seq<T>, c: seq<T>)
    returns (p: seq<T>, q: seq<T>, k: nat)
    requires |u| == |v| > 0 && c + u == v + c
    ensures v == p + q && u == q + p && c == Power(p + q, k) + p
    decreases |c|
  {
    if |c| < |v| {
      p, q, k := c, v[|c|..], 0;
      assert (c + u)[..|c|] == c && (v + c)[..|c|] == v[..|c|];
      assert v == c + q;
      assert (c + u)[|c|..] == u && (v + c)[|c|..] == q + c;
      assert Power(v, 0) + c == c;
    } else {
      var rest := c[|v|..];
      assert (c + u)[..|v|] == c[..|v|] && (v + c)[..|v|] == v;
      assert c == v + rest;
      assert (c + u)[|v|..] == rest + u && (v + c)[|v|..] == c;
      p, q, k := Rotation(u, v, rest);
      Regroup(v, Power(v, k), p);
      k := k + 1;
    }
  }

  /** Of words of one length: exactly when `c` can be moved past them. */
  lemma ConjugateExactly<T(!new)>(u: seq<T>, v: seq<T>, c: seq<T>)
    requires |u| == |v|
    ensures c + u == v + c <==> v == [] || Conjugate(u, v, c)
  {
    if v == [] {
      assert c + u == c == v + c;
    } else if c + u == v + c {
      var p, q, k := Rotation(u, v, c);
    } else if Conjugate(u, v, c) {
      var p: seq<T>, q: seq<T>, k: nat :| v == p + q && u == q + p && c == Power(p + q, k) + p;
      RotatedMoves(p, q, k);
    }
  }

  lemma RotatedMoves<T>(p: seq<T>, q: seq<T>, k: nat)
    ensures (Power(p + q, k) + p) + (q + p) == (p + q) + (Power(p + q, k) + p)
  {
    var w, power := p + q, Power(p + q, k);
    PowerAdd(w, k, 1);
    PowerAdd(w, 1, k);
    assert Power(w, 1) == w + [] == w;
    assert (power + p) + (q + p) == (power + w) + p;
    Regroup(w, power, p);
  }
}
