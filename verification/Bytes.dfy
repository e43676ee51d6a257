/** Byte strings, zero padding, and cutting a byte string into equal symbols. */
module Bytes {

  newtype Byte = x: int | 0 <= x < 256

  type Symbol = seq<Byte>

  function Zeros(n: nat): (z: seq<Byte>)
    ensures |z| == n
    ensures forall i :: 0 <= i < n ==> z[i] == 0
  {
    seq(n, _ => 0)
  }

  /** s extended with zero bytes to length n. */
  function Pad(s: seq<Byte>, n: nat): (p: seq<Byte>)
    requires |s| <= n
    ensures |p| == n
    ensures s <= p
    ensures forall i :: |s| <= i < n ==> p[i] == 0
  {
    s + Zeros(n - |s|)
  }

  function Min(a: int, b: int): int {
    if a < b then a else b
  }

  /** The number of bytes in n symbols of t bytes: n * t, as repeated addition, which
      keeps products of variables away from the solver. */
  function Span(n: nat, t: nat): nat {
    if n == 0 then 0 else Span(n - 1, t) + t
  }

  lemma {:induction false} SpanIsProduct(n: nat, t: nat)
    ensures Span(n, t) == n * t
  {
    if n > 0 {
      SpanIsProduct(n - 1, t);
    }
  }

  lemma {:induction false} SpanMono(i: nat, j: nat, t: nat)
    requires i <= j
    ensures Span(i, t) <= Span(j, t)
    decreases j
  {
    if i < j {
      SpanMono(i, j - 1, t);
    }
  }

  lemma {:induction false} SpanAdd(i: nat, j: nat, t: nat)
    ensures Span(i + j, t) == Span(i, t) + Span(j, t)
    decreases j
  {
    if j > 0 {
      SpanAdd(i, j - 1, t);
    }
  }

  /** Concatenation of a list of lists. */
  function Join<X>(ss: seq<seq<X>>): seq<X> {
    if |ss| == 0 then [] else Join(ss[..|ss| - 1]) + ss[|ss| - 1]
  }

  lemma JoinSnoc<X>(ss: seq<seq<X>>, k: nat)
    requires k < |ss|
    ensures Join(ss[..k + 1]) == Join(ss[..k]) + ss[k]
  {
    assert ss[..k + 1][..k] == ss[..k];
  }

  lemma {:induction false} JoinPrefix<X>(ss: seq<seq<X>>, k: nat)
    requires k <= |ss|
    ensures Join(ss[..k]) <= Join(ss)
  {
    if k == |ss| {
      assert ss[..k] == ss;
    } else {
      JoinPrefix(ss[..|ss| - 1], k);
      assert ss[..|ss| - 1][..k] == ss[..k];
    }
  }

  ghost predicate Uniform(ss: seq<Symbol>, t: nat) {
    forall i :: 0 <= i < |ss| ==> |ss[i]| == t
  }

  /** The i-th run of t elements of s; empty if s is too short to hold it. */
  function Window<X>(s: seq<X>, i: nat, t: nat): seq<X> {
    if Span(i, t) + t <= |s| then s[Span(i, t)..Span(i, t) + t] else []
  }

  lemma WindowFits(i: nat, t: nat, n: nat)
    requires i < n
    ensures Span(i, t) + t <= Span(n, t)
  {
    SpanMono(i + 1, n, t);
  }

  /** Sequences with a common prefix agree on a run inside it. */
  lemma SameRun<X>(s: seq<X>, u: seq<X>, n: nat, a: nat, t: nat)
    requires n <= |s| && n <= |u| && s[..n] == u[..n] && a + t <= n
    ensures s[a..a + t] == u[a..a + t]
  {
    assert s[a..a + t] == s[..n][a..a + t];
    assert u[a..a + t] == u[..n][a..a + t];
  }

  lemma SameWindow<X>(s: seq<X>, u: seq<X>, i: nat, n: nat, t: nat)
    requires i < n && Span(n, t) <= |s| && Span(n, t) <= |u| && s[..Span(n, t)] == u[..Span(n, t)]
    ensures Window(s, i, t) == Window(u, i, t)
  {
    WindowFits(i, t, n);
    SameRun(s, u, Span(n, t), Span(i, t), t);
  }

  lemma {:induction false} JoinLength(ss: seq<Symbol>, t: nat)
    requires Uniform(ss, t)
    ensures |Join(ss)| == Span(|ss|, t)
  {
    if |ss| > 0 {
      JoinLength(ss[..|ss| - 1], t);
    }
  }

  /** In the concatenation of symbols of t bytes, symbol i sits at offset i * t. */
  lemma {:induction false} JoinWindow(ss: seq<Symbol>, t: nat, i: nat)
    requires Uniform(ss, t) && i < |ss|
    ensures |Join(ss)| == Span(|ss|, t)
    ensures Span(i, t) + t <= |Join(ss)|
    ensures Join(ss)[Span(i, t)..Span(i, t) + t] == ss[i]
  {
    JoinLength(ss, t);
    WindowFits(i, t, |ss|);
    var front := ss[..|ss| - 1];
    JoinLength(front, t);
    if i < |front| {
      JoinWindow(front, t, i);
      WindowFits(i, t, |front|);
      SameRun(Join(ss), Join(front), Span(|front|, t), Span(i, t), t);
    }
  }

  /** b cut into n symbols of t bytes. */
  function Cut(b: seq<Byte>, n: nat, t: nat): (ss: seq<Symbol>)
    ensures |ss| == n
  {
    seq(n, i requires 0 <= i < n => Window(b, i, t))
  }

  lemma CutSymbol(b: seq<Byte>, n: nat, t: nat, i: nat)
    requires |b| == Span(n, t) && i < n
    ensures Span(i, t) + t <= |b|
    ensures |Cut(b, n, t)[i]| == t
    ensures Cut(b, n, t)[i] == b[Span(i, t)..Span(i, t) + t]
  {
    WindowFits(i, t, n);
  }

  lemma CutUniform(b: seq<Byte>, n: nat, t: nat)
    requires |b| == Span(n, t)
    ensures Uniform(Cut(b, n, t), t)
  {
    forall i | 0 <= i < n
      ensures |Cut(b, n, t)[i]| == t
    {
      CutSymbol(b, n, t, i);
    }
  }

  lemma {:induction false} JoinCut(b: seq<Byte>, n: nat, t: nat)
    requires |b| == Span(n, t)
    ensures Join(Cut(b, n, t)) == b
    decreases n
  {
    if n > 0 {
      var a := Span(n - 1, t);
      JoinCut(b[..a], n - 1, t);
      CutFront(b, n, t);
      CutSymbol(b, n, t, n - 1);
      var cut := Cut(b, n, t);
      assert Join(cut) == b[..a] + b[a..a + t];
      assert a + t == |b|;
    }
  }

  lemma CutFront(b: seq<Byte>, n: nat, t: nat)
    requires 0 < n && Span(n - 1, t) <= |b|
    ensures Cut(b, n, t)[..n - 1] == Cut(b[..Span(n - 1, t)], n - 1, t)
  {
    var front := b[..Span(n - 1, t)];
    forall i | 0 <= i < n - 1
      ensures Cut(b, n, t)[i] == Cut(front, n - 1, t)[i]
    {
      SameWindow(b, front, i, n - 1, t);
    }
  }

  /** A set of naturals below n has at most n elements, and n only if it is all of them. */
  lemma {:induction false} BoundedSetSize(s: set<nat>, n: nat)
    requires forall x :: x in s ==> x < n
    ensures |s| <= n
    ensures |s| == n <==> forall x: nat :: x < n ==> x in s
  {
    if n == 0 {
      assert s == {};
    } else {
      var r := s - {n - 1};
      BoundedSetSize(r, n - 1);
      if n - 1 in s {
        assert |s| == |r| + 1;
        assert forall x: nat :: x < n - 1 ==> (x in s <==> x in r);
      } else {
        assert r == s;
      }
    }
  }
}
