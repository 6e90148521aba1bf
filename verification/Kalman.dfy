/** kalman_update of jni/compat/delay.c, over exact reals. */
module Kalman {
  import opened Basics

  /** The error variance after one update, from p before it. */
  function NextP(p: real, q: real, r: real): real
    requires p + q + r > 0.0
  { r * (p + q) / (p + q + r) }

  /** Zero at a fixed point of the variance, negative below it and positive above. */
  function Excess(p: real, q: real, r: real): real { p * p + q * p - q * r }

  lemma GainRange(a: real, r: real)
    requires a > 0.0 && r > 0.0
    ensures 0.0 < a / (a + r) < 1.0
    ensures (1.0 - a / (a + r)) * a == r * a / (a + r)
    ensures 0.0 < r * a / (a + r) < r
  {
    var k := a / (a + r);
    assert k * (a + r) == a;
    Positive(k, a + r);
    assert (1.0 - k) * (a + r) == r;
    Positive(1.0 - k, a + r);
    assert r * a / (a + r) == r * k;
    assert (1.0 - k) * a == r * k;
    Between(r, k);
  }

  lemma NotNegative(x: real, s: real)
    requires x >= 0.0 && s >= 0.0
    ensures x * s >= 0.0
  {
  }

  lemma NotPositive(x: real, s: real)
    requires x <= 0.0 && s >= 0.0
    ensures x * s <= 0.0
  {
    NotNegative(-x, s);
    assert -x * s == -(x * s);
  }

  lemma Positive(x: real, s: real)
    requires s > 0.0 && x * s > 0.0
    ensures x > 0.0
  {
    if x <= 0.0 { NotPositive(x, s); }
  }

  lemma ZeroProduct(y: real, s: real)
    requires s != 0.0 && y * s == 0.0
    ensures y == 0.0
  {
    assert y == y * s / s;
  }

  lemma Between(r: real, k: real)
    requires r > 0.0 && 0.0 < k < 1.0
    ensures 0.0 < r * k < r
  {
    assert r * (1.0 - k) > 0.0;
  }

  class State {
    const q: real
    const r: real
    var p: real
    var k: real
    var x: real

    constructor (q: real, r: real, p: real, x: real)
      ensures this.q == q && this.r == r && this.p == p && this.x == x
    {
      this.q, this.r, this.p, this.k, this.x := q, r, p, 0.0, x;
    }

    method Update(measurement: real)
      requires q > 0.0 && r > 0.0 && p >= 0.0
      modifies this
      ensures p == NextP(old(p), q, r) && 0.0 < p < r
      ensures 0.0 < k < 1.0 && k * (old(p) + q + r) == old(p) + q
      ensures x == old(x) + k * (measurement - old(x))
      ensures Estimate(p, x) == Step(Estimate(old(p), old(x)), q, r, measurement)
    {
      GainRange(p + q, r);
      p := p + q;
      k := p / (p + r);
      x := x + k * (measurement - x);
      p := (1.0 - k) * p;
    }
  }

  // ---------- the error variance ----------

  /** With t = r / (p + q + r): multiplying out. */
  lemma ExcessAlgebra(a: real, q: real, r: real, s: real, p': real)
    requires s == a + r && p' * s == r * a
    ensures Excess(p', q, r) * s * s == r * r * Excess(a - q, q, r)
  {
    var w := p' * s;
    assert Excess(p', q, r) * s * s == w * w + q * w * s - q * r * s * s;
    assert w * w + q * w * s - q * r * s * s == r * r * a * a + q * r * s * (a - s);
    assert q * r * s * (a - s) == -q * r * r * s;
    assert Excess(a - q, q, r) == a * a - q * a - q * r;
  }

  lemma Scaled(e': real, e: real, r: real, s: real, t: real)
    requires s != 0.0 && t * s == r && e' * s * s == r * r * e
    ensures e' == t * t * e
  {
    var y := e' - t * t * e;
    assert r * r * e == (t * s) * (t * s) * e;
    assert (t * s) * (t * s) * e == t * t * e * s * s;
    assert (y * s) * s == e' * s * s - t * t * e * s * s;
    ZeroProduct(y * s, s);
    ZeroProduct(y, s);
  }

  /** An update multiplies the excess by the square of r / (p + q + r). */
  lemma ExcessShrinks(p: real, q: real, r: real)
    requires q > 0.0 && r > 0.0 && p >= 0.0
    ensures var t := r / (p + q + r); 0.0 < t < 1.0 && Excess(NextP(p, q, r), q, r) == t * t * Excess(p, q, r)
  {
    var a, s, p' := p + q, p + q + r, NextP(p, q, r);
    var t := r / s;
    GainRange(r, a);
    assert p' * s == r * a;
    ExcessAlgebra(a, q, r, s, p');
    Scaled(Excess(p', q, r), Excess(p, q, r), r, s, t);
  }

  lemma StepAlgebra(p: real, q: real, r: real)
    requires p + q + r > 0.0
    ensures (NextP(p, q, r) - p) * (p + q + r) == -Excess(p, q, r)
  {
    assert NextP(p, q, r) * (p + q + r) == r * (p + q);
  }

  lemma SignKept(t: real, e: real)
    requires t > 0.0
    ensures e > 0.0 ==> t * t * e > 0.0
    ensures e < 0.0 ==> t * t * e < 0.0
    ensures e == 0.0 ==> t * t * e == 0.0
  {
    assert t * t > 0.0;
  }

  /** The variance moves towards the fixed point and does not cross it. */
  lemma MovesTowards(p: real, q: real, r: real)
    requires q > 0.0 && r > 0.0 && p >= 0.0
    ensures var e, p' := Excess(p, q, r), NextP(p, q, r); var e' := Excess(p', q, r);
      && (e < 0.0 ==> p < p' && e' < 0.0)
      && (e == 0.0 ==> p == p')
      && (e > 0.0 ==> p' < p && e' > 0.0)
  {
    var s := p + q + r;
    var d := NextP(p, q, r) - p;
    StepAlgebra(p, q, r);
    if d * s > 0.0 { Positive(d, s); }
    if d * s < 0.0 { assert -d * s > 0.0; Positive(-d, s); }
    if d * s == 0.0 { assert d == d * s / s; }
    ExcessShrinks(p, q, r);
    SignKept(r / s, Excess(p, q, r));
  }

  lemma ExcessOrder(p: real, g: real, q: real, r: real)
    requires q > 0.0 && p >= 0.0 && g > 0.0 && Excess(g, q, r) == 0.0
    ensures (Excess(p, q, r) < 0.0 <==> p < g) && (Excess(p, q, r) > 0.0 <==> p > g)
  {
    var c := p + g + q;
    assert Excess(p, q, r) - Excess(g, q, r) == (p - g) * c;
    if p < g { assert (g - p) * c > 0.0; }
    if p > g { assert (p - g) * c > 0.0; }
  }

  lemma NextPRange(p: real, q: real, r: real)
    requires q > 0.0 && r > 0.0 && p >= 0.0
    ensures 0.0 < NextP(p, q, r) < r
  {
    var a := p + q;
    GainRange(a, r);
    assert NextP(p, q, r) == r * a / (a + r);
  }

  lemma FixedPointExcess(g: real, q: real, r: real)
    requires q > 0.0 && r > 0.0 && g > 0.0 && NextP(g, q, r) == g
    ensures Excess(g, q, r) == 0.0
  {
    StepAlgebra(g, q, r);
  }

  /** The same in terms of a fixed point g itself. */
  lemma TowardsFixedPoint(p: real, g: real, q: real, r: real)
    requires q > 0.0 && r > 0.0 && p >= 0.0 && g > 0.0 && NextP(g, q, r) == g
    ensures var p' := NextP(p, q, r);
      && (p < g ==> p < p' < g) && (p == g ==> p' == g) && (p > g ==> g < p' < p)
  {
    FixedPointExcess(g, q, r);
    MovesTowards(p, q, r);
    NextPRange(p, q, r);
    ExcessOrder(p, g, q, r);
    ExcessOrder(NextP(p, q, r), g, q, r);
  }

  // ---------- runs ----------

  /** The variance and the estimate. */
  datatype Estimate = Estimate(p: real, x: real)

  function Step(s: Estimate, q: real, r: real, m: real): (f: Estimate)
    requires q > 0.0 && r > 0.0 && s.p >= 0.0
    ensures 0.0 < f.p < r
  {
    NextPRange(s.p, q, r);
    Estimate(NextP(s.p, q, r), s.x + (s.p + q) / (s.p + q + r) * (m - s.x))
  }

  /** After the measurements ms. */
  function Filter(s: Estimate, q: real, r: real, ms: seq<real>): (f: Estimate)
    requires q > 0.0 && r > 0.0 && s.p >= 0.0
    ensures f.p >= 0.0
  {
    if ms == [] then s else Step(Filter(s, q, r, ms[..|ms| - 1]), q, r, ms[|ms| - 1])
  }

  lemma Blend(x: real, m: real, k: real, lo: real, hi: real)
    requires 0.0 < k < 1.0 && lo <= x <= hi && lo <= m <= hi
    ensures lo <= x + k * (m - x) <= hi
  {
    var l := 1.0 - k;
    assert x + k * (m - x) - lo == l * (x - lo) + k * (m - lo);
    assert hi - (x + k * (m - x)) == l * (hi - x) + k * (hi - m);
    NotNegative(l, x - lo);
    NotNegative(k, m - lo);
    NotNegative(l, hi - x);
    NotNegative(k, hi - m);
  }

  lemma StepInHull(s: Estimate, q: real, r: real, m: real, lo: real, hi: real)
    requires q > 0.0 && r > 0.0 && s.p >= 0.0 && lo <= s.x <= hi && lo <= m <= hi
    ensures lo <= Step(s, q, r, m).x <= hi
  {
    GainRange(s.p + q, r);
    Blend(s.x, m, (s.p + q) / (s.p + q + r), lo, hi);
  }

  /** The estimate stays within the hull of its start and the measurements, and the variance
      below the measurement noise. */
  lemma {:induction false} StaysInHull(s: Estimate, q: real, r: real, ms: seq<real>, lo: real, hi: real)
    requires q > 0.0 && r > 0.0 && s.p >= 0.0 && lo <= s.x <= hi
    requires forall j :: 0 <= j < |ms| ==> lo <= ms[j] <= hi
    ensures lo <= Filter(s, q, r, ms).x <= hi
    ensures ms != [] ==> 0.0 < Filter(s, q, r, ms).p < r
  {
    if ms != [] {
      var n := |ms| - 1;
      StaysInHull(s, q, r, ms[..n], lo, hi);
      StepInHull(Filter(s, q, r, ms[..n]), q, r, ms[n], lo, hi);
    }
  }

  /** b times the n-th power of c. */
  function Decayed(b: real, c: real, n: nat): real { if n == 0 then b else c * Decayed(b, c, n - 1) }

  lemma Shrink(e: real, t: real, u: real, b: real)
    requires 0.0 < t <= u && Abs(e) <= b
    ensures Abs(t * t * e) <= u * u * b
  {
    var v := Abs(e);
    assert t * t <= u * u by { assert (u - t) * (u + t) >= 0.0; }
    assert t * t * v <= u * u * v by { assert (u * u - t * t) * v >= 0.0; }
    assert u * u * v <= u * u * b by { assert u * u * (b - v) >= 0.0; }
  }

  lemma RatioBound(p: real, q: real, r: real)
    requires q > 0.0 && r > 0.0 && p >= 0.0
    ensures r / (p + q + r) <= r / (q + r)
  {
    var t, u := r / (p + q + r), r / (q + r);
    GainRange(r, p + q);
    assert t * (q + r) + t * p == u * (q + r);
    NotNegative(t, p);
    assert u - t == t * p / (q + r);
  }

  lemma StepConverges(s: Estimate, q: real, r: real, m: real, c: real, b: real)
    requires q > 0.0 && r > 0.0 && s.p >= 0.0 && c == r / (q + r) * (r / (q + r)) && Abs(Excess(s.p, q, r)) <= b
    ensures Abs(Excess(Step(s, q, r, m).p, q, r)) <= c * b
  {
    ExcessShrinks(s.p, q, r);
    RatioBound(s.p, q, r);
    Shrink(Excess(s.p, q, r), r / (s.p + q + r), r / (q + r), b);
  }

  /** The excess falls at least geometrically, whatever is measured: by the square of
      r / (q + r) with each measurement. */
  lemma {:induction false} Converges(s: Estimate, q: real, r: real, ms: seq<real>, c: real) returns (f: Estimate, bound: real)
    requires q > 0.0 && r > 0.0 && s.p >= 0.0 && c == r / (q + r) * (r / (q + r))
    ensures f == Filter(s, q, r, ms) && bound == Decayed(Abs(Excess(s.p, q, r)), c, |ms|)
    ensures Abs(Excess(f.p, q, r)) <= bound
  {
    if ms == [] {
      f, bound := s, Abs(Excess(s.p, q, r));
    } else {
      var g, b := Converges(s, q, r, ms[..|ms| - 1], c);
      StepConverges(g, q, r, ms[|ms| - 1], c, b);
      f, bound := Step(g, q, r, ms[|ms| - 1]), c * b;
    }
  }
}
