/** `Recording.Tangents` is the derivative: when one leaf moves by h, every node moves by its
    tangent times h plus r h^2, where r stays bounded as h goes to zero. */
module Calculus {
  import opened Ops
  import opened Recording
  import RealSums

  function Abs(x: real): real { if x < 0.0 then -x else x }

  function Lesser(x: real, y: real): real { if x <= y then x else y }

  lemma AbsProduct(x: real, y: real)
    ensures Abs(x * y) == Abs(x) * Abs(y)
  {
    if x >= 0.0 && y >= 0.0 {
      assert x * y >= 0.0;
    } else if x >= 0.0 {
      assert x * -y >= 0.0;
    } else if y >= 0.0 {
      assert -x * y >= 0.0;
    } else {
      assert -x * -y >= 0.0;
    }
  }

  lemma ProductMonotone(x: real, x': real, y: real, y': real)
    requires 0.0 <= x <= x' && 0.0 <= y <= y'
    ensures x * y <= x' * y'
  {
    assert x * y <= x' * y;
    assert x' * y <= x' * y';
  }

  /** |a b| <= A B for |a| <= A and |b| <= B. */
  lemma ProductBound(a: real, b: real, A: real, B: real)
    requires Abs(a) <= A && Abs(b) <= B
    ensures Abs(a * b) <= A * B
  {
    AbsProduct(a, b);
    ProductMonotone(Abs(a), A, Abs(b), B);
  }

  // ---------------------------------------------------------------- second-order contact

  /** y1 is y0 plus s h plus r h^2. */
  predicate Expands(y0: real, y1: real, s: real, h: real, r: real) {
    y1 == y0 + s * h + r * (h * h)
  }

  /** The same, for some r of size at most C. */
  ghost predicate Near(y0: real, y1: real, s: real, h: real, C: real) {
    exists r :: Abs(r) <= C && Expands(y0, y1, s, h, r)
  }

  ghost predicate BoundAt(G: real -> real, a: real, k: real, C: real, delta: real) {
    C >= 0.0 && delta > 0.0 && forall d :: Abs(d) <= delta ==> Near(G(a), G(a + d), k, d, C)
  }

  /** G is differentiable at a with derivative k. */
  ghost predicate SmoothAt(G: real -> real, a: real, k: real) {
    exists C, delta :: BoundAt(G, a, k, C, delta)
  }

  function UnFun(lib: Lib, g: UnFn): real -> real {
    (x: real) => UnValue(lib, g, x)
  }

  /** The operator is differentiable at a, its derivative there being `UnSlope`. */
  ghost predicate UnSmooth(lib: Lib, g: UnFn, a: real) {
    SmoothAt(UnFun(lib, g), a, UnSlope(lib, g, a))
  }

  predicate Rational(g: UnFn) {
    !(g.SQRT? || g.EXP? || g.LOG? || g.SIN? || g.COS?)
  }

  lemma LinearExpands(lib: Lib, g: UnFn, a: real, d: real)
    requires Rational(g) && !g.DIV1? && !g.DIV2? && !g.SQR?
    ensures Expands(UnValue(lib, g, a), UnValue(lib, g, a + d), UnSlope(lib, g, a), d, 0.0)
  {
    if g.MUL1? {
      assert g.a * (a + d) == g.a * a + g.a * d;
    } else if g.MUL2? {
      assert (a + d) * g.b == a * g.b + g.b * d;
    }
  }

  lemma SquareExpands(lib: Lib, a: real, d: real)
    ensures Expands(UnValue(lib, SQR, a), UnValue(lib, SQR, a + d), UnSlope(lib, SQR, a), d, 1.0)
  {
    assert (a + d) * (a + d) == a * a + 2.0 * a * d + d * d;
  }

  lemma ScaleExpands(lib: Lib, k: real, a: real, d: real)
    requires k != 0.0
    ensures Expands(UnValue(lib, DIV2(k), a), UnValue(lib, DIV2(k), a + d), UnSlope(lib, DIV2(k), a), d, 0.0)
  {
    assert (a + d) / k == a / k + d / k;
    assert 1.0 / k * d == d / k;
  }

  /** p = k/s, q = k/a and t = k/a^2 with s = a + d, cleared of denominators. */
  lemma ReciprocalIdentity(k: real, a: real, d: real, s: real, p: real, q: real, t: real, r: real)
    requires a != 0.0 && s != 0.0 && s == a + d
    requires p * s == k && q * a == k && t * a == q && r * s == t
    ensures p == q + -t * d + r * (d * d)
  {
    // p s = q a, hence p = q - t d + r d^2 after multiplying by s.
    var e := q - t * d + r * (d * d);
    calc {
      e * s;
      q * s - (t * d) * s + (r * s) * (d * d);
      q * (a + d) - (t * d) * (a + d) + t * (d * d);
      q * a + q * d - (t * a) * d;
      k;
    }
    assert (p - e) * s == 0.0;
  }

  lemma ReciprocalExpands(lib: Lib, k: real, a: real, d: real)
    requires a != 0.0 && a + d != 0.0
    ensures Expands(UnValue(lib, DIV1(k), a), UnValue(lib, DIV1(k), a + d), UnSlope(lib, DIV1(k), a), d,
                    k / (a * a) / (a + d))
  {
    var s := a + d;
    assert a * a != 0.0;
    var t := k / (a * a);
    assert t * a == k / a by {
      assert t * (a * a) == k;
      assert (t * a) * a == k;
    }
    ReciprocalIdentity(k, a, d, s, k / s, k / a, t, t / s);
  }

  /** Staying within half the distance to zero keeps the denominator away from zero. */
  lemma ReciprocalBound(t: real, a: real, d: real)
    requires a != 0.0 && Abs(d) <= Abs(a) / 2.0
    ensures a + d != 0.0 && Abs(t / (a + d)) <= 2.0 * Abs(t) / Abs(a)
  {
    var s := a + d;
    assert Abs(s) >= Abs(a) / 2.0;
    var q := t / s;
    assert q * s == t;
    AbsProduct(q, s);
    ProductMonotone(Abs(q), Abs(q), Abs(a) / 2.0, Abs(s));
    DivideBound(Abs(q), Abs(a), Abs(t));
  }

  lemma DivideBound(q: real, a: real, t: real)
    requires a > 0.0 && q * (a / 2.0) <= t
    ensures q <= 2.0 * t / a
  {
    var c := 2.0 * t / a;
    assert c * a == 2.0 * t;
    if q > c {
      assert (q - c) * a > 0.0;
    }
  }

  /** Every rational operator is differentiable wherever it divides by no zero. */
  lemma RationalSmooth(lib: Lib, g: UnFn, a: real)
    requires Rational(g) && UnDefined(lib, g, a)
    ensures UnSmooth(lib, g, a)
  {
    if g.DIV1? {
      var _ := ReciprocalSmooth(lib, g.a, a);
    } else {
      var C := if g.SQR? then 1.0 else 0.0;
      var G := UnFun(lib, g);
      forall d: real | Abs(d) <= 1.0
        ensures Near(G(a), G(a + d), UnSlope(lib, g, a), d, C)
      {
        if g.DIV2? {
          ScaleExpands(lib, g.b, a, d);
        } else if g.SQR? {
          SquareExpands(lib, a, d);
        } else {
          LinearExpands(lib, g, a, d);
        }
      }
      SmoothFrom(G, a, UnSlope(lib, g, a), C);
    }
  }

  lemma SmoothFrom(G: real -> real, a: real, k: real, C: real)
    requires C >= 0.0 && forall d: real :: Abs(d) <= 1.0 ==> Near(G(a), G(a + d), k, d, C)
    ensures SmoothAt(G, a, k)
  {
    assert BoundAt(G, a, k, C, 1.0);
  }

  lemma ReciprocalNear(lib: Lib, k: real, a: real, d: real, t: real, C: real)
    requires a != 0.0 && Abs(d) <= Abs(a) / 2.0 && t == k / (a * a) && C == 2.0 * Abs(t) / Abs(a)
    ensures Near(UnValue(lib, DIV1(k), a), UnValue(lib, DIV1(k), a + d), UnSlope(lib, DIV1(k), a), d, C)
  {
    ReciprocalBound(t, a, d);
    ReciprocalExpands(lib, k, a, d);
  }

  lemma ReciprocalSmooth(lib: Lib, k: real, a: real) returns (C: real)
    requires a != 0.0
    ensures BoundAt(UnFun(lib, DIV1(k)), a, UnSlope(lib, DIV1(k), a), C, Abs(a) / 2.0)
  {
    assert a * a != 0.0;
    var t := k / (a * a);
    C := 2.0 * Abs(t) / Abs(a);
    DivideBound(0.0, Abs(a), Abs(t));
    forall d | Abs(d) <= Abs(a) / 2.0
      ensures Near(UnValue(lib, DIV1(k), a), UnValue(lib, DIV1(k), a + d), UnSlope(lib, DIV1(k), a), d, C)
    {
      ReciprocalNear(lib, k, a, d, t, C);
    }
  }

  // ---------------------------------------------------------------- combining

  /** |x a + y b| is at most E for |x| <= X, |y| <= Y and E = X A + Y B. */
  lemma SumBound(x: real, a: real, X: real, A: real, y: real, b: real, Y: real, B: real, E: real)
    requires Abs(x) <= X && Abs(a) <= A && Abs(y) <= Y && Abs(b) <= B && E == X * A + Y * B
    ensures Abs(x * a + y * b) <= E
  {
    ProductBound(x, a, X, A);
    ProductBound(y, b, Y, B);
  }

  lemma NearSum(u0: real, u1: real, s: real, C: real, v0: real, v1: real, t: real, D: real, h: real)
    requires Near(u0, u1, s, h, C) && Near(v0, v1, t, h, D)
    ensures Near(u0 + v0, u1 + v1, s + t, h, C + D)
  {
    var p :| Abs(p) <= C && Expands(u0, u1, s, h, p);
    var q :| Abs(q) <= D && Expands(v0, v1, t, h, q);
    assert Expands(u0 + v0, u1 + v1, s + t, h, p + q);
  }

  lemma NearNegated(u0: real, u1: real, s: real, C: real, h: real)
    requires Near(u0, u1, s, h, C)
    ensures Near(-u0, -u1, -s, h, C)
  {
    var p :| Abs(p) <= C && Expands(u0, u1, s, h, p);
    assert Expands(-u0, -u1, -s, h, -p);
  }

  /** The slope seen at distance h, s + p h, is at most |s| + C for |h| <= 1. */
  lemma SecantBound(s: real, p: real, C: real, h: real, x: real, B: real)
    requires Abs(p) <= C && Abs(h) <= 1.0 && x == s + p * h && B == Abs(s) + C
    ensures Abs(x) <= B
  {
    ProductBound(p, h, C, 1.0);
  }

  lemma ChangeIsSecant(u0: real, u1: real, s: real, p: real, h: real, x: real)
    requires Expands(u0, u1, s, h, p) && x == s + p * h
    ensures u1 == u0 + x * h
  {
  }

  /** The product rule. */
  lemma NearProduct(u0: real, u1: real, s: real, C: real, v0: real, v1: real, t: real, D: real, h: real, B1: real,
          B2: real, E: real)
    requires Near(u0, u1, s, h, C) && Near(v0, v1, t, h, D) && Abs(h) <= 1.0
    requires B1 == Abs(s) + C && B2 == Abs(t) + D && E == Abs(v0) * C + Abs(u0) * D
    ensures Near(u0 * v0, u1 * v1, v0 * s + u0 * t, h, E + B1 * B2)
  {
    var p :| Abs(p) <= C && Expands(u0, u1, s, h, p);
    var q :| Abs(q) <= D && Expands(v0, v1, t, h, q);
    var x, y := Secants(s, p, C, B1, t, q, D, B2, h);
    var r := v0 * p + u0 * q;
    SumBound(v0, p, Abs(v0), C, u0, q, Abs(u0), D, E);
    ProductNear(u0, u1, s, p, v0, v1, t, q, h, x, y, B1, B2, r, E);
  }

  lemma Secants(s: real, p: real, C: real, B1: real, t: real, q: real, D: real, B2: real,
          h: real) returns (x: real, y: real)
    requires Abs(p) <= C && Abs(q) <= D && Abs(h) <= 1.0 && B1 == Abs(s) + C && B2 == Abs(t) + D
    ensures x == s + p * h && y == t + q * h && Abs(x) <= B1 && Abs(y) <= B2
  {
    x, y := s + p * h, t + q * h;
    SecantBound(s, p, C, h, x, B1);
    SecantBound(t, q, D, h, y, B2);
  }

  lemma ProductNear(u0: real, u1: real, s: real, p: real, v0: real, v1: real, t: real, q: real, h: real,
                    x: real, y: real, B1: real, B2: real, r: real, E: real)
    requires Expands(u0, u1, s, h, p) && Expands(v0, v1, t, h, q) && x == s + p * h && y == t + q * h
    requires Abs(x) <= B1 && Abs(y) <= B2 && r == v0 * p + u0 * q && Abs(r) <= E
    ensures Near(u0 * v0, u1 * v1, v0 * s + u0 * t, h, E + B1 * B2)
  {
    ProductBound(x, y, B1, B2);
    ChangeIsSecant(u0, u1, s, p, h, x);
    ChangeIsSecant(v0, v1, t, q, h, y);
    ProductIdentity(u0, u1, s, p, v0, v1, t, q, h, x, y, r);
  }

  lemma ProductIdentity(u0: real, u1: real, s: real, p: real, v0: real, v1: real, t: real, q: real, h: real,
          x: real, y: real, r: real)
    requires u1 == u0 + x * h && v1 == v0 + y * h
    requires x == s + p * h && y == t + q * h && r == v0 * p + u0 * q
    ensures Expands(u0 * v0, u1 * v1, v0 * s + u0 * t, h, r + x * y)
  {
    assert u1 * v1 == u0 * v0 + v0 * (x * h) + u0 * (y * h) + (x * y) * (h * h);
    assert v0 * (x * h) == (v0 * s) * h + (v0 * p) * (h * h);
    assert u0 * (y * h) == (u0 * t) * h + (u0 * q) * (h * h);
  }

  ghost predicate BoundsSquares(B: real, BB: real) {
    BB >= 0.0 && forall x :: Abs(x) <= B ==> Abs(RealSums.Square(x)) <= BB
  }

  lemma SquareBound(B: real) returns (BB: real)
    requires B >= 0.0
    ensures BoundsSquares(B, BB)
  {
    BB := B * B;
    forall x | Abs(x) <= B
      ensures Abs(RealSums.Square(x)) <= BB
    {
      ProductBound(x, x, B, B);
    }
    ProductMonotone(0.0, B, 0.0, B);
  }

  /** The chain rule. */
  lemma NearChain(G: real -> real, k: real, C: real, delta: real, u0: real, u1: real, s: real, D: real, h: real,
          B: real, BB: real, E: real)
    requires BoundAt(G, u0, k, C, delta) && Near(u0, u1, s, h, D) && BoundsSquares(B, BB)
    requires Abs(h) <= 1.0 && B == Abs(s) + D && B * Abs(h) <= delta && E == Abs(k) * D + C * BB
    ensures Near(G(u0), G(u1), k * s, h, E)
  {
    var p :| Abs(p) <= D && Expands(u0, u1, s, h, p);
    SecantStep(u0, u1, s, p, D, h, B, delta);
    var d := u1 - u0;
    assert u0 + d == u1;
    assert Near(G(u0), G(u1), k, d, C);
    ChainNear(G(u0), G(u1), k, u0, u1, C, s, p, D, h, B, BB, E);
  }

  lemma SecantStep(u0: real, u1: real, s: real, p: real, D: real, h: real, B: real, delta: real)
    requires Expands(u0, u1, s, h, p) && Abs(p) <= D && Abs(h) <= 1.0 && B == Abs(s) + D && B * Abs(h) <= delta
    ensures Abs(u1 - u0) <= delta
  {
    var x := s + p * h;
    SecantBound(s, p, D, h, x, B);
    ChangeIsSecant(u0, u1, s, p, h, x);
    ProductBound(x, h, B, Abs(h));
  }

  lemma ChainNear(y0: real, y1: real, k: real, u0: real, u1: real, C: real, s: real, p: real, D: real, h: real,
          B: real, BB: real, E: real)
    requires Near(y0, y1, k, u1 - u0, C) && Expands(u0, u1, s, h, p) && Abs(p) <= D && Abs(h) <= 1.0
    requires B == Abs(s) + D && BoundsSquares(B, BB) && E == Abs(k) * D + C * BB
    ensures Near(y0, y1, k * s, h, E)
  {
    var x, d := s + p * h, u1 - u0;
    SecantBound(s, p, D, h, x, B);
    ChangeIsSecant(u0, u1, s, p, h, x);
    assert Abs(RealSums.Square(x)) <= BB;
    ChainCore(y0, y1, k, d, C, s, p, D, h, x, RealSums.Square(x), BB, E);
  }

  lemma ChainCore(y0: real, y1: real, k: real, d: real, C: real, s: real, p: real, D: real, h: real, x: real,
          xx: real, BB: real, E: real)
    requires Near(y0, y1, k, d, C) && d == x * h && x == s + p * h && Abs(p) <= D
    requires xx == RealSums.Square(x) && Abs(xx) <= BB
    requires E == Abs(k) * D + C * BB
    ensures Near(y0, y1, k * s, h, E)
  {
    var q :| Abs(q) <= C && Expands(y0, y1, k, d, q);
    SumBound(k, p, Abs(k), D, q, xx, C, BB, E);
    ChainIdentity(y0, y1, k, q, s, p, h, d, x, xx);
    NearBy(y0, y1, k * s, h, k * p + q * xx, E);
  }

  lemma NearBy(y0: real, y1: real, s: real, h: real, r: real, C: real)
    requires Abs(r) <= C && Expands(y0, y1, s, h, r)
    ensures Near(y0, y1, s, h, C)
  {
  }

  lemma ChainIdentity(y0: real, y1: real, k: real, q: real, s: real, p: real, h: real, d: real, x: real, xx: real)
    requires Expands(y0, y1, k, d, q) && d == x * h && x == s + p * h && xx == x * x
    ensures Expands(y0, y1, k * s, h, k * p + q * xx)
  {
    assert d * d == (x * x) * (h * h);
    assert q * (d * d) == (q * (x * x)) * (h * h);
    assert k * d == (k * s) * h + (k * p) * (h * h);
  }

  // ---------------------------------------------------------------- functions of the step

  ghost predicate Bound(u: real -> real, s: real, C: real, delta: real) {
    C >= 0.0 && delta > 0.0 && forall h :: Abs(h) <= delta ==> Near(u(0.0), u(h), s, h, C)
  }

  /** s is the derivative of u at 0: u(h) is u(0) + s h up to C h^2, for all small h. */
  ghost predicate HasDerivative(u: real -> real, s: real) {
    exists C, delta :: Bound(u, s, C, delta)
  }

  lemma DerivativeLocal(u: real -> real, v: real -> real, s: real, delta: real)
    requires HasDerivative(u, s) && delta > 0.0
    requires forall h :: Abs(h) <= delta ==> u(h) == v(h)
    ensures HasDerivative(v, s)
  {
    var C, delta' :| Bound(u, s, C, delta');
    assert u(0.0) == v(0.0);
    assert Bound(v, s, C, Lesser(delta, delta'));
  }

  lemma DerivativeAffine(u: real -> real, s: real)
    requires forall h :: u(h) == u(0.0) + s * h
    ensures HasDerivative(u, s)
  {
    forall h: real | Abs(h) <= 1.0
      ensures Near(u(0.0), u(h), s, h, 0.0)
    {
      assert Expands(u(0.0), u(h), s, h, 0.0);
    }
    assert Bound(u, s, 0.0, 1.0);
  }

  lemma DerivativeSum(u: real -> real, s: real, v: real -> real, t: real)
    requires HasDerivative(u, s) && HasDerivative(v, t)
    ensures HasDerivative((h: real) => u(h) + v(h), s + t)
  {
    var C, delta :| Bound(u, s, C, delta);
    var D, delta' :| Bound(v, t, D, delta');
    var w := (h: real) => u(h) + v(h);
    forall h | Abs(h) <= Lesser(delta, delta')
      ensures Near(w(0.0), w(h), s + t, h, C + D)
    {
      NearSum(u(0.0), u(h), s, C, v(0.0), v(h), t, D, h);
    }
    assert Bound(w, s + t, C + D, Lesser(delta, delta'));
  }

  lemma DerivativeNegated(u: real -> real, s: real)
    requires HasDerivative(u, s)
    ensures HasDerivative((h: real) => -u(h), -s)
  {
    var C, delta :| Bound(u, s, C, delta);
    var w := (h: real) => -u(h);
    forall h | Abs(h) <= delta
      ensures Near(w(0.0), w(h), -s, h, C)
    {
      NearNegated(u(0.0), u(h), s, C, h);
    }
    assert Bound(w, -s, C, delta);
  }

  /** A constant for the product rule, good for all later values u1 and v1. */
  ghost predicate ProductConstant(u0: real, s: real, C: real, v0: real, t: real, D: real, w0: real, r: real, E: real) {
    E >= 0.0 &&
    forall u1, v1, w1, h :: Near(u0, u1, s, h, C) && Near(v0, v1, t, h, D) && IsProduct(w1, u1, v1) && Abs(h) <= 1.0
      ==> Near(w0, w1, r, h, E)
  }

  predicate IsProduct(w: real, u: real, v: real) {
    w == u * v
  }

  lemma ProductConstantExists(u0: real, s: real, C: real, v0: real, t: real, D: real, w0: real,
          r: real) returns (E: real)
    requires C >= 0.0 && D >= 0.0 && IsProduct(w0, u0, v0) && r == v0 * s + u0 * t
    ensures ProductConstant(u0, s, C, v0, t, D, w0, r, E)
  {
    var B1, B2, E0;
    B1, B2, E0, E := ProductConstantValue(u0, s, C, v0, t, D);
    forall u1, v1, w1, h | Near(u0, u1, s, h, C) && Near(v0, v1, t, h, D) && IsProduct(w1, u1, v1) && Abs(h) <= 1.0
      ensures Near(w0, w1, r, h, E)
    {
      NearProduct(u0, u1, s, C, v0, v1, t, D, h, B1, B2, E0);
    }
  }

  lemma ProductConstantValue(u0: real, s: real, C: real, v0: real, t: real, D: real) returns (B1: real, B2: real,
          E0: real, E: real)
    requires C >= 0.0 && D >= 0.0
    ensures B1 == Abs(s) + C && B2 == Abs(t) + D && E0 == Abs(v0) * C + Abs(u0) * D && E == E0 + B1 * B2 && E >= 0.0
  {
    B1, B2 := Abs(s) + C, Abs(t) + D;
    ProductMonotone(0.0, Abs(v0), 0.0, C);
    ProductMonotone(0.0, Abs(u0), 0.0, D);
    ProductMonotone(0.0, B1, 0.0, B2);
    E0 := Abs(v0) * C + Abs(u0) * D;
    E := E0 + B1 * B2;
  }

  /** The product rule. */
  lemma DerivativeProduct(u: real -> real, s: real, v: real -> real, t: real, w: real -> real, r: real)
    requires HasDerivative(u, s) && HasDerivative(v, t) && r == v(0.0) * s + u(0.0) * t
    requires forall h :: IsProduct(w(h), u(h), v(h))
    ensures HasDerivative(w, r)
  {
    var C, delta :| Bound(u, s, C, delta);
    var D, delta' :| Bound(v, t, D, delta');
    var E := ProductConstantExists(u(0.0), s, C, v(0.0), t, D, w(0.0), r);
    ProductFromConstant(u, s, C, delta, v, t, D, delta', w, r, E);
  }

  lemma ProductFromConstant(u: real -> real, s: real, C: real, delta: real, v: real -> real, t: real, D: real,
          delta': real,
                            w: real -> real, r: real, E: real)
    requires Bound(u, s, C, delta) && Bound(v, t, D, delta')
    requires forall h :: IsProduct(w(h), u(h), v(h))
    requires ProductConstant(u(0.0), s, C, v(0.0), t, D, w(0.0), r, E)
    ensures HasDerivative(w, r)
  {
    var e := Lesser(Lesser(delta, delta'), 1.0);
    forall h | Abs(h) <= e
      ensures Near(w(0.0), w(h), r, h, E)
    {
      assert Near(u(0.0), u(h), s, h, C) && Near(v(0.0), v(h), t, h, D) && IsProduct(w(h), u(h), v(h));
    }
    assert Bound(w, r, E, e);
  }

  ghost predicate StaysWithin(B: real, e: real, delta: real) {
    forall h :: Abs(h) <= e ==> B * Abs(h) <= delta
  }

  /** A step short enough for both the operand and the operator. */
  lemma StepFor(delta: real, delta': real, s: real, D: real) returns (B: real, e: real)
    requires delta > 0.0 && delta' > 0.0 && D >= 0.0
    ensures B == Abs(s) + D && 0.0 < e <= delta && e <= 1.0
    ensures StaysWithin(B, e, delta')
  {
    B := Abs(s) + D;
    var q := delta' / (B + 1.0);
    assert q * (B + 1.0) == delta';
    assert q > 0.0;
    e := Lesser(Lesser(delta, 1.0), q);
    forall h: real | Abs(h) <= e
      ensures B * Abs(h) <= delta'
    {
      ProductMonotone(B, B + 1.0, Abs(h), q);
    }
  }

  lemma ChainConstant(G: real -> real, k: real, C: real, delta: real, u0: real, s: real, D: real, B: real, e: real,
          ks: real) returns (E: real)
    requires BoundAt(G, u0, k, C, delta) && D >= 0.0 && e <= 1.0 && B == Abs(s) + D && ks == k * s
    requires StaysWithin(B, e, delta)
    ensures E >= 0.0
    ensures forall u1, h :: Near(u0, u1, s, h, D) && Abs(h) <= e ==> Near(G(u0), G(u1), ks, h, E)
  {
    var BB := SquareBound(B);
    E := SumConstant(Abs(k), D, C, BB);
    ChainConstantFits(G, k, C, delta, u0, s, D, B, e, ks, BB, E);
  }

  lemma ChainConstantFits(G: real -> real, k: real, C: real, delta: real, u0: real, s: real, D: real, B: real, e: real,
          ks: real, BB: real, E: real)
    requires BoundAt(G, u0, k, C, delta) && BoundsSquares(B, BB) && StaysWithin(B, e, delta)
    requires e <= 1.0 && B == Abs(s) + D && ks == k * s && E == Abs(k) * D + C * BB
    ensures forall u1, h :: Near(u0, u1, s, h, D) && Abs(h) <= e ==> Near(G(u0), G(u1), ks, h, E)
  {
    forall u1, h | Near(u0, u1, s, h, D) && Abs(h) <= e
      ensures Near(G(u0), G(u1), ks, h, E)
    {
      NearChain(G, k, C, delta, u0, u1, s, D, h, B, BB, E);
    }
  }

  lemma SumConstant(a: real, C: real, b: real, D: real) returns (E: real)
    requires a >= 0.0 && C >= 0.0 && b >= 0.0 && D >= 0.0
    ensures E == a * C + b * D && E >= 0.0
  {
    ProductMonotone(0.0, a, 0.0, C);
    ProductMonotone(0.0, b, 0.0, D);
    E := a * C + b * D;
  }

  /** The chain rule. */
  lemma DerivativeChain(G: real -> real, k: real, u: real -> real, s: real, ks: real)
    requires HasDerivative(u, s) && SmoothAt(G, u(0.0), k) && ks == k * s
    ensures HasDerivative((h: real) => G(u(h)), ks)
  {
    var D, delta :| Bound(u, s, D, delta);
    var C, delta' :| BoundAt(G, u(0.0), k, C, delta');
    var w := (h: real) => G(u(h));
    var B, e := StepFor(delta, delta', s, D);
    var E := ChainConstant(G, k, C, delta', u(0.0), s, D, B, e, ks);
    forall h | Abs(h) <= e
      ensures Near(w(0.0), w(h), ks, h, E)
    {
      assert Near(u(0.0), u(h), s, h, D);
    }
    assert Bound(w, ks, E, e);
  }

  /** A differentiable function that is not zero at 0 stays away from zero nearby. */
  lemma StaysNonZero(v: real -> real, t: real) returns (e: real)
    requires HasDerivative(v, t) && v(0.0) != 0.0
    ensures e > 0.0 && forall h :: Abs(h) <= e ==> v(h) != 0.0
  {
    var D, delta :| Bound(v, t, D, delta);
    var B;
    B, e := StepFor(delta, Abs(v(0.0)) / 2.0, t, D);
    forall h | Abs(h) <= e
      ensures v(h) != 0.0
    {
      assert Near(v(0.0), v(h), t, h, D);
      NearStays(v(0.0), v(h), t, D, h, B, Abs(v(0.0)) / 2.0);
    }
  }

  lemma NearStays(u0: real, u1: real, s: real, D: real, h: real, B: real, delta: real)
    requires Near(u0, u1, s, h, D) && Abs(h) <= 1.0 && B == Abs(s) + D && B * Abs(h) <= delta
    ensures Abs(u1 - u0) <= delta
  {
    var p :| Abs(p) <= D && Expands(u0, u1, s, h, p);
    SecantStep(u0, u1, s, p, D, h, B, delta);
  }

  /** The quotient rule: a quotient is the dividend times the reciprocal of the divisor. */
  lemma DerivativeQuotient(u: real -> real, s: real, v: real -> real, t: real, R: real -> real, k: real, kt: real,
          w: real -> real, z: real)
    requires HasDerivative(u, s) && HasDerivative(v, t) && v(0.0) != 0.0 && SmoothAt(R, v(0.0), k)
    requires kt == k * t && z == R(v(0.0)) * s + u(0.0) * kt
    requires forall h :: v(h) != 0.0 ==> IsProduct(w(h), u(h), R(v(h)))
    ensures HasDerivative(w, z)
  {
    var r := Reciprocal(R, k, v, t, kt);
    var p := ProductWith(u, s, r, kt, z);
    var e := StaysNonZero(v, t);
    SameProduct(u, r, v, R, p, w, e);
    DerivativeLocal(p, w, z, e);
  }

  lemma ProductWith(u: real -> real, s: real, r: real -> real, t: real, z: real) returns (p: real -> real)
    requires HasDerivative(u, s) && HasDerivative(r, t) && z == r(0.0) * s + u(0.0) * t
    ensures HasDerivative(p, z) && forall h :: IsProduct(p(h), u(h), r(h))
  {
    p := (h: real) => u(h) * r(h);
    DerivativeProduct(u, s, r, t, p, z);
  }

  lemma Reciprocal(R: real -> real, k: real, v: real -> real, t: real, kt: real) returns (r: real -> real)
    requires HasDerivative(v, t) && SmoothAt(R, v(0.0), k) && kt == k * t
    ensures HasDerivative(r, kt) && forall h :: r(h) == R(v(h))
  {
    DerivativeChain(R, k, v, t, kt);
    r := (h: real) => R(v(h));
  }

  lemma SameProduct(u: real -> real, r: real -> real, v: real -> real, R: real -> real, p: real -> real,
          w: real -> real, e: real)
    requires forall h :: v(h) != 0.0 ==> IsProduct(w(h), u(h), R(v(h)))
    requires forall h :: IsProduct(p(h), u(h), r(h))
    requires forall h :: r(h) == R(v(h))
    requires forall h :: Abs(h) <= e ==> v(h) != 0.0
    ensures forall h :: Abs(h) <= e ==> p(h) == w(h)
  {
    forall h | Abs(h) <= e
      ensures p(h) == w(h)
    {
      assert IsProduct(p(h), u(h), r(h)) && IsProduct(w(h), u(h), R(v(h)));
    }
  }

  lemma QuotientAsProduct(lib: Lib, u: real, v: real)
    requires v != 0.0
    ensures IsProduct(BinValue(lib, DIV, u, v), u, UnFun(lib, DIV1(1.0))(v))
  {
  }

  lemma QuotientSlope(lib: Lib, u: real, v: real, s: real, t: real)
    requires v != 0.0
    ensures UnFun(lib, DIV1(1.0))(v) * s + u * (UnSlope(lib, DIV1(1.0), v) * t) == BinTangent(DIV, u, v, s, t)
  {
    assert v * v != 0.0;
    var w := 1.0 / (v * v);
    assert u * w == u / (v * v);
    assert u * (-w * t) == -(u * w) * t;
  }

  // ---------------------------------------------------------------- recorded computations

  /** The values after leaf x has moved by h. */
  function Moved(lib: Lib, ops: seq<Op>, xs: seq<real>, x: nat, h: real): (r: seq<real>)
    requires WellFormed(ops) && |xs| == |ops| && x < |ops|
    ensures |r| == |ops|
  {
    Vals(lib, ops, xs[x := xs[x] + h])
  }

  /** Node k as a function of the step h of leaf x. */
  function Along(lib: Lib, ops: seq<Op>, xs: seq<real>, x: nat, k: nat): real -> real
    requires WellFormed(ops) && |xs| == |ops| && x < |ops| && k < |ops|
  {
    (h: real) => Moved(lib, ops, xs, x, h)[k]
  }

  lemma AlongAt0(lib: Lib, ops: seq<Op>, xs: seq<real>, x: nat, k: nat)
    requires WellFormed(ops) && |xs| == |ops| && x < |ops| && k < |ops|
    ensures Along(lib, ops, xs, x, k)(0.0) == Vals(lib, ops, xs)[k]
  {
    assert xs[x := xs[x] + 0.0] == xs;
  }

  /** The library functions used are differentiable where they are used. */
  ghost predicate LibSmooth(lib: Lib, ops: seq<Op>, xs: seq<real>)
    requires WellFormed(ops) && |xs| == |ops|
  {
    forall k :: 0 <= k < |ops| && ops[k].Un? && !Rational(ops[k].g) ==>
      UnSmooth(lib, ops[k].g, Vals(lib, ops, xs)[ops[k].o])
  }

  /** Node k is differentiable in leaf x, and its tangent is the derivative. */
  ghost predicate Differentiable(lib: Lib, ops: seq<Op>, xs: seq<real>, x: nat, k: nat)
    requires WellFormed(ops) && |xs| == |ops| && x < |ops| && k < |ops|
  {
    HasDerivative(Along(lib, ops, xs, x, k), Tangents(lib, ops, xs, x)[k])
  }

  lemma LeafDifferentiable(lib: Lib, ops: seq<Op>, xs: seq<real>, x: nat, k: nat)
    requires WellFormed(ops) && |xs| == |ops| && x < |ops| && k < |ops| && ops[k].Leaf? && ops[x].Leaf?
    ensures Differentiable(lib, ops, xs, x, k)
  {
    var u, s := Along(lib, ops, xs, x, k), Tangents(lib, ops, xs, x)[k];
    TangentsAt(lib, ops, xs, x, k);
    forall h
      ensures u(h) == u(0.0) + s * h
    {
      ValsAt(lib, ops, xs[x := xs[x] + h], k);
      ValsAt(lib, ops, xs[x := xs[x] + 0.0], k);
    }
    DerivativeAffine(u, s);
  }

  lemma UnDifferentiable(lib: Lib, ops: seq<Op>, xs: seq<real>, x: nat, k: nat)
    requires WellFormed(ops) && |xs| == |ops| && x < |ops| && k < |ops| && ops[k].Un? && ops[x].Leaf?
    requires Differentiable(lib, ops, xs, x, ops[k].o) && UnSmooth(lib, ops[k].g, Vals(lib, ops, xs)[ops[k].o])
    ensures Differentiable(lib, ops, xs, x, k)
  {
    var G, slope, s, ks := UnRule(lib, ops, xs, x, k);
    Composed(G, slope, Along(lib, ops, xs, x, ops[k].o), s, Along(lib, ops, xs, x, k), ks);
  }

  lemma UnRule(lib: Lib, ops: seq<Op>, xs: seq<real>, x: nat, k: nat) returns (G: real -> real, slope: real,
          s: real, ks: real)
    requires WellFormed(ops) && |xs| == |ops| && x < |ops| && k < |ops| && ops[k].Un? && ops[x].Leaf?
    requires UnSmooth(lib, ops[k].g, Vals(lib, ops, xs)[ops[k].o])
    ensures var u := Along(lib, ops, xs, x, ops[k].o);
            && SmoothAt(G, u(0.0), slope)
            && s == Tangents(lib, ops, xs, x)[ops[k].o] && ks == Tangents(lib, ops, xs, x)[k] && ks == slope * s
            && forall h :: Along(lib, ops, xs, x, k)(h) == G(u(h))
  {
    G, slope := UnFun(lib, ops[k].g), UnSlope(lib, ops[k].g, Vals(lib, ops, xs)[ops[k].o]);
    s, ks := Tangents(lib, ops, xs, x)[ops[k].o], Tangents(lib, ops, xs, x)[k];
    AlongUn(lib, ops, xs, x, k);
    AlongAt0(lib, ops, xs, x, ops[k].o);
    TangentsUn(lib, ops, xs, x, k);
  }

  lemma AlongUn(lib: Lib, ops: seq<Op>, xs: seq<real>, x: nat, k: nat)
    requires WellFormed(ops) && |xs| == |ops| && x < |ops| && k < |ops| && ops[k].Un? && ops[x].Leaf?
    ensures forall h :: Along(lib, ops, xs, x, k)(h) == UnFun(lib, ops[k].g)(Along(lib, ops, xs, x, ops[k].o)(h))
  {
    forall h
      ensures Along(lib, ops, xs, x, k)(h) == UnFun(lib, ops[k].g)(Along(lib, ops, xs, x, ops[k].o)(h))
    {
      ValsUn(lib, ops, xs[x := xs[x] + h], k);
    }
  }

  lemma Composed(G: real -> real, k: real, u: real -> real, s: real, w: real -> real, ks: real)
    requires HasDerivative(u, s) && SmoothAt(G, u(0.0), k) && ks == k * s
    requires forall h :: w(h) == G(u(h))
    ensures HasDerivative(w, ks)
  {
    DerivativeChain(G, k, u, s, ks);
    DerivativeLocal((h: real) => G(u(h)), w, ks, 1.0);
  }

  lemma BinDifferentiable(lib: Lib, ops: seq<Op>, xs: seq<real>, x: nat, k: nat)
    requires WellFormed(ops) && |xs| == |ops| && x < |ops| && k < |ops| && ops[k].Bin? && ops[x].Leaf?
    requires Differentiable(lib, ops, xs, x, ops[k].l) && Differentiable(lib, ops, xs, x, ops[k].r)
    requires ops[k].f == DIV ==> Vals(lib, ops, xs)[ops[k].r] != 0.0
    ensures Differentiable(lib, ops, xs, x, k)
  {
    var l, r := ops[k].l, ops[k].r;
    AlongBin(lib, ops, xs, x, k);
    AlongAt0(lib, ops, xs, x, l);
    AlongAt0(lib, ops, xs, x, r);
    TangentsBin(lib, ops, xs, x, k);
    BinRule(lib, ops[k].f, Along(lib, ops, xs, x, l), Tangents(lib, ops, xs, x)[l],
            Along(lib, ops, xs, x, r), Tangents(lib, ops, xs, x)[r], Along(lib, ops, xs, x, k));
  }

  lemma AlongBin(lib: Lib, ops: seq<Op>, xs: seq<real>, x: nat, k: nat)
    requires WellFormed(ops) && |xs| == |ops| && x < |ops| && k < |ops| && ops[k].Bin? && ops[x].Leaf?
    ensures forall h :: Along(lib, ops, xs, x, k)(h)
              == BinValue(lib, ops[k].f, Along(lib, ops, xs, x, ops[k].l)(h), Along(lib, ops, xs, x, ops[k].r)(h))
  {
    forall h
      ensures Along(lib, ops, xs, x, k)(h)
           == BinValue(lib, ops[k].f, Along(lib, ops, xs, x, ops[k].l)(h), Along(lib, ops, xs, x, ops[k].r)(h))
    {
      ValsBin(lib, ops, xs[x := xs[x] + h], k);
    }
  }

  lemma BinRule(lib: Lib, f: BinFn, u: real -> real, s: real, v: real -> real, t: real, w: real -> real)
    requires HasDerivative(u, s) && HasDerivative(v, t) && (f == DIV ==> v(0.0) != 0.0)
    requires forall h :: w(h) == BinValue(lib, f, u(h), v(h))
    ensures HasDerivative(w, BinTangent(f, u(0.0), v(0.0), s, t))
  {
    match f
    case ADD => SumRule(lib, f, u, s, v, t, w);
    case SUB => SumRule(lib, f, u, s, v, t, w);
    case MUL => ProductRule(lib, u, s, v, t, w);
    case DIV => QuotientRule(lib, u, s, v, t, w);
  }

  lemma SumRule(lib: Lib, f: BinFn, u: real -> real, s: real, v: real -> real, t: real, w: real -> real)
    requires HasDerivative(u, s) && HasDerivative(v, t) && (f == ADD || f == SUB)
    requires forall h :: w(h) == BinValue(lib, f, u(h), v(h))
    ensures HasDerivative(w, BinTangent(f, u(0.0), v(0.0), s, t))
  {
    if f == ADD {
      AddRule(u, s, v, t, w);
    } else {
      SubRule(u, s, v, t, w);
    }
  }

  lemma SubRule(u: real -> real, s: real, v: real -> real, t: real, w: real -> real)
    requires HasDerivative(u, s) && HasDerivative(v, t) && forall h :: w(h) == u(h) - v(h)
    ensures HasDerivative(w, s - t)
  {
    DerivativeNegated(v, t);
    AddRule(u, s, (h: real) => -v(h), -t, w);
  }

  lemma AddRule(u: real -> real, s: real, v: real -> real, t: real, w: real -> real)
    requires HasDerivative(u, s) && HasDerivative(v, t) && forall h :: w(h) == u(h) + v(h)
    ensures HasDerivative(w, s + t)
  {
    DerivativeSum(u, s, v, t);
    DerivativeLocal((h: real) => u(h) + v(h), w, s + t, 1.0);
  }

  lemma ProductRule(lib: Lib, u: real -> real, s: real, v: real -> real, t: real, w: real -> real)
    requires HasDerivative(u, s) && HasDerivative(v, t)
    requires forall h :: w(h) == BinValue(lib, MUL, u(h), v(h))
    ensures HasDerivative(w, BinTangent(MUL, u(0.0), v(0.0), s, t))
  {
    MulTangent(u(0.0), v(0.0), s, t);
    DerivativeProduct(u, s, v, t, w, BinTangent(MUL, u(0.0), v(0.0), s, t));
  }

  lemma MulTangent(u: real, v: real, s: real, t: real)
    ensures BinTangent(MUL, u, v, s, t) == v * s + u * t
  {
  }

  /** What the reciprocal R contributes to the quotient rule: its slope k at v, and the result z. */
  ghost predicate ReciprocalSlopes(R: real -> real, k: real, kt: real, z: real, u: real, s: real, v: real, t: real) {
    SmoothAt(R, v, k) && kt == k * t && z == R(v) * s + u * kt
  }

  lemma QuotientRule(lib: Lib, u: real -> real, s: real, v: real -> real, t: real, w: real -> real)
    requires HasDerivative(u, s) && HasDerivative(v, t) && v(0.0) != 0.0
    requires forall h :: w(h) == BinValue(lib, DIV, u(h), v(h))
    ensures HasDerivative(w, BinTangent(DIV, u(0.0), v(0.0), s, t))
  {
    var R, k, kt, z := ReciprocalRule(lib, u(0.0), s, v(0.0), t);
    QuotientFits(lib, u, v, w, R);
    QuotientBy(u, s, v, t, R, k, kt, w, z);
  }

  lemma QuotientBy(u: real -> real, s: real, v: real -> real, t: real, R: real -> real, k: real, kt: real,
          w: real -> real, z: real)
    requires HasDerivative(u, s) && HasDerivative(v, t) && v(0.0) != 0.0
    requires ReciprocalSlopes(R, k, kt, z, u(0.0), s, v(0.0), t)
    requires forall h :: v(h) != 0.0 ==> IsProduct(w(h), u(h), R(v(h)))
    ensures HasDerivative(w, z)
  {
    DerivativeQuotient(u, s, v, t, R, k, kt, w, z);
  }

  lemma QuotientFits(lib: Lib, u: real -> real, v: real -> real, w: real -> real, R: real -> real)
    requires forall h :: w(h) == BinValue(lib, DIV, u(h), v(h))
    requires R == UnFun(lib, DIV1(1.0))
    ensures forall h :: v(h) != 0.0 ==> IsProduct(w(h), u(h), R(v(h)))
  {
    forall h | v(h) != 0.0
      ensures IsProduct(w(h), u(h), R(v(h)))
    {
      QuotientAsProduct(lib, u(h), v(h));
    }
  }

  lemma ReciprocalRule(lib: Lib, u: real, s: real, v: real, t: real) returns (R: real -> real, k: real, kt: real,
          z: real)
    requires v != 0.0
    ensures R == UnFun(lib, DIV1(1.0)) && z == BinTangent(DIV, u, v, s, t)
    ensures ReciprocalSlopes(R, k, kt, z, u, s, v, t)
  {
    R, k := UnFun(lib, DIV1(1.0)), UnSlope(lib, DIV1(1.0), v);
    kt, z := k * t, BinTangent(DIV, u, v, s, t);
    RationalSmooth(lib, DIV1(1.0), v);
    QuotientSlope(lib, u, v, s, t);
  }

  /** Every node of a computation that divides by no zero, and uses library functions only where
      they are differentiable, is differentiable in every leaf, with `Tangents` as its derivative. */
  lemma {:induction false} TangentsAreDerivatives(lib: Lib, ops: seq<Op>, xs: seq<real>, x: nat, k: nat)
    requires WellFormed(ops) && |xs| == |ops| && x < |ops| && k < |ops| && ops[x].Leaf?
    requires Defined(lib, ops, xs) && LibSmooth(lib, ops, xs)
    ensures Differentiable(lib, ops, xs, x, k)
    decreases k
  {
    assert NodeDefined(lib, ops[k], Vals(lib, ops, xs));
    match ops[k]
    case Leaf => LeafDifferentiable(lib, ops, xs, x, k);
    case Un(g, o) =>
      TangentsAreDerivatives(lib, ops, xs, x, o);
      if Rational(g) {
        RationalSmooth(lib, g, Vals(lib, ops, xs)[o]);
      }
      UnDifferentiable(lib, ops, xs, x, k);
    case Bin(f, l, r) =>
      TangentsAreDerivatives(lib, ops, xs, x, l);
      TangentsAreDerivatives(lib, ops, xs, x, r);
      BinDifferentiable(lib, ops, xs, x, k);
  }

  /** The derivative is unique: no other number fits the same function. */
  lemma DerivativeUnique(u: real -> real, s: real, t: real)
    requires HasDerivative(u, s) && HasDerivative(u, t)
    ensures s == t
  {
    var C, delta :| Bound(u, s, C, delta);
    var D, delta' :| Bound(u, t, D, delta');
    if s != t {
      var K, h, m := SmallStep(Abs(s - t), C, D, Lesser(delta, delta'));
      assert Near(u(0.0), u(h), s, h, C) && Near(u(0.0), u(h), t, h, D);
      TwoSlopes(u(0.0), u(h), s, C, t, D, h, K, m);
    }
  }

  lemma SmallStep(gap: real, C: real, D: real, limit: real) returns (K: real, h: real, m: real)
    requires gap > 0.0 && C >= 0.0 && D >= 0.0 && limit > 0.0
    ensures K == C + D && 0.0 < h <= limit && m == h * K && m < gap
  {
    K := C + D;
    var q := gap / (K + 1.0);
    assert q * (K + 1.0) == gap;
    h := Lesser(limit, q);
    m := h * K;
    ProductMonotone(h, q, K, K);
  }

  /** Two slopes that both fit at a distance h > 0 differ by at most (C + D) h. */
  lemma TwoSlopes(y0: real, y1: real, s: real, C: real, t: real, D: real, h: real, K: real, m: real)
    requires Near(y0, y1, s, h, C) && Near(y0, y1, t, h, D) && h > 0.0 && K == C + D && m == h * K
    ensures Abs(s - t) <= m
  {
    var p :| Abs(p) <= C && Expands(y0, y1, s, h, p);
    var q :| Abs(q) <= D && Expands(y0, y1, t, h, q);
    var e, d := SlopeGap(y0, y1, s, p, t, q, h);
    GapBound(e, h, d, K);
  }

  lemma SlopeGap(y0: real, y1: real, s: real, p: real, t: real, q: real, h: real) returns (e: real, d: real)
    requires h > 0.0 && Expands(y0, y1, s, h, p) && Expands(y0, y1, t, h, q)
    ensures e == s - t && d == q - p && e == h * d
  {
    e, d := s - t, q - p;
    var f := e - h * d;
    assert f * h == (s * h + p * (h * h)) - (t * h + q * (h * h));
  }

  lemma GapBound(e: real, h: real, d: real, K: real)
    requires e == h * d && h > 0.0 && Abs(d) <= K
    ensures Abs(e) <= h * K
  {
    ProductBound(h, d, h, K);
  }
}
