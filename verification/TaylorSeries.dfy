/** The Taylor coefficients that tadiff.h's nodes compute, as functions of the coefficients of
    their operands, and the power-series laws these coefficients satisfy at every order. */
module TaylorSeries {
  import opened Ops
  import opened Series

  // ---------------------------------------------------------------- inner sums of the eval loops

  /** DIV, DIV1: the sum of b[t] * p[i - t] over 1 <= t < j is `ConvFrom1(b, p, i, j)`. */

  /** SQR, SQRT: the sum of a[i - t] * a[t] over lo <= t < m. */
  function HalfSum(a: seq<real>, i: nat, lo: nat, m: nat): real
    requires lo <= m <= i + 1 && m <= |a| && i < |a| + lo
  {
    if m == lo then 0.0 else HalfSum(a, i, lo, m - 1) + a[i - (m - 1)] * a[m - 1]
  }

  /** SQR: twice the first half of the convolution, and the middle term for an even order. */
  function SquareHalved(a: seq<real>, i: nat): real
    requires i < |a|
  {
    var m := (i + 1) / 2;
    HalfSum(a, i, 0, m) * 2.0 + (if i % 2 == 0 then a[m] * a[m] else 0.0)
  }

  /** SQRT: the part of the order-i coefficient of p * p that involves neither p[0] nor p[i]. */
  function SquareRest(p: seq<real>, i: nat): real
    requires 0 < i <= |p|
  {
    var m := (i + 1) / 2;
    HalfSum(p, i, 1, m) * 2.0 + (if i % 2 == 0 then p[m] * p[m] else 0.0)
  }

  function SqrtCoefficient(lib: Lib, a: seq<real>, p: seq<real>, i: nat): real
    requires 0 < i < |a| && i <= |p|
  {
    Div(lib, a[i] - SquareRest(p, i), 2.0 * p[0])
  }

  function Weight(t: nat, i: nat): real
    requires i > 0
  {
    1.0 - t as real / i as real
  }

  /** EXP: the sum of (1 - t/i) * a[i - t] * p[t] over t < j. */
  function ExpSum(a: seq<real>, p: seq<real>, i: nat, j: nat): real
    requires 0 < i < |a| && i <= |p| && j <= i
  {
    if j == 0 then 0.0
    else ExpSum(a, p, i, j - 1) + Weight(j - 1, i) * a[i - (j - 1)] * p[j - 1]
  }

  /** LOG: the sum of (1 - t/i) * a[t] * p[i - t] over 1 <= t < j. */
  function LogSum(a: seq<real>, p: seq<real>, i: nat, j: nat): real
    requires 0 < i < |a| && i <= |p| && 1 <= j <= i
  {
    if j == 1 then 0.0
    else LogSum(a, p, i, j - 1) + Weight(j - 1, i) * a[j - 1] * p[i - (j - 1)]
  }

  /** SIN, COS: the sum of (t + 1) * q[i - 1 - t] * a[t + 1] over t < j. */
  function TrigSum(q: seq<real>, a: seq<real>, i: nat, j: nat): real
    requires 0 < i < |a| && i <= |q| && j <= i
  {
    if j == 0 then 0.0 else TrigSum(q, a, i, j - 1) + (j as real) * q[i - j] * a[j]
  }

  // ---------------------------------------------------------------- the next coefficient

  /** The coefficient of order |p| of a binary node whose lower coefficients are p. */
  function BinNext(lib: Lib, f: BinFn, a: seq<real>, b: seq<real>, p: seq<real>): real
    requires |p| < |a| && |p| < |b|
  {
    var i := |p|;
    match f
    case ADD => a[i] + b[i]
    case SUB => a[i] - b[i]
    case MUL => ConvSum(a, b, i, i + 1)
    case DIV => Div(lib, a[i] - ConvFrom1(b, p, i, i + 1), b[0])
  }

  /** The coefficients of order |p| of a unary node: its own and that of its companion series,
      which only SIN (companion: the cosine) and COS (companion: the sine) keep. */
  function UnNext(lib: Lib, g: UnFn, a: seq<real>, p: seq<real>, q: seq<real>): (real, real)
    requires |p| == |q| < |a|
  {
    var i := |p|;
    match g
    case ADD1(_) => (if i == 0 then UnValue(lib, g, a[0]) else a[i], 0.0)
    case ADD2(_) => (if i == 0 then UnValue(lib, g, a[0]) else a[i], 0.0)
    case SUB1(_) => (if i == 0 then UnValue(lib, g, a[0]) else -a[i], 0.0)
    case SUB2(_) => (if i == 0 then UnValue(lib, g, a[0]) else a[i], 0.0)
    case MUL1(_) => (UnValue(lib, g, a[i]), 0.0)
    case MUL2(_) => (UnValue(lib, g, a[i]), 0.0)
    case DIV1(k) => (Div(lib, (if i == 0 then k else 0.0) - ConvFrom1(a, p, i, i + 1), a[0]), 0.0)
    case DIV2(_) => (UnValue(lib, g, a[i]), 0.0)
    case UMINUS => (UnValue(lib, g, a[i]), 0.0)
    case UPLUS => (UnValue(lib, g, a[i]), 0.0)
    case SQR => (SquareHalved(a, i), 0.0)
    case SQRT =>
      if i == 0 then (lib.sqrt(a[0]), 0.0) else
      (SqrtCoefficient(lib, a, p, i), 0.0)
    case EXP => (if i == 0 then lib.exp(a[0]) else ExpSum(a, p, i, i), 0.0)
    case LOG => (if i == 0 then lib.log(a[0]) else Div(lib, a[i] - LogSum(a, p, i, i), a[0]), 0.0)
    case SIN =>
      if i == 0 then (lib.sin(a[0]), lib.cos(a[0]))
      else (TrigSum(q, a, i, i) / i as real, -TrigSum(p, a, i, i) / i as real)
    case COS =>
      if i == 0 then (lib.cos(a[0]), lib.sin(a[0]))
      else (-TrigSum(q, a, i, i) / i as real, TrigSum(p, a, i, i) / i as real)
  }

  /** The first n coefficients of a binary node. */
  function BinFill(lib: Lib, f: BinFn, a: seq<real>, b: seq<real>, n: nat): (r: seq<real>)
    requires n <= |a| && n <= |b|
    ensures |r| == n
  {
    if n == 0 then [] else
    var p := BinFill(lib, f, a, b, n - 1);
    p + [BinNext(lib, f, a, b, p)]
  }

  /** The first n coefficients of a unary node and of its companion. */
  function UnFill(lib: Lib, g: UnFn, a: seq<real>, n: nat): (r: (seq<real>, seq<real>))
    requires n <= |a|
    ensures |r.0| == |r.1| == n
  {
    if n == 0 then ([], []) else
    var r := UnFill(lib, g, a, n - 1);
    var c := UnNext(lib, g, a, r.0, r.1);
    (r.0 + [c.0], r.1 + [c.1])
  }

  function OfBin(lib: Lib, f: BinFn, a: seq<real>, b: seq<real>): (r: seq<real>)
    requires |a| == |b|
    ensures |r| == |a|
  {
    BinFill(lib, f, a, b, |a|)
  }

  function OfUn(lib: Lib, g: UnFn, a: seq<real>): (r: seq<real>)
    ensures |r| == |a|
  {
    UnFill(lib, g, a, |a|).0
  }

  function Companion(lib: Lib, g: UnFn, a: seq<real>): (r: seq<real>)
    ensures |r| == |a|
  {
    UnFill(lib, g, a, |a|).1
  }

  lemma {:induction false} BinFillPrefix(lib: Lib, f: BinFn, a: seq<real>, b: seq<real>, n: nat, m: nat)
    requires m <= n <= |a| && n <= |b|
    ensures BinFill(lib, f, a, b, n)[..m] == BinFill(lib, f, a, b, m)
  {
    if m < n {
      BinFillPrefix(lib, f, a, b, n - 1, m);
      var p := BinFill(lib, f, a, b, n - 1);
      assert (p + [BinNext(lib, f, a, b, p)])[..m] == p[..m];
    }
  }

  lemma {:induction false} UnFillPrefix(lib: Lib, g: UnFn, a: seq<real>, n: nat, m: nat)
    requires m <= n <= |a|
    ensures UnFill(lib, g, a, n).0[..m] == UnFill(lib, g, a, m).0
    ensures UnFill(lib, g, a, n).1[..m] == UnFill(lib, g, a, m).1
  {
    if m < n {
      UnFillPrefix(lib, g, a, n - 1, m);
      var r := UnFill(lib, g, a, n - 1);
      var c := UnNext(lib, g, a, r.0, r.1);
      assert (r.0 + [c.0])[..m] == r.0[..m] && (r.1 + [c.1])[..m] == r.1[..m];
    }
  }

  lemma BinFillAt(lib: Lib, f: BinFn, a: seq<real>, b: seq<real>, n: nat, i: nat)
    requires i < n <= |a| && n <= |b|
    ensures var p := BinFill(lib, f, a, b, n); p[i] == BinNext(lib, f, a, b, p[..i])
  {
    BinFillPrefix(lib, f, a, b, n, i);
    BinFillPrefix(lib, f, a, b, n, i + 1);
    assert BinFill(lib, f, a, b, n)[i] == BinFill(lib, f, a, b, n)[..i + 1][i];
  }

  lemma UnFillAt(lib: Lib, g: UnFn, a: seq<real>, n: nat, i: nat)
    requires i < n <= |a|
    ensures var r := UnFill(lib, g, a, n);
            (r.0[i], r.1[i]) == UnNext(lib, g, a, r.0[..i], r.1[..i])
  {
    UnFillPrefix(lib, g, a, n, i);
    UnFillPrefix(lib, g, a, n, i + 1);
    var r := UnFill(lib, g, a, n);
    assert r.0[i] == r.0[..i + 1][i] && r.1[i] == r.1[..i + 1][i];
  }

  // ---------------------------------------------------------------- MUL and DIV

  /** MUL computes the convolution. */
  lemma MulIsProduct(lib: Lib, a: seq<real>, b: seq<real>)
    requires |a| == |b|
    ensures OfBin(lib, MUL, a, b) == Mul(a, b)
  {
    forall i | 0 <= i < |a|
      ensures OfBin(lib, MUL, a, b)[i] == Mul(a, b)[i]
    {
      BinFillAt(lib, MUL, a, b, |a|, i);
    }
  }

  /** The recurrence of DIV says that b * p has the coefficient a[i]. */
  lemma DivisionStep(b: seq<real>, p: seq<real>, x: real, i: nat)
    requires i < |b| && i < |p| && b[0] != 0.0
    requires p[i] == (x - ConvFrom1(b, p[..i], i, i + 1)) / b[0]
    ensures Coef(b, p, i) == x
  {
    ConvFrom1Prefix(b, p, p[..i], i, i + 1);
    ConvSumZeroHead(b, p, i, i + 1);
  }

  /** DIV inverts MUL at every order, and it is the only series that does. */
  lemma DivInvertsMul(lib: Lib, a: seq<real>, b: seq<real>)
    requires |a| == |b| > 0 && b[0] != 0.0
    ensures Mul(OfBin(lib, DIV, a, b), b) == a
    ensures forall c: seq<real> :: |c| == |a| && Mul(c, b) == a ==> c == OfBin(lib, DIV, a, b)
  {
    var d := OfBin(lib, DIV, a, b);
    forall i | 0 <= i < |a|
      ensures Mul(b, d)[i] == a[i]
    {
      BinFillAt(lib, DIV, a, b, |a|, i);
      DivisionStep(b, d, a[i], i);
    }
    MulCommutes(b, d);
    forall c: seq<real> | |c| == |a| && Mul(c, b) == a
      ensures c == d
    {
      MulCommutes(c, b);
      MulCancels(b, c, d, |a|);
      assert c == c[..|a|] && d == d[..|a|];
    }
  }

  /** DIV1 is division of a constant series. */
  lemma Div1InvertsMul(lib: Lib, k: real, b: seq<real>)
    requires |b| > 0 && b[0] != 0.0
    ensures Mul(OfUn(lib, DIV1(k), b), b) == Const(k, |b|)
    ensures OfUn(lib, DIV1(k), b) == OfBin(lib, DIV, Const(k, |b|), b)
  {
    var d := OfUn(lib, DIV1(k), b);
    var c := Const(k, |b|);
    forall i | 0 <= i < |b|
      ensures Mul(b, d)[i] == c[i]
    {
      UnFillAt(lib, DIV1(k), b, |b|, i);
      DivisionStep(b, d, c[i], i);
    }
    assert Mul(b, d) == c;
    MulCommutes(b, d);
    DivInvertsMul(lib, c, b);
  }

  // ---------------------------------------------------------------- SQR and SQRT

  /** The first and the last m terms of a square's convolution agree. */
  lemma {:induction false} SquareSumSymmetric(a: seq<real>, i: nat, m: nat)
    requires i < |a| && m <= i + 1
    ensures ConvSum(a, a, i, i + 1) - ConvSum(a, a, i, i + 1 - m) == ConvSum(a, a, i, m)
  {
    ConvSumReverse(a, a, i, m);
  }

  lemma {:induction false} HalfSumIsConv(a: seq<real>, i: nat, m: nat)
    requires i < |a| && m <= i + 1
    ensures HalfSum(a, i, 0, m) == ConvSum(a, a, i, m)
  {
    if m > 0 {
      HalfSumIsConv(a, i, m - 1);
    }
  }

  /** Twice the half sum, and the middle term for an even order, is the whole convolution. */
  lemma SquareByHalves(a: seq<real>, i: nat)
    requires i < |a|
    ensures Coef(a, a, i) == SquareHalved(a, i)
  {
    var m := (i + 1) / 2;
    HalfSumIsConv(a, i, m);
    SquareSumSymmetric(a, i, m);
    if i % 2 == 0 {
      assert i + 1 - m == m + 1 && i - m == m;
      assert ConvSum(a, a, i, m + 1) == ConvSum(a, a, i, m) + a[m] * a[m];
    } else {
      assert i + 1 - m == m;
    }
  }

  /** SQR's half-length loop computes the same coefficients as MUL of a node with itself. */
  lemma SqrIsProduct(lib: Lib, a: seq<real>)
    ensures OfUn(lib, SQR, a) == Mul(a, a)
    ensures OfUn(lib, SQR, a) == OfBin(lib, MUL, a, a)
  {
    forall i | 0 <= i < |a|
      ensures OfUn(lib, SQR, a)[i] == Mul(a, a)[i]
    {
      UnFillAt(lib, SQR, a, |a|, i);
      SquareByHalves(a, i);
    }
    MulIsProduct(lib, a, a);
  }

  lemma {:induction false} HalfSumHead(a: seq<real>, p: seq<real>, i: nat, m: nat)
    requires 1 <= m <= i && i < |a| && i <= |p| && a[..i] == p[..i]
    ensures HalfSum(a, i, 0, m) == a[i] * a[0] + HalfSum(p, i, 1, m)
  {
    if m > 1 {
      HalfSumHead(a, p, i, m - 1);
      assert a[m - 1] == a[..i][m - 1] == p[m - 1];
      assert a[i - (m - 1)] == a[..i][i - (m - 1)] == p[i - (m - 1)];
    } else {
      assert HalfSum(a, i, 0, 1) == HalfSum(a, i, 0, 0) + a[i] * a[0];
    }
  }

  lemma SquareRootStep(c: seq<real>, i: nat)
    requires 0 < i < |c|
    ensures Coef(c, c, i) == (2.0 * c[0]) * c[i] + SquareRest(c[..i], i)
  {
    SquareByHalves(c, i);
    HalfSumHead(c, c[..i], i, (i + 1) / 2);
    assert 2.0 * (c[i] * c[0]) == (2.0 * c[0]) * c[i];
  }

  lemma SqrtRecurrence(lib: Lib, a: seq<real>, i: nat)
    requires i < |a|
    ensures var s := OfUn(lib, SQRT, a);
            if i == 0 then s[0] == lib.sqrt(a[0])
            else s[i] == Div(lib, a[i] - SquareRest(s[..i], i), 2.0 * s[0])
  {
    UnFillAt(lib, SQRT, a, |a|, i);
  }

  lemma SqrtCoef(lib: Lib, a: seq<real>, i: nat)
    requires i < |a| && lib.sqrt(a[0]) * lib.sqrt(a[0]) == a[0] && lib.sqrt(a[0]) != 0.0
    ensures Coef(OfUn(lib, SQRT, a), OfUn(lib, SQRT, a), i) == a[i]
  {
    var s := OfUn(lib, SQRT, a);
    SqrtRecurrence(lib, a, 0);
    SqrtRecurrence(lib, a, i);
    if i == 0 {
      assert ConvSum(s, s, 0, 1) == ConvSum(s, s, 0, 0) + s[0] * s[0];
    } else {
      SquareRootStep(s, i);
      Quotient(s[i], a[i] - SquareRest(s[..i], i), 2.0 * s[0]);
    }
  }

  lemma Quotient(q: real, x: real, y: real)
    requires y != 0.0 && q == x / y
    ensures y * q == x
  {
  }

  /** SQRT gives a square root of the series, and the only one with that order-0 coefficient. */
  lemma SqrtIsRoot(lib: Lib, a: seq<real>)
    requires |a| > 0 && lib.sqrt(a[0]) * lib.sqrt(a[0]) == a[0] && lib.sqrt(a[0]) != 0.0
    ensures Mul(OfUn(lib, SQRT, a), OfUn(lib, SQRT, a)) == a
    ensures OfUn(lib, SQR, OfUn(lib, SQRT, a)) == a
    ensures forall c: seq<real> :: |c| == |a| && c[0] == lib.sqrt(a[0]) && Mul(c, c) == a ==> c == OfUn(lib, SQRT, a)
  {
    var s := OfUn(lib, SQRT, a);
    SqrtRecurrence(lib, a, 0);
    forall i | 0 <= i < |a|
      ensures Mul(s, s)[i] == a[i]
    {
      SqrtCoef(lib, a, i);
    }
    SqrIsProduct(lib, s);
    forall c: seq<real> | |c| == |a| && c[0] == lib.sqrt(a[0]) && Mul(c, c) == a
      ensures c == s
    {
      SquareRootUnique(c, s, |a|);
      assert c == c[..|a|] && s == s[..|a|];
    }
  }

  lemma {:induction false} SquareRootUnique(c: seq<real>, s: seq<real>, n: nat)
    requires |c| == |s| && n <= |s|
    requires Mul(c, c) == Mul(s, s) && (n > 0 ==> c[0] == s[0] != 0.0)
    ensures c[..n] == s[..n]
  {
    if n > 0 {
      var i := n - 1;
      SquareRootUnique(c, s, i);
      if i > 0 {
        SquareRootNext(c, s, i);
      }
      assert c[..n] == c[..i] + [c[i]] && s[..n] == s[..i] + [s[i]];
    }
  }

  lemma SquareRootNext(c: seq<real>, s: seq<real>, i: nat)
    requires 0 < i < |c| == |s| && c[..i] == s[..i] && c[0] == s[0] != 0.0 && Mul(c, c) == Mul(s, s)
    ensures c[i] == s[i]
  {
    SquareRootStep(c, i);
    SquareRootStep(s, i);
    assert Mul(c, c)[i] == Mul(s, s)[i];
    Cancel(2.0 * c[0], c[i], s[i]);
  }

  // ---------------------------------------------------------------- EXP and LOG

  lemma {:induction false} ExpSumIsConv(a: seq<real>, p: seq<real>, i: nat, j: nat)
    requires 0 < i < |a| && i <= |p| && j <= i
    ensures (i as real) * ExpSum(a, p, i, j)
         == ConvFrom1(Theta(a), p, i, i + 1) - ConvFrom1(Theta(a), p, i, i + 1 - j)
  {
    if j > 0 {
      ExpSumIsConv(a, p, i, j - 1);
      ExpSumStep(a, p, i, j);
    }
  }

  lemma ExpSumStep(a: seq<real>, p: seq<real>, i: nat, j: nat)
    requires 0 < i < |a| && i <= |p| && 1 <= j <= i
    ensures (i as real) * ExpSum(a, p, i, j) == (i as real) * ExpSum(a, p, i, j - 1)
         + ConvFrom1(Theta(a), p, i, i + 2 - j) - ConvFrom1(Theta(a), p, i, i + 1 - j)
  {
    var t := j - 1;
    ThetaAt(a, i - t);
    ExpSumLast(a, p, i, t);
    WeightedTerm(t, i, ExpSum(a, p, i, t), ExpSum(a, p, i, j), a[i - t], p[t]);
    ConvFrom1Last(Theta(a), p, i, i - t);
  }

  lemma ExpSumLast(a: seq<real>, p: seq<real>, i: nat, t: nat)
    requires 0 < i < |a| && i <= |p| && t < i
    ensures ExpSum(a, p, i, t + 1) == ExpSum(a, p, i, t) + Weight(t, i) * a[i - t] * p[t]
  {
  }

  lemma WeightedTerm(t: nat, i: nat, s: real, s': real, x: real, y: real)
    requires t <= i && i > 0 && s' == s + Weight(t, i) * x * y
    ensures (i as real) * s' == (i as real) * s + ((i - t) as real * x) * y
    ensures ((i - t) as real * x) * y == x * ((i - t) as real * y)
  {
    WeightTimes(t, i);
    MoveFactor(i as real, Weight(t, i), (i - t) as real, s, s', x, y);
  }

  lemma WeightTimes(t: nat, i: nat)
    requires t <= i && i > 0
    ensures (i as real) * Weight(t, i) == (i - t) as real
  {
    Quotient(t as real / i as real, t as real, i as real);
  }

  lemma MoveFactor(k: real, w: real, d: real, s: real, s': real, x: real, y: real)
    requires k * w == d && s' == s + w * x * y
    ensures k * s' == k * s + (d * x) * y
    ensures (d * x) * y == x * (d * y)
  {
    assert k * (w * x * y) == ((k * w) * x) * y;
  }

  lemma ExpRecurrence(lib: Lib, a: seq<real>, i: nat)
    requires i < |a|
    ensures var e := OfUn(lib, EXP, a);
            e[i] == if i == 0 then lib.exp(a[0]) else ExpSum(a, e[..i], i, i)
  {
    UnFillAt(lib, EXP, a, |a|, i);
  }

  /** EXP's recurrence is the equation x e' = (x a') e. */
  lemma ExpEquation(lib: Lib, a: seq<real>)
    ensures Theta(OfUn(lib, EXP, a)) == Mul(Theta(a), OfUn(lib, EXP, a))
  {
    var e := OfUn(lib, EXP, a);
    forall i | 0 <= i < |a|
      ensures Theta(e)[i] == Mul(Theta(a), e)[i]
    {
      ExpCoefficient(lib, a, e, i);
    }
  }

  lemma ExpCoefficient(lib: Lib, a: seq<real>, e: seq<real>, i: nat)
    requires e == OfUn(lib, EXP, a) && i < |a|
    ensures Theta(e)[i] == Mul(Theta(a), e)[i]
  {
    ExpRecurrence(lib, a, i);
    var s := if i == 0 then 0.0 else ExpSum(a, e[..i], i, i);
    if i > 0 {
      ExpTerms(a, e[..i], i);
    }
    ExpEquationAt(a, e, i, s);
  }

  lemma ExpTerms(a: seq<real>, p: seq<real>, i: nat)
    requires 0 < i < |a| && i <= |p|
    ensures (i as real) * ExpSum(a, p, i, i) == ConvFrom1(Theta(a), p, i, i + 1)
  {
    ExpSumIsConv(a, p, i, i);
  }

  lemma ExpEquationAt(a: seq<real>, e: seq<real>, i: nat, s: real)
    requires i < |a| == |e|
    requires i > 0 ==> e[i] == s && (i as real) * s == ConvFrom1(Theta(a), e[..i], i, i + 1)
    ensures Theta(e)[i] == Mul(Theta(a), e)[i]
  {
    ThetaProductAt(a, e, i);
    ThetaAt(e, i);
  }

  /** One order of a product with Theta(a), which reads the other factor only below it. */
  lemma ThetaProductAt(a: seq<real>, y: seq<real>, i: nat)
    requires i < |a| == |y|
    ensures Mul(Theta(a), y)[i] == if i == 0 then 0.0 else ConvFrom1(Theta(a), y[..i], i, i + 1)
  {
    ConvSumZeroHead(Theta(a), y, i, i + 1);
    ThetaAt(a, 0);
    if i > 0 {
      ConvFrom1Prefix(Theta(a), y, y[..i], i, i + 1);
    }
  }

  lemma {:induction false} LogSumIsConv(a: seq<real>, p: seq<real>, i: nat, j: nat)
    requires 0 < i < |a| && i <= |p| && 1 <= j <= i
    ensures (i as real) * LogSum(a, p, i, j) == ConvFrom1(a, Theta(p), i, j)
  {
    if j > 1 {
      LogSumIsConv(a, p, i, j - 1);
      LogSumStep(a, p, i, j - 1);
      ConvFrom1Last(a, Theta(p), i, j - 1);
    }
  }

  lemma LogSumStep(a: seq<real>, p: seq<real>, i: nat, t: nat)
    requires 0 < i < |a| && i <= |p| && 1 <= t < i
    ensures (i as real) * LogSum(a, p, i, t + 1) == (i as real) * LogSum(a, p, i, t) + a[t] * Theta(p)[i - t]
  {
    ThetaAt(p, i - t);
    WeightedTerm(t, i, LogSum(a, p, i, t), LogSum(a, p, i, t + 1), a[t], p[i - t]);
  }

  lemma LogRecurrence(lib: Lib, a: seq<real>, i: nat)
    requires i < |a|
    ensures var l := OfUn(lib, LOG, a);
            l[i] == if i == 0 then lib.log(a[0]) else Div(lib, a[i] - LogSum(a, l[..i], i, i), a[0])
  {
    UnFillAt(lib, LOG, a, |a|, i);
  }

  /** LOG's recurrence is the equation a (x l') = x a'. */
  lemma LogEquation(lib: Lib, a: seq<real>)
    requires |a| > 0 && a[0] != 0.0
    ensures Mul(a, Theta(OfUn(lib, LOG, a))) == Theta(a)
  {
    var l := OfUn(lib, LOG, a);
    forall i | 0 <= i < |a|
      ensures Mul(a, Theta(l))[i] == Theta(a)[i]
    {
      LogCoefficient(lib, a, l, i);
    }
  }

  lemma LogCoefficient(lib: Lib, a: seq<real>, l: seq<real>, i: nat)
    requires l == OfUn(lib, LOG, a) && i < |a| && a[0] != 0.0
    ensures Mul(a, Theta(l))[i] == Theta(a)[i]
  {
    if i == 0 {
      ThetaAt(a, 0);
      LogEquationFirst(a, l);
    } else {
      LogNext(lib, a, l, i);
      CoefFrom1(a, Theta(l), i, Theta(a)[i]);
    }
  }

  lemma LogNext(lib: Lib, a: seq<real>, l: seq<real>, i: nat)
    requires l == OfUn(lib, LOG, a) && 0 < i < |a| && a[0] != 0.0
    ensures a[0] * Theta(l)[i] + ConvFrom1(a, Theta(l), i, i + 1) == Theta(a)[i]
  {
    var s, c := LogPieces(lib, a, l, i);
    LogSolvedAt(a, l, i, s, c);
  }

  lemma LogPieces(lib: Lib, a: seq<real>, l: seq<real>, i: nat) returns (s: real, c: real)
    requires l == OfUn(lib, LOG, a) && 0 < i < |a| && a[0] != 0.0
    ensures a[0] * l[i] == a[i] - s && c == (i as real) * s
    ensures c == ConvFrom1(a, Theta(l), i, i + 1)
  {
    LogRecurrence(lib, a, i);
    LogTerms(a, l, i);
    s, c := LogSum(a, l[..i], i, i), ConvFrom1(a, Theta(l), i, i + 1);
    Quotient(l[i], a[i] - s, a[0]);
  }

  lemma ThetaPrefix(l: seq<real>, i: nat)
    requires i <= |l|
    ensures Theta(l)[..i] == Theta(l[..i])
  {
    forall k | 0 <= k < i
      ensures Theta(l)[k] == Theta(l[..i])[k]
    {
      ThetaAt(l, k);
      ThetaAt(l[..i], k);
    }
  }

  /** The terms 1 <= t <= i of a * Theta(l); the last one vanishes with Theta(l)[0]. */
  lemma LogTerms(a: seq<real>, l: seq<real>, i: nat)
    requires 0 < i < |a| == |l|
    ensures ConvFrom1(a, Theta(l), i, i + 1) == (i as real) * LogSum(a, l[..i], i, i)
  {
    LogSumIsConv(a, l[..i], i, i);
    ThetaPrefix(l, i);
    assert Theta(l)[..i] == Theta(l[..i])[..i];
    ConvFrom1Prefix(a, Theta(l), Theta(l[..i]), i, i);
    ThetaAt(l, 0);
    assert ConvFrom1(a, Theta(l), i, i + 1) == ConvFrom1(a, Theta(l), i, i) + a[i] * Theta(l)[0];
  }

  lemma LogEquationFirst(a: seq<real>, l: seq<real>)
    requires 0 < |a| == |l|
    ensures Coef(a, Theta(l), 0) == 0.0
  {
    MulFirst(a, Theta(l));
    ThetaAt(l, 0);
    ZeroFactor(Theta(l)[0], l[0], a[0]);
  }

  lemma CoefFrom1(a: seq<real>, b: seq<real>, i: nat, x: real)
    requires i < |a| == |b| && a[0] * b[i] + ConvFrom1(a, b, i, i + 1) == x
    ensures Mul(a, b)[i] == x
  {
    ConvSumZeroHead(a, b, i, i + 1);
  }

  lemma MulFirst(a: seq<real>, b: seq<real>)
    requires |a| == |b| > 0
    ensures Mul(a, b)[0] == Coef(a, b, 0) == a[0] * b[0]
  {
    assert ConvSum(a, b, 0, 1) == ConvSum(a, b, 0, 0) + a[0] * b[0];
  }

  lemma LogSolvedAt(a: seq<real>, l: seq<real>, i: nat, s: real, c: real)
    requires 0 < i < |a| == |l| && a[0] * l[i] == a[i] - s && c == (i as real) * s
    ensures a[0] * Theta(l)[i] + c == Theta(a)[i]
  {
    ThetaAt(l, i);
    ThetaAt(a, i);
    LogSolved(a[0], i as real, l[i], a[i], s);
  }

  lemma LogSolved(a0: real, k: real, x: real, y: real, s: real)
    requires a0 * x == y - s
    ensures a0 * (k * x) + k * s == k * y
  {
    MulSwap(a0, k, x);
    DistributeSum(k, y - s, s);
  }

  lemma MulSwap(x: real, y: real, z: real)
    ensures x * (y * z) == y * (x * z)
  {
  }

  /** exp(log(a)) = a as truncated series, given the identity at order 0. */
  lemma ExpOfLog(lib: Lib, a: seq<real>)
    requires |a| > 0 && a[0] != 0.0 && lib.exp(lib.log(a[0])) == a[0]
    ensures OfUn(lib, EXP, OfUn(lib, LOG, a)) == a
  {
    var l := OfUn(lib, LOG, a);
    var e := OfUn(lib, EXP, l);
    LogEquation(lib, a);
    MulCommutes(a, Theta(l));
    ExpEquation(lib, l);
    LogRecurrence(lib, a, 0);
    ExpRecurrence(lib, l, 0);
    ThetaEquationUnique(l, e, a, |a|);
    assert e == e[..|a|] && a == a[..|a|];
  }

  /** log(exp(a)) = a as truncated series, given the identity at order 0. */
  lemma LogOfExp(lib: Lib, a: seq<real>)
    requires |a| > 0 && lib.exp(a[0]) != 0.0 && lib.log(lib.exp(a[0])) == a[0]
    ensures OfUn(lib, LOG, OfUn(lib, EXP, a)) == a
  {
    var e := OfUn(lib, EXP, a);
    var l := OfUn(lib, LOG, e);
    ExpRecurrence(lib, a, 0);
    LogRecurrence(lib, e, 0);
    ExpEquation(lib, a);
    LogEquation(lib, e);
    MulCommutes(Theta(a), e);
    MulCancels(e, Theta(l), Theta(a), |a|);
    assert Theta(l) == Theta(l)[..|a|] && Theta(a) == Theta(a)[..|a|];
    ThetaInjective(l, a);
  }

  lemma ThetaInjective(u: seq<real>, v: seq<real>)
    requires |u| == |v| > 0 && u[0] == v[0] && Theta(u) == Theta(v)
    ensures u == v
  {
    forall i | 0 <= i < |u|
      ensures u[i] == v[i]
    {
      ThetaAt(u, i);
      ThetaAt(v, i);
      if i > 0 {
        Cancel(i as real, u[i], v[i]);
      }
    }
  }

  lemma ThetaOfSum(u: seq<real>, v: seq<real>)
    requires |u| == |v|
    ensures Theta(Add(u, v)) == Add(Theta(u), Theta(v))
  {
    forall i | 0 <= i < |u|
      ensures Theta(Add(u, v))[i] == Add(Theta(u), Theta(v))[i]
    {
      ThetaAt(u, i);
      ThetaAt(v, i);
      ThetaAt(Add(u, v), i);
      DistributeSum(i as real, u[i], v[i]);
    }
  }

  /** EXP turns sums into products at every order, given the identity at order 0. */
  lemma ExpOfSum(lib: Lib, a: seq<real>, b: seq<real>)
    requires |a| == |b| > 0 && lib.exp(a[0] + b[0]) == lib.exp(a[0]) * lib.exp(b[0])
    ensures OfUn(lib, EXP, Add(a, b)) == Mul(OfUn(lib, EXP, a), OfUn(lib, EXP, b))
  {
    var n, es, m := |a|, OfUn(lib, EXP, Add(a, b)), Mul(OfUn(lib, EXP, a), OfUn(lib, EXP, b));
    ExpEquation(lib, a);
    ExpEquation(lib, b);
    ExpEquation(lib, Add(a, b));
    ProductEquation(a, b, OfUn(lib, EXP, a), OfUn(lib, EXP, b));
    ExpOfSumFirst(lib, a, b);
    ThetaEquationUnique(Add(a, b), es, m, n);
    assert es == es[..n] && m == m[..n];
  }

  lemma ExpOfSumFirst(lib: Lib, a: seq<real>, b: seq<real>)
    requires |a| == |b| > 0 && lib.exp(a[0] + b[0]) == lib.exp(a[0]) * lib.exp(b[0])
    ensures OfUn(lib, EXP, Add(a, b))[0] == Mul(OfUn(lib, EXP, a), OfUn(lib, EXP, b))[0]
  {
    ExpRecurrence(lib, a, 0);
    ExpRecurrence(lib, b, 0);
    ExpRecurrence(lib, Add(a, b), 0);
    MulFirst(OfUn(lib, EXP, a), OfUn(lib, EXP, b));
  }

  /** Solutions of x y' = (x a') y and x z' = (x b') z multiply to one for a + b. */
  lemma ProductEquation(a: seq<real>, b: seq<real>, y: seq<real>, z: seq<real>)
    requires |a| == |b| == |y| == |z|
    requires Theta(y) == Mul(Theta(a), y) && Theta(z) == Mul(Theta(b), z)
    ensures Theta(Mul(y, z)) == Mul(Theta(Add(a, b)), Mul(y, z))
  {
    var m, ta, tb := Mul(y, z), Theta(a), Theta(b);
    ThetaProduct(y, z);
    MulAssociates(ta, y, z);
    assert Mul(Theta(y), z) == Mul(ta, m);
    MulAssociates(y, tb, z);
    MulCommutes(y, tb);
    MulAssociates(tb, y, z);
    assert Mul(y, Theta(z)) == Mul(tb, m);
    MulLinear(1.0, ta, tb, m);
    assert Scale(1.0, ta) == ta && Scale(1.0, Mul(ta, m)) == Mul(ta, m);
    ThetaOfSum(a, b);
  }

  // ---------------------------------------------------------------- SIN and COS

  lemma {:induction false} TrigSumIsConv(q: seq<real>, a: seq<real>, i: nat, j: nat)
    requires 0 < i < |a| && i <= |q| && j <= i
    ensures TrigSum(q, a, i, j) == ConvFrom1(Theta(a), q, i, j + 1)
  {
    if j > 0 {
      TrigSumIsConv(q, a, i, j - 1);
      ThetaAt(a, j);
      assert (j as real) * q[i - j] * a[j] == ((j as real) * a[j]) * q[i - j];
    }
  }

  /** One trigonometric coefficient, as an order of a product with Theta(a). */
  lemma TrigStep(a: seq<real>, y: seq<real>, i: nat)
    requires i < |a| == |y|
    ensures Mul(Theta(a), y)[i] == if i == 0 then 0.0 else TrigSum(y[..i], a, i, i)
  {
    ThetaProductAt(a, y, i);
    if i > 0 {
      TrigSumIsConv(y[..i], a, i, i);
    }
  }

  lemma SinRecurrence(lib: Lib, a: seq<real>, i: nat)
    requires i < |a|
    ensures var s, c := OfUn(lib, SIN, a), Companion(lib, SIN, a);
            if i == 0 then s[0] == lib.sin(a[0]) && c[0] == lib.cos(a[0])
            else s[i] == TrigSum(c[..i], a, i, i) / i as real && c[i] == -TrigSum(s[..i], a, i, i) / i as real
  {
    UnFillAt(lib, SIN, a, |a|, i);
  }

  /** SIN's recurrences are the equations x s' = (x a') c and x c' = -(x a') s. */
  lemma SinEquations(lib: Lib, a: seq<real>)
    ensures Theta(OfUn(lib, SIN, a)) == Mul(Theta(a), Companion(lib, SIN, a))
    ensures Theta(Companion(lib, SIN, a)) == Scale(-1.0, Mul(Theta(a), OfUn(lib, SIN, a)))
  {
    var s, c := OfUn(lib, SIN, a), Companion(lib, SIN, a);
    forall i | 0 <= i < |a|
      ensures Theta(s)[i] == Mul(Theta(a), c)[i] && Theta(c)[i] == Scale(-1.0, Mul(Theta(a), s))[i]
    {
      SinRecurrence(lib, a, i);
      TrigStep(a, c, i);
      TrigStep(a, s, i);
      TrigTheta(s, i, if i == 0 then 0.0 else TrigSum(c[..i], a, i, i));
      TrigTheta(c, i, if i == 0 then 0.0 else -TrigSum(s[..i], a, i, i));
    }
  }

  lemma TrigTheta(y: seq<real>, i: nat, s: real)
    requires i < |y|
    requires if i == 0 then s == 0.0 else y[i] == s / i as real
    ensures Theta(y)[i] == s
  {
    ThetaAt(y, i);
    if i > 0 {
      Quotient(y[i], s, i as real);
    }
  }

  lemma SinCosNext(lib: Lib, a: seq<real>, s: seq<real>, c: seq<real>)
    requires |s| == |c| < |a|
    ensures UnNext(lib, SIN, a, s, c).0 == UnNext(lib, COS, a, c, s).1
    ensures UnNext(lib, SIN, a, s, c).1 == UnNext(lib, COS, a, c, s).0
  {
  }

  /** The cosine a SIN node keeps is what a COS node over the same argument computes, and the
      other way round. */
  lemma {:induction false} SinCosAgree(lib: Lib, a: seq<real>, n: nat)
    requires n <= |a|
    ensures UnFill(lib, SIN, a, n).0 == UnFill(lib, COS, a, n).1
    ensures UnFill(lib, SIN, a, n).1 == UnFill(lib, COS, a, n).0
  {
    if n > 0 {
      SinCosAgree(lib, a, n - 1);
      var r := UnFill(lib, SIN, a, n - 1);
      SinCosNext(lib, a, r.0, r.1);
    }
  }

  /** sin^2 + cos^2 is the constant series: every coefficient of order i >= 1 vanishes. */
  lemma SinCosPythagoras(lib: Lib, a: seq<real>, i: nat)
    requires 0 < i < |a|
    ensures Coef(OfUn(lib, SIN, a), OfUn(lib, SIN, a), i) + Coef(OfUn(lib, COS, a), OfUn(lib, COS, a), i) == 0.0
  {
    SinCosAgree(lib, a, |a|);
    SinEquations(lib, a);
    PythagorasFromEquations(OfUn(lib, SIN, a), OfUn(lib, COS, a), Theta(a), i);
  }

  /** s (t c) and c (t s) are the same series. */
  lemma CrossTerms(s: seq<real>, c: seq<real>, t: seq<real>)
    requires |s| == |c| == |t|
    ensures Mul(s, Mul(t, c)) == Mul(c, Mul(t, s))
  {
    MulCommutes(t, c);
    MulAssociates(s, c, t);
    MulCommutes(s, c);
    MulAssociates(c, s, t);
    MulCommutes(t, s);
  }

  lemma PythagorasFromEquations(s: seq<real>, c: seq<real>, t: seq<real>, i: nat)
    requires |s| == |c| == |t| && 0 < i < |s|
    requires Theta(s) == Mul(t, c) && Theta(c) == Scale(-1.0, Mul(t, s))
    ensures Coef(s, s, i) + Coef(c, c, i) == 0.0
  {
    CrossTerms(s, c, t);
    MulCommutes(c, Scale(-1.0, Mul(t, s)));
    MulScaled(-1.0, Mul(t, s), c);
    MulCommutes(c, Mul(t, s));
    SquareTheta(s, i);
    SquareTheta(c, i);
    assert Mul(c, Theta(c))[i] == -1.0 * Mul(c, Mul(t, s))[i];
    DistributeSum(i as real, Coef(s, s, i), Coef(c, c, i));
    Cancel(i as real, Coef(s, s, i) + Coef(c, c, i), 0.0);
  }

  lemma SquareTheta(s: seq<real>, i: nat)
    requires i < |s|
    ensures (i as real) * Coef(s, s, i) == 2.0 * Mul(s, Theta(s))[i]
  {
    ThetaProduct(s, s);
    MulCommutes(Theta(s), s);
    ThetaAt(Mul(s, s), i);
    assert Add(Mul(s, Theta(s)), Mul(s, Theta(s)))[i] == 2.0 * Mul(s, Theta(s))[i];
  }

  lemma MulScaled(k: real, u: seq<real>, w: seq<real>)
    requires |u| == |w|
    ensures Mul(Scale(k, u), w) == Scale(k, Mul(u, w))
  {
    var z := Const(0.0, |u|);
    MulLinear(k, u, z, w);
    assert Add(Scale(k, u), z) == Scale(k, u);
    forall i | 0 <= i < |u|
      ensures Mul(z, w)[i] == 0.0
    {
      ConvSumOfZero(w, |u|, i, i + 1);
    }
    assert Add(Scale(k, Mul(u, w)), Mul(z, w)) == Scale(k, Mul(u, w));
  }

  lemma {:induction false} ConvSumOfZero(w: seq<real>, n: nat, i: nat, j: nat)
    requires i < n && i < |w| && j <= i + 1
    ensures ConvSum(Const(0.0, n), w, i, j) == 0.0
  {
    if j > 0 {
      ConvSumOfZero(w, n, i, j - 1);
    }
  }
}
