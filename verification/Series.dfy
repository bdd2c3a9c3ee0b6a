/** Truncated formal power series over the exact reals.

    A series is kept as the sequence of its first n coefficients.  Convolution is the
    product of tadiff.h's MUL node; `Theta` multiplies the i-th coefficient by i (the
    operator x d/dx), which keeps the number of coefficients and is a derivation.  The
    recurrences of exp, log, sin and cos are equations in `Theta`, so the identities
    between them follow from the ring laws proved here. */
module Series {
  import opened RealSums

  /** The sum of a[t] * b[i - t] over t < j: the inner loop of the convolution. */
  function ConvSum(a: seq<real>, b: seq<real>, i: nat, j: nat): real
    requires i < |a| && i < |b| && j <= i + 1
  {
    if j == 0 then 0.0 else ConvSum(a, b, i, j - 1) + a[j - 1] * b[i - (j - 1)]
  }

  function Coef(a: seq<real>, b: seq<real>, i: nat): real
    requires i < |a| && i < |b|
  {
    ConvSum(a, b, i, i + 1)
  }

  function Mul(a: seq<real>, b: seq<real>): (r: seq<real>)
    requires |a| == |b|
    ensures |r| == |a|
  {
    seq(|a|, i requires 0 <= i < |a| => Coef(a, b, i))
  }

  function Add(a: seq<real>, b: seq<real>): (r: seq<real>)
    requires |a| == |b|
    ensures |r| == |a|
  {
    seq(|a|, i requires 0 <= i < |a| => a[i] + b[i])
  }

  function Scale(k: real, a: seq<real>): (r: seq<real>)
    ensures |r| == |a|
  {
    seq(|a|, i requires 0 <= i < |a| => k * a[i])
  }

  function Theta(a: seq<real>): (r: seq<real>)
    ensures |r| == |a|
  {
    seq(|a|, i requires 0 <= i < |a| => (i as real) * a[i])
  }

  /** The constant series k + 0 x + 0 x^2 + ... */
  function Const(k: real, n: nat): (r: seq<real>)
    ensures |r| == n
  {
    seq(n, i => if i == 0 then k else 0.0)
  }

  // ---------------------------------------------------------------- sums

  lemma {:induction false} ConvSumPrefix(a: seq<real>, a': seq<real>, b: seq<real>, b': seq<real>, i: nat, j: nat)
    requires i < |a| && i < |b| && i < |a'| && i < |b'| && j <= i + 1
    requires a[..i + 1] == a'[..i + 1] && b[..i + 1] == b'[..i + 1]
    ensures ConvSum(a, b, i, j) == ConvSum(a', b', i, j)
  {
    if j > 0 {
      ConvSumPrefix(a, a', b, b', i, j - 1);
      assert a[j - 1] == a[..i + 1][j - 1] == a'[j - 1];
      assert b[i - (j - 1)] == b[..i + 1][i - (j - 1)] == b'[i - (j - 1)];
    }
  }

  lemma MulPrefix(a: seq<real>, b: seq<real>, n: nat)
    requires |a| == |b| && n <= |a|
    ensures Mul(a, b)[..n] == Mul(a[..n], b[..n])
  {
    forall i | 0 <= i < n
      ensures Coef(a, b, i) == Coef(a[..n], b[..n], i)
    {
      assert a[..n][..i + 1] == a[..i + 1] && b[..n][..i + 1] == b[..i + 1];
      ConvSumPrefix(a, a[..n], b, b[..n], i, i + 1);
    }
  }

  /** The first j terms of one order of summation are the last j of the other. */
  lemma {:induction false} ConvSumReverse(a: seq<real>, b: seq<real>, i: nat, j: nat)
    requires i < |a| && i < |b| && j <= i + 1
    ensures ConvSum(a, b, i, j) == ConvSum(b, a, i, i + 1) - ConvSum(b, a, i, i + 1 - j)
  {
    if j > 0 {
      ConvSumReverse(a, b, i, j - 1);
      var t := i + 1 - j;
      assert ConvSum(b, a, i, t + 1) == ConvSum(b, a, i, t) + b[t] * a[i - t];
    }
  }

  lemma {:induction false} ConvSumLinear(k: real, u: seq<real>, v: seq<real>, w: seq<real>, i: nat, j: nat)
    requires |u| == |v| && i < |u| && i < |w| && j <= i + 1
    ensures ConvSum(Add(Scale(k, u), v), w, i, j) == k * ConvSum(u, w, i, j) + ConvSum(v, w, i, j)
  {
    if j > 0 {
      ConvSumLinear(k, u, v, w, i, j - 1);
      var x, y := u[j - 1], w[i - (j - 1)];
      assert (k * x + v[j - 1]) * y == k * (x * y) + v[j - 1] * y;
      assert k * (ConvSum(u, w, i, j - 1) + x * y) == k * ConvSum(u, w, i, j - 1) + k * (x * y);
    }
  }

  /** Splitting off the term of a[0]. */
  lemma {:induction false} ConvSumHead(a: seq<real>, b: seq<real>, i: nat, j: nat)
    requires 0 < i < |a| && i < |b| && 1 <= j <= i + 1
    ensures ConvSum(a, b, i, j) == a[0] * b[i] + ConvSum(a[1..], b[..|b| - 1], i - 1, j - 1)
  {
    if j > 1 {
      ConvSumHead(a, b, i, j - 1);
      assert ConvSum(a[1..], b[..|b| - 1], i - 1, j - 1)
          == ConvSum(a[1..], b[..|b| - 1], i - 1, j - 2) + a[1..][j - 2] * b[..|b| - 1][i - 1 - (j - 2)];
    } else {
      assert ConvSum(a, b, i, 1) == ConvSum(a, b, i, 0) + a[0] * b[i];
    }
  }

  function ConvTerm(a: seq<real>, b: seq<real>, i: nat): nat -> real {
    (t: nat) => if t < |a| && t <= i < |b| + t then a[t] * b[i - t] else 0.0
  }

  lemma {:induction false} ConvSumIsSum(a: seq<real>, b: seq<real>, i: nat, j: nat)
    requires i < |a| && i < |b| && j <= i + 1
    ensures ConvSum(a, b, i, j) == Sum(ConvTerm(a, b, i), j)
  {
    if j > 0 {
      ConvSumIsSum(a, b, i, j - 1);
    }
  }

  lemma ThetaSum(a: seq<real>, b: seq<real>, i: nat, j: nat, k: real)
    requires i < |a| && i < |b| && j <= i + 1 && k == i as real
    ensures k * Sum(ConvTerm(a, b, i), j) == Sum(ConvTerm(Theta(a), b, i), j) + Sum(ConvTerm(a, Theta(b), i), j)
  {
    ThetaTerms(a, b, i, j, k);
    SumSplits(k, ConvTerm(a, b, i), ConvTerm(Theta(a), b, i), ConvTerm(a, Theta(b), i), j);
  }

  lemma ThetaTerms(a: seq<real>, b: seq<real>, i: nat, j: nat, k: real)
    requires i < |a| && i < |b| && j <= i + 1 && k == i as real
    ensures forall t :: 0 <= t < j ==>
              k * ConvTerm(a, b, i)(t) == ConvTerm(Theta(a), b, i)(t) + ConvTerm(a, Theta(b), i)(t)
  {
    forall t | 0 <= t < j
      ensures k * ConvTerm(a, b, i)(t) == ConvTerm(Theta(a), b, i)(t) + ConvTerm(a, Theta(b), i)(t)
    {
      ThetaTerm(a, b, i, t);
    }
  }

  lemma ThetaConvSum(a: seq<real>, b: seq<real>, i: nat, j: nat)
    requires i < |a| && i < |b| && j <= i + 1
    ensures (i as real) * ConvSum(a, b, i, j) == ConvSum(Theta(a), b, i, j) + ConvSum(a, Theta(b), i, j)
  {
    ConvSumIsSum(a, b, i, j);
    ConvSumIsSum(Theta(a), b, i, j);
    ConvSumIsSum(a, Theta(b), i, j);
    ThetaSum(a, b, i, j, i as real);
  }

  lemma ThetaTerm(a: seq<real>, b: seq<real>, i: nat, t: nat)
    requires i < |a| && i < |b| && t <= i
    ensures (i as real) * ConvTerm(a, b, i)(t) == ConvTerm(Theta(a), b, i)(t) + ConvTerm(a, Theta(b), i)(t)
  {
    ThetaAt(a, t);
    ThetaAt(b, i - t);
    ProductRuleTerm(i as real, t as real, (i - t) as real, a[t], b[i - t], Theta(a)[t], Theta(b)[i - t]);
  }

  lemma ThetaAt(a: seq<real>, i: nat)
    requires i < |a|
    ensures Theta(a)[i] == (i as real) * a[i]
  {
  }

  lemma ProductRuleTerm(k: real, p: real, q: real, x: real, y: real, px: real, qy: real)
    requires k == p + q && px == p * x && qy == q * y
    ensures k * (x * y) == px * y + x * qy
  {
    Distribute(p, q, x, y);
  }

  lemma Distribute(p: real, q: real, x: real, y: real)
    ensures (p + q) * (x * y) == (p * x) * y + x * (q * y)
  {
    assert (p * x) * y == p * (x * y);
    assert x * (q * y) == q * (x * y);
  }

  lemma DistributeSum(k: real, x: real, y: real)
    ensures k * (x + y) == k * x + k * y
  {
  }

  // ---------------------------------------------------------------- the ring

  /** Convolution is commutative. */
  lemma MulCommutes(a: seq<real>, b: seq<real>)
    requires |a| == |b|
    ensures Mul(a, b) == Mul(b, a)
  {
    forall i | 0 <= i < |a|
      ensures Coef(a, b, i) == Coef(b, a, i)
    {
      ConvSumReverse(a, b, i, i + 1);
    }
  }

  lemma MulLinear(k: real, u: seq<real>, v: seq<real>, w: seq<real>)
    requires |u| == |v| == |w|
    ensures Mul(Add(Scale(k, u), v), w) == Add(Scale(k, Mul(u, w)), Mul(v, w))
  {
    forall i | 0 <= i < |u|
      ensures Mul(Add(Scale(k, u), v), w)[i] == Add(Scale(k, Mul(u, w)), Mul(v, w))[i]
    {
      ConvSumLinear(k, u, v, w, i, i + 1);
      assert Scale(k, Mul(u, w))[i] == k * Coef(u, w, i);
    }
  }

  /** The product without its order-0 coefficient, in terms of the shorter series. */
  lemma MulTail(a: seq<real>, b: seq<real>)
    requires |a| == |b| > 0
    ensures Mul(a, b)[1..] == Add(Scale(a[0], b[1..]), Mul(a[1..], b[..|b| - 1]))
  {
    var n := |a|;
    forall i | 0 <= i < n - 1
      ensures Mul(a, b)[1..][i] == Add(Scale(a[0], b[1..]), Mul(a[1..], b[..n - 1]))[i]
    {
      assert Scale(a[0], b[1..])[i] == a[0] * b[i + 1];
      ConvSumHead(a, b, i + 1, i + 2);
    }
  }

  lemma CoefAt0(a: seq<real>, b: seq<real>)
    requires |a| > 0 && |b| > 0
    ensures Coef(a, b, 0) == a[0] * b[0]
  {
    assert ConvSum(a, b, 0, 1) == ConvSum(a, b, 0, 0) + a[0] * b[0];
  }

  /** Order i > 0 of (a b) c, with the terms of a[0] split off. */
  lemma CoefLeftSplit(a: seq<real>, b: seq<real>, c: seq<real>, i: nat)
    requires |a| == |b| == |c| && 0 < i < |a|
    ensures var n := |a|;
            Coef(Mul(a, b), c, i) == (a[0] * b[0]) * c[i]
              + (a[0] * Coef(b[1..], c[..n - 1], i - 1) + Coef(Mul(a[1..], b[..n - 1]), c[..n - 1], i - 1))
  {
    var n := |a|;
    ConvSumHead(Mul(a, b), c, i, i + 1);
    MulTail(a, b);
    ConvSumLinear(a[0], b[1..], Mul(a[1..], b[..n - 1]), c[..n - 1], i - 1, i);
    CoefAt0(a, b);
  }

  /** Order i > 0 of a (b c), with the terms of a[0] split off. */
  lemma CoefRightSplit(a: seq<real>, b: seq<real>, c: seq<real>, i: nat)
    requires |a| == |b| == |c| && 0 < i < |a|
    ensures var n := |a|;
            Coef(a, Mul(b, c), i) == a[0] * (b[0] * c[i] + Coef(b[1..], c[..n - 1], i - 1))
              + Coef(a[1..], Mul(b[..n - 1], c[..n - 1]), i - 1)
  {
    MulPrefix(b, c, |a| - 1);
    ConvSumHead(a, Mul(b, c), i, i + 1);
    ConvSumHead(b, c, i, i + 1);
  }

  lemma AssociateTerms(x: real, y: real, z: real, s: real, t: real)
    ensures (x * y) * z + (x * s + t) == x * (y * z + s) + t
  {
    DistributeSum(x, y * z, s);
  }

  lemma {:induction false} CoefAssociates(a: seq<real>, b: seq<real>, c: seq<real>, i: nat)
    requires |a| == |b| == |c| && i < |a|
    ensures Coef(Mul(a, b), c, i) == Coef(a, Mul(b, c), i)
  {
    var n := |a|;
    if i == 0 {
      CoefAt0(a, b);
      CoefAt0(b, c);
      CoefAt0(Mul(a, b), c);
      CoefAt0(a, Mul(b, c));
    } else {
      CoefLeftSplit(a, b, c, i);
      CoefAssociates(a[1..], b[..n - 1], c[..n - 1], i - 1);
      CoefRightSplit(a, b, c, i);
      AssociateTerms(a[0], b[0], c[i], Coef(b[1..], c[..n - 1], i - 1),
                     Coef(Mul(a[1..], b[..n - 1]), c[..n - 1], i - 1));
    }
  }

  /** Convolution is associative. */
  lemma MulAssociates(a: seq<real>, b: seq<real>, c: seq<real>)
    requires |a| == |b| == |c|
    ensures Mul(Mul(a, b), c) == Mul(a, Mul(b, c))
  {
    forall i | 0 <= i < |a|
      ensures Mul(Mul(a, b), c)[i] == Mul(a, Mul(b, c))[i]
    {
      CoefAssociates(a, b, c, i);
    }
  }

  /** `Theta` is a derivation: the product rule at every order. */
  lemma ThetaProduct(a: seq<real>, b: seq<real>)
    requires |a| == |b|
    ensures Theta(Mul(a, b)) == Add(Mul(Theta(a), b), Mul(a, Theta(b)))
  {
    forall i | 0 <= i < |a|
      ensures Theta(Mul(a, b))[i] == Coef(Theta(a), b, i) + Coef(a, Theta(b), i)
    {
      ThetaConvSum(a, b, i, i + 1);
    }
  }

  // ---------------------------------------------------------------- uniqueness

  lemma {:induction false} ConvSumZeroHead(a: seq<real>, b: seq<real>, i: nat, j: nat)
    requires i < |a| && i < |b| && 1 <= j <= i + 1
    ensures ConvSum(a, b, i, j) == a[0] * b[i] + ConvFrom1(a, b, i, j)
  {
    if j > 1 {
      ConvSumZeroHead(a, b, i, j - 1);
    } else {
      assert ConvSum(a, b, i, 1) == ConvSum(a, b, i, 0) + a[0] * b[i];
    }
  }

  /** The sum of a[t] * b[i - t] over 1 <= t < j. */
  function ConvFrom1(a: seq<real>, b: seq<real>, i: nat, j: nat): real
    requires i < |a| && i < |b| + 1 && 1 <= j <= i + 1
  {
    if j == 1 then 0.0 else ConvFrom1(a, b, i, j - 1) + a[j - 1] * b[i - (j - 1)]
  }

  /** It reads b only below i. */
  lemma {:induction false} ConvFrom1Prefix(a: seq<real>, b: seq<real>, b': seq<real>, i: nat, j: nat)
    requires i < |a| && i <= |b| && i <= |b'| && 1 <= j <= i + 1
    requires b[..i] == b'[..i]
    ensures ConvFrom1(a, b, i, j) == ConvFrom1(a, b', i, j)
  {
    if j > 1 {
      ConvFrom1Prefix(a, b, b', i, j - 1);
      assert b[i - (j - 1)] == b[..i][i - (j - 1)] == b'[i - (j - 1)];
    }
  }

  /** Multiplication by a series with a non-zero order-0 coefficient can be cancelled. */
  lemma {:induction false} MulCancels(a: seq<real>, b: seq<real>, b': seq<real>, n: nat)
    requires |a| == |b| == |b'| && n <= |a| && (n > 0 ==> a[0] != 0.0)
    requires Mul(a, b) == Mul(a, b')
    ensures b[..n] == b'[..n]
  {
    if n > 0 {
      var i := n - 1;
      MulCancels(a, b, b', i);
      ConvSumZeroHead(a, b, i, i + 1);
      ConvSumZeroHead(a, b', i, i + 1);
      ConvFrom1Prefix(a, b, b', i, i + 1);
      assert Mul(a, b)[i] == Mul(a, b')[i];
      Cancel(a[0], b[i], b'[i]);
      assert b[..n] == b[..i] + [b[i]] && b'[..n] == b'[..i] + [b'[i]];
    }
  }

  lemma Cancel(k: real, x: real, y: real)
    requires k != 0.0 && k * x == k * y
    ensures x == y
  {
    assert k * (x - y) == 0.0;
  }

  lemma ThetaEquationStep(u: seq<real>, y: seq<real>, i: nat)
    requires 0 < i < |u| == |y|
    requires Theta(y) == Mul(Theta(u), y)
    ensures (i as real) * y[i] == ConvFrom1(Theta(u), y, i, i + 1)
  {
    ThetaProductFrom1(u, y, i);
    ThetaAt(y, i);
  }

  /** The order-0 coefficient of Theta(u) is zero. */
  lemma ThetaProductFrom1(u: seq<real>, y: seq<real>, i: nat)
    requires 0 < i < |u| == |y|
    ensures Mul(Theta(u), y)[i] == ConvFrom1(Theta(u), y, i, i + 1)
  {
    ConvSumZeroHead(Theta(u), y, i, i + 1);
    ThetaAt(u, 0);
    ZeroFactor(Theta(u)[0], u[0], y[i]);
  }

  lemma ZeroFactor(p: real, x: real, y: real)
    requires p == 0.0 * x
    ensures p * y == 0.0
  {
  }

  /** The last term of a sum. */
  lemma ConvFrom1Last(a: seq<real>, b: seq<real>, i: nat, j: nat)
    requires i < |a| && i < |b| + 1 && 1 <= j <= i
    ensures ConvFrom1(a, b, i, j + 1) == ConvFrom1(a, b, i, j) + a[j] * b[i - j]
  {
  }

  lemma ThetaEquationNext(u: seq<real>, y: seq<real>, z: seq<real>, i: nat)
    requires 0 < i < |u| == |y| == |z| && y[..i] == z[..i]
    requires Theta(y) == Mul(Theta(u), y) && Theta(z) == Mul(Theta(u), z)
    ensures y[i] == z[i]
  {
    ThetaEquationStep(u, y, i);
    ThetaEquationStep(u, z, i);
    ConvFrom1Prefix(Theta(u), y, z, i, i + 1);
    var s := ConvFrom1(Theta(u), y, i, i + 1);
    CancelQuotient(i as real, y[i], z[i], s);
  }

  lemma CancelQuotient(k: real, x: real, y: real, s: real)
    requires k != 0.0 && k * x == s && k * y == s
    ensures x == y
  {
    Cancel(k, x, y);
  }

  /** The equation Theta(y) = Theta(u) * y has at most one solution for each order-0 value. */
  lemma {:induction false} ThetaEquationUnique(u: seq<real>, y: seq<real>, z: seq<real>, n: nat)
    requires |u| == |y| == |z| && n <= |u| && (n > 0 ==> y[0] == z[0])
    requires Theta(y) == Mul(Theta(u), y) && Theta(z) == Mul(Theta(u), z)
    ensures y[..n] == z[..n]
  {
    if n > 0 {
      var i := n - 1;
      ThetaEquationUnique(u, y, z, i);
      if i > 0 {
        ThetaEquationNext(u, y, z, i);
      }
      assert y[..n] == y[..i] + [y[i]] && z[..n] == z[..i] + [z[i]];
    }
  }
}
