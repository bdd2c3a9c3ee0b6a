/** The loops inside tadiff.h's `eval` methods, over the coefficient array of the node and those
    of its operands.  `len` is the number of coefficients already there, `l` the number wanted;
    each loop continues from `len`, and the first l coefficients are then those of the
    specification in `TaylorSeries`.  When len > l the loop does nothing. */
module TaylorKernels {
  import opened Ops
  import opened Series
  import opened TaylorSeries

  function Min(x: nat, y: nat): nat { if x <= y then x else y }

  ghost predicate BinDone(lib: Lib, f: BinFn, val: array<real>, a: array<real>, b: array<real>, n: nat)
    reads val, a, b
  {
    n <= val.Length && n <= a.Length && n <= b.Length && val[..n] == BinFill(lib, f, a[..], b[..], n)
  }

  ghost predicate UnDone(lib: Lib, g: UnFn, val: array<real>, a: array<real>, n: nat)
    reads val, a
  {
    n <= val.Length && n <= a.Length && val[..n] == UnFill(lib, g, a[..], n).0
  }

  ghost predicate TrigDone(lib: Lib, g: UnFn, val: array<real>, other: array<real>, a: array<real>, n: nat)
    reads val, other, a
  {
    UnDone(lib, g, val, a, n) && n <= other.Length && other[..n] == UnFill(lib, g, a[..], n).1
  }

  lemma SnocArray(a: array<real>, i: nat)
    requires i < a.Length
    ensures a[..i + 1] == a[..i] + [a[i]]
  {
  }

  /** Appending the next coefficient to a binary node's first i. */
  lemma BinExtend(lib: Lib, f: BinFn, a: seq<real>, b: seq<real>, i: nat, x: real)
    requires i < |a| && i < |b|
    requires x == BinNext(lib, f, a, b, BinFill(lib, f, a, b, i))
    ensures BinFill(lib, f, a, b, i + 1) == BinFill(lib, f, a, b, i) + [x]
  {
  }

  /** Appending the next coefficient to a unary node's first i. */
  lemma UnExtend(lib: Lib, g: UnFn, a: seq<real>, i: nat, x: real)
    requires i < |a|
    requires var r := UnFill(lib, g, a, i); x == UnNext(lib, g, a, r.0, r.1).0
    ensures UnFill(lib, g, a, i + 1).0 == UnFill(lib, g, a, i).0 + [x]
  {
  }

  lemma NextPointwise(lib: Lib, g: UnFn, a: seq<real>, p: seq<real>, q: seq<real>)
    requires |p| == |q| < |a| && (g.MUL1? || g.MUL2? || g.DIV2? || g.UMINUS? || g.UPLUS?)
    ensures UnNext(lib, g, a, p, q).0 == UnValue(lib, g, a[|p|])
  {
  }

  lemma ExtendPointwise(lib: Lib, g: UnFn, a: seq<real>, i: nat, x: real)
    requires i < |a| && (g.MUL1? || g.MUL2? || g.DIV2? || g.UMINUS? || g.UPLUS?)
    requires x == UnValue(lib, g, a[i])
    ensures UnFill(lib, g, a, i + 1).0 == UnFill(lib, g, a, i).0 + [x]
  {
    var r := UnFill(lib, g, a, i);
    NextPointwise(lib, g, a, r.0, r.1);
    UnExtend(lib, g, a, i, x);
  }

  lemma NextSQR(lib: Lib, a: seq<real>, p: seq<real>, q: seq<real>)
    requires |p| == |q| < |a|
    ensures UnNext(lib, SQR, a, p, q).0 == SquareHalved(a, |p|)
  {
  }

  lemma ExtendSQR(lib: Lib, a: seq<real>, i: nat, x: real)
    requires i < |a| && x == SquareHalved(a, i)
    ensures UnFill(lib, SQR, a, i + 1).0 == UnFill(lib, SQR, a, i).0 + [x]
  {
    var r := UnFill(lib, SQR, a, i);
    NextSQR(lib, a, r.0, r.1);
    UnExtend(lib, SQR, a, i, x);
  }

  lemma SquareHalvedAt0(a: seq<real>)
    requires |a| > 0
    ensures SquareHalved(a, 0) == a[0] * a[0]
  {
  }

  lemma NextDIV1(lib: Lib, k: real, a: seq<real>, p: seq<real>, q: seq<real>)
    requires |p| == |q| < |a|
    ensures UnNext(lib, DIV1(k), a, p, q).0
         == if |p| == 0 then Div(lib, k, a[0]) else Div(lib, 0.0 - ConvFrom1(a, p, |p|, |p| + 1), a[0])
  {
  }

  lemma ExtendDIV1(lib: Lib, k: real, a: seq<real>, i: nat, p: seq<real>, x: real)
    requires i < |a| && p == UnFill(lib, DIV1(k), a, i).0
    requires x == if i == 0 then Div(lib, k, a[0]) else Div(lib, 0.0 - ConvFrom1(a, p, i, i + 1), a[0])
    ensures UnFill(lib, DIV1(k), a, i + 1).0 == p + [x]
  {
    NextDIV1(lib, k, a, p, UnFill(lib, DIV1(k), a, i).1);
    UnExtend(lib, DIV1(k), a, i, x);
  }

  lemma NextTrig(lib: Lib, g: UnFn, a: seq<real>, p: seq<real>, q: seq<real>)
    requires |p| == |q| < |a| && (g == SIN || g == COS)
    ensures UnNext(lib, g, a, p, q)
         == if |p| == 0 then (if g == SIN then (lib.sin(a[0]), lib.cos(a[0])) else (lib.cos(a[0]), lib.sin(a[0])))
            else if g == SIN then (TrigSum(q, a, |p|, |p|) / |p| as real, -TrigSum(p, a, |p|, |p|) / |p| as real)
            else (-TrigSum(q, a, |p|, |p|) / |p| as real, TrigSum(p, a, |p|, |p|) / |p| as real)
  {
  }

  lemma ExtendTrig(lib: Lib, g: UnFn, a: seq<real>, i: nat, p: seq<real>, q: seq<real>, x: real, y: real)
    requires i < |a| && (p, q) == UnFill(lib, g, a, i) && (x, y) == UnNext(lib, g, a, p, q)
    ensures UnFill(lib, g, a, i + 1) == (p + [x], q + [y])
  {
  }

  lemma ExtendSQRT(lib: Lib, a: seq<real>, i: nat, x: real)
    requires i < |a|
    requires x == if i == 0 then lib.sqrt(a[0]) else SqrtCoefficient(lib, a, UnFill(lib, SQRT, a, i).0, i)
    ensures UnFill(lib, SQRT, a, i + 1).0 == UnFill(lib, SQRT, a, i).0 + [x]
  {
    UnExtend(lib, SQRT, a, i, x);
  }

  // ---------------------------------------------------------------- binary nodes

  method EvalADD(lib: Lib, val: array<real>, len: nat, a: array<real>, b: array<real>, l: nat)
    requires val != a && val != b && l <= val.Length == a.Length == b.Length
    requires BinDone(lib, ADD, val, a, b, Min(len, l))
    modifies val
    ensures BinDone(lib, ADD, val, a, b, l)
  {
    var i := len;
    while i < l
      invariant BinDone(lib, ADD, val, a, b, Min(i, l))
    {
      val[i] := a[i] + b[i];
      SnocArray(val, i);
      i := i + 1;
    }
  }

  method EvalSUB(lib: Lib, val: array<real>, len: nat, a: array<real>, b: array<real>, l: nat)
    requires val != a && val != b && l <= val.Length == a.Length == b.Length
    requires BinDone(lib, SUB, val, a, b, Min(len, l))
    modifies val
    ensures BinDone(lib, SUB, val, a, b, l)
  {
    var i := len;
    while i < l
      invariant BinDone(lib, SUB, val, a, b, Min(i, l))
    {
      val[i] := a[i] - b[i];
      SnocArray(val, i);
      i := i + 1;
    }
  }

  method CoefMUL(val: array<real>, a: array<real>, b: array<real>, i: nat)
    requires val != a && val != b && i < val.Length == a.Length == b.Length
    modifies val
    ensures val[..i] == old(val[..i])
    ensures val[i] == ConvSum(a[..], b[..], i, i + 1)
  {
    ghost var p := val[..i];
    val[i] := 0.0;
    for j := 0 to i + 1
      invariant val[..i] == p
      invariant val[i] == ConvSum(a[..], b[..], i, j)
    {
      val[i] := val[i] + a[j] * b[i - j];
    }
  }

  method EvalMUL(lib: Lib, val: array<real>, len: nat, a: array<real>, b: array<real>, l: nat)
    requires val != a && val != b && l <= val.Length == a.Length == b.Length
    requires BinDone(lib, MUL, val, a, b, Min(len, l))
    modifies val
    ensures BinDone(lib, MUL, val, a, b, l)
  {
    var i := len;
    while i < l
      invariant BinDone(lib, MUL, val, a, b, Min(i, l))
    {
      CoefMUL(val, a, b, i);
      BinExtend(lib, MUL, a[..], b[..], i, val[i]);
      SnocArray(val, i);
      i := i + 1;
    }
  }

  method CoefDIV(lib: Lib, val: array<real>, a: array<real>, b: array<real>, i: nat)
    requires val != a && val != b && i < val.Length == a.Length == b.Length
    modifies val
    ensures val[..i] == old(val[..i])
    ensures val[i] == Div(lib, a[i] - ConvFrom1(b[..], val[..i], i, i + 1), b[0])
  {
    ghost var p := val[..i];
    val[i] := a[i];
    for j := 1 to i + 1
      invariant val[..i] == p
      invariant val[i] == a[i] - ConvFrom1(b[..], p, i, j)
    {
      assert val[i - j] == val[..i][i - j];
      val[i] := val[i] - b[j] * val[i - j];
    }
    val[i] := Div(lib, val[i], b[0]);
  }

  method EvalDIV(lib: Lib, val: array<real>, len: nat, a: array<real>, b: array<real>, l: nat)
    requires val != a && val != b && l <= val.Length == a.Length == b.Length
    requires BinDone(lib, DIV, val, a, b, Min(len, l))
    modifies val
    ensures BinDone(lib, DIV, val, a, b, l)
  {
    var i := len;
    while i < l
      invariant BinDone(lib, DIV, val, a, b, Min(i, l))
    {
      CoefDIV(lib, val, a, b, i);
      ghost var p := val[..i];
      assert p == BinFill(lib, DIV, a[..], b[..], i);
      BinExtend(lib, DIV, a[..], b[..], i, val[i]);
      SnocArray(val, i);
      i := i + 1;
    }
  }

  // ---------------------------------------------------------------- unary nodes

  /** ADD1, ADD2, SUB1 and SUB2: only the order-0 coefficient involves the constant. */
  method EvalShift(lib: Lib, g: UnFn, val: array<real>, len: nat, a: array<real>, l: nat)
    requires g.ADD1? || g.ADD2? || g.SUB1? || g.SUB2?
    requires val != a && 0 < l <= val.Length == a.Length
    requires UnDone(lib, g, val, a, Min(len, l))
    modifies val
    ensures UnDone(lib, g, val, a, l)
  {
    var i := len;
    if i == 0 {
      val[0] := UnValue(lib, g, a[0]);
      ExtendShift(lib, g, a[..], 0, val[0]);
      SnocArray(val, 0);
      i := 1;
    }
    while i < l
      invariant i > 0
      invariant UnDone(lib, g, val, a, Min(i, l))
    {
      val[i] := if g.SUB1? then -a[i] else a[i];
      ExtendShift(lib, g, a[..], i, val[i]);
      SnocArray(val, i);
      i := i + 1;
    }
  }

  lemma ExtendShift(lib: Lib, g: UnFn, a: seq<real>, i: nat, y: real)
    requires g.ADD1? || g.ADD2? || g.SUB1? || g.SUB2?
    requires i < |a| && y == if i == 0 then UnValue(lib, g, a[0]) else if g.SUB1? then -a[i] else a[i]
    ensures UnFill(lib, g, a, i + 1).0 == UnFill(lib, g, a, i).0 + [y]
  {
    UnExtend(lib, g, a, i, y);
  }

  /** MUL1, MUL2, DIV2, UMINUS and UPLUS act on each coefficient alone. */
  method EvalPointwise(lib: Lib, g: UnFn, val: array<real>, len: nat, a: array<real>, l: nat)
    requires g.MUL1? || g.MUL2? || g.DIV2? || g.UMINUS? || g.UPLUS?
    requires val != a && l <= val.Length == a.Length
    requires UnDone(lib, g, val, a, Min(len, l))
    modifies val
    ensures UnDone(lib, g, val, a, l)
  {
    var i := len;
    while i < l
      invariant UnDone(lib, g, val, a, Min(i, l))
    {
      val[i] := UnValue(lib, g, a[i]);
      ExtendPointwise(lib, g, a[..], i, val[i]);
      SnocArray(val, i);
      i := i + 1;
    }
  }

  method CoefDIV1(lib: Lib, val: array<real>, a: array<real>, i: nat)
    requires val != a && 0 < i < val.Length == a.Length
    modifies val
    ensures val[..i] == old(val[..i])
    ensures val[i] == Div(lib, 0.0 - ConvFrom1(a[..], val[..i], i, i + 1), a[0])
  {
    ghost var p := val[..i];
    val[i] := 0.0;
    for j := 1 to i + 1
      invariant val[..i] == p
      invariant val[i] == 0.0 - ConvFrom1(a[..], p, i, j)
    {
      assert val[i - j] == val[..i][i - j];
      val[i] := val[i] - a[j] * val[i - j];
    }
    val[i] := Div(lib, val[i], a[0]);
  }

  method EvalDIV1(lib: Lib, k: real, val: array<real>, len: nat, a: array<real>, l: nat)
    requires val != a && 0 < l <= val.Length == a.Length
    requires UnDone(lib, DIV1(k), val, a, Min(len, l))
    modifies val
    ensures UnDone(lib, DIV1(k), val, a, l)
  {
    var i := len;
    if i == 0 {
      val[0] := Div(lib, k, a[0]);
      ExtendDIV1(lib, k, a[..], 0, [], val[0]);
      SnocArray(val, 0);
      i := 1;
    }
    while i < l
      invariant i > 0
      invariant UnDone(lib, DIV1(k), val, a, Min(i, l))
    {
      CoefDIV1(lib, val, a, i);
      ExtendDIV1(lib, k, a[..], i, val[..i], val[i]);
      SnocArray(val, i);
      i := i + 1;
    }
  }

  method CoefSQR(val: array<real>, a: array<real>, i: nat)
    requires val != a && 0 < i < val.Length == a.Length
    modifies val
    ensures val[..i] == old(val[..i])
    ensures val[i] == SquareHalved(a[..], i)
  {
    ghost var p := val[..i];
    val[i] := 0.0;
    var m := (i + 1) / 2;
    for j := 0 to m
      invariant val[..i] == p
      invariant val[i] == HalfSum(a[..], i, 0, j)
    {
      val[i] := val[i] + a[i - j] * a[j];
    }
    val[i] := val[i] * 2.0;
    if i % 2 == 0 {
      val[i] := val[i] + a[m] * a[m];
    }
  }

  lemma DoneSQR(lib: Lib, val: array<real>, a: array<real>, i: nat)
    requires UnDone(lib, SQR, val, a, i) && 0 < i < val.Length == a.Length && val[i] == SquareHalved(a[..], i)
    ensures UnDone(lib, SQR, val, a, i + 1)
  {
    ExtendSQR(lib, a[..], i, val[i]);
    SnocArray(val, i);
  }

  method EvalSQR(lib: Lib, val: array<real>, len: nat, a: array<real>, l: nat)
    requires val != a && 0 < l <= val.Length == a.Length
    requires UnDone(lib, SQR, val, a, Min(len, l))
    modifies val
    ensures UnDone(lib, SQR, val, a, l)
  {
    var i := len;
    if i == 0 {
      val[0] := a[0] * a[0];
      SquareHalvedAt0(a[..]);
      ExtendSQR(lib, a[..], 0, val[0]);
      SnocArray(val, 0);
      i := 1;
    }
    while i < l
      invariant i > 0
      invariant UnDone(lib, SQR, val, a, Min(i, l))
    {
      CoefSQR(val, a, i);
      DoneSQR(lib, val, a, i);
      i := i + 1;
    }
  }

  method HalfLoopSQRT(val: array<real>, i: nat, m: nat)
    requires 0 < m <= i < val.Length && 2 * m <= i + 1
    modifies val
    ensures val[..i] == old(val[..i])
    ensures val[i] == HalfSum(val[..i], i, 1, m)
  {
    ghost var p := val[..i];
    val[i] := 0.0;
    for j := 1 to m
      invariant val[..i] == p
      invariant val[i] == HalfSum(p, i, 1, j)
    {
      assert val[i - j] == p[i - j] && val[j] == p[j];
      val[i] := val[i] + val[i - j] * val[j];
    }
  }

  method CoefSQRT(lib: Lib, val: array<real>, a: array<real>, i: nat)
    requires val != a && 0 < i < val.Length == a.Length
    modifies val
    ensures val[..i] == old(val[..i])
    ensures val[i] == SqrtCoefficient(lib, a[..], val[..i], i)
  {
    ghost var p := val[..i];
    var m := (i + 1) / 2;
    HalfLoopSQRT(val, i, m);
    val[i] := val[i] * 2.0;
    if i % 2 == 0 {
      assert val[m] == p[m];
      val[i] := val[i] + val[m] * val[m];
    }
    assert val[i] == SquareRest(p, i) && val[..i] == p;
    val[i] := Div(lib, a[i] - val[i], 2.0 * val[0]);
    assert val[0] == p[0] && val[..i] == p;
  }

  method EvalSQRT(lib: Lib, val: array<real>, len: nat, a: array<real>, l: nat)
    requires val != a && 0 < l <= val.Length == a.Length
    requires UnDone(lib, SQRT, val, a, Min(len, l))
    modifies val
    ensures UnDone(lib, SQRT, val, a, l)
  {
    var i := len;
    if i == 0 {
      val[0] := lib.sqrt(a[0]);
      ExtendSQRT(lib, a[..], 0, val[0]);
      SnocArray(val, 0);
      i := 1;
    }
    while i < l
      invariant i > 0
      invariant UnDone(lib, SQRT, val, a, Min(i, l))
    {
      CoefSQRT(lib, val, a, i);
      ExtendSQRT(lib, a[..], i, val[i]);
      SnocArray(val, i);
      i := i + 1;
    }
  }

  lemma ExtendEXP(lib: Lib, a: seq<real>, i: nat, p: seq<real>, x: real)
    requires i < |a| && p == UnFill(lib, EXP, a, i).0 && x == if i == 0 then lib.exp(a[0]) else ExpSum(a, p, i, i)
    ensures UnFill(lib, EXP, a, i + 1).0 == p + [x]
  {
    UnExtend(lib, EXP, a, i, x);
  }

  lemma ExtendLOG(lib: Lib, a: seq<real>, i: nat, p: seq<real>, x: real)
    requires i < |a| && p == UnFill(lib, LOG, a, i).0
    requires x == if i == 0 then lib.log(a[0]) else Div(lib, a[i] - LogSum(a, p, i, i), a[0])
    ensures UnFill(lib, LOG, a, i + 1).0 == p + [x]
  {
    UnExtend(lib, LOG, a, i, x);
  }

  method CoefEXP(val: array<real>, a: array<real>, i: nat)
    requires val != a && 0 < i < val.Length == a.Length
    modifies val
    ensures val[..i] == old(val[..i])
    ensures val[i] == ExpSum(a[..], val[..i], i, i)
  {
    ghost var p := val[..i];
    val[i] := 0.0;
    for j := 0 to i
      invariant val[..i] == p
      invariant val[i] == ExpSum(a[..], p, i, j)
    {
      assert val[j] == p[j];
      val[i] := val[i] + Weight(j, i) * a[i - j] * val[j];
    }
  }

  method EvalEXP(lib: Lib, val: array<real>, len: nat, a: array<real>, l: nat)
    requires val != a && 0 < l <= val.Length == a.Length
    requires UnDone(lib, EXP, val, a, Min(len, l))
    modifies val
    ensures UnDone(lib, EXP, val, a, l)
  {
    var i := len;
    if i == 0 {
      val[0] := lib.exp(a[0]);
      ExtendEXP(lib, a[..], 0, [], val[0]);
      SnocArray(val, 0);
      i := 1;
    }
    while i < l
      invariant i > 0
      invariant UnDone(lib, EXP, val, a, Min(i, l))
    {
      CoefEXP(val, a, i);
      ExtendEXP(lib, a[..], i, val[..i], val[i]);
      SnocArray(val, i);
      i := i + 1;
    }
  }

  method CoefLOG(lib: Lib, val: array<real>, a: array<real>, i: nat)
    requires val != a && 0 < i < val.Length == a.Length
    modifies val
    ensures val[..i] == old(val[..i])
    ensures val[i] == Div(lib, a[i] - LogSum(a[..], val[..i], i, i), a[0])
  {
    ghost var p := val[..i];
    val[i] := a[i];
    for j := 1 to i
      invariant val[..i] == p
      invariant val[i] == a[i] - LogSum(a[..], p, i, j)
    {
      assert val[i - j] == p[i - j];
      val[i] := val[i] - Weight(j, i) * a[j] * val[i - j];
    }
    val[i] := Div(lib, val[i], a[0]);
  }

  lemma DoneLOG(lib: Lib, val: array<real>, a: array<real>, i: nat)
    requires UnDone(lib, LOG, val, a, i) && 0 < i < val.Length == a.Length
    requires val[i] == Div(lib, a[i] - LogSum(a[..], val[..i], i, i), a[0])
    ensures UnDone(lib, LOG, val, a, i + 1)
  {
    ExtendLOG(lib, a[..], i, val[..i], val[i]);
    SnocArray(val, i);
  }

  method EvalLOG(lib: Lib, val: array<real>, len: nat, a: array<real>, l: nat)
    requires val != a && 0 < l <= val.Length == a.Length
    requires UnDone(lib, LOG, val, a, Min(len, l))
    modifies val
    ensures UnDone(lib, LOG, val, a, l)
  {
    var i := len;
    if i == 0 {
      val[0] := lib.log(a[0]);
      ExtendLOG(lib, a[..], 0, [], val[0]);
      SnocArray(val, 0);
      i := 1;
    }
    while i < l
      invariant i > 0
      invariant UnDone(lib, LOG, val, a, Min(i, l))
    {
      CoefLOG(lib, val, a, i);
      DoneLOG(lib, val, a, i);
      i := i + 1;
    }
  }

  /** One order of SIN and of COS: `y` gets the sum over `src`, divided by i and with the given
      sign; `src` is the companion when the node's own coefficient is computed, and the node when
      the companion's is. */
  method TrigLoop(neg: bool, y: array<real>, src: array<real>, a: array<real>, i: nat)
    requires 0 < i < y.Length == src.Length == a.Length && y != src && y != a
    modifies y
    ensures y[..i] == old(y[..i])
    ensures y[i] == (if neg then -TrigSum(src[..i], a[..], i, i) else TrigSum(src[..i], a[..], i, i)) / i as real
  {
    ghost var q, p := src[..i], y[..i];
    y[i] := 0.0;
    for j := 0 to i
      invariant y[..i] == p && src[..i] == q
      invariant y[i] == if neg then -TrigSum(q, a[..], i, j) else TrigSum(q, a[..], i, j)
    {
      assert src[i - 1 - j] == q[i - (j + 1)];
      if neg {
        y[i] := y[i] - (j + 1) as real * src[i - 1 - j] * a[j + 1];
      } else {
        y[i] := y[i] + (j + 1) as real * src[i - 1 - j] * a[j + 1];
      }
    }
    y[i] := y[i] / i as real;
  }

  method FirstSIN(lib: Lib, val: array<real>, cosine: array<real>, a: array<real>)
    requires val != a && cosine != a && val != cosine && 0 < val.Length == a.Length == cosine.Length
    modifies val, cosine
    ensures TrigDone(lib, SIN, val, cosine, a, 1)
  {
    val[0] := lib.sin(a[0]);
    cosine[0] := lib.cos(a[0]);
    NextTrig(lib, SIN, a[..], [], []);
    ExtendTrig(lib, SIN, a[..], 0, [], [], val[0], cosine[0]);
    SnocArray(val, 0);
    SnocArray(cosine, 0);
  }

  method CoefSIN(lib: Lib, val: array<real>, cosine: array<real>, a: array<real>, i: nat)
    requires val != a && cosine != a && val != cosine && 0 < i < val.Length == a.Length == cosine.Length
    requires TrigDone(lib, SIN, val, cosine, a, i)
    modifies val, cosine
    ensures TrigDone(lib, SIN, val, cosine, a, i + 1)
  {
    ghost var p, q := val[..i], cosine[..i];
    TrigLoop(false, val, cosine, a, i);
    TrigLoop(true, cosine, val, a, i);
    NextTrig(lib, SIN, a[..], p, q);
    ExtendTrig(lib, SIN, a[..], i, p, q, val[i], cosine[i]);
    SnocArray(val, i);
    SnocArray(cosine, i);
  }

  method EvalSIN(lib: Lib, val: array<real>, cosine: array<real>, len: nat, a: array<real>, l: nat)
    requires val != a && cosine != a && val != cosine
    requires 0 < l <= val.Length == a.Length == cosine.Length
    requires TrigDone(lib, SIN, val, cosine, a, Min(len, l))
    modifies val, cosine
    ensures TrigDone(lib, SIN, val, cosine, a, l)
  {
    var i := len;
    if i == 0 {
      FirstSIN(lib, val, cosine, a);
      i := 1;
    }
    while i < l
      invariant i > 0
      invariant TrigDone(lib, SIN, val, cosine, a, Min(i, l))
    {
      CoefSIN(lib, val, cosine, a, i);
      i := i + 1;
    }
  }

  method FirstCOS(lib: Lib, val: array<real>, sine: array<real>, a: array<real>)
    requires val != a && sine != a && val != sine && 0 < val.Length == a.Length == sine.Length
    modifies val, sine
    ensures TrigDone(lib, COS, val, sine, a, 1)
  {
    val[0] := lib.cos(a[0]);
    sine[0] := lib.sin(a[0]);
    NextTrig(lib, COS, a[..], [], []);
    ExtendTrig(lib, COS, a[..], 0, [], [], val[0], sine[0]);
    SnocArray(val, 0);
    SnocArray(sine, 0);
  }

  method CoefCOS(lib: Lib, val: array<real>, sine: array<real>, a: array<real>, i: nat)
    requires val != a && sine != a && val != sine && 0 < i < val.Length == a.Length == sine.Length
    requires TrigDone(lib, COS, val, sine, a, i)
    modifies val, sine
    ensures TrigDone(lib, COS, val, sine, a, i + 1)
  {
    ghost var p, q := val[..i], sine[..i];
    TrigLoop(true, val, sine, a, i);
    TrigLoop(false, sine, val, a, i);
    NextTrig(lib, COS, a[..], p, q);
    ExtendTrig(lib, COS, a[..], i, p, q, val[i], sine[i]);
    SnocArray(val, i);
    SnocArray(sine, i);
  }

  method EvalCOS(lib: Lib, val: array<real>, sine: array<real>, len: nat, a: array<real>, l: nat)
    requires val != a && sine != a && val != sine
    requires 0 < l <= val.Length == a.Length == sine.Length
    requires TrigDone(lib, COS, val, sine, a, Min(len, l))
    modifies val, sine
    ensures TrigDone(lib, COS, val, sine, a, l)
  {
    var i := len;
    if i == 0 {
      FirstCOS(lib, val, sine, a);
      i := 1;
    }
    while i < l
      invariant i > 0
      invariant TrigDone(lib, COS, val, sine, a, Min(i, l))
    {
      CoefCOS(lib, val, sine, a, i);
      i := i + 1;
    }
  }
}
