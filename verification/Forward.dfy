/** Forward differentiation (fadiff.h, heap-based form) on values: a number carries its value and
    its gradient, and an empty gradient means that it depends on nothing.  The formulas are those
    of the operators; the lemmas say that skipping the independent operands loses nothing, and
    that running a recorded computation forward gives its derivatives. */
module Forward {
  import opened Ops
  import opened Recording

  datatype FVal = FVal(val: real, grad: seq<real>) {
    predicate Depends() { |grad| > 0 }

    /** `deriv(i)`: zero beyond the stored gradient. */
    function Deriv(i: nat): real {
      if i < |grad| then grad[i] else 0.0
    }
  }

  /** Gradient entries of operands and results are all empty or of the common length n. */
  predicate Sized(a: FVal, n: nat) {
    |a.grad| == 0 || |a.grad| == n
  }

  // ---------------------------------------------------------------- the operators' formulas

  /** One gradient entry of a unary operator at x, d being the operand's entry. */
  function UnGrad(lib: Lib, g: UnFn, x: real, d: real): real {
    match g
    case ADD1(_) => d
    case ADD2(_) => d
    case SUB1(_) => -d
    case SUB2(_) => d
    case MUL1(k) => d * k
    case MUL2(k) => d * k
    case DIV1(k) => -Div(lib, Div(lib, k, x), x) * d
    case DIV2(k) => Div(lib, d, k)
    case UMINUS => -d
    case UPLUS => d
    case SQR => d * (2.0 * x)
    case SQRT => Div(lib, d, lib.sqrt(x) * 2.0)
    case EXP => d * lib.exp(x)
    case LOG => Div(lib, d, x)
    case SIN => d * lib.cos(x)
    case COS => d * -lib.sin(x)
  }

  /** One gradient entry when both operands depend on something (add3, sub3, mul3, div3). */
  function BinGrad(lib: Lib, f: BinFn, x: real, y: real, d: real, e: real): real {
    match f
    case ADD => d + e
    case SUB => d - e
    case MUL => d * y + e * x
    case DIV => QuotientEntry(lib, Div(lib, x, y), y, d, e)
  }

  /** q is the quotient. */
  function QuotientEntry(lib: Lib, q: real, y: real, d: real, e: real): real {
    Div(lib, d - q * e, y)
  }

  /** The operator with the second operand constant (add2, sub2, mul2, div2). */
  function ConstantRight(f: BinFn, y: real): UnFn {
    match f
    case ADD => ADD2(y)
    case SUB => SUB2(y)
    case MUL => MUL2(y)
    case DIV => DIV2(y)
  }

  /** The operator with the first operand constant (add1, sub1, mul1, div1). */
  function ConstantLeft(f: BinFn, x: real): UnFn {
    match f
    case ADD => ADD1(x)
    case SUB => SUB1(x)
    case MUL => MUL1(x)
    case DIV => DIV1(x)
  }

  function FUn(lib: Lib, g: UnFn, a: FVal): (c: FVal)
    ensures |c.grad| == |a.grad|
  {
    FVal(UnValue(lib, g, a.val), seq(|a.grad|, i requires 0 <= i < |a.grad| => UnGrad(lib, g, a.val, a.grad[i])))
  }

  /** The switch on which operands depend on something. */
  function FBin(lib: Lib, f: BinFn, a: FVal, b: FVal): FVal
    requires a.Depends() && b.Depends() ==> |a.grad| == |b.grad|
  {
    if !a.Depends() && !b.Depends() then FVal(BinValue(lib, f, a.val, b.val), [])
    else if !b.Depends() then FUn(lib, ConstantRight(f, b.val), a)
    else if !a.Depends() then FUn(lib, ConstantLeft(f, a.val), b)
    else FVal(BinValue(lib, f, a.val, b.val),
              seq(|a.grad|, i requires 0 <= i < |a.grad| => BinGrad(lib, f, a.val, b.val, a.grad[i], b.grad[i])))
  }

  function UnitVector(i: nat, n: nat): (u: seq<real>)
    ensures |u| == n
  {
    seq(n, j => if j == i then 1.0 else 0.0)
  }

  // ---------------------------------------------------------------- the rules they implement

  lemma OverIsDiv(lib: Lib, x: real, y: real)
    requires y != 0.0
    ensures Div(lib, x, y) == Over(1.0, y) * x
  {
  }

  lemma ReciprocalGrad(lib: Lib, k: real, x: real, d: real)
    requires x != 0.0
    ensures UnGrad(lib, DIV1(k), x, d) == UnSlope(lib, DIV1(k), x) * d
  {
    var q := k / x;
    DividedTwice(k, x, q, q / x);
  }

  lemma DividedTwice(k: real, x: real, q: real, r: real)
    requires x != 0.0 && q * x == k && r * x == q
    ensures x * x != 0.0 && k / (x * x) == r
  {
    var y := ProductNonZero(x, x);
    SameTimes(r * x, q, x);
    assert r * y == (r * x) * x;
    QuotientUnique(r, k, y);
  }

  lemma SameTimes(a: real, b: real, x: real)
    requires a == b
    ensures a * x == b * x
  {
  }

  lemma QuotientUnique(q: real, x: real, y: real)
    requires y != 0.0 && q * y == x
    ensures x / y == q
  {
  }

  /** Each unary formula is the textbook derivative times the operand's entry. */
  lemma UnGradIsSlope(lib: Lib, g: UnFn, x: real, d: real)
    requires UnDefined(lib, g, x)
    ensures UnGrad(lib, g, x, d) == UnSlope(lib, g, x) * d
  {
    if g.DIV1? || g.DIV2? || g.SQRT? || g.LOG? {
      UnGradQuotients(lib, g, x, d);
    } else {
      UnGradProducts(lib, g, x, d);
    }
  }

  lemma UnGradQuotients(lib: Lib, g: UnFn, x: real, d: real)
    requires UnDefined(lib, g, x) && (g.DIV1? || g.DIV2? || g.SQRT? || g.LOG?)
    ensures UnGrad(lib, g, x, d) == UnSlope(lib, g, x) * d
  {
    if g.DIV1? {
      ReciprocalGrad(lib, g.a, x, d);
    } else {
      OverIsDiv(lib, d, if g.DIV2? then g.b else if g.SQRT? then lib.sqrt(x) * 2.0 else x);
    }
  }

  lemma UnGradProducts(lib: Lib, g: UnFn, x: real, d: real)
    requires !(g.DIV1? || g.DIV2? || g.SQRT? || g.LOG?)
    ensures UnGrad(lib, g, x, d) == UnSlope(lib, g, x) * d
  {
  }

  lemma QuotientGrad(lib: Lib, x: real, y: real, d: real, e: real)
    requires y != 0.0
    ensures BinGrad(lib, DIV, x, y, d, e) == BinTangent(DIV, x, y, d, e)
  {
    var q := x / y;
    assert q * y == x;
    var w := 1.0 / y;
    assert w * y == 1.0;
    assert y * y != 0.0;
    assert (q * w) * (y * y) == (q * y) * (w * y);
    assert x / (y * y) == q * w;
    assert (d - q * e) / y == (d - q * e) * w;
    assert (d - q * e) * w == w * d - (q * w) * e;
  }

  lemma BinGradIsRule(lib: Lib, f: BinFn, x: real, y: real, d: real, e: real)
    requires f == DIV ==> y != 0.0
    ensures BinGrad(lib, f, x, y, d, e) == BinTangent(f, x, y, d, e)
  {
    if f == DIV {
      QuotientGrad(lib, x, y, d, e);
    }
  }

  /** A constant operand is an operand whose gradient entry is zero. */
  lemma ConstantRightIsZero(lib: Lib, f: BinFn, x: real, y: real, d: real)
    requires f == DIV ==> y != 0.0
    ensures UnSlope(lib, ConstantRight(f, y), x) == BinSlopes(f, x, y).0
    ensures BinTangent(f, x, y, d, 0.0) == BinSlopes(f, x, y).0 * d
    ensures UnDefined(lib, ConstantRight(f, y), x) && UnValue(lib, ConstantRight(f, y), x) == BinValue(lib, f, x, y)
  {
    ConstantValues(lib, f, x, y);
  }

  lemma ConstantValues(lib: Lib, f: BinFn, x: real, y: real)
    ensures UnValue(lib, ConstantRight(f, y), x) == BinValue(lib, f, x, y)
    ensures UnValue(lib, ConstantLeft(f, x), y) == BinValue(lib, f, x, y)
  {
  }

  lemma ConstantLeftIsZero(lib: Lib, f: BinFn, x: real, y: real, d: real)
    requires f == DIV ==> y != 0.0
    ensures UnSlope(lib, ConstantLeft(f, x), y) == BinSlopes(f, x, y).1
    ensures BinTangent(f, x, y, 0.0, d) == BinSlopes(f, x, y).1 * d
    ensures UnDefined(lib, ConstantLeft(f, x), y) && UnValue(lib, ConstantLeft(f, x), y) == BinValue(lib, f, x, y)
  {
    ConstantValues(lib, f, x, y);
  }

  /** Whichever operands are skipped as independent, the result is that of dense dual arithmetic,
      in which an independent operand has a gradient of zeros. */
  lemma DependSwitchIsDense(lib: Lib, f: BinFn, a: FVal, b: FVal, n: nat, i: nat)
    requires Sized(a, n) && Sized(b, n) && i < n && (f == DIV ==> b.val != 0.0)
    ensures var c := FBin(lib, f, a, b);
            && Sized(c, n)
            && c.val == BinValue(lib, f, a.val, b.val)
            && c.Deriv(i) == BinTangent(f, a.val, b.val, a.Deriv(i), b.Deriv(i))
  {
    var d, e := a.Deriv(i), b.Deriv(i);
    if a.Depends() && b.Depends() {
      BinGradIsRule(lib, f, a.val, b.val, d, e);
    } else if a.Depends() {
      ConstantRightIsZero(lib, f, a.val, b.val, d);
      UnGradIsSlope(lib, ConstantRight(f, b.val), a.val, d);
    } else if b.Depends() {
      ConstantLeftIsZero(lib, f, a.val, b.val, e);
      UnGradIsSlope(lib, ConstantLeft(f, a.val), b.val, e);
    } else {
      NoDependence(f, a.val, b.val);
    }
  }

  lemma NoDependence(f: BinFn, x: real, y: real)
    ensures BinTangent(f, x, y, 0.0, 0.0) == 0.0
  {
  }

  lemma UnaryIsDense(lib: Lib, g: UnFn, a: FVal, n: nat, i: nat)
    requires Sized(a, n) && i < n && UnDefined(lib, g, a.val)
    ensures Sized(FUn(lib, g, a), n)
    ensures FUn(lib, g, a).val == UnValue(lib, g, a.val)
    ensures FUn(lib, g, a).Deriv(i) == UnSlope(lib, g, a.val) * a.Deriv(i)
  {
    UnaryValue(lib, g, a);
    if a.Depends() {
      var e := UnGrad(lib, g, a.val, a.grad[i]);
      UnaryEntry(lib, g, a, i, e);
      UnGradIsSlope(lib, g, a.val, a.grad[i]);
    } else {
      ZeroGrad(lib, g, a.val);
    }
  }

  lemma UnaryValue(lib: Lib, g: UnFn, a: FVal)
    ensures FUn(lib, g, a).val == UnValue(lib, g, a.val)
  {
  }

  lemma UnaryEntry(lib: Lib, g: UnFn, a: FVal, i: nat, e: real)
    requires i < |a.grad| && e == UnGrad(lib, g, a.val, a.grad[i])
    ensures FUn(lib, g, a).Deriv(i) == e
  {
  }

  lemma ZeroGrad(lib: Lib, g: UnFn, x: real)
    ensures UnSlope(lib, g, x) * 0.0 == 0.0
  {
  }

  // ---------------------------------------------------------------- running a computation forward

  /** Every node as a forward number: leaf k was given `diff(columns[k], n)` if it has a column. */
  function FRun(lib: Lib, ops: seq<Op>, xs: seq<real>, columns: map<nat, nat>, n: nat): (r: seq<FVal>)
    requires WellFormed(ops) && |xs| == |ops|
    ensures |r| == |ops| && forall k :: 0 <= k < |r| ==> Sized(r[k], n)
  {
    if ops == [] then [] else
    var m := |ops| - 1;
    var p := FRun(lib, ops[..m], xs[..m], columns, n);
    p + [FNode(lib, ops[m], xs[m], if m in columns then UnitVector(columns[m], n) else [], p, n)]
  }

  function FNode(lib: Lib, op: Op, x: real, seed: seq<real>, p: seq<FVal>, n: nat): FVal
    requires OperandsBelow(op, |p|) && forall k :: 0 <= k < |p| ==> Sized(p[k], n)
  {
    match op
    case Leaf => FVal(x, seed)
    case Un(g, o) => FUn(lib, g, p[o])
    case Bin(f, l, r) =>
      assert Sized(p[l], n) && Sized(p[r], n);
      FBin(lib, f, p[l], p[r])
  }

  /** Forward differentiation computes the values and the derivatives: entry c of every node is its
      derivative with respect to the leaf that was given column c. */
  lemma {:induction false} ForwardIsTangent(lib: Lib, ops: seq<Op>, xs: seq<real>, columns: map<nat, nat>, n: nat,
          x: nat, k: nat)
    requires WellFormed(ops) && |xs| == |ops| && k < |ops| && Defined(lib, ops, xs)
    requires x in columns && columns[x] < n
    requires forall y :: y in columns && columns[y] == columns[x] ==> y == x
    ensures var r := FRun(lib, ops, xs, columns, n);
            r[k].val == Vals(lib, ops, xs)[k] && r[k].Deriv(columns[x]) == Tangents(lib, ops, xs, x)[k]
    decreases |ops|, 1
  {
    var m := |ops| - 1;
    DefinedPrefix(lib, ops, xs, m);
    if k < m {
      ForwardIsTangent(lib, ops[..m], xs[..m], columns, n, x, k);
    } else {
      ForwardLast(lib, ops, xs, columns, n, x);
    }
  }

  lemma {:induction false} ForwardLast(lib: Lib, ops: seq<Op>, xs: seq<real>, columns: map<nat, nat>, n: nat, x: nat)
    requires WellFormed(ops) && |xs| == |ops| > 0 && Defined(lib, ops, xs)
              && Defined(lib, ops[..|ops| - 1], xs[..|ops| - 1])
    requires x in columns && columns[x] < n
    requires forall y :: y in columns && columns[y] == columns[x] ==> y == x
    ensures var m, r := |ops| - 1, FRun(lib, ops, xs, columns, n);
            r[m].val == Vals(lib, ops, xs)[m] && r[m].Deriv(columns[x]) == Tangents(lib, ops, xs, x)[m]
    decreases |ops|, 0
  {
    var m, c := |ops| - 1, columns[x];
    var p := FRun(lib, ops[..m], xs[..m], columns, n);
    var v, t := Vals(lib, ops[..m], xs[..m]), Tangents(lib, ops[..m], xs[..m], x);
    forall k | 0 <= k < m
      ensures p[k].val == v[k] && p[k].Deriv(c) == t[k]
    {
      ForwardIsTangent(lib, ops[..m], xs[..m], columns, n, x, k);
    }
    assert NodeDefined(lib, ops[m], v) by {
      assert NodeDefined(lib, ops[m], Vals(lib, ops, xs));
      ValsPrefix(lib, ops, xs, m);
    }
    ForwardNode(lib, ops[m], xs[m], if m in columns then UnitVector(columns[m], n) else [], p, v, t, n, c, m == x);
    TangentsLast(lib, ops, xs, x, m);
  }

  /** One node, given that its operands are right. */
  lemma ForwardNode(lib: Lib, op: Op, x: real, seed: seq<real>, p: seq<FVal>, v: seq<real>, t: seq<real>, n: nat,
          c: nat, isX: bool)
    requires |p| == |v| == |t| && OperandsBelow(op, |p|) && c < n && NodeDefined(lib, op, v)
    requires forall k :: 0 <= k < |p| ==> Sized(p[k], n) && p[k].val == v[k] && p[k].Deriv(c) == t[k]
    requires FVal(x, seed).Deriv(c) == if isX then 1.0 else 0.0
    ensures var r := FNode(lib, op, x, seed, p, n);
            r.val == NodeValue(lib, op, v, x) && r.Deriv(c) == NodeTangent(lib, op, v, t, isX)
  {
    match op
    case Leaf =>
    case Un(g, o) => UnaryIsDense(lib, g, p[o], n, c);
    case Bin(f, l, r) => DependSwitchIsDense(lib, f, p[l], p[r], n, c);
  }
}
