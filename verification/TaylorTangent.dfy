/** The order-1 Taylor coefficient of every operator is its forward derivative, so that the three
    differentiation templates agree on every recorded computation. */
module TaylorTangent {
  import opened Ops
  import opened Series
  import opened TaylorSeries
  import opened TaylorScratch
  import opened Recording
  import opened Forward

  // ---------------------------------------------------------------- order 1 of each operator

  lemma ProductOne(a: seq<real>, b: seq<real>)
    requires |a| >= 2 && |b| >= 2
    ensures ConvSum(a, b, 1, 2) == a[0] * b[1] + a[1] * b[0]
  {
    assert ConvSum(a, b, 1, 1) == ConvSum(a, b, 1, 0) + a[0] * b[1];
  }

  lemma QuotientRestOne(b: seq<real>, p: seq<real>)
    requires |b| >= 2 && |p| >= 1
    ensures ConvFrom1(b, p, 1, 2) == b[1] * p[0]
  {
    assert ConvFrom1(b, p, 1, 1) == 0.0;
  }

  lemma SquareOne(a: seq<real>)
    requires |a| >= 2
    ensures SquareHalved(a, 1) == 2.0 * (a[0] * a[1])
  {
    assert HalfSum(a, 1, 0, 1) == HalfSum(a, 1, 0, 0) + a[1] * a[0];
  }

  lemma ExpOne(a: seq<real>, p: seq<real>)
    requires |a| >= 2 && |p| >= 1
    ensures ExpSum(a, p, 1, 1) == a[1] * p[0]
  {
    assert Weight(0, 1) == 1.0;
    assert ExpSum(a, p, 1, 0) == 0.0;
  }

  lemma TrigOne(q: seq<real>, a: seq<real>)
    requires |a| >= 2 && |q| >= 1
    ensures TrigSum(q, a, 1, 1) == q[0] * a[1]
  {
    assert TrigSum(q, a, 1, 0) == 0.0;
  }

  /** What follows the order-0 coefficient of a unary operator is one entry of its forward gradient. */
  lemma UnNextOne(lib: Lib, g: UnFn, a: seq<real>, p: seq<real>, q: seq<real>, x: real, d: real)
    requires |p| == |q| == 1 && |a| == 2 && a[0] == x && a[1] == d && UnDefined(lib, g, x)
    requires p[0] == UnValue(lib, g, x)
    requires (g == SIN ==> q[0] == lib.cos(x)) && (g == COS ==> q[0] == lib.sin(x))
    ensures UnNext(lib, g, a, p, q).0 == UnGrad(lib, g, x, d)
  {
    match g
    case DIV1(k) =>
      QuotientRestOne(a, p);
      ReciprocalOne(lib, k, x, d);
    case SQR => SquareOne(a);
    case SQRT => SqrtOne(lib, a, p);
    case EXP => ExpOne(a, p);
    case LOG =>
    case SIN => TrigOne(q, a);
    case COS => TrigOne(q, a);
    case _ => PlainOne(lib, g, a, p, q, x, d);
  }

  lemma PlainOne(lib: Lib, g: UnFn, a: seq<real>, p: seq<real>, q: seq<real>, x: real, d: real)
    requires |p| == |q| == 1 && |a| == 2 && a[0] == x && a[1] == d
    requires g.ADD1? || g.ADD2? || g.SUB1? || g.SUB2? || g.MUL1? || g.MUL2? || g.DIV2? || g.UMINUS? || g.UPLUS?
    ensures UnNext(lib, g, a, p, q).0 == UnGrad(lib, g, x, d)
  {
  }

  lemma ReciprocalOne(lib: Lib, k: real, x: real, d: real)
    requires x != 0.0
    ensures Div(lib, 0.0 - d * Div(lib, k, x), x) == UnGrad(lib, DIV1(k), x, d)
  {
    var q := k / x;
    MovedOver(d, q, x, q / x);
  }

  lemma MovedOver(d: real, q: real, x: real, r: real)
    requires x != 0.0 && r * x == q
    ensures (0.0 - d * q) / x == -r * d
  {
    assert (-r * d) * x == 0.0 - d * q;
    QuotientUnique(-r * d, 0.0 - d * q, x);
  }

  lemma SqrtOne(lib: Lib, a: seq<real>, p: seq<real>)
    requires |a| == 2 && |p| == 1 && p[0] == lib.sqrt(a[0])
    ensures SqrtCoefficient(lib, a, p, 1) == UnGrad(lib, SQRT, a[0], a[1])
  {
    assert HalfSum(p, 1, 1, 1) == 0.0;
    assert SquareRest(p, 1) == 0.0;
  }

  lemma BinNextOne(lib: Lib, f: BinFn, a: seq<real>, b: seq<real>, p: seq<real>, x: real, y: real, d: real, e: real)
    requires |p| == 1 && |a| == |b| == 2 && a[0] == x && b[0] == y && a[1] == d && b[1] == e && (f == DIV ==> y != 0.0)
    requires p[0] == BinValue(lib, f, x, y)
    ensures BinNext(lib, f, a, b, p) == BinGrad(lib, f, x, y, d, e)
  {
    match f
    case ADD =>
    case SUB =>
    case MUL => ProductOne(a, b);
    case DIV => QuotientRestOne(b, p);
  }

  /** Two coefficients of a unary node: its value and its derivative. */
  lemma UnOrderOne(lib: Lib, g: UnFn, a: seq<real>)
    requires |a| == 2 && UnDefined(lib, g, a[0])
    ensures UnFill(lib, g, a, 2).0 == [UnValue(lib, g, a[0]), UnGrad(lib, g, a[0], a[1])]
  {
    UnFillLocal(lib, g, a, a[..1], 1);
    FirstOfUn(lib, g, a[..1]);
    var r := UnFill(lib, g, a, 1);
    UnFillSized(lib, g, a);
    UnNextOne(lib, g, a, r.0, r.1, a[0], a[1]);
    UnSecond(lib, g, a);
  }

  lemma UnFillSized(lib: Lib, g: UnFn, a: seq<real>)
    requires |a| == 2
    ensures |UnFill(lib, g, a, 1).0| == |UnFill(lib, g, a, 1).1| == 1
  {
  }

  lemma UnSecond(lib: Lib, g: UnFn, a: seq<real>)
    requires |a| == 2
    ensures var r := UnFill(lib, g, a, 1); UnFill(lib, g, a, 2).0 == r.0 + [UnNext(lib, g, a, r.0, r.1).0]
  {
  }

  lemma BinOrderOne(lib: Lib, f: BinFn, a: seq<real>, b: seq<real>)
    requires |a| == |b| == 2 && (f == DIV ==> b[0] != 0.0)
    ensures BinFill(lib, f, a, b, 2) == [BinValue(lib, f, a[0], b[0]), BinGrad(lib, f, a[0], b[0], a[1], b[1])]
  {
    BinFillLocal(lib, f, a, a[..1], b, b[..1], 1);
    FirstOfBin(lib, f, a[..1], b[..1]);
    var p := BinFill(lib, f, a, b, 1);
    BinNextOne(lib, f, a, b, p, a[0], b[0], a[1], b[1]);
    BinSecond(lib, f, a, b);
  }

  lemma BinSecond(lib: Lib, f: BinFn, a: seq<real>, b: seq<real>)
    requires |a| == |b| == 2
    ensures BinFill(lib, f, a, b, 2) == BinFill(lib, f, a, b, 1) + [BinNext(lib, f, a, b, BinFill(lib, f, a, b, 1))]
  {
  }

  // ---------------------------------------------------------------- whole computations

  /** Leaf x carries the series xs[x] + 1 h, every other leaf a constant. */
  predicate Seeded(ops: seq<Op>, leaves: seq<seq<real>>, xs: seq<real>, x: nat) {
    && |ops| == |leaves| == |xs|
    && forall k :: 0 <= k < |ops| && ops[k].Leaf? ==>
         |leaves[k]| >= 2 && leaves[k][0] == xs[k] && leaves[k][1] == if k == x then 1.0 else 0.0
  }

  lemma UnFollowing(lib: Lib, g: UnFn, a: seq<real>, x: real, d: real, y: real, e: real)
    requires a == [x, d] && UnDefined(lib, g, x) && y == UnValue(lib, g, x) && e == UnSlope(lib, g, x) * d
    ensures UnFill(lib, g, a, 2).0 == [y, e]
  {
    UnOrderOne(lib, g, a);
    UnGradIsSlope(lib, g, x, d);
  }

  /** Evaluated to order 1, every node holds its value and its derivative with respect to x. */
  lemma {:induction false} TaylorIsTangent(lib: Lib, ops: seq<Op>, leaves: seq<seq<real>>, N: nat, xs: seq<real>,
          x: nat, v: nat)
    requires WellFormed(ops) && LeavesFull(ops, leaves, N) && N >= 2 && v < |ops|
    requires Seeded(ops, leaves, xs, x) && Defined(lib, ops, xs)
    ensures Scratch(lib, ops, leaves, N, v, 2).0 == [Vals(lib, ops, xs)[v], Tangents(lib, ops, xs, x)[v]]
    decreases v
  {
    assert NodeDefined(lib, ops[v], Vals(lib, ops, xs));
    if ops[v].Leaf? {
      ValsAt(lib, ops, xs, v);
      TangentsAt(lib, ops, xs, x, v);
      assert leaves[v][..2] == [leaves[v][0], leaves[v][1]];
    } else if ops[v].Un? {
      TaylorIsTangent(lib, ops, leaves, N, xs, x, ops[v].o);
      TaylorUn(lib, ops, leaves, N, xs, x, v);
    } else {
      TaylorIsTangent(lib, ops, leaves, N, xs, x, ops[v].l);
      TaylorIsTangent(lib, ops, leaves, N, xs, x, ops[v].r);
      TaylorBin(lib, ops, leaves, N, xs, x, v);
    }
  }

  /** Order 0 and 1 of node v are its value and its derivative. */
  ghost predicate FollowsAt(lib: Lib, ops: seq<Op>, leaves: seq<seq<real>>, N: nat, xs: seq<real>, x: nat, v: nat)
    requires WellFormed(ops) && LeavesFull(ops, leaves, N) && N >= 2 && v < |ops| && |xs| == |ops|
  {
    Scratch(lib, ops, leaves, N, v, 2).0 == [Vals(lib, ops, xs)[v], Tangents(lib, ops, xs, x)[v]]
  }

  lemma TaylorUn(lib: Lib, ops: seq<Op>, leaves: seq<seq<real>>, N: nat, xs: seq<real>, x: nat, v: nat)
    requires WellFormed(ops) && LeavesFull(ops, leaves, N) && N >= 2 && v < |ops| && |xs| == |ops| && ops[v].Un?
    requires NodeDefined(lib, ops[v], Vals(lib, ops, xs))
    requires FollowsAt(lib, ops, leaves, N, xs, x, ops[v].o)
    ensures Scratch(lib, ops, leaves, N, v, 2).0 == [Vals(lib, ops, xs)[v], Tangents(lib, ops, xs, x)[v]]
  {
    ValsUn(lib, ops, xs, v);
    TangentsUn(lib, ops, xs, x, v);
    var o := ops[v].o;
    UnFollowing(lib, ops[v].g, Scratch(lib, ops, leaves, N, o, 2).0,
                Vals(lib, ops, xs)[o], Tangents(lib, ops, xs, x)[o],
                Vals(lib, ops, xs)[v], Tangents(lib, ops, xs, x)[v]);
  }

  lemma TaylorBin(lib: Lib, ops: seq<Op>, leaves: seq<seq<real>>, N: nat, xs: seq<real>, x: nat, v: nat)
    requires WellFormed(ops) && LeavesFull(ops, leaves, N) && N >= 2 && v < |ops| && |xs| == |ops| && ops[v].Bin?
    requires NodeDefined(lib, ops[v], Vals(lib, ops, xs))
    requires FollowsAt(lib, ops, leaves, N, xs, x, ops[v].l)
    requires FollowsAt(lib, ops, leaves, N, xs, x, ops[v].r)
    ensures Scratch(lib, ops, leaves, N, v, 2).0 == [Vals(lib, ops, xs)[v], Tangents(lib, ops, xs, x)[v]]
  {
    var l, r := ops[v].l, ops[v].r;
    ValsBin(lib, ops, xs, v);
    TangentsBin(lib, ops, xs, x, v);
    BinOrderOne(lib, ops[v].f, Scratch(lib, ops, leaves, N, l, 2).0, Scratch(lib, ops, leaves, N, r, 2).0);
    BinGradIsRule(lib, ops[v].f, Vals(lib, ops, xs)[l], Vals(lib, ops, xs)[r],
                  Tangents(lib, ops, xs, x)[l], Tangents(lib, ops, xs, x)[r]);
  }

  /** Taylor and forward differentiation agree: order 1 of every node is the gradient entry of the
      column given to x. */
  lemma TaylorIsForward(lib: Lib, ops: seq<Op>, leaves: seq<seq<real>>, N: nat, xs: seq<real>, x: nat, v: nat,
          columns: map<nat, nat>, m: nat)
    requires WellFormed(ops) && LeavesFull(ops, leaves, N) && N >= 2 && v < |ops|
    requires Seeded(ops, leaves, xs, x) && Defined(lib, ops, xs)
    requires x in columns && columns[x] < m && forall y :: y in columns && columns[y] == columns[x] ==> y == x
    ensures var t, r := Scratch(lib, ops, leaves, N, v, 2).0, FRun(lib, ops, xs, columns, m)[v];
            t[0] == r.val && t[1] == r.Deriv(columns[x])
  {
    TaylorIsTangent(lib, ops, leaves, N, xs, x, v);
    ForwardIsTangent(lib, ops, xs, columns, m, x, v);
  }
}
