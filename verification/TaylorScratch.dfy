/** What a recorded DAG of tadiff.h nodes should hold: evaluation from scratch, without any
    memory of earlier evaluations, and the fact that makes incremental evaluation possible:
    the coefficients below order n depend only on the leaf coefficients below order n. */
module TaylorScratch {
  import opened Ops
  import opened Series
  import opened TaylorSeries

  lemma {:induction false} BinFillLocal(lib: Lib, f: BinFn, a: seq<real>, a': seq<real>, b: seq<real>,
          b': seq<real>, n: nat)
    requires n <= |a| && n <= |a'| && n <= |b| && n <= |b'| && a[..n] == a'[..n] && b[..n] == b'[..n]
    ensures BinFill(lib, f, a, b, n) == BinFill(lib, f, a', b', n)
  {
    if n > 0 {
      var i := n - 1;
      assert a[..i] == a[..n][..i] && a'[..i] == a'[..n][..i];
      assert b[..i] == b[..n][..i] && b'[..i] == b'[..n][..i];
      BinFillLocal(lib, f, a, a', b, b', i);
      BinNextLocal(lib, f, a, a', b, b', BinFill(lib, f, a, b, i));
    }
  }

  lemma BinNextLocal(lib: Lib, f: BinFn, a: seq<real>, a': seq<real>, b: seq<real>, b': seq<real>, p: seq<real>)
    requires |p| < |a| && |p| < |b| && |p| < |a'| && |p| < |b'|
    requires a[..|p| + 1] == a'[..|p| + 1] && b[..|p| + 1] == b'[..|p| + 1]
    ensures BinNext(lib, f, a, b, p) == BinNext(lib, f, a', b', p)
  {
    var i := |p|;
    assert a[i] == a[..i + 1][i] == a'[i] && b[i] == b[..i + 1][i] == b'[i];
    assert b[0] == b[..i + 1][0] == b'[0];
    ConvSumPrefix(a, a', b, b', i, i + 1);
    ConvFrom1Local(b, b', p, i, i + 1);
  }

  lemma {:induction false} ConvFrom1Local(a: seq<real>, a': seq<real>, p: seq<real>, i: nat, j: nat)
    requires i < |a| && i < |a'| && i <= |p| && 1 <= j <= i + 1 && a[..i + 1] == a'[..i + 1]
    ensures ConvFrom1(a, p, i, j) == ConvFrom1(a', p, i, j)
  {
    if j > 1 {
      ConvFrom1Local(a, a', p, i, j - 1);
      assert a[j - 1] == a[..i + 1][j - 1] == a'[j - 1];
    }
  }

  lemma {:induction false} HalfSumLocal(a: seq<real>, a': seq<real>, i: nat, m: nat)
    requires i < |a| && i < |a'| && m <= i + 1 && a[..i + 1] == a'[..i + 1]
    ensures HalfSum(a, i, 0, m) == HalfSum(a', i, 0, m)
  {
    if m > 0 {
      HalfSumLocal(a, a', i, m - 1);
      assert a[m - 1] == a[..i + 1][m - 1] == a'[m - 1];
      assert a[i - (m - 1)] == a[..i + 1][i - (m - 1)] == a'[i - (m - 1)];
    }
  }

  lemma {:induction false} ExpSumLocal(a: seq<real>, a': seq<real>, p: seq<real>, i: nat, j: nat)
    requires 0 < i < |a| && i < |a'| && i <= |p| && j <= i && a[..i + 1] == a'[..i + 1]
    ensures ExpSum(a, p, i, j) == ExpSum(a', p, i, j)
  {
    if j > 0 {
      ExpSumLocal(a, a', p, i, j - 1);
      assert a[i - (j - 1)] == a[..i + 1][i - (j - 1)] == a'[i - (j - 1)];
    }
  }

  lemma {:induction false} LogSumLocal(a: seq<real>, a': seq<real>, p: seq<real>, i: nat, j: nat)
    requires 0 < i < |a| && i < |a'| && i <= |p| && 1 <= j <= i && a[..i + 1] == a'[..i + 1]
    ensures LogSum(a, p, i, j) == LogSum(a', p, i, j)
  {
    if j > 1 {
      LogSumLocal(a, a', p, i, j - 1);
      assert a[j - 1] == a[..i + 1][j - 1] == a'[j - 1];
    }
  }

  lemma {:induction false} TrigSumLocal(q: seq<real>, a: seq<real>, a': seq<real>, i: nat, j: nat)
    requires 0 < i < |a| && i < |a'| && i <= |q| && j <= i && a[..i + 1] == a'[..i + 1]
    ensures TrigSum(q, a, i, j) == TrigSum(q, a', i, j)
  {
    if j > 0 {
      TrigSumLocal(q, a, a', i, j - 1);
      assert a[j] == a[..i + 1][j] == a'[j];
    }
  }

  lemma ExpNextLocal(lib: Lib, a: seq<real>, a': seq<real>, p: seq<real>, q: seq<real>)
    requires |p| == |q| < |a| && |p| < |a'| && a[..|p| + 1] == a'[..|p| + 1] && a[0] == a'[0]
    ensures UnNext(lib, EXP, a, p, q) == UnNext(lib, EXP, a', p, q)
  {
    if p != [] {
      ExpSumLocal(a, a', p, |p|, |p|);
    }
  }

  lemma TrigNextLocal(lib: Lib, g: UnFn, a: seq<real>, a': seq<real>, p: seq<real>, q: seq<real>)
    requires |p| == |q| < |a| && |p| < |a'| && a[..|p| + 1] == a'[..|p| + 1] && a[0] == a'[0]
    requires g == SIN || g == COS
    ensures UnNext(lib, g, a, p, q) == UnNext(lib, g, a', p, q)
  {
    if p != [] {
      TrigSumLocal(p, a, a', |p|, |p|);
      TrigSumLocal(q, a, a', |p|, |p|);
    }
  }

  lemma UnNextLocal(lib: Lib, g: UnFn, a: seq<real>, a': seq<real>, p: seq<real>, q: seq<real>)
    requires |p| == |q| < |a| && |p| < |a'| && a[..|p| + 1] == a'[..|p| + 1]
    ensures UnNext(lib, g, a, p, q) == UnNext(lib, g, a', p, q)
  {
    var i := |p|;
    assert a[i] == a[..i + 1][i] == a'[i];
    assert a[0] == a[..i + 1][0] == a'[0];
    match g
    case DIV1(k) => DivNextLocal(lib, k, a, a', p, q);
    case SQR => SquareNextLocal(lib, a, a', p, q);
    case EXP => ExpNextLocal(lib, a, a', p, q);
    case LOG => LogNextLocal(lib, a, a', p, q);
    case SIN => TrigNextLocal(lib, g, a, a', p, q);
    case COS => TrigNextLocal(lib, g, a, a', p, q);
    case _ => PlainNextLocal(lib, g, a, a', p, q);
  }

  /** The operators that read no coefficients below the last. */
  lemma PlainNextLocal(lib: Lib, g: UnFn, a: seq<real>, a': seq<real>, p: seq<real>, q: seq<real>)
    requires |p| == |q| < |a| && |p| < |a'| && a[|p|] == a'[|p|] && a[0] == a'[0]
    requires !g.DIV1? && !g.SQR? && !g.EXP? && !g.LOG? && !g.SIN? && !g.COS?
    ensures UnNext(lib, g, a, p, q) == UnNext(lib, g, a', p, q)
  {
  }

  lemma DivNextLocal(lib: Lib, k: real, a: seq<real>, a': seq<real>, p: seq<real>, q: seq<real>)
    requires |p| == |q| < |a| && |p| < |a'| && a[..|p| + 1] == a'[..|p| + 1] && a[0] == a'[0]
    ensures UnNext(lib, DIV1(k), a, p, q) == UnNext(lib, DIV1(k), a', p, q)
  {
    ConvFrom1Local(a, a', p, |p|, |p| + 1);
  }

  lemma SquareNextLocal(lib: Lib, a: seq<real>, a': seq<real>, p: seq<real>, q: seq<real>)
    requires |p| == |q| < |a| && |p| < |a'| && a[..|p| + 1] == a'[..|p| + 1]
    ensures UnNext(lib, SQR, a, p, q) == UnNext(lib, SQR, a', p, q)
  {
    var i, m := |p|, (|p| + 1) / 2;
    HalfSumLocal(a, a', i, m);
    assert a[m] == a[..i + 1][m] == a'[m];
  }

  lemma LogNextLocal(lib: Lib, a: seq<real>, a': seq<real>, p: seq<real>, q: seq<real>)
    requires |p| == |q| < |a| && |p| < |a'| && a[..|p| + 1] == a'[..|p| + 1]
    requires a[0] == a'[0] && a[|p|] == a'[|p|]
    ensures UnNext(lib, LOG, a, p, q) == UnNext(lib, LOG, a', p, q)
  {
    if p != [] {
      LogSumLocal(a, a', p, |p|, |p|);
    }
  }

  lemma {:induction false} UnFillLocal(lib: Lib, g: UnFn, a: seq<real>, a': seq<real>, n: nat)
    requires n <= |a| && n <= |a'| && a[..n] == a'[..n]
    ensures UnFill(lib, g, a, n) == UnFill(lib, g, a', n)
  {
    if n > 0 {
      var i := n - 1;
      assert a[..i] == a[..n][..i] && a'[..i] == a'[..n][..i];
      UnFillLocal(lib, g, a, a', i);
      var r := UnFill(lib, g, a, i);
      UnNextLocal(lib, g, a, a', r.0, r.1);
    }
  }

  /** The value an operator computes at construction is the coefficient of order 0. */
  lemma FirstOfUn(lib: Lib, g: UnFn, a: seq<real>)
    requires |a| == 1
    ensures UnFill(lib, g, a, 1).0 == [UnValue(lib, g, a[0])]
    ensures g == SIN ==> UnFill(lib, g, a, 1).1 == [lib.cos(a[0])]
    ensures g == COS ==> UnFill(lib, g, a, 1).1 == [lib.sin(a[0])]
  {
    var r := UnFill(lib, g, a, 0);
    assert r == ([], []);
    FirstNext(lib, g, a);
  }

  lemma FirstNext(lib: Lib, g: UnFn, a: seq<real>)
    requires |a| == 1
    ensures UnNext(lib, g, a, [], []).0 == UnValue(lib, g, a[0])
    ensures g == SIN ==> UnNext(lib, g, a, [], []).1 == lib.cos(a[0])
    ensures g == COS ==> UnNext(lib, g, a, [], []).1 == lib.sin(a[0])
  {
    assert HalfSum(a, 0, 0, 0) == 0.0;
    assert ConvFrom1(a, [], 0, 1) == 0.0;
  }

  lemma FirstOfBin(lib: Lib, f: BinFn, a: seq<real>, b: seq<real>)
    requires |a| == |b| == 1
    ensures BinFill(lib, f, a, b, 1) == [BinValue(lib, f, a[0], b[0])]
  {
    assert BinFill(lib, f, a, b, 0) == [];
    CoefAt0(a, b);
    assert ConvFrom1(b, [], 0, 1) == 0.0;
  }

  // ---------------------------------------------------------------- whole DAGs

  /** Every leaf has its full array of N coefficients. */
  predicate LeavesFull(ops: seq<Op>, leaves: seq<seq<real>>, N: nat) {
    |leaves| == |ops| && forall v :: 0 <= v < |ops| && ops[v].Leaf? ==> |leaves[v]| == N
  }

  /** The first n coefficients of node v and of its companion, from the leaf coefficients. */
  function Scratch(lib: Lib, ops: seq<Op>, leaves: seq<seq<real>>, N: nat, v: nat, n: nat): (r: (seq<real>, seq<real>))
    requires WellFormed(ops) && LeavesFull(ops, leaves, N) && v < |ops| && n <= N
    ensures |r.0| == n
    decreases v
  {
    match ops[v]
    case Leaf => (leaves[v][..n], [])
    case Un(g, o) => UnFill(lib, g, Scratch(lib, ops, leaves, N, o, n).0, n)
    case Bin(f, l, r) =>
      (BinFill(lib, f, Scratch(lib, ops, leaves, N, l, n).0, Scratch(lib, ops, leaves, N, r, n).0, n), [])
  }

  lemma {:induction false} ScratchPrefix(lib: Lib, ops: seq<Op>, leaves: seq<seq<real>>, N: nat, v: nat, n: nat, m: nat)
    requires WellFormed(ops) && LeavesFull(ops, leaves, N) && v < |ops| && m <= n <= N
    ensures Scratch(lib, ops, leaves, N, v, n).0[..m] == Scratch(lib, ops, leaves, N, v, m).0
    ensures ops[v].Un? ==>
              (|Scratch(lib, ops, leaves, N, v, n).1| == n &&
               Scratch(lib, ops, leaves, N, v, n).1[..m] == Scratch(lib, ops, leaves, N, v, m).1)
    decreases v
  {
    match ops[v]
    case Leaf => assert leaves[v][..n][..m] == leaves[v][..m];
    case Un(g, o) =>
      ScratchPrefix(lib, ops, leaves, N, o, n, m);
      var a := Scratch(lib, ops, leaves, N, o, n).0;
      UnFillPrefix(lib, g, a, n, m);
      UnFillLocal(lib, g, a, a[..m], m);
    case Bin(f, l, r) =>
      ScratchPrefix(lib, ops, leaves, N, l, n, m);
      ScratchPrefix(lib, ops, leaves, N, r, n, m);
      var a, b := Scratch(lib, ops, leaves, N, l, n).0, Scratch(lib, ops, leaves, N, r, n).0;
      BinFillPrefix(lib, f, a, b, n, m);
      BinFillLocal(lib, f, a, a[..m], b, b[..m], m);
  }

  /** Node v is x or computed from x. */
  predicate DependsOn(ops: seq<Op>, v: nat, x: nat)
    requires WellFormed(ops) && v < |ops|
    decreases v
  {
    v == x ||
    match ops[v]
    case Leaf => false
    case Un(_, o) => DependsOn(ops, o, x)
    case Bin(_, l, r) => DependsOn(ops, l, x) || DependsOn(ops, r, x)
  }

  /** Causality: replacing leaf x by a series that agrees with it below order n changes no
      coefficient below order n, and none at all of a node that does not depend on x. */
  lemma {:induction false} ScratchCausal(lib: Lib, ops: seq<Op>, leaves: seq<seq<real>>, N: nat, x: nat,
          y: seq<real>, v: nat, n: nat)
    requires WellFormed(ops) && LeavesFull(ops, leaves, N) && v < |ops| && n <= N
    requires x < |ops| && ops[x].Leaf? && |y| == N
    requires DependsOn(ops, v, x) ==> y[..n] == leaves[x][..n]
    ensures Scratch(lib, ops, leaves[x := y], N, v, n) == Scratch(lib, ops, leaves, N, v, n)
    decreases v
  {
    match ops[v]
    case Leaf =>
    case Un(g, o) => ScratchCausal(lib, ops, leaves, N, x, y, o, n);
    case Bin(f, l, r) =>
      ScratchCausal(lib, ops, leaves, N, x, y, l, n);
      ScratchCausal(lib, ops, leaves, N, x, y, r, n);
  }

  /** Recording one more node changes nothing below it. */
  lemma {:induction false} ScratchGrows(lib: Lib, ops: seq<Op>, leaves: seq<seq<real>>, N: nat, op: Op,
          y: seq<real>, v: nat, n: nat)
    requires WellFormed(ops + [op]) && LeavesFull(ops, leaves, N) && LeavesFull(ops + [op], leaves + [y], N)
    requires WellFormed(ops) && v < |ops| && n <= N
    ensures Scratch(lib, ops + [op], leaves + [y], N, v, n) == Scratch(lib, ops, leaves, N, v, n)
    decreases v
  {
    match ops[v]
    case Leaf =>
    case Un(g, o) => ScratchGrows(lib, ops, leaves, N, op, y, o, n);
    case Bin(f, l, r) =>
      ScratchGrows(lib, ops, leaves, N, op, y, l, n);
      ScratchGrows(lib, ops, leaves, N, op, y, r, n);
  }

  /** A node recorded over operands whose order-0 coefficients are known has the operator's value
      as its order-0 coefficient. */
  lemma FirstScratch(lib: Lib, ops: seq<Op>, leaves: seq<seq<real>>, N: nat, op: Op)
    requires N > 0 && WellFormed(ops) && WellFormed(ops + [op]) && !op.Leaf?
    requires LeavesFull(ops, leaves, N) && LeavesFull(ops + [op], leaves + [[]], N)
    ensures op.Un? ==>
              var s := Scratch(lib, ops + [op], leaves + [[]], N, |ops|, 1);
              var x := Scratch(lib, ops, leaves, N, op.o, 1).0[0];
              && s.0 == [UnValue(lib, op.g, x)]
              && (op.g == SIN ==> s.1 == [lib.cos(x)]) && (op.g == COS ==> s.1 == [lib.sin(x)])
    ensures op.Bin? ==>
              var s := Scratch(lib, ops + [op], leaves + [[]], N, |ops|, 1).0;
              var x, y := Scratch(lib, ops, leaves, N, op.l, 1).0[0], Scratch(lib, ops, leaves, N, op.r, 1).0[0];
              s == [BinValue(lib, op.f, x, y)]
  {
    assert (ops + [op])[|ops|] == op;
    match op
    case Un(g, o) =>
      ScratchGrows(lib, ops, leaves, N, op, [], o, 1);
      FirstOfUn(lib, g, Scratch(lib, ops, leaves, N, o, 1).0);
    case Bin(f, l, r) =>
      ScratchGrows(lib, ops, leaves, N, op, [], l, 1);
      ScratchGrows(lib, ops, leaves, N, op, [], r, 1);
      FirstOfBin(lib, f, Scratch(lib, ops, leaves, N, l, 1).0, Scratch(lib, ops, leaves, N, r, 1).0);
  }

  // ---------------------------------------------------------------- ordinary differential equations

  /** (i + 1) x[i + 1] = f[i] for the first K orders. */
  ghost predicate Equations(x: seq<real>, f: seq<real>, K: nat)
    requires K < |x| && K <= |f|
  {
    forall i {:trigger x[i + 1]} :: 0 <= i < K ==> (i + 1) as real * x[i + 1] == f[i]
  }

  /** x' = f(x) in the first K orders, f being what node xp computes from x. */
  ghost predicate SolvesODE(lib: Lib, ops: seq<Op>, leaves: seq<seq<real>>, N: nat, x: nat, xp: nat, K: nat)
    requires WellFormed(ops) && LeavesFull(ops, leaves, N) && x < |ops| && xp < |ops| && K < N
    requires ops[x].Leaf?
  {
    Equations(leaves[x], Scratch(lib, ops, leaves, N, xp, K).0, K)
  }

  lemma EquationAt(x: seq<real>, f: seq<real>, K: nat, i: nat)
    requires i < K < |x| && K <= |f| && Equations(x, f, K)
    ensures (i + 1) as real * x[i + 1] == f[i]
  {
  }

  lemma ODENext(lib: Lib, ops: seq<Op>, leaves: seq<seq<real>>, N: nat, x: nat, xp: nat, y: seq<real>, K: nat, i: nat)
    requires WellFormed(ops) && LeavesFull(ops, leaves, N) && x < |ops| && xp < |ops| && K < N && i < K
    requires ops[x].Leaf? && |y| == N && y[..i + 1] == leaves[x][..i + 1]
    requires SolvesODE(lib, ops, leaves, N, x, xp, K)
    requires SolvesODE(lib, ops, leaves[x := y], N, x, xp, K)
    ensures y[i + 1] == leaves[x][i + 1]
  {
    ScratchCoefCausal(lib, ops, leaves, N, x, xp, y, K, i);
    var c := Scratch(lib, ops, leaves, N, xp, K).0[i];
    assert leaves[x := y][x] == y;
    ODECoefficient(lib, ops, leaves, N, x, xp, K, i, c);
    ODECoefficient(lib, ops, leaves[x := y], N, x, xp, K, i, c);
    SameNext(i, y[i + 1], leaves[x][i + 1], c);
  }

  /** y is the coefficient of order i + 1 of a series whose derivative has the coefficient c of order i. */
  predicate IsNext(i: nat, y: real, c: real) {
    (i + 1) as real * y == c
  }

  lemma SameNext(i: nat, y: real, z: real, c: real)
    requires IsNext(i, y, c) && IsNext(i, z, c)
    ensures y == z
  {
    CancelQuotient((i + 1) as real, y, z, c);
  }

  lemma ODECoefficient(lib: Lib, ops: seq<Op>, leaves: seq<seq<real>>, N: nat, x: nat, xp: nat, K: nat, i: nat,
          c: real)
    requires WellFormed(ops) && LeavesFull(ops, leaves, N) && x < |ops| && xp < |ops| && K < N && i < K
    requires ops[x].Leaf? && SolvesODE(lib, ops, leaves, N, x, xp, K)
    requires c == Scratch(lib, ops, leaves, N, xp, K).0[i]
    ensures IsNext(i, leaves[x][i + 1], c)
  {
    EquationAt(leaves[x], Scratch(lib, ops, leaves, N, xp, K).0, K, i);
  }

  lemma ScratchCoefCausal(lib: Lib, ops: seq<Op>, leaves: seq<seq<real>>, N: nat, x: nat, xp: nat, y: seq<real>,
          K: nat, i: nat)
    requires WellFormed(ops) && LeavesFull(ops, leaves, N) && x < |ops| && xp < |ops| && K <= N && i < K
    requires ops[x].Leaf? && |y| == N && y[..i + 1] == leaves[x][..i + 1]
    ensures Scratch(lib, ops, leaves[x := y], N, xp, K).0[i] == Scratch(lib, ops, leaves, N, xp, K).0[i]
  {
    ScratchCausal(lib, ops, leaves, N, x, y, xp, i + 1);
    ScratchPrefix(lib, ops, leaves, N, xp, K, i + 1);
    ScratchPrefix(lib, ops, leaves[x := y], N, xp, K, i + 1);
    var s, s' := Scratch(lib, ops, leaves, N, xp, K).0, Scratch(lib, ops, leaves[x := y], N, xp, K).0;
    assert s[i] == s[..i + 1][i] && s'[i] == s'[..i + 1][i];
  }

  /** One pass of the ODE loop: setting x[i + 1] to f(x)[i] / (i + 1) keeps the equations already
      met and adds the next. */
  lemma ExtendsSolution(lib: Lib, ops: seq<Op>, leaves: seq<seq<real>>, N: nat, x: nat, xp: nat, i: nat, y: seq<real>)
    requires WellFormed(ops) && LeavesFull(ops, leaves, N) && x < |ops| && xp < |ops| && i + 1 < N
    requires ops[x].Leaf? && SolvesODE(lib, ops, leaves, N, x, xp, i)
    requires y == leaves[x][i + 1 := Scratch(lib, ops, leaves, N, xp, i + 1).0[i] / (i + 1) as real]
    ensures SolvesODE(lib, ops, leaves[x := y], N, x, xp, i + 1)
  {
    ScratchCausal(lib, ops, leaves, N, x, y, xp, i + 1);
    ScratchPrefix(lib, ops, leaves, N, xp, i + 1, i);
    var s := Scratch(lib, ops, leaves, N, xp, i + 1).0;
    EquationsExtend(leaves[x], y, s[..i], s, i);
    assert leaves[x := y][x] == y;
  }

  lemma EquationsExtend(x: seq<real>, y: seq<real>, f: seq<real>, g: seq<real>, i: nat)
    requires i + 1 < |x| && i < |g| && f == g[..i]
    requires Equations(x, f, i)
    requires y == x[i + 1 := g[i] / (i + 1) as real]
    ensures Equations(y, g, i + 1)
  {
    forall j | 0 <= j < i + 1
      ensures (j + 1) as real * y[j + 1] == g[j]
    {
      if j < i {
        assert y[j + 1] == x[j + 1] && g[j] == f[j];
      } else {
        Quotient(y[i + 1], g[i], (i + 1) as real);
      }
    }
  }

  /** The formal solution is unique: two series for x that solve x' = f(x) from the same starting
      value agree in all the orders the equation reaches. */
  lemma {:induction false} ODEUnique(lib: Lib, ops: seq<Op>, leaves: seq<seq<real>>, N: nat, x: nat, xp: nat,
          y: seq<real>, K: nat, n: nat)
    requires WellFormed(ops) && LeavesFull(ops, leaves, N) && x < |ops| && xp < |ops| && K < N && n <= K
    requires ops[x].Leaf? && |y| == N && y[0] == leaves[x][0]
    requires SolvesODE(lib, ops, leaves, N, x, xp, K)
    requires SolvesODE(lib, ops, leaves[x := y], N, x, xp, K)
    ensures y[..n + 1] == leaves[x][..n + 1]
  {
    if n > 0 {
      ODEUnique(lib, ops, leaves, N, x, xp, y, K, n - 1);
      ODENext(lib, ops, leaves, N, x, xp, y, K, n - 1);
      assert y[..n + 1] == y[..n] + [y[n]] && leaves[x][..n + 1] == leaves[x][..n] + [leaves[x][n]];
    }
  }
}
