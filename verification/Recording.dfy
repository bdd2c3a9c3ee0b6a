/** A recorded computation: the list of operations in the order they were performed, and what it
    means.  `Vals` is the value of every node for given values of the leaves; `Tangents` is the
    derivative of every node with respect to one leaf by the textbook rules.  Forward and
    reverse differentiation are both compared with `Tangents`; `Calculus` shows that it is the
    derivative in the sense of analysis. */
module Recording {
  import opened Ops

  function NodeValue(lib: Lib, op: Op, vals: seq<real>, x: real): real
    requires OperandsBelow(op, |vals|)
  {
    match op
    case Leaf => x
    case Un(g, o) => UnValue(lib, g, vals[o])
    case Bin(f, l, r) => BinValue(lib, f, vals[l], vals[r])
  }

  /** The value of every node; xs[k] is the value of node k when it is a leaf. */
  function Vals(lib: Lib, ops: seq<Op>, xs: seq<real>): (r: seq<real>)
    requires WellFormed(ops) && |xs| == |ops|
    ensures |r| == |ops|
  {
    if ops == [] then [] else
    var n := |ops| - 1;
    var p := Vals(lib, ops[..n], xs[..n]);
    p + [NodeValue(lib, ops[n], p, xs[n])]
  }

  // ---------------------------------------------------------------- textbook derivatives

  function Over(x: real, y: real): real {
    if y == 0.0 then 0.0 else x / y
  }

  lemma ProductNonZero(x: real, z: real) returns (y: real)
    requires x != 0.0 && z != 0.0
    ensures y == x * z && y != 0.0
  {
    y := x * z;
  }

  /** The derivative of a unary operator at x. */
  function UnSlope(lib: Lib, g: UnFn, x: real): real {
    match g
    case ADD1(_) => 1.0
    case ADD2(_) => 1.0
    case SUB1(_) => -1.0
    case SUB2(_) => 1.0
    case MUL1(k) => k
    case MUL2(k) => k
    case DIV1(k) => -Over(k, x * x)
    case DIV2(k) => Over(1.0, k)
    case UMINUS => -1.0
    case UPLUS => 1.0
    case SQR => 2.0 * x
    case SQRT => Over(1.0, 2.0 * lib.sqrt(x))
    case EXP => lib.exp(x)
    case LOG => Over(1.0, x)
    case SIN => lib.cos(x)
    case COS => -lib.sin(x)
  }

  /** The derivatives of a binary operator in its first and second operand. */
  function BinSlopes(f: BinFn, x: real, y: real): (real, real) {
    match f
    case ADD => (1.0, 1.0)
    case SUB => (1.0, -1.0)
    case MUL => (y, x)
    case DIV => (Over(1.0, y), -Over(x, y * y))
  }

  function NodeTangent(lib: Lib, op: Op, vals: seq<real>, t: seq<real>, isX: bool): real
    requires OperandsBelow(op, |vals|) && |t| == |vals|
  {
    match op
    case Leaf => if isX then 1.0 else 0.0
    case Un(g, o) => UnSlope(lib, g, vals[o]) * t[o]
    case Bin(f, l, r) => BinTangent(f, vals[l], vals[r], t[l], t[r])
  }

  function BinTangent(f: BinFn, u: real, v: real, s: real, t: real): real {
    BinSlopes(f, u, v).0 * s + BinSlopes(f, u, v).1 * t
  }

  /** The derivative of every node with respect to leaf x. */
  function Tangents(lib: Lib, ops: seq<Op>, xs: seq<real>, x: nat): (r: seq<real>)
    requires WellFormed(ops) && |xs| == |ops|
    ensures |r| == |ops|
  {
    if ops == [] then [] else
    var n := |ops| - 1;
    var p := Tangents(lib, ops[..n], xs[..n], x);
    p + [NodeTangent(lib, ops[n], Vals(lib, ops[..n], xs[..n]), p, n == x)]
  }

  /** Nothing is divided by zero: the points at which the derivative rules are meant to hold. */
  predicate UnDefined(lib: Lib, g: UnFn, x: real) {
    match g
    case DIV1(_) => x != 0.0
    case DIV2(k) => k != 0.0
    case SQRT => lib.sqrt(x) != 0.0
    case LOG => x != 0.0
    case _ => true
  }

  predicate NodeDefined(lib: Lib, op: Op, vals: seq<real>)
    requires OperandsBelow(op, |vals|)
  {
    match op
    case Leaf => true
    case Un(g, o) => UnDefined(lib, g, vals[o])
    case Bin(f, l, r) => f == DIV ==> vals[r] != 0.0
  }

  predicate Defined(lib: Lib, ops: seq<Op>, xs: seq<real>)
    requires WellFormed(ops) && |xs| == |ops|
  {
    var vals := Vals(lib, ops, xs);
    forall k :: 0 <= k < |ops| ==> NodeDefined(lib, ops[k], vals)
  }

  // ---------------------------------------------------------------- prefixes

  lemma {:induction false} ValsPrefix(lib: Lib, ops: seq<Op>, xs: seq<real>, n: nat)
    requires WellFormed(ops) && |xs| == |ops| && n <= |ops|
    ensures Vals(lib, ops, xs)[..n] == Vals(lib, ops[..n], xs[..n])
  {
    var m := |ops|;
    if n < m {
      ValsPrefix(lib, ops[..m - 1], xs[..m - 1], n);
      assert ops[..m - 1][..n] == ops[..n] && xs[..m - 1][..n] == xs[..n];
      assert Vals(lib, ops, xs)[..n] == Vals(lib, ops[..m - 1], xs[..m - 1])[..n];
    } else {
      assert ops[..n] == ops && xs[..n] == xs;
    }
  }

  /** A new node changes no older value. */
  lemma ValsAppended(lib: Lib, ops: seq<Op>, xs: seq<real>, op: Op, x: real)
    requires WellFormed(ops) && |xs| == |ops| && OperandsBelow(op, |ops|)
    ensures WellFormed(ops + [op])
    ensures Vals(lib, ops + [op], xs + [x]) == Vals(lib, ops, xs) + [NodeValue(lib, op, Vals(lib, ops, xs), x)]
  {
    assert (ops + [op])[..|ops|] == ops && (xs + [x])[..|ops|] == xs;
  }

  lemma DefinedPrefix(lib: Lib, ops: seq<Op>, xs: seq<real>, m: nat)
    requires WellFormed(ops) && |xs| == |ops| && m <= |ops| && Defined(lib, ops, xs)
    ensures Defined(lib, ops[..m], xs[..m])
  {
    ValsPrefix(lib, ops, xs, m);
    var v := Vals(lib, ops, xs);
    forall k | 0 <= k < m
      ensures NodeDefined(lib, ops[..m][k], v[..m])
    {
      assert NodeDefined(lib, ops[k], v);
    }
  }

  lemma TangentsInit(lib: Lib, ops: seq<Op>, xs: seq<real>, x: nat)
    requires WellFormed(ops) && |xs| == |ops| > 0
    ensures var n := |ops| - 1; Tangents(lib, ops, xs, x)[..n] == Tangents(lib, ops[..n], xs[..n], x)
  {
    var n := |ops| - 1;
    var p := Tangents(lib, ops[..n], xs[..n], x);
    var y := NodeTangent(lib, ops[n], Vals(lib, ops[..n], xs[..n]), p, n == x);
    assert Tangents(lib, ops, xs, x) == p + [y];
  }

  lemma {:induction false} TangentsPrefix(lib: Lib, ops: seq<Op>, xs: seq<real>, x: nat, n: nat)
    requires WellFormed(ops) && |xs| == |ops| && n <= |ops|
    ensures Tangents(lib, ops, xs, x)[..n] == Tangents(lib, ops[..n], xs[..n], x)
  {
    var m := |ops|;
    if n < m {
      TangentsPrefix(lib, ops[..m - 1], xs[..m - 1], x, n);
      assert ops[..m - 1][..n] == ops[..n] && xs[..m - 1][..n] == xs[..n];
      TangentsInit(lib, ops, xs, x);
      assert Tangents(lib, ops, xs, x)[..n] == Tangents(lib, ops, xs, x)[..m - 1][..n];
    } else {
      assert ops[..n] == ops && xs[..n] == xs;
    }
  }

  /** Each value follows from the values of the operands. */
  lemma ValsAt(lib: Lib, ops: seq<Op>, xs: seq<real>, k: nat)
    requires WellFormed(ops) && |xs| == |ops| && k < |ops|
    ensures Vals(lib, ops, xs)[k] == NodeValue(lib, ops[k], Vals(lib, ops, xs), xs[k])
  {
    ValsPrefix(lib, ops, xs, k + 1);
    ValsPrefix(lib, ops, xs, k);
    assert ops[..k + 1][..k] == ops[..k] && xs[..k + 1][..k] == xs[..k];
    var v := Vals(lib, ops, xs);
    assert v[k] == v[..k + 1][k];
    assert NodeValue(lib, ops[k], v[..k], xs[k]) == NodeValue(lib, ops[k], v, xs[k]);
  }

  lemma NodeTangentLocal(lib: Lib, op: Op, v: seq<real>, t: seq<real>, n: nat, isX: bool)
    requires OperandsBelow(op, n) && n <= |v| == |t|
    ensures NodeTangent(lib, op, v[..n], t[..n], isX) == NodeTangent(lib, op, v, t, isX)
  {
  }

  lemma TangentsLast(lib: Lib, ops: seq<Op>, xs: seq<real>, x: nat, n: nat)
    requires WellFormed(ops) && |xs| == |ops| == n + 1
    ensures Tangents(lib, ops, xs, x)[n]
         == NodeTangent(lib, ops[n], Vals(lib, ops[..n], xs[..n]), Tangents(lib, ops[..n], xs[..n], x), n == x)
  {
  }

  /** Each derivative follows from those of the operands. */
  lemma TangentsAt(lib: Lib, ops: seq<Op>, xs: seq<real>, x: nat, k: nat)
    requires WellFormed(ops) && |xs| == |ops| && k < |ops|
    ensures Tangents(lib, ops, xs, x)[k]
         == NodeTangent(lib, ops[k], Vals(lib, ops, xs), Tangents(lib, ops, xs, x), k == x)
  {
    TangentsPrefix(lib, ops, xs, x, k + 1);
    TangentsPrefix(lib, ops, xs, x, k);
    ValsPrefix(lib, ops, xs, k);
    TangentsLast(lib, ops[..k + 1], xs[..k + 1], x, k);
    assert ops[..k + 1][..k] == ops[..k] && xs[..k + 1][..k] == xs[..k];
    var v, t := Vals(lib, ops, xs), Tangents(lib, ops, xs, x);
    assert t[k] == t[..k + 1][k];
    NodeTangentLocal(lib, ops[k], v, t, k, k == x);
  }

  // ---------------------------------------------------------------- one node at a time

  lemma ValsUn(lib: Lib, ops: seq<Op>, xs: seq<real>, k: nat)
    requires WellFormed(ops) && |xs| == |ops| && k < |ops| && ops[k].Un?
    ensures Vals(lib, ops, xs)[k] == UnValue(lib, ops[k].g, Vals(lib, ops, xs)[ops[k].o])
  {
    ValsAt(lib, ops, xs, k);
  }

  lemma ValsBin(lib: Lib, ops: seq<Op>, xs: seq<real>, k: nat)
    requires WellFormed(ops) && |xs| == |ops| && k < |ops| && ops[k].Bin?
    ensures Vals(lib, ops, xs)[k] == BinValue(lib, ops[k].f, Vals(lib, ops, xs)[ops[k].l], Vals(lib, ops, xs)[ops[k].r])
  {
    ValsAt(lib, ops, xs, k);
  }

  lemma TangentsUn(lib: Lib, ops: seq<Op>, xs: seq<real>, x: nat, k: nat)
    requires WellFormed(ops) && |xs| == |ops| && k < |ops| && ops[k].Un?
    ensures Tangents(lib, ops, xs, x)[k]
         == UnSlope(lib, ops[k].g, Vals(lib, ops, xs)[ops[k].o]) * Tangents(lib, ops, xs, x)[ops[k].o]
  {
    TangentsAt(lib, ops, xs, x, k);
  }

  lemma TangentsBin(lib: Lib, ops: seq<Op>, xs: seq<real>, x: nat, k: nat)
    requires WellFormed(ops) && |xs| == |ops| && k < |ops| && ops[k].Bin?
    ensures Tangents(lib, ops, xs, x)[k]
         == BinTangent(ops[k].f, Vals(lib, ops, xs)[ops[k].l], Vals(lib, ops, xs)[ops[k].r],
                       Tangents(lib, ops, xs, x)[ops[k].l], Tangents(lib, ops, xs, x)[ops[k].r])
  {
    TangentsAt(lib, ops, xs, x, k);
  }
}
