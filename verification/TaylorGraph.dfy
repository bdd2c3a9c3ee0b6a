/** The recorded DAG of tadiff.h with its coefficient arrays: construction, incremental `eval`,
    writes to leaves, `reset`, and the loop that expands the solution of an ODE. */
module TaylorGraph {
  import opened Ops
  import opened Series
  import opened TaylorKernels
  import opened TaylorScratch

  predicate KeepsCompanion(op: Op) {
    op.Un? && (op.g == SIN || op.g == COS)
  }

  /** Only leaf x changed, and not in its order-0 coefficient. */
  predicate MovesOnly(L: seq<seq<real>>, M: seq<seq<real>>, x: nat) {
    && |L| == |M| && x < |L|
    && (forall u :: 0 <= u < |L| && u != x ==> M[u] == L[u])
    && |M[x]| == |L[x]| > 0 && M[x][0] == L[x][0]
  }

  lemma MovesAgain(L: seq<seq<real>>, M: seq<seq<real>>, P: seq<seq<real>>, x: nat)
    requires MovesOnly(L, M, x) && MovesOnly(M, P, x)
    ensures MovesOnly(L, P, x)
  {
  }

  class Graph {
    const lib: Lib
    const N: nat                      // MaxLength
    var ops: seq<Op>                  // kind and operands of each node, in order of construction
    var val: seq<array<real>>         // m_val
    var hidden: seq<array<real>>      // m_COS of a SIN node, m_SIN of a COS node
    var len: seq<nat>                 // m_n

    ghost predicate Arrays()
      reads `ops, `val, `hidden
    {
      && N > 0
      && |val| == |hidden| == |ops|
      && WellFormed(ops)
      && (forall v :: 0 <= v < |ops| ==> val[v].Length == N && hidden[v].Length == N)
      && (forall u, v :: 0 <= u < v < |ops| ==> val[u] != val[v] && hidden[u] != hidden[v])
      && (forall u, v :: 0 <= u < |ops| && 0 <= v < |ops| ==> val[u] != hidden[v])
    }

    /** The coefficient arrays of the leaves, as values. */
    ghost function Leaves(): (r: seq<seq<real>>)
      requires Arrays()
      reads `ops, `val, `hidden, val
      ensures LeavesFull(ops, r, N)
    {
      var o, w := ops, val;
      seq(|o|, v requires 0 <= v < |o| == |w| reads w => if o[v].Leaf? then w[v][..] else [])
    }

    /** The first n coefficients of node v, and of its companion, are those from scratch. */
    ghost predicate SoundAt(v: nat, n: nat)
      requires Arrays() && v < |ops| && n <= N
      reads `ops, `val, `hidden, val, hidden
    {
      var s := Scratch(lib, ops, Leaves(), N, v, n);
      val[v][..n] == s.0 && (KeepsCompanion(ops[v]) ==> hidden[v][..n] == s.1)
    }

    /** Every coefficient below a node's length is the one computed from scratch. */
    ghost predicate Valid()
      reads this, val, hidden
    {
      Arrays() && |len| == |ops| && forall v :: 0 <= v < |ops| ==> len[v] <= N && SoundAt(v, len[v])
    }

    constructor (lib: Lib, N: nat)
      requires N > 0
      ensures Valid() && ops == [] && this.lib == lib && this.N == N
    {
      this.lib := lib;
      this.N := N;
      ops, val, hidden, len := [], [], [], [];
    }

    lemma SoundPrefix(v: nat, n: nat, m: nat)
      requires Arrays() && v < |ops| && m <= n <= N && SoundAt(v, n)
      ensures SoundAt(v, m)
    {
      ScratchPrefix(lib, ops, Leaves(), N, v, n, m);
      assert val[v][..m] == val[v][..n][..m] && hidden[v][..m] == hidden[v][..n][..m];
    }

    lemma LeafSound(v: nat, n: nat)
      requires Arrays() && v < |ops| && n <= N && ops[v].Leaf?
      ensures SoundAt(v, n)
    {
      assert Leaves()[v] == val[v][..];
    }

    lemma BinSound(v: nat, n: nat)
      requires Arrays() && v < |ops| && n <= N && ops[v].Bin?
      requires SoundAt(ops[v].l, n) && SoundAt(ops[v].r, n)
      ensures SoundAt(v, n) <==> BinDone(lib, ops[v].f, val[v], val[ops[v].l], val[ops[v].r], n)
    {
      var a, b := val[ops[v].l][..], val[ops[v].r][..];
      BinFillLocal(lib, ops[v].f, a, a[..n], b, b[..n], n);
      assert a[..n] == val[ops[v].l][..n] && b[..n] == val[ops[v].r][..n];
    }

    lemma UnSound(v: nat, n: nat)
      requires Arrays() && v < |ops| && n <= N && ops[v].Un?
      requires SoundAt(ops[v].o, n)
      ensures !KeepsCompanion(ops[v]) ==> (SoundAt(v, n) <==> UnDone(lib, ops[v].g, val[v], val[ops[v].o], n))
      ensures KeepsCompanion(ops[v]) ==>
                (SoundAt(v, n) <==> TrigDone(lib, ops[v].g, val[v], hidden[v], val[ops[v].o], n))
    {
      var a := val[ops[v].o][..];
      UnFillLocal(lib, ops[v].g, a, a[..n], n);
      assert a[..n] == val[ops[v].o][..n];
    }

    /** Writing the arrays of the interior node v leaves the leaves and all other nodes as they were. */
    twostate lemma OthersStay(v: nat)
      requires old(Arrays()) && unchanged(`ops) && unchanged(`val) && unchanged(`hidden) && v < |ops| && !ops[v].Leaf?
      requires forall u :: 0 <= u < |ops| && u != v ==> unchanged(val[u]) && unchanged(hidden[u])
      ensures Arrays() && Leaves() == old(Leaves())
      ensures forall u: nat, n: nat :: u < |ops| && u != v && n <= N && old(SoundAt(u, n)) ==> SoundAt(u, n)
    {
      assert forall u :: 0 <= u < |ops| && u != v ==> val[u][..] == old(val[u][..]);
      assert Leaves() == old(Leaves());
      forall u: nat, n: nat | u < |ops| && u != v && n <= N && old(SoundAt(u, n))
        ensures SoundAt(u, n)
      {
        assert val[u][..n] == old(val[u][..n]) && hidden[u][..n] == old(hidden[u][..n]);
      }
    }

    /** The loop part of a node's `eval`: its kind decides which. */
    method FillNode(v: nat, l: nat)
      requires Arrays() && v < |ops| == |len| && !ops[v].Leaf? && 0 < l <= N
      requires ops[v].Un? ==> SoundAt(ops[v].o, l)
      requires ops[v].Bin? ==> SoundAt(ops[v].l, l) && SoundAt(ops[v].r, l)
      requires SoundAt(v, Min(len[v], l))
      modifies val[v], hidden[v]
      ensures SoundAt(v, l)
    {
      if ops[v].Bin? {
        FillBinNode(v, l);
      } else {
        FillUnNode(v, l);
      }
    }

    method FillBinNode(v: nat, l: nat)
      requires Arrays() && v < |ops| == |len| && ops[v].Bin? && 0 < l <= N
      requires SoundAt(ops[v].l, l) && SoundAt(ops[v].r, l)
      requires SoundAt(v, Min(len[v], l))
      modifies val[v]
      ensures SoundAt(v, l)
    {
      var start := Min(len[v], l);
      SoundPrefix(ops[v].l, l, start);
      SoundPrefix(ops[v].r, l, start);
      BinSound(v, start);
      FillBin(ops[v].f, val[v], len[v], val[ops[v].l], val[ops[v].r], l);
      OthersStay(v);
      BinSound(v, l);
    }

    method FillUnNode(v: nat, l: nat)
      requires Arrays() && v < |ops| == |len| && ops[v].Un? && 0 < l <= N
      requires SoundAt(ops[v].o, l)
      requires SoundAt(v, Min(len[v], l))
      modifies val[v], hidden[v]
      ensures SoundAt(v, l)
    {
      var start := Min(len[v], l);
      SoundPrefix(ops[v].o, l, start);
      UnSound(v, start);
      FillUn(ops[v].g, val[v], hidden[v], len[v], val[ops[v].o], l);
      OthersStay(v);
      UnSound(v, l);
    }

    method FillBin(f: BinFn, y: array<real>, n: nat, a: array<real>, b: array<real>, l: nat)
      requires y != a && y != b && l <= y.Length == a.Length == b.Length
      requires BinDone(lib, f, y, a, b, Min(n, l))
      modifies y
      ensures BinDone(lib, f, y, a, b, l)
    {
      match f
      case ADD => EvalADD(lib, y, n, a, b, l);
      case SUB => EvalSUB(lib, y, n, a, b, l);
      case MUL => EvalMUL(lib, y, n, a, b, l);
      case DIV => EvalDIV(lib, y, n, a, b, l);
    }

    method FillUn(g: UnFn, y: array<real>, z: array<real>, n: nat, a: array<real>, l: nat)
      requires y != a && z != a && y != z && 0 < l <= y.Length == a.Length == z.Length
      requires if g == SIN || g == COS then TrigDone(lib, g, y, z, a, Min(n, l)) else UnDone(lib, g, y, a, Min(n, l))
      modifies y, z
      ensures if g == SIN || g == COS then TrigDone(lib, g, y, z, a, l) else UnDone(lib, g, y, a, l)
    {
      match g
      case ADD1(_) => EvalShift(lib, g, y, n, a, l);
      case ADD2(_) => EvalShift(lib, g, y, n, a, l);
      case SUB1(_) => EvalShift(lib, g, y, n, a, l);
      case SUB2(_) => EvalShift(lib, g, y, n, a, l);
      case MUL1(_) => EvalPointwise(lib, g, y, n, a, l);
      case MUL2(_) => EvalPointwise(lib, g, y, n, a, l);
      case DIV1(k) => EvalDIV1(lib, k, y, n, a, l);
      case DIV2(_) => EvalPointwise(lib, g, y, n, a, l);
      case UMINUS => EvalPointwise(lib, g, y, n, a, l);
      case UPLUS => EvalPointwise(lib, g, y, n, a, l);
      case SQR => EvalSQR(lib, y, n, a, l);
      case SQRT => EvalSQRT(lib, y, n, a, l);
      case EXP => EvalEXP(lib, y, n, a, l);
      case LOG => EvalLOG(lib, y, n, a, l);
      case SIN => EvalSIN(lib, y, z, n, a, l);
      case COS => EvalCOS(lib, y, z, n, a, l);
    }

    /** The part of `eval` after the operands: the loop, and the assignment to the length. */
    method Refill(v: nat, l: nat)
      requires Valid() && v < |ops| && !ops[v].Leaf? && 0 < l <= N
      requires ops[v].Un? ==> SoundAt(ops[v].o, l)
      requires ops[v].Bin? ==> SoundAt(ops[v].l, l) && SoundAt(ops[v].r, l)
      modifies `len, val[v], hidden[v]
      ensures Valid() && Leaves() == old(Leaves())
      ensures len == old(len)[v := l]
    {
      SoundPrefix(v, len[v], Min(len[v], l));
      FillNode(v, l);
      len := len[v := l];
      OthersStay(v);
    }

    /** Computes the first k + 1 coefficients of node v, continuing from what is already there.
        A node evaluated further before forgets the excess: its length becomes k + 1. */
    method Eval(v: nat, k: nat) returns (l: nat)
      requires Valid() && v < |ops| && k < N
      modifies `len, val, hidden
      ensures Valid() && Leaves() == old(Leaves())
      ensures l == k + 1
      ensures !ops[v].Leaf? ==> len[v] == k + 1
      ensures forall u :: 0 <= u < |ops| ==> len[u] == old(len[u]) || (len[u] == k + 1 && !ops[u].Leaf?)
      decreases v, 1
    {
      match ops[v] {
        case Leaf =>
          return k + 1;
        case Un(_, o) =>
          l := Eval(o, k);
          EvaluatedSound(o, l);
        case Bin(_, _, _) =>
          l := EvalBoth(v, k);
      }
      Refill(v, l);
    }

    method EvalBoth(v: nat, k: nat) returns (l: nat)
      requires Valid() && v < |ops| && ops[v].Bin? && k < N
      modifies `len, val, hidden
      ensures Valid() && Leaves() == old(Leaves())
      ensures l == k + 1 && SoundAt(ops[v].l, l) && SoundAt(ops[v].r, l)
      ensures forall u :: 0 <= u < |ops| ==> len[u] == old(len[u]) || (len[u] == k + 1 && !ops[u].Leaf?)
      decreases v, 0
    {
      var l1 := Eval(ops[v].l, k);
      var l2 := Eval(ops[v].r, k);
      l := Min(l1, l2);
      EvaluatedSound(ops[v].l, l);
      EvaluatedSound(ops[v].r, l);
    }

    lemma EvaluatedSound(v: nat, l: nat)
      requires Valid() && v < |ops| && l <= N && (!ops[v].Leaf? ==> len[v] == l)
      ensures SoundAt(v, l)
    {
      if ops[v].Leaf? {
        LeafSound(v, l);
      }
    }

    // -------------------------------------------------------------- recording

    ghost predicate FitsAsNext(op: Op, leaf: seq<real>)
      reads `ops
    {
      OperandsBelow(op, |ops|) && (if op.Leaf? then |leaf| == N else leaf == [])
    }

    /** The arrays belong to no node. */
    ghost predicate Unowned(y: array<real>, z: array<real>)
      reads `val, `hidden
    {
      && y != z && y.Length == z.Length == N
      && (forall u :: 0 <= u < |val| ==> y != val[u] && z != val[u])
      && (forall u :: 0 <= u < |hidden| ==> y != hidden[u] && z != hidden[u])
    }

    /** Adds a node whose first n coefficients are already right. */
    method Append(op: Op, y: array<real>, z: array<real>, n: nat, ghost leaf: seq<real>)
      requires Valid() && FitsAsNext(op, leaf) && Unowned(y, z) && n <= N
      requires op.Leaf? ==> leaf == y[..]
      requires WellFormed(ops + [op]) && LeavesFull(ops + [op], Leaves() + [leaf], N)
      requires var s := Scratch(lib, ops + [op], Leaves() + [leaf], N, |ops|, n);
               y[..n] == s.0 && (KeepsCompanion(op) ==> z[..n] == s.1)
      modifies `ops, `val, `hidden, `len
      ensures Valid()
      ensures ops == old(ops) + [op] && val == old(val) + [y] && hidden == old(hidden) + [z] && len == old(len) + [n]
      ensures Leaves() == old(Leaves()) + [leaf]
    {
      ops, val, hidden, len := ops + [op], val + [y], hidden + [z], len + [n];
      Grown();
    }

    /** A node with arrays of its own has been added, and the old nodes' coefficients are what they were. */
    twostate predicate OneMore()
      reads this, val, hidden
    {
      var v := |old(ops)|;
      && old(Arrays()) && WellFormed(ops) && |ops| == |val| == |hidden| == v + 1
      && ops == old(ops) + [ops[v]] && val == old(val) + [val[v]] && hidden == old(hidden) + [hidden[v]]
      && val[v] != hidden[v] && val[v].Length == hidden[v].Length == N
      && (forall u :: 0 <= u < v ==> val[u] != val[v] && val[u] != hidden[v])
      && (forall u :: 0 <= u < v ==> hidden[u] != val[v] && hidden[u] != hidden[v])
      && (forall u :: 0 <= u < v ==> val[u][..] == old(val[u][..]) && hidden[u][..] == old(hidden[u][..]))
    }

    ghost function LeafOf(v: nat): seq<real>
      requires v < |ops| == |val|
      reads `ops, `val, val[v]
    {
      if ops[v].Leaf? then val[v][..] else []
    }

    twostate lemma ArraysGrow()
      requires OneMore()
      ensures Arrays() && Leaves() == old(Leaves()) + [LeafOf(|old(ops)|)]
    {
      assert forall u :: 0 <= u < |old(ops)| ==>
                           (ops[u] == old(ops)[u] && val[u] == old(val)[u] && hidden[u] == old(hidden)[u]);
      assert Leaves() == old(Leaves()) + [LeafOf(|old(ops)|)];
    }

    /** The nodes there were before stay sound. */
    twostate lemma Grown()
      requires old(Valid()) && OneMore()
      ensures Arrays() && Leaves() == old(Leaves()) + [LeafOf(|old(ops)|)]
      ensures forall u :: 0 <= u < |old(ops)| ==> SoundAt(u, old(len[u]))
    {
      ArraysGrow();
      forall u | 0 <= u < |old(ops)|
        ensures SoundAt(u, old(len[u]))
      {
        var n := old(len[u]);
        assert ops[u] == old(ops)[u] && val[u] == old(val)[u] && hidden[u] == old(hidden)[u];
        assert old(SoundAt(u, n));
        ScratchGrows(lib, old(ops), old(Leaves()), N, ops[|old(ops)|], LeafOf(|old(ops)|), u, n);
        assert val[u][..n] == old(val[u][..n]) && hidden[u][..n] == old(hidden[u][..n]);
      }
    }

    method NewArrays() returns (y: array<real>, z: array<real>)
      requires Arrays()
      ensures fresh(y) && fresh(z) && Unowned(y, z) && y[..] == seq(N, _ => 0.0)
    {
      y, z := new real[N](_ => 0.0), new real[N](_ => 0.0);
      assert y[..] == seq(N, _ => 0.0);
    }

    /** A default-constructed variable: no coefficient set, the array filled with zeros. */
    method NewVariable() returns (v: nat)
      requires Valid()
      modifies `ops, `val, `hidden, `len
      ensures Valid() && v == |old(ops)| && ops == old(ops) + [Leaf] && len == old(len) + [0]
      ensures val[..v] == old(val) && hidden[..v] == old(hidden) && fresh(val[v]) && fresh(hidden[v])
      ensures Leaves() == old(Leaves()) + [seq(N, _ => 0.0)]
    {
      v := |ops|;
      var y, z := NewArrays();
      Fits(Leaf, y[..]);
      Append(Leaf, y, z, 0, y[..]);
    }

    /** A variable constructed from a scalar: the constant series, complete. */
    method NewConstant(c: real) returns (v: nat)
      requires Valid()
      modifies `ops, `val, `hidden, `len
      ensures Valid() && v == |old(ops)| && ops == old(ops) + [Leaf] && len == old(len) + [N]
      ensures val[..v] == old(val) && hidden[..v] == old(hidden) && fresh(val[v]) && fresh(hidden[v])
      ensures Leaves() == old(Leaves()) + [Const(c, N)]
    {
      v := |ops|;
      var y, z := NewArrays();
      y[0] := c;
      assert y[..] == Const(c, N);
      Fits(Leaf, y[..]);
      Append(Leaf, y, z, N, y[..]);
    }

    /** The order-0 coefficient the operator computes while constructing the node. */
    function FirstValue(op: Op): real
      requires |val| == |ops| && OperandsBelow(op, |ops|) && N > 0
      requires forall u :: 0 <= u < |val| ==> val[u].Length == N
      reads `ops, `val, val
    {
      match op
      case Leaf => 0.0
      case Un(g, o) => UnValue(lib, g, val[o][0])
      case Bin(f, l, r) => BinValue(lib, f, val[l][0], val[r][0])
    }

    predicate OperandsSet(op: Op)
      requires |len| == |ops| && OperandsBelow(op, |ops|)
      reads `ops, `len
    {
      match op
      case Leaf => false
      case Un(_, o) => len[o] > 0
      case Bin(_, l, r) => len[l] > 0 && len[r] > 0
    }

    /** Records an operation; its order-0 coefficient is computed now if all its operands' are set. */
    method NewOperation(op: Op) returns (v: nat)
      requires Valid() && !op.Leaf? && OperandsBelow(op, |ops|)
      modifies `ops, `val, `hidden, `len
      ensures Valid() && v == |old(ops)| && ops == old(ops) + [op]
      ensures len == old(len) + [if old(OperandsSet(op)) then 1 else 0]
      ensures val[..v] == old(val) && hidden[..v] == old(hidden) && fresh(val[v]) && fresh(hidden[v])
      ensures Leaves() == old(Leaves()) + [[]]
    {
      v := |ops|;
      Fits(op, []);
      var y, z := NewArrays();
      var n := FirstOrNothing(op, y, z);
      Append(op, y, z, n, []);
    }

    lemma Fits(op: Op, leaf: seq<real>)
      requires Arrays() && FitsAsNext(op, leaf)
      ensures WellFormed(ops + [op]) && LeavesFull(ops + [op], Leaves() + [leaf], N)
    {
    }

    method FirstOrNothing(op: Op, y: array<real>, z: array<real>) returns (n: nat)
      requires Valid() && !op.Leaf? && OperandsBelow(op, |ops|)
      requires Unowned(y, z)
      requires WellFormed(ops + [op]) && LeavesFull(ops + [op], Leaves() + [[]], N)
      modifies y, z
      ensures Valid() && Leaves() == old(Leaves())
      ensures n == if OperandsSet(op) then 1 else 0
      ensures var s := Scratch(lib, ops + [op], Leaves() + [[]], N, |ops|, n);
              y[..n] == s.0 && (KeepsCompanion(op) ==> z[..n] == s.1)
    {
      n := 0;
      if OperandsSet(op) {
        n := 1;
        ComputeFirst(op, y, z);
      } else {
        NothingYet(op);
      }
    }

    lemma NothingYet(op: Op)
      requires Arrays() && !op.Leaf? && OperandsBelow(op, |ops|)
      requires WellFormed(ops + [op]) && LeavesFull(ops + [op], Leaves() + [[]], N)
      ensures Scratch(lib, ops + [op], Leaves() + [[]], N, |ops|, 0) == ([], [])
    {
    }

    method ComputeFirst(op: Op, y: array<real>, z: array<real>)
      requires Valid() && !op.Leaf? && OperandsBelow(op, |ops|) && OperandsSet(op)
      requires Unowned(y, z)
      requires WellFormed(ops + [op]) && LeavesFull(ops + [op], Leaves() + [[]], N)
      modifies y, z
      ensures Valid() && Leaves() == old(Leaves())
      ensures var s := Scratch(lib, ops + [op], Leaves() + [[]], N, |ops|, 1);
              y[..1] == s.0 && (KeepsCompanion(op) ==> z[..1] == s.1)
    {
      FirstValueSound(op);
      y[0] := FirstValue(op);
      if op.Un? && op.g == SIN {
        z[0] := lib.cos(val[op.o][0]);
      } else if op.Un? && op.g == COS {
        z[0] := lib.sin(val[op.o][0]);
      }
      OldSound();
      assert y[..1] == [y[0]] && z[..1] == [z[0]];
    }

    lemma FirstValueSound(op: Op)
      requires Valid() && !op.Leaf? && OperandsBelow(op, |ops|) && OperandsSet(op)
      requires WellFormed(ops + [op]) && LeavesFull(ops + [op], Leaves() + [[]], N)
      ensures var s := Scratch(lib, ops + [op], Leaves() + [[]], N, |ops|, 1);
              && s.0 == [FirstValue(op)]
              && (KeepsCompanion(op) ==>
                    s.1 == [if op.g == SIN then lib.cos(val[op.o][0]) else lib.sin(val[op.o][0])])
    {
      FirstScratch(lib, ops, Leaves(), N, op);
      if op.Un? {
        SoundPrefix(op.o, len[op.o], 1);
        assert val[op.o][0] == val[op.o][..1][0];
      } else {
        SoundPrefix(op.l, len[op.l], 1);
        SoundPrefix(op.r, len[op.r], 1);
        assert val[op.l][0] == val[op.l][..1][0] && val[op.r][0] == val[op.r][..1][0];
      }
    }

    /** Writing to arrays that belong to no node changes nothing. */
    twostate lemma OldSound()
      requires old(Valid()) && unchanged(this)
      requires forall u :: 0 <= u < |ops| ==> unchanged(val[u]) && unchanged(hidden[u])
      ensures Valid() && Leaves() == old(Leaves())
      ensures forall u: nat, n: nat :: u < |ops| && n <= N && old(SoundAt(u, n)) ==> SoundAt(u, n)
    {
      assert forall u :: 0 <= u < |ops| ==> val[u][..] == old(val[u][..]);
      assert Leaves() == old(Leaves());
      forall u: nat, n: nat | u < |ops| && n <= N && old(SoundAt(u, n))
        ensures SoundAt(u, n)
      {
        assert val[u][..n] == old(val[u][..n]) && hidden[u][..n] == old(hidden[u][..n]);
      }
    }

    // -------------------------------------------------------------- leaf writes and reset

    /** No node computed from leaf x has used its coefficient i yet. */
    ghost predicate NotYetUsed(x: nat, i: nat)
      requires WellFormed(ops) && x < |ops| == |len|
      reads `ops, `len
    {
      forall v :: 0 <= v < |ops| && !ops[v].Leaf? && DependsOn(ops, v, x) ==> len[v] <= i
    }

    /** x[i] = c through the non-const subscript, which extends the length when needed. */
    method Write(x: nat, i: nat, c: real)
      requires Valid() && x < |ops| && ops[x].Leaf? && i < N
      requires NotYetUsed(x, i)
      modifies `len, val[x]
      ensures Valid() && Leaves() == old(Leaves())[x := old(Leaves())[x][i := c]]
      ensures len == old(len)[x := if i >= old(len[x]) then i + 1 else old(len[x])]
    {
      ghost var L := Leaves();
      if i >= len[x] {
        len := len[x := i + 1];
      }
      val[x][i] := c;
      ghost var y := L[x][i := c];
      assert val[x][..] == y;
      assert forall u :: 0 <= u < |ops| && u != x ==> val[u][..] == old(val[u][..]);
      assert Leaves() == L[x := y];
      forall u | 0 <= u < |ops|
        ensures SoundAt(u, len[u])
      {
        if ops[u].Leaf? {
          LeafSound(u, len[u]);
        } else {
          assert old(SoundAt(u, len[u]));
          assert DependsOn(ops, u, x) ==> y[..len[u]] == L[x][..len[u]];
          ScratchCausal(lib, ops, L, N, x, y, u, len[u]);
          assert val[u][..len[u]] == old(val[u][..len[u]]);
        }
      }
    }

    /** Forgets the lengths of v and of everything it is computed from, and of nothing else. */
    method Reset(v: nat)
      requires Valid() && v < |ops|
      modifies `len
      ensures Valid() && Leaves() == old(Leaves())
      ensures |len| == |ops| && forall u :: 0 <= u < |ops| ==> len[u] == if DependsOn(ops, v, u) then 0 else old(len[u])
      decreases v
    {
      match ops[v] {
        case Leaf =>
        case Un(_, o) =>
          Reset(o);
        case Bin(_, l, r) =>
          Reset(l);
          Reset(r);
      }
      Forget(v);
    }

    method Forget(v: nat)
      requires Valid() && v < |ops|
      modifies `len
      ensures Valid() && Leaves() == old(Leaves()) && len == old(len)[v := 0]
    {
      SoundPrefix(v, len[v], 0);
      len := len[v := 0];
    }

    // -------------------------------------------------------------- the ODE loop

    ghost predicate Solved(x: nat, xp: nat, K: nat)
      requires Arrays() && x < |ops| && xp < |ops| && ops[x].Leaf? && K < N
      reads `ops, `val, `hidden, val
    {
      SolvesODE(lib, ops, Leaves(), N, x, xp, K)
    }

    /** One pass: evaluate order i of xp, then x[i + 1] = xp[i] / (i + 1). */
    method ODEStep(x: nat, xp: nat, i: nat) returns (c: real)
      requires Valid() && x < |ops| && xp < |ops| && ops[x].Leaf? && !ops[xp].Leaf? && i + 1 < N
      requires NotYetUsed(x, i + 1)
      requires Solved(x, xp, i)
      modifies `len, val, hidden
      ensures Valid() && NotYetUsed(x, i + 2) && Solved(x, xp, i + 1)
      ensures MovesOnly(old(Leaves()), Leaves(), x)
    {
      c := NextCoefficient(x, xp, i);
      Write(x, i + 1, c);
    }

    method NextCoefficient(x: nat, xp: nat, i: nat) returns (c: real)
      requires Valid() && x < |ops| && xp < |ops| && ops[x].Leaf? && !ops[xp].Leaf? && i + 1 < N
      requires NotYetUsed(x, i + 1)
      requires Solved(x, xp, i)
      modifies `len, val, hidden
      ensures Valid() && NotYetUsed(x, i + 1) && Leaves() == old(Leaves())
      ensures SolvesODE(lib, ops, Leaves()[x := Leaves()[x][i + 1 := c]], N, x, xp, i + 1)
    {
      var _ := Eval(xp, i);
      c := val[xp][i] / (i + 1) as real;
      ODEStepSound(x, xp, i);
    }

    lemma ODEStepSound(x: nat, xp: nat, i: nat)
      requires Valid() && x < |ops| && xp < |ops| && ops[x].Leaf? && i + 1 < N && len[xp] == i + 1
      requires Solved(x, xp, i)
      ensures SolvesODE(lib, ops, Leaves()[x := Leaves()[x][i + 1 := val[xp][i] / (i + 1) as real]], N, x, xp, i + 1)
    {
      assert SoundAt(xp, i + 1);
      assert val[xp][i] == val[xp][..i + 1][i];
      ExtendsSolution(lib, ops, Leaves(), N, x, xp, i, Leaves()[x][i + 1 := val[xp][i] / (i + 1) as real]);
    }

    /** Expands the solution of x' = f(x), where node xp holds f(x).  Incremental evaluation makes
        each pass extend the coefficients of the passes before. */
    method SolveODE(x: nat, xp: nat, K: nat)
      requires Valid() && x < |ops| && xp < |ops| && ops[x].Leaf? && !ops[xp].Leaf? && K < N
      requires NotYetUsed(x, 1)
      modifies `len, val, hidden
      ensures Valid() && Solved(x, xp, K)
      ensures MovesOnly(old(Leaves()), Leaves(), x)
    {
      ghost var L0 := Leaves();
      for i := 0 to K
        invariant Valid() && NotYetUsed(x, i + 1)
        invariant MovesOnly(L0, Leaves(), x)
        invariant Solved(x, xp, i)
      {
        ghost var L := Leaves();
        var _ := ODEStep(x, xp, i);
        MovesAgain(L0, L, Leaves(), x);
      }
    }
  }
}
