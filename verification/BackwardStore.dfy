/** Reverse differentiation (badiff.h) as an abstract machine over the store of recorded nodes.

    A node is freed, and pushes its adjoints to its operands, at the moment its reference count
    reaches zero; nothing else orders the backward sweep.  `ext` counts, for each node, the
    references that are not operand slots of counted nodes: the user's handles, and the slots of
    nodes that are being freed. */
module BackwardStore {
  import opened Ops
  import opened Recording

  datatype Adjoint = NoValues | Values(v: seq<real>)

  datatype Cell = Freed | Live(rc: nat, adj: Adjoint)

  function Refs(c: Cell): nat {
    match c
    case Freed => 0
    case Live(rc, _) => rc
  }

  /** Entry i of a cell's adjoints; a node without values stands for zeros. */
  function AdjointAt(c: Cell, i: nat): real {
    if c.Live? && c.adj.Values? && i < |c.adj.v| then c.adj.v[i] else 0.0
  }

  // ---------------------------------------------------------------- pushing adjoints

  function Inverse(lib: Lib, x: real): real {
    Div(lib, 1.0, x)
  }

  /** The factor with which a unary node's adjoints are added to its operand's; x and y are the
      operand's and the node's value. */
  function UnPush(lib: Lib, g: UnFn, x: real, y: real): real {
    match g
    case ADD1(_) => 1.0
    case ADD2(_) => 1.0
    case SUB1(_) => -1.0
    case SUB2(_) => 1.0
    case MUL1(a) => a
    case MUL2(b) => b
    case DIV1(_) => -(Inverse(lib, x) * y)
    case DIV2(b) => Inverse(lib, b)
    case UMINUS => -1.0
    case UPLUS => 1.0
    case SQR => 2.0 * x
    case SQRT => Inverse(lib, y * 2.0)
    case EXP => y
    case LOG => Inverse(lib, x)
    case SIN => lib.cos(x)
    case COS => -lib.sin(x)
  }

  /** The same for the two operands of a binary node with value z. */
  function BinPush(lib: Lib, f: BinFn, x: real, y: real, z: real): (real, real) {
    match f
    case ADD => (1.0, 1.0)
    case SUB => (1.0, -1.0)
    case MUL => (y, x)
    case DIV => (Inverse(lib, y), -(Inverse(lib, y) * z))
  }

  lemma UnPushIsSlope(lib: Lib, g: UnFn, x: real)
    requires UnDefined(lib, g, x)
    ensures UnPush(lib, g, x, UnValue(lib, g, x)) == UnSlope(lib, g, x)
  {
    if g.DIV1? {
      InverseTimesQuotient(g.a, x);
    }
  }

  lemma BinPushIsSlope(lib: Lib, f: BinFn, x: real, y: real)
    requires f == DIV ==> y != 0.0
    ensures BinPush(lib, f, x, y, BinValue(lib, f, x, y)).0 == BinSlopes(f, x, y).0
    ensures BinPush(lib, f, x, y, BinValue(lib, f, x, y)).1 == BinSlopes(f, x, y).1
  {
    if f == DIV {
      DivPushIsSlope(lib, x, y);
    }
  }

  lemma DivPushIsSlope(lib: Lib, x: real, y: real)
    requires y != 0.0
    ensures Inverse(lib, y) == Over(1.0, y)
    ensures -(Inverse(lib, y) * Div(lib, x, y)) == -Over(x, y * y)
  {
    InverseTimesQuotient(x, y);
  }

  lemma InverseTimesQuotient(a: real, x: real)
    requires x != 0.0
    ensures (1.0 / x) * (a / x) == Over(a, x * x)
  {
    var p, q := 1.0 / x, a / x;
    var y := ProductNonZero(x, x);
    QuotientOfProduct(p, q, a, x, y);
  }

  lemma QuotientOfProduct(p: real, q: real, a: real, x: real, y: real)
    requires p * x == 1.0 && q * x == a && y == x * x && y != 0.0
    ensures p * q == a / y
  {
    assert (p * q) * y == (p * x) * (q * x);
  }

  function Entry(a: Adjoint, i: nat): real {
    if a.Values? && i < |a.v| then a.v[i] else 0.0
  }

  /** Adding k times the vector d. */
  function Accumulate(a: Adjoint, k: real, d: seq<real>): Adjoint {
    Values(seq(|d|, i requires 0 <= i < |d| => Entry(a, i) + k * d[i]))
  }

  function AddTo(c: Cell, k: real, d: seq<real>): Cell {
    match c
    case Freed => Freed
    case Live(rc, adj) => Live(rc, Accumulate(adj, k, d))
  }

  /** The factors of every node; a unary node has only the first, a leaf none. */
  function NodeFactors(lib: Lib, op: Op, vals: seq<real>, y: real): (real, real)
    requires OperandsBelow(op, |vals|)
  {
    match op
    case Leaf => (0.0, 0.0)
    case Un(g, o) => (UnPush(lib, g, vals[o], y), 0.0)
    case Bin(f, l, r) => BinPush(lib, f, vals[l], vals[r], y)
  }

  function Factors(lib: Lib, ops: seq<Op>, vals: seq<real>): (w: seq<(real, real)>)
    requires WellFormed(ops) && |ops| == |vals|
    ensures |w| == |ops|
  {
    seq(|ops|, k requires 0 <= k < |ops| => NodeFactors(lib, ops[k], vals, vals[k]))
  }

  /** `propagate`: node v hands its adjoints d on to its operands, w[v] being its factors. */
  function Propagate(ops: seq<Op>, w: seq<(real, real)>, s: seq<Cell>, v: nat, d: seq<real>): (r: seq<Cell>)
    requires WellFormed(ops) && |ops| == |w| == |s| && v < |s|
    ensures |r| == |s|
  {
    match ops[v]
    case Leaf => s
    case Un(_, o) => s[o := AddTo(s[o], w[v].0, d)]
    case Bin(_, l, r) =>
      var s' := s[l := AddTo(s[l], w[v].0, d)];
      s'[r := AddTo(s'[r], w[v].1, d)]
  }

  // ---------------------------------------------------------------- releasing references

  /** `decRef`: gives up one reference to node v. */
  function Release(ops: seq<Op>, w: seq<(real, real)>, s: seq<Cell>, v: nat): (r: seq<Cell>)
    requires WellFormed(ops) && |ops| == |w| == |s| && v < |s|
    ensures |r| == |s|
    decreases v, 1
  {
    if Refs(s[v]) == 0 then s
    else if s[v].rc > 1 then s[v := s[v].(rc := s[v].rc - 1)]
    else ReleaseOperands(ops, w, PushAll(ops, w, s, v), v)[v := Freed]
  }

  /** The last reference to v is gone: v hands on its adjoints, if it has any, and loses them. */
  function PushAll(ops: seq<Op>, w: seq<(real, real)>, s: seq<Cell>, v: nat): (r: seq<Cell>)
    requires WellFormed(ops) && |ops| == |w| == |s| && v < |s| && s[v].Live?
    ensures |r| == |s|
  {
    var s' := s[v := Live(0, s[v].adj)];
    if s[v].adj.Values? then Propagate(ops, w, s', v, s[v].adj.v)[v := Live(0, NoValues)] else s'
  }

  /** `propagateChildren`, or the destructor: gives up the operand slots of v, the first one first. */
  function ReleaseOperands(ops: seq<Op>, w: seq<(real, real)>, s: seq<Cell>, v: nat): (r: seq<Cell>)
    requires WellFormed(ops) && |ops| == |w| == |s| && v < |s|
    ensures |r| == |s|
    decreases v, 0
  {
    match ops[v]
    case Leaf => s
    case Un(_, o) => Release(ops, w, s, o)
    case Bin(_, l, r) => Release(ops, w, Release(ops, w, s, l), r)
  }

  /** Nodes after v are not touched. */
  lemma {:induction false} ReleaseBelow(ops: seq<Op>, w: seq<(real, real)>, s: seq<Cell>, v: nat, k: nat)
    requires WellFormed(ops) && |ops| == |w| == |s| && v < k < |s|
    ensures Release(ops, w, s, v)[k] == s[k]
    decreases v, 1
  {
    if Refs(s[v]) == 1 {
      ReleaseOperandsBelow(ops, w, PushAll(ops, w, s, v), v, k);
    }
  }

  lemma {:induction false} ReleaseOperandsBelow(ops: seq<Op>, w: seq<(real, real)>, s: seq<Cell>, v: nat, k: nat)
    requires WellFormed(ops) && |ops| == |w| == |s| && v <= k < |s|
    ensures ReleaseOperands(ops, w, s, v)[k] == s[k]
    decreases v, 0
  {
    match ops[v]
    case Leaf =>
    case Un(_, o) => ReleaseBelow(ops, w, s, o, k);
    case Bin(_, l, r) =>
      ReleaseBelow(ops, w, s, l, k);
      ReleaseBelow(ops, w, Release(ops, w, s, l), r, k);
  }

  // ---------------------------------------------------------------- reference counts

  /** The number of operand slots of op that hold k. */
  function Slots(op: Op, k: nat): nat {
    match op
    case Leaf => 0
    case Un(_, o) => if o == k then 1 else 0
    case Bin(_, l, r) => (if l == k then 1 else 0) + (if r == k then 1 else 0)
  }

  /** The operand slots that hold k in the counted nodes among the first n. */
  function Uses(ops: seq<Op>, s: seq<Cell>, k: nat, n: nat): nat
    requires n <= |ops| == |s|
  {
    if n == 0 then 0 else Uses(ops, s, k, n - 1) + (if Refs(s[n - 1]) > 0 then Slots(ops[n - 1], k) else 0)
  }

  /** Every count is exact: external references plus operand slots. */
  ghost predicate Counted(ops: seq<Op>, s: seq<Cell>, ext: seq<nat>) {
    && WellFormed(ops) && |ops| == |s| == |ext|
    && forall k :: 0 <= k < |s| ==> Refs(s[k]) == ext[k] + Uses(ops, s, k, |s|)
  }

  lemma {:induction false} UsesUpdate(ops: seq<Op>, s: seq<Cell>, j: nat, c: Cell, k: nat, n: nat)
    requires j < |s| == |ops| && n <= |s|
    ensures Uses(ops, s[j := c], k, n) + (if j < n && Refs(s[j]) > 0 then Slots(ops[j], k) else 0)
         == Uses(ops, s, k, n) + (if j < n && Refs(c) > 0 then Slots(ops[j], k) else 0)
  {
    if n > 0 {
      UsesUpdate(ops, s, j, c, k, n - 1);
    }
  }

  /** Only whether a node is counted matters, not its adjoints. */
  lemma {:induction false} UsesSame(ops: seq<Op>, s: seq<Cell>, ops': seq<Op>, s': seq<Cell>, k: nat, n: nat)
    requires n <= |ops| == |s| && n <= |ops'| == |s'|
    requires forall j :: 0 <= j < n ==> ops[j] == ops'[j] && (Refs(s[j]) > 0 <==> Refs(s'[j]) > 0)
    ensures Uses(ops, s, k, n) == Uses(ops', s', k, n)
  {
    if n > 0 {
      UsesSame(ops, s, ops', s', k, n - 1);
    }
  }

  lemma CountedSame(ops: seq<Op>, s: seq<Cell>, s': seq<Cell>, ext: seq<nat>)
    requires Counted(ops, s, ext) && |s'| == |s|
    requires forall j :: 0 <= j < |s| ==> Refs(s[j]) == Refs(s'[j])
    ensures Counted(ops, s', ext)
  {
    forall k | 0 <= k < |s|
      ensures Refs(s'[k]) == ext[k] + Uses(ops, s', k, |s|)
    {
      UsesSame(ops, s, ops, s', k, |s|);
    }
  }

  /** The references of the operand slots of v, made external. */
  function WithSlots(op: Op, ext: seq<nat>): (r: seq<nat>)
    requires OperandsBelow(op, |ext|)
    ensures |r| == |ext|
    ensures forall k :: 0 <= k < |ext| ==> r[k] == ext[k] + Slots(op, k)
  {
    match op
    case Leaf => ext
    case Un(_, o) => ext[o := ext[o] + 1]
    case Bin(_, l, r) => var e := ext[r := ext[r] + 1]; e[l := e[l] + 1]
  }

  /** When the count of v falls to zero its operand slots become external references. */
  lemma DyingCounted(ops: seq<Op>, s: seq<Cell>, ext: seq<nat>, v: nat, a: Adjoint)
    requires Counted(ops, s, ext) && v < |s| && Refs(s[v]) == 1 && ext[v] > 0
    ensures ext[v] == 1
    ensures Counted(ops, s[v := Live(0, a)], WithSlots(ops[v], ext[v := 0]))
  {
    var s', ext' := s[v := Live(0, a)], WithSlots(ops[v], ext[v := 0]);
    forall k | 0 <= k < |s|
      ensures Refs(s'[k]) == ext'[k] + Uses(ops, s', k, |s|)
    {
      UsesUpdate(ops, s, v, Live(0, a), k, |s|);
    }
  }

  /** When the last reference to a node is given up no live node uses it any more: it has received
      from all of them before it hands on. */
  lemma {:induction false} DyingHasNoUsers(ops: seq<Op>, s: seq<Cell>, ext: seq<nat>, v: nat, j: nat)
    requires Counted(ops, s, ext) && v < |s| && Refs(s[v]) == 1 && ext[v] > 0 && j < |s| && Refs(s[j]) > 0
    ensures Slots(ops[j], v) == 0
  {
    UsesAtLeast(ops, s, v, |s|, j);
  }

  lemma {:induction false} UsesAtLeast(ops: seq<Op>, s: seq<Cell>, k: nat, n: nat, j: nat)
    requires j < n <= |ops| == |s| && Refs(s[j]) > 0
    ensures Uses(ops, s, k, n) >= Slots(ops[j], k)
  {
    if j < n - 1 {
      UsesAtLeast(ops, s, k, n - 1, j);
    }
  }

  lemma PropagateRefs(ops: seq<Op>, w: seq<(real, real)>, s: seq<Cell>, v: nat, d: seq<real>)
    requires WellFormed(ops) && |ops| == |w| == |s| && v < |s|
    ensures forall k :: 0 <= k < |s| ==> Refs(Propagate(ops, w, s, v, d)[k]) == Refs(s[k])
    ensures forall k :: v <= k < |s| ==> Propagate(ops, w, s, v, d)[k] == s[k]
  {
  }

  lemma PushAllCounted(ops: seq<Op>, w: seq<(real, real)>, s: seq<Cell>, ext: seq<nat>, v: nat)
    requires Counted(ops, s, ext) && |w| == |s| && v < |s| && Refs(s[v]) == 1 && ext[v] > 0
    ensures ext[v] == 1
    ensures Counted(ops, PushAll(ops, w, s, v), WithSlots(ops[v], ext[v := 0]))
    ensures PushAll(ops, w, s, v)[v] == Live(0, NoValues)
  {
    DyingCounted(ops, s, ext, v, s[v].adj);
    var s' := s[v := Live(0, s[v].adj)];
    if s[v].adj.Values? {
      PropagateRefs(ops, w, s', v, s[v].adj.v);
      CountedSame(ops, s', PushAll(ops, w, s, v), WithSlots(ops[v], ext[v := 0]));
    }
  }

  /** Giving up an external reference keeps every count exact. */
  lemma {:induction false} ReleaseCounted(ops: seq<Op>, w: seq<(real, real)>, s: seq<Cell>, ext: seq<nat>, v: nat)
    requires Counted(ops, s, ext) && |w| == |s| && v < |s| && ext[v] > 0
    ensures Counted(ops, Release(ops, w, s, v), ext[v := ext[v] - 1])
    decreases v, 1
  {
    var c := s[v];
    assert Refs(c) > 0;
    if c.rc > 1 {
      var s', ext' := s[v := c.(rc := c.rc - 1)], ext[v := ext[v] - 1];
      forall k | 0 <= k < |s|
        ensures Refs(s'[k]) == ext'[k] + Uses(ops, s', k, |s|)
      {
        UsesUpdate(ops, s, v, c.(rc := c.rc - 1), k, |s|);
      }
    } else {
      PushAllCounted(ops, w, s, ext, v);
      var s' := PushAll(ops, w, s, v);
      ReleaseOperandsCounted(ops, w, s', ext[v := 0], v);
      ReleaseOperandsBelow(ops, w, s', v, v);
      var s'' := ReleaseOperands(ops, w, s', v);
      CountedSame(ops, s'', s''[v := Freed], ext[v := 0]);
    }
  }

  lemma {:induction false} ReleaseOperandsCounted(ops: seq<Op>, w: seq<(real, real)>, s: seq<Cell>, ext: seq<nat>,
          v: nat)
    requires |ext| == |ops| && WellFormed(ops) && v < |ops|
    requires Counted(ops, s, WithSlots(ops[v], ext)) && |w| == |s|
    ensures Counted(ops, ReleaseOperands(ops, w, s, v), ext)
    decreases v, 0
  {
    match ops[v]
    case Leaf =>
    case Un(_, o) =>
      ReleaseCounted(ops, w, s, ext[o := ext[o] + 1], o);
      assert ext[o := ext[o] + 1][o := ext[o]] == ext;
    case Bin(_, l, r) =>
      var e := ext[r := ext[r] + 1];
      ReleaseCounted(ops, w, s, e[l := e[l] + 1], l);
      assert e[l := e[l] + 1][l := e[l]] == e;
      ReleaseCounted(ops, w, Release(ops, w, s, l), e, r);
      assert e[r := ext[r]] == ext;
  }

  /** A node is freed only together with its last reference, and stays freed. */
  lemma {:induction false} ReleaseFrees(ops: seq<Op>, w: seq<(real, real)>, s: seq<Cell>, v: nat, k: nat)
    requires WellFormed(ops) && |ops| == |w| == |s| && v < |s| && k < |s|
    ensures var r := Release(ops, w, s, v);
            && (s[k].Freed? ==> r[k].Freed?)
            && (s[k].Live? && s[k].rc == 0 ==> r[k].Live? && r[k].rc == 0)
            && (r[k].Live? && r[k].rc == 0 ==> s[k].Live? && s[k].rc == 0)
    decreases v, 1
  {
    if Refs(s[v]) == 1 {
      var s' := PushAll(ops, w, s, v);
      ReleaseOperandsFrees(ops, w, s', v, k);
    }
  }

  lemma {:induction false} ReleaseOperandsFrees(ops: seq<Op>, w: seq<(real, real)>, s: seq<Cell>, v: nat, k: nat)
    requires WellFormed(ops) && |ops| == |w| == |s| && v < |s| && k < |s|
    ensures var r := ReleaseOperands(ops, w, s, v);
            && (s[k].Freed? ==> r[k].Freed?)
            && (s[k].Live? && s[k].rc == 0 ==> r[k].Live? && r[k].rc == 0)
            && (r[k].Live? && r[k].rc == 0 ==> s[k].Live? && s[k].rc == 0)
    decreases v, 0
  {
    match ops[v]
    case Leaf =>
    case Un(_, o) => ReleaseFrees(ops, w, s, o, k);
    case Bin(_, l, r) =>
      ReleaseFrees(ops, w, s, l, k);
      ReleaseFrees(ops, w, Release(ops, w, s, l), r, k);
  }
}
