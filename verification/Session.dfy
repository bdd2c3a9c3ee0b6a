/** Runs of reverse differentiation: the user makes variables, applies operators, copies, assigns
    and drops handles, and calls `diff` on outputs, in any order.  Throughout every run the
    reference counts stay exact and the adjoints stay balanced, so that a variable whose last
    non-handle reference is gone holds exactly its derivatives. */
module Session {
  import opened Ops
  import opened Recording
  import opened BackwardStore
  import opened Adjoints

  /** The nodes constructed so far (xs holds the values of the leaves), the store, and the number of
      handles on each node. */
  datatype State = State(ops: seq<Op>, xs: seq<real>, cells: seq<Cell>, ext: seq<nat>)

  datatype Action =
    | NewLeaf(x: real)             // a variable constructed from a scalar
    | NewOp(op: Op)                // an operator applied to live handles
    | Copy(v: nat)                 // the copy constructor
    | Drop(v: nat)                 // the destructor of a handle
    | Assign(v: nat, u: nat)       // operator=, from a handle on u to a handle on v
    | Diff(v: nat, c: nat)         // `diff(c, n)`

  const EMPTY := State([], [], [], [])

  predicate Shaped(s: State) {
    WellFormed(s.ops) && |s.ops| == |s.xs| == |s.cells| == |s.ext|
  }

  /** What holds between any two actions. */
  ghost predicate Inv(s: State, n: nat) {
    && Shaped(s)
    && Counted(s.ops, s.cells, s.ext)
    && AdjointsSized(s.cells, n)
    && forall k :: 0 <= k < |s.cells| && s.cells[k].Live? ==> s.cells[k].rc > 0
  }

  predicate OperandsHeld(op: Op, ext: seq<nat>)
    requires OperandsBelow(op, |ext|)
  {
    match op
    case Leaf => true
    case Un(_, o) => ext[o] > 0
    case Bin(_, l, r) => ext[l] > 0 && ext[r] > 0
  }

  /** Handles are used only while they exist. */
  predicate Enabled(s: State, a: Action, n: nat)
    requires Shaped(s)
  {
    match a
    case NewLeaf(_) => true
    case NewOp(op) => !op.Leaf? && OperandsBelow(op, |s.ops|) && OperandsHeld(op, s.ext)
    case Copy(v) => v < |s.ops| && s.ext[v] > 0
    case Drop(v) => v < |s.ops| && s.ext[v] > 0
    case Assign(v, u) => v < |s.ops| && u < |s.ops| && s.ext[v] > 0 && s.ext[u] > 0
    case Diff(v, c) => v < |s.ops| && s.ext[v] > 0 && c < n
  }

  // ---------------------------------------------------------------- one action

  /** `incRef`. */
  function Hold(s: seq<Cell>, v: nat): (r: seq<Cell>)
    requires v < |s|
    ensures |r| == |s|
  {
    match s[v]
    case Freed => s
    case Live(rc, adj) => s[v := Live(rc + 1, adj)]
  }

  function HoldOperands(s: seq<Cell>, op: Op): (r: seq<Cell>)
    requires OperandsBelow(op, |s|)
    ensures |r| == |s|
  {
    match op
    case Leaf => s
    case Un(_, o) => Hold(s, o)
    case Bin(_, l, r) => Hold(Hold(s, l), r)
  }

  /** Entry c becomes one; a vector that did not exist starts from zeros. */
  function Seed(a: Adjoint, c: nat, n: nat): Adjoint {
    Values(seq(n, (i: nat) => if i == c then 1.0 else Entry(a, i)))
  }

  function SeedCell(cell: Cell, c: nat, n: nat): Cell {
    match cell
    case Freed => Freed
    case Live(rc, adj) => Live(rc, Seed(adj, c, n))
  }

  function W(lib: Lib, s: State): (w: seq<(real, real)>)
    requires Shaped(s)
    ensures |w| == |s.ops|
  {
    Factors(lib, s.ops, Vals(lib, s.ops, s.xs))
  }

  function Appended(s: State, op: Op, x: real): State {
    State(s.ops + [op], s.xs + [x], s.cells + [Live(1, NoValues)], s.ext + [1])
  }

  function Copied(s: State, v: nat): State
    requires Shaped(s) && v < |s.ops|
  {
    s.(cells := Hold(s.cells, v), ext := s.ext[v := s.ext[v] + 1])
  }

  function Dropped(lib: Lib, s: State, v: nat): State
    requires Shaped(s) && v < |s.ops| && s.ext[v] > 0
  {
    s.(cells := Release(s.ops, W(lib, s), s.cells, v), ext := s.ext[v := s.ext[v] - 1])
  }

  function Seeded(s: State, v: nat, c: nat, n: nat): State
    requires Shaped(s) && v < |s.ops|
  {
    s.(cells := s.cells[v := SeedCell(s.cells[v], c, n)])
  }

  /** `diff` seeds node v, and its handle moves to a fresh leaf of the same value. */
  function Step(lib: Lib, s: State, a: Action, n: nat): State
    requires Shaped(s) && Enabled(s, a, n)
  {
    match a
    case NewLeaf(x) => Appended(s, Leaf, x)
    case NewOp(op) => Appended(s.(cells := HoldOperands(s.cells, op)), op, 0.0)
    case Copy(v) => Copied(s, v)
    case Drop(v) => Dropped(lib, s, v)
    case Assign(v, u) => if v == u then s else Copied(Dropped(lib, s, v), u)
    case Diff(v, c) => Appended(Dropped(lib, Seeded(s, v, c, n), v), Leaf, Vals(lib, s.ops, s.xs)[v])
  }

  // ---------------------------------------------------------------- the invariant

  lemma HoldCounted(ops: seq<Op>, s: seq<Cell>, ext: seq<nat>, v: nat)
    requires Counted(ops, s, ext) && v < |s| && s[v].Live? && s[v].rc > 0
    ensures Counted(ops, Hold(s, v), ext[v := ext[v] + 1])
  {
    var s' := Hold(s, v);
    forall k | 0 <= k < |s|
      ensures Refs(s'[k]) == ext[v := ext[v] + 1][k] + Uses(ops, s', k, |s|)
    {
      UsesSame(ops, s, ops, s', k, |s|);
    }
  }

  lemma HoldOperandsCounted(ops: seq<Op>, s: seq<Cell>, ext: seq<nat>, op: Op)
    requires Counted(ops, s, ext) && OperandsBelow(op, |s|) && OperandsHeld(op, ext)
    ensures Counted(ops, HoldOperands(s, op), WithSlots(op, ext))
  {
    match op
    case Leaf =>
    case Un(_, o) => HoldCounted(ops, s, ext, o);
    case Bin(_, l, r) =>
      HoldCounted(ops, s, ext, l);
      var e := ext[l := ext[l] + 1];
      HoldCounted(ops, Hold(s, l), e, r);
      assert WithSlots(op, ext) == e[r := e[r] + 1];
  }

  /** A new node takes over the references that its slots hold. */
  lemma AppendedCounted(ops: seq<Op>, s: seq<Cell>, ext: seq<nat>, op: Op)
    requires |ops| == |ext| && OperandsBelow(op, |ext|) && Counted(ops, s, WithSlots(op, ext))
    ensures Counted(ops + [op], s + [Live(1, NoValues)], ext + [1])
  {
    var ops', s', ext', m := ops + [op], s + [Live(1, NoValues)], ext + [1], |s|;
    forall k | 0 <= k <= m
      ensures Refs(s'[k]) == ext'[k] + Uses(ops', s', k, m + 1)
    {
      UsesSame(ops, s, ops', s', k, m);
      if k == m {
        NoLaterUses(ops, s, m, m);
      }
    }
  }

  lemma {:induction false} NoLaterUses(ops: seq<Op>, s: seq<Cell>, k: nat, n: nat)
    requires WellFormed(ops) && n <= |ops| == |s| && n <= k
    ensures Uses(ops, s, k, n) == 0
  {
    if n > 0 {
      NoLaterUses(ops, s, k, n - 1);
      assert OperandsBelow(ops[n - 1], n - 1);
    }
  }

  lemma DroppedInv(lib: Lib, s: State, v: nat, n: nat)
    requires Inv(s, n) && v < |s.ops| && s.ext[v] > 0
    ensures Inv(Dropped(lib, s, v), n)
  {
    var w := W(lib, s);
    ReleaseCounted(s.ops, w, s.cells, s.ext, v);
    ReleaseSized(s.ops, w, s.cells, v, n);
    forall k | 0 <= k < |s.cells|
      ensures var c := Release(s.ops, w, s.cells, v)[k]; c.Live? ==> c.rc > 0
    {
      ReleaseFrees(s.ops, w, s.cells, v, k);
    }
  }

  lemma {:induction false} ReleaseSized(ops: seq<Op>, w: seq<(real, real)>, s: seq<Cell>, v: nat, n: nat)
    requires WellFormed(ops) && |ops| == |w| == |s| && v < |s| && AdjointsSized(s, n)
    ensures AdjointsSized(Release(ops, w, s, v), n)
    decreases v, 1
  {
    if Refs(s[v]) == 1 {
      if s[v].adj.Values? {
        PropagateSized(ops, w, s[v := Live(0, s[v].adj)], v, s[v].adj.v, n);
      }
      ReleaseOperandsSized(ops, w, PushAll(ops, w, s, v), v, n);
    }
  }

  lemma {:induction false} ReleaseOperandsSized(ops: seq<Op>, w: seq<(real, real)>, s: seq<Cell>, v: nat, n: nat)
    requires WellFormed(ops) && |ops| == |w| == |s| && v < |s| && AdjointsSized(s, n)
    ensures AdjointsSized(ReleaseOperands(ops, w, s, v), n)
    decreases v, 0
  {
    match ops[v]
    case Leaf =>
    case Un(_, o) => ReleaseSized(ops, w, s, o, n);
    case Bin(_, l, r) =>
      ReleaseSized(ops, w, s, l, n);
      ReleaseSized(ops, w, Release(ops, w, s, l), r, n);
  }

  lemma SeededInv(s: State, v: nat, c: nat, n: nat)
    requires Inv(s, n) && v < |s.ops|
    ensures Inv(Seeded(s, v, c, n), n)
  {
    CountedSame(s.ops, s.cells, Seeded(s, v, c, n).cells, s.ext);
  }

  lemma CopiedInv(s: State, v: nat, n: nat)
    requires Inv(s, n) && v < |s.ops| && s.ext[v] > 0
    ensures Inv(Copied(s, v), n)
  {
    HoldCounted(s.ops, s.cells, s.ext, v);
  }

  lemma AppendedInv(s: State, op: Op, x: real, n: nat)
    requires Inv(s, n) && OperandsBelow(op, |s.ops|) && OperandsHeld(op, s.ext)
    ensures Inv(Appended(s.(cells := HoldOperands(s.cells, op)), op, x), n)
  {
    HoldOperandsCounted(s.ops, s.cells, s.ext, op);
    AppendedCounted(s.ops, HoldOperands(s.cells, op), s.ext, op);
  }

  /** Every action keeps the invariant. */
  lemma StepInv(lib: Lib, s: State, a: Action, n: nat)
    requires Inv(s, n) && Enabled(s, a, n)
    ensures Inv(Step(lib, s, a, n), n)
  {
    match a
    case NewLeaf(x) => AppendedInv(s, Leaf, x, n);
    case NewOp(op) => AppendedInv(s, op, 0.0, n);
    case Copy(v) => CopiedInv(s, v, n);
    case Drop(v) => DroppedInv(lib, s, v, n);
    case Assign(v, u) =>
      if v != u {
        DroppedInv(lib, s, v, n);
        CopiedInv(Dropped(lib, s, v), u, n);
      }
    case Diff(v, c) =>
      SeededInv(s, v, c, n);
      DroppedInv(lib, Seeded(s, v, c, n), v, n);
      AppendedInv(Dropped(lib, Seeded(s, v, c, n), v), Leaf, Vals(lib, s.ops, s.xs)[v], n);
  }

  lemma StepExtends(lib: Lib, s: State, a: Action, n: nat)
    requires Shaped(s) && Enabled(s, a, n)
    ensures var r := Step(lib, s, a, n); Shaped(r) && s.ops <= r.ops && s.xs <= r.xs
  {
    if a.NewOp? {
      assert OperandsBelow(a.op, |s.ops|);
    }
  }

  // ---------------------------------------------------------------- what is recorded

  /** The node an action constructs, if it constructs one. */
  function Constructed(a: Action): seq<Op> {
    match a
    case NewLeaf(_) => [Leaf]
    case NewOp(op) => [op]
    case Diff(_, _) => [Leaf]
    case _ => []
  }

  /** Its value, in terms of the values there are; `diff` leaves the variable with the value it had. */
  function Result(lib: Lib, a: Action, vals: seq<real>): seq<real> {
    match a
    case NewLeaf(x) => [x]
    case NewOp(Leaf) => [0.0]
    case NewOp(Un(g, o)) => [if o < |vals| then UnValue(lib, g, vals[o]) else 0.0]
    case NewOp(Bin(f, l, r)) => [if l < |vals| && r < |vals| then BinValue(lib, f, vals[l], vals[r]) else 0.0]
    case Diff(v, _) => [if v < |vals| then vals[v] else 0.0]
    case _ => []
  }

  /** The handles an action makes on a node that exists, and those it gives up. */
  function Gained(a: Action, k: nat): nat {
    match a
    case Copy(v) => if k == v then 1 else 0
    case Assign(v, u) => if k == u then 1 else 0
    case _ => 0
  }

  function Lost(a: Action, k: nat): nat {
    match a
    case Drop(v) => if k == v then 1 else 0
    case Assign(v, u) => if k == v then 1 else 0
    case Diff(v, _) => if k == v then 1 else 0
    case _ => 0
  }

  /** Every action records the node it says, and no node and no value that was there before changes. */
  lemma StepRecords(lib: Lib, s: State, a: Action, n: nat)
    requires Shaped(s) && Enabled(s, a, n)
    ensures var r := Step(lib, s, a, n);
            && Shaped(r) && r.ops == s.ops + Constructed(a)
            && Vals(lib, r.ops, r.xs) == Vals(lib, s.ops, s.xs) + Result(lib, a, Vals(lib, s.ops, s.xs))
  {
    StepExtends(lib, s, a, n);
    match a
    case NewLeaf(x) => ValsAppended(lib, s.ops, s.xs, Leaf, x);
    case NewOp(op) => OperationRecords(lib, s, op, n);
    case Diff(v, c) => DiffRecords(lib, s, v, c, n);
    case _ =>
  }

  lemma OperationRecords(lib: Lib, s: State, op: Op, n: nat)
    requires Shaped(s) && Enabled(s, NewOp(op), n)
    ensures var r, v := Step(lib, s, NewOp(op), n), Vals(lib, s.ops, s.xs);
            && Shaped(r) && r.ops == s.ops + [op]
            && Vals(lib, r.ops, r.xs) == v + Result(lib, NewOp(op), v)
  {
    ValsAppended(lib, s.ops, s.xs, op, 0.0);
  }

  lemma DiffRecords(lib: Lib, s: State, v: nat, c: nat, n: nat)
    requires Shaped(s) && Enabled(s, Diff(v, c), n)
    ensures var r, vals := Step(lib, s, Diff(v, c), n), Vals(lib, s.ops, s.xs);
            && Shaped(r) && r.ops == s.ops + [Leaf]
            && Vals(lib, r.ops, r.xs) == vals + [vals[v]]
  {
    ValsAppended(lib, s.ops, s.xs, Leaf, Vals(lib, s.ops, s.xs)[v]);
  }

  /** A node starts with one handle, and every action moves the handles it says and no others. */
  lemma StepHandles(lib: Lib, s: State, a: Action, n: nat)
    requires Shaped(s) && Enabled(s, a, n)
    ensures var r := Step(lib, s, a, n);
            && |s.ext| <= |r.ext|
            && (forall k :: 0 <= k < |s.ext| ==> r.ext[k] + Lost(a, k) == s.ext[k] + Gained(a, k))
            && (forall k :: |s.ext| <= k < |r.ext| ==> r.ext[k] == 1)
  {
  }

  /** Which leaves a recording needs values for: a variable that is made from a scalar, and what `diff`
      makes of one. */
  lemma StepLeaves(lib: Lib, s: State, a: Action, n: nat)
    requires Shaped(s) && Enabled(s, a, n)
    ensures var r := Step(lib, s, a, n);
            r.xs == s.xs + if a.NewOp? then [0.0] else Result(lib, a, Vals(lib, s.ops, s.xs))
  {
  }

  // ---------------------------------------------------------------- balance

  /** The sum over all nodes of adjoint times derivative with respect to x, in column c. */
  function Sum(lib: Lib, s: State, x: nat, c: nat): real
    requires Shaped(s)
  {
    Total(s.cells, Tangents(lib, s.ops, s.xs, x), c, |s.cells|)
  }

  /** What an action adds to that sum: `diff` overwrites an adjoint with one. */
  function Gain(lib: Lib, s: State, a: Action, x: nat, c: nat): real
    requires Shaped(s) && (a.Diff? ==> a.v < |s.ops|)
  {
    if a.Diff? && a.c == c
    then Overwriting(AdjointAt(s.cells[a.v], c), Tangents(lib, s.ops, s.xs, x)[a.v])
    else 0.0
  }

  /** The change of a term when the adjoint a is overwritten with one. */
  function Overwriting(a: real, y: real): real {
    (1.0 - a) * y
  }

  /** x, once it exists, has a handle. */
  predicate Held(s: State, x: nat)
    requires Shaped(s)
  {
    x < |s.ops| ==> s.ops[x].Leaf? && s.ext[x] > 0
  }

  /** The derivatives follow the rules that the nodes use to push. */
  lemma TangentsFollow(lib: Lib, ops: seq<Op>, xs: seq<real>, x: nat)
    requires WellFormed(ops) && |xs| == |ops| && Defined(lib, ops, xs)
    ensures FollowsRules(ops, Factors(lib, ops, Vals(lib, ops, xs)), Tangents(lib, ops, xs, x))
  {
    var w, t := Factors(lib, ops, Vals(lib, ops, xs)), Tangents(lib, ops, xs, x);
    forall k | 0 <= k < |ops|
      ensures RuleAt(ops[k], w[k], t, k)
    {
      TangentFollows(lib, ops, xs, x, k);
    }
  }

  lemma TangentFollows(lib: Lib, ops: seq<Op>, xs: seq<real>, x: nat, k: nat)
    requires WellFormed(ops) && |xs| == |ops| && k < |ops| && Defined(lib, ops, xs)
    ensures var v := Vals(lib, ops, xs);
            RuleAt(ops[k], NodeFactors(lib, ops[k], v, v[k]), Tangents(lib, ops, xs, x), k)
  {
    assert NodeDefined(lib, ops[k], Vals(lib, ops, xs));
    if ops[k].Un? {
      UnFollows(lib, ops, xs, x, k);
    } else if ops[k].Bin? {
      BinFollows(lib, ops, xs, x, k);
    }
  }

  lemma UnFollows(lib: Lib, ops: seq<Op>, xs: seq<real>, x: nat, k: nat)
    requires WellFormed(ops) && |xs| == |ops| && k < |ops| && ops[k].Un? && NodeDefined(lib, ops[k], Vals(lib, ops, xs))
    ensures var v, t := Vals(lib, ops, xs), Tangents(lib, ops, xs, x);
            Chain1(t[k], NodeFactors(lib, ops[k], v, v[k]).0, t[ops[k].o])
  {
    var v := Vals(lib, ops, xs);
    ValsUn(lib, ops, xs, k);
    TangentsUn(lib, ops, xs, x, k);
    UnPushIsSlope(lib, ops[k].g, v[ops[k].o]);
  }

  lemma BinFollows(lib: Lib, ops: seq<Op>, xs: seq<real>, x: nat, k: nat)
    requires WellFormed(ops) && |xs| == |ops| && k < |ops| && ops[k].Bin?
              && NodeDefined(lib, ops[k], Vals(lib, ops, xs))
    ensures var v, t := Vals(lib, ops, xs), Tangents(lib, ops, xs, x);
            var p := NodeFactors(lib, ops[k], v, v[k]);
            Chain2(t[k], p.0, t[ops[k].l], p.1, t[ops[k].r])
  {
    var v := Vals(lib, ops, xs);
    ValsBin(lib, ops, xs, k);
    TangentsBin(lib, ops, xs, x, k);
    BinPushIsSlope(lib, ops[k].f, v[ops[k].l], v[ops[k].r]);
  }

  lemma HeldProtects(lib: Lib, s: State, x: nat, ext: seq<nat>)
    requires Shaped(s) && |ext| == |s.ops| && (x < |s.ops| && s.ops[x].Leaf? ==> ext[x] > 0)
    ensures Protected(s.ops, ext, Tangents(lib, s.ops, s.xs, x))
  {
    forall k | 0 <= k < |s.ops| && s.ops[k].Leaf? && k != x
      ensures Tangents(lib, s.ops, s.xs, x)[k] == 0.0
    {
      TangentsAt(lib, s.ops, s.xs, x, k);
    }
  }

  lemma DroppedSum(lib: Lib, s: State, v: nat, x: nat, c: nat, n: nat)
    requires Inv(s, n) && v < |s.ops| && s.ext[v] > 0 && c < n && Defined(lib, s.ops, s.xs)
    requires Held(Dropped(lib, s, v), x)
    ensures Sum(lib, Dropped(lib, s, v), x, c) == Sum(lib, s, x, c)
  {
    TangentsFollow(lib, s.ops, s.xs, x);
    HeldProtects(lib, s, x, s.ext[v := s.ext[v] - 1]);
    ReleaseConserves(s.ops, W(lib, s), s.cells, s.ext, Tangents(lib, s.ops, s.xs, x), c, n, v);
  }

  lemma {:induction false} TotalSame(s: seq<Cell>, t: seq<real>, s': seq<Cell>, t': seq<real>, i: nat, m: nat)
    requires m <= |s| == |t| && m <= |s'| == |t'|
    requires forall k :: 0 <= k < m ==> AdjointAt(s[k], i) == AdjointAt(s'[k], i) && t[k] == t'[k]
    ensures Total(s, t, i, m) == Total(s', t', i, m)
  {
    if m > 0 {
      TotalSame(s, t, s', t', i, m - 1);
    }
  }

  lemma AppendedSum(lib: Lib, s: State, op: Op, y: real, x: nat, c: nat)
    requires Shaped(s) && OperandsBelow(op, |s.ops|)
    ensures Shaped(Appended(s, op, y)) && Sum(lib, Appended(s, op, y), x, c) == Sum(lib, s, x, c)
  {
    var r, m := Appended(s, op, y), |s.cells|;
    var t, t' := Tangents(lib, s.ops, s.xs, x), Tangents(lib, r.ops, r.xs, x);
    TangentsPrefix(lib, r.ops, r.xs, x, m);
    assert r.ops[..m] == s.ops && r.xs[..m] == s.xs;
    assert forall k :: 0 <= k < m ==> t'[..m][k] == t'[k];
    TotalSame(s.cells, t, r.cells, t', c, m);
    NoAdjoint(r.cells[m], c, t'[m]);
  }

  lemma HoldOperandsSum(lib: Lib, s: State, op: Op, x: nat, c: nat)
    requires Shaped(s) && OperandsBelow(op, |s.ops|)
    ensures Sum(lib, s.(cells := HoldOperands(s.cells, op)), x, c) == Sum(lib, s, x, c)
  {
    var t := Tangents(lib, s.ops, s.xs, x);
    TotalSame(s.cells, t, HoldOperands(s.cells, op), t, c, |s.cells|);
  }

  lemma CopiedSum(lib: Lib, s: State, v: nat, x: nat, c: nat)
    requires Shaped(s) && v < |s.ops|
    ensures Sum(lib, Copied(s, v), x, c) == Sum(lib, s, x, c)
  {
    var t := Tangents(lib, s.ops, s.xs, x);
    TotalSame(s.cells, t, Hold(s.cells, v), t, c, |s.cells|);
  }

  lemma SeededSum(lib: Lib, s: State, v: nat, c: nat, n: nat, x: nat, i: nat)
    requires Inv(s, n) && v < |s.ops| && s.cells[v].Live? && c < n && i < n
    ensures Sum(lib, Seeded(s, v, c, n), x, i) == Sum(lib, s, x, i) + Gain(lib, s, Diff(v, c), x, i)
  {
    var t := Tangents(lib, s.ops, s.xs, x);
    SeedTotal(s.cells, t, v, c, n, i, AdjointAt(s.cells[v], i), t[v]);
  }

  lemma SeedTotal(s: seq<Cell>, t: seq<real>, v: nat, c: nat, n: nat, i: nat, a: real, y: real)
    requires v < |s| == |t| && s[v].Live? && (s[v].adj.Values? ==> |s[v].adj.v| == n) && c < n && i < n
    requires a == AdjointAt(s[v], i) && y == t[v]
    ensures Total(s[v := SeedCell(s[v], c, n)], t, i, |s|)
              == Total(s, t, i, |s|) + (if i == c then Overwriting(a, y) else 0.0)
  {
    var cell := SeedCell(s[v], c, n);
    TotalUpdate(s, t, i, |s|, v, cell);
    assert AdjointAt(cell, i) == if i == c then 1.0 else a;
    Overwritten(a, y);
  }

  lemma Overwritten(a: real, t: real)
    ensures 1.0 * t - a * t == Overwriting(a, t)
  {
  }

  /** Every action changes the sum by its gain, exactly. */
  lemma StepSum(lib: Lib, s: State, a: Action, n: nat, x: nat, c: nat)
    requires Inv(s, n) && Enabled(s, a, n) && c < n && Defined(lib, s.ops, s.xs)
    requires Shaped(Step(lib, s, a, n)) && Held(s, x) && Held(Step(lib, s, a, n), x)
    ensures Sum(lib, Step(lib, s, a, n), x, c) == Sum(lib, s, x, c) + Gain(lib, s, a, x, c)
  {
    match a
    case NewLeaf(y) => AppendedSum(lib, s, Leaf, y, x, c);
    case NewOp(op) =>
      HoldOperandsSum(lib, s, op, x, c);
      AppendedSum(lib, s.(cells := HoldOperands(s.cells, op)), op, 0.0, x, c);
    case Copy(v) => CopiedSum(lib, s, v, x, c);
    case Drop(v) => DroppedSum(lib, s, v, x, c, n);
    case Assign(v, u) =>
      if v != u {
        DroppedSum(lib, s, v, x, c, n);
        CopiedSum(lib, Dropped(lib, s, v), u, x, c);
      }
    case Diff(v, i) => DiffSum(lib, s, v, i, n, x, c);
  }

  lemma DiffSum(lib: Lib, s: State, v: nat, i: nat, n: nat, x: nat, c: nat)
    requires Inv(s, n) && Enabled(s, Diff(v, i), n) && c < n && Defined(lib, s.ops, s.xs)
    requires Held(s, x) && (x == v ==> s.ext[v] > 1)
    ensures Sum(lib, Step(lib, s, Diff(v, i), n), x, c) == Sum(lib, s, x, c) + Gain(lib, s, Diff(v, i), x, c)
  {
    var s1 := Seeded(s, v, i, n);
    SeededSum(lib, s, v, i, n, x, c);
    SeededInv(s, v, i, n);
    DroppedSum(lib, s1, v, x, c, n);
    AppendedSum(lib, Dropped(lib, s1, v), Leaf, Vals(lib, s.ops, s.xs)[v], x, c);
  }
}
