/** What reverse differentiation computes, over whole runs: the derivative, and what forward
    differentiation computes. */
module Gradients {
  import opened Ops
  import opened Recording
  import opened BackwardStore
  import opened Adjoints
  import opened Session
  import opened Forward
  import Calculus

  /** A run from the empty store: n is the common `size` of all `diff` calls. */
  ghost predicate IsRun(lib: Lib, n: nat, states: seq<State>, actions: seq<Action>) {
    && |states| == |actions| + 1 && states[0] == EMPTY
    && forall i :: 0 <= i < |actions| ==> IsStep(lib, n, states[i], actions[i], states[i + 1])
  }

  ghost predicate IsStep(lib: Lib, n: nat, s: State, a: Action, s': State) {
    Shaped(s) && Enabled(s, a, n) && s' == Step(lib, s, a, n)
  }

  /** Safety of every run: counts exact, adjoint vectors of one size, nothing lives uncounted. */
  lemma {:induction false} RunInv(lib: Lib, n: nat, states: seq<State>, actions: seq<Action>, i: nat)
    requires IsRun(lib, n, states, actions) && i < |states|
    ensures Inv(states[i], n)
  {
    if i > 0 {
      RunInv(lib, n, states, actions, i - 1);
      assert IsStep(lib, n, states[i - 1], actions[i - 1], states[i]);
      StepInv(lib, states[i - 1], actions[i - 1], n);
    }
  }

  lemma {:induction false} RunExtends(lib: Lib, n: nat, states: seq<State>, actions: seq<Action>, i: nat, j: nat)
    requires IsRun(lib, n, states, actions) && i <= j < |states|
    ensures Shaped(states[i]) && Shaped(states[j])
    ensures states[i].ops <= states[j].ops && states[i].xs <= states[j].xs
  {
    RunInv(lib, n, states, actions, i);
    RunInv(lib, n, states, actions, j);
    if i < j {
      RunExtends(lib, n, states, actions, i, j - 1);
      assert IsStep(lib, n, states[j - 1], actions[j - 1], states[j]);
      StepExtends(lib, states[j - 1], actions[j - 1], n);
    }
  }

  lemma PrefixDefined(lib: Lib, s: State, r: State)
    requires Shaped(s) && Shaped(r) && s.ops <= r.ops && s.xs <= r.xs && Defined(lib, r.ops, r.xs)
    ensures Defined(lib, s.ops, s.xs)
  {
    DefinedPrefix(lib, r.ops, r.xs, |s.ops|);
    assert r.ops[..|s.ops|] == s.ops && r.xs[..|s.ops|] == s.xs;
  }

  // ---------------------------------------------------------------- the user's program

  /** The operations that the user's actions ask for, in order. */
  function Program(actions: seq<Action>): seq<Op> {
    if actions == [] then [] else Program(actions[..|actions| - 1]) + Constructed(actions[|actions| - 1])
  }

  /** What the user's program computes, one statement after the other. */
  function Results(lib: Lib, actions: seq<Action>): (r: seq<real>)
    ensures |r| == |Program(actions)|
  {
    if actions == [] then [] else
    var r := Results(lib, actions[..|actions| - 1]);
    r + Result(lib, actions[|actions| - 1], r)
  }

  /** The values of its variables, that is of the leaves; an operation has none of its own. */
  function Starts(lib: Lib, actions: seq<Action>): (r: seq<real>)
    ensures |r| == |Program(actions)|
  {
    if actions == [] then [] else
    var init, a := actions[..|actions| - 1], actions[|actions| - 1];
    Starts(lib, init) + if a.NewOp? then [0.0] else Result(lib, a, Results(lib, init))
  }

  /** The program divides by no zero. */
  ghost predicate Meaningful(lib: Lib, actions: seq<Action>) {
    WellFormed(Program(actions)) && Defined(lib, Program(actions), Starts(lib, actions))
  }

  /** Throughout every run the recording is the program so far, and its nodes have the values that the
      program computes. */
  lemma {:induction false} RunRecords(lib: Lib, n: nat, states: seq<State>, actions: seq<Action>, i: nat)
    requires IsRun(lib, n, states, actions) && i < |states|
    ensures Shaped(states[i])
    ensures states[i].ops == Program(actions[..i]) && states[i].xs == Starts(lib, actions[..i])
    ensures Vals(lib, states[i].ops, states[i].xs) == Results(lib, actions[..i])
  {
    if i > 0 {
      RunRecords(lib, n, states, actions, i - 1);
      assert IsStep(lib, n, states[i - 1], actions[i - 1], states[i]);
      StepRecords(lib, states[i - 1], actions[i - 1], n);
      StepLeaves(lib, states[i - 1], actions[i - 1], n);
      assert actions[..i][..i - 1] == actions[..i - 1];
    }
  }

  lemma RunIsProgram(lib: Lib, n: nat, states: seq<State>, actions: seq<Action>)
    requires IsRun(lib, n, states, actions)
    ensures var s := states[|actions|];
            && Shaped(s) && s.ops == Program(actions) && s.xs == Starts(lib, actions)
            && Vals(lib, s.ops, s.xs) == Results(lib, actions)
  {
    RunRecords(lib, n, states, actions, |actions|);
    assert actions[..|actions|] == actions;
  }

  // ---------------------------------------------------------------- nodes are freed in order

  /** A node that is freed stays freed: it is deleted, and pushes its adjoints, at most once. */
  lemma FreedForGood(lib: Lib, n: nat, states: seq<State>, actions: seq<Action>, i: nat, j: nat, k: nat)
    requires IsRun(lib, n, states, actions) && i <= j < |states|
    requires k < |states[i].cells| && states[i].cells[k].Freed?
    ensures k < |states[j].cells| && states[j].cells[k].Freed?
  {
    if i < j {
      FreedForGood(lib, n, states, actions, i, j - 1, k);
      RunInv(lib, n, states, actions, j - 1);
      assert IsStep(lib, n, states[j - 1], actions[j - 1], states[j]);
      StepKeepsFreed(lib, states[j - 1], actions[j - 1], n, k);
    }
  }

  lemma StepKeepsFreed(lib: Lib, s: State, a: Action, n: nat, k: nat)
    requires Inv(s, n) && Enabled(s, a, n) && k < |s.cells| && s.cells[k].Freed?
    ensures k < |Step(lib, s, a, n).cells| && Step(lib, s, a, n).cells[k].Freed?
  {
    match a
    case NewLeaf(_) =>
    case NewOp(_) =>
    case Copy(_) =>
    case Drop(v) => ReleaseFrees(s.ops, W(lib, s), s.cells, v, k);
    case Assign(v, _) => ReleaseFrees(s.ops, W(lib, s), s.cells, v, k);
    case Diff(v, c) =>
      var s1 := Seeded(s, v, c, n);
      ReleaseFrees(s1.ops, W(lib, s1), s1.cells, v, k);
  }

  /** A freed node has no user left: everything that was computed from it was freed before it. */
  lemma FreedHasNoUsers(s: State, n: nat, k: nat, j: nat)
    requires Inv(s, n) && k < |s.cells| && s.cells[k].Freed? && j < |s.cells| && s.cells[j].Live?
    ensures s.ext[k] == 0 && Slots(s.ops[j], k) == 0
  {
    UsesAtLeast(s.ops, s.cells, k, |s.cells|, j);
  }

  /** When no handle pins an interior node, none is left: after `diff` has been called on all
      outputs the whole recording has been swept and freed. */
  lemma UnpinnedIsSwept(s: State, n: nat, k: nat)
    requires Inv(s, n) && k < |s.ops| && !s.ops[k].Leaf?
    requires forall j :: 0 <= j < |s.ops| && !s.ops[j].Leaf? ==> s.ext[j] == 0
    ensures s.cells[k].Freed?
    decreases |s.ops| - k
  {
    forall j | k < j < |s.ops|
      ensures Refs(s.cells[j]) == 0 || s.ops[j].Leaf?
    {
      if !s.ops[j].Leaf? {
        UnpinnedIsSwept(s, n, j);
      }
    }
    NoUsers(s, k, |s.ops|);
  }

  lemma {:induction false} NoUsers(s: State, k: nat, m: nat)
    requires Shaped(s) && m <= |s.ops|
    requires forall j :: k < j < m ==> Refs(s.cells[j]) == 0 || s.ops[j].Leaf?
    ensures Uses(s.ops, s.cells, k, m) == 0
  {
    if m > 0 {
      NoUsers(s, k, m - 1);
      assert OperandsBelow(s.ops[m - 1], m - 1);
    }
  }

  /** Then every variable with a single handle may be read. */
  lemma UnpinnedIsReadable(s: State, n: nat, x: nat)
    requires Inv(s, n) && x < |s.ops| && s.ops[x].Leaf? && s.ext[x] == 1
    requires forall j :: 0 <= j < |s.ops| && !s.ops[j].Leaf? ==> s.ext[j] == 0
    ensures Readable(s, x)
  {
    forall j | x < j < |s.ops|
      ensures Refs(s.cells[j]) == 0 || s.ops[j].Leaf?
    {
      if !s.ops[j].Leaf? {
        UnpinnedIsSwept(s, n, j);
      }
    }
    NoUsers(s, x, |s.ops|);
  }

  // ---------------------------------------------------------------- conservation over runs

  ghost predicate HeldThroughout(states: seq<State>, x: nat) {
    forall i :: 0 <= i < |states| ==> Shaped(states[i]) && Held(states[i], x)
  }

  function Gains(lib: Lib, states: seq<State>, actions: seq<Action>, x: nat, c: nat, i: nat): real
    requires i <= |actions| < |states|
    requires forall j :: 0 <= j < i ==>
                (Shaped(states[j]) && (actions[j].Diff? ==> actions[j].v < |states[j].ops|))
  {
    if i == 0 then 0.0
    else Gains(lib, states, actions, x, c, i - 1) + Gain(lib, states[i - 1], actions[i - 1], x, c)
  }

  lemma RunShaped(lib: Lib, n: nat, states: seq<State>, actions: seq<Action>)
    requires IsRun(lib, n, states, actions)
    ensures forall j :: 0 <= j < |actions| ==>
                (Shaped(states[j]) && (actions[j].Diff? ==> actions[j].v < |states[j].ops|))
  {
    forall j | 0 <= j < |actions|
      ensures Shaped(states[j]) && (actions[j].Diff? ==> actions[j].v < |states[j].ops|)
    {
      assert IsStep(lib, n, states[j], actions[j], states[j + 1]);
    }
  }

  /** At every moment of every run the sum of adjoint times derivative is what the seeds put in. */
  lemma {:induction false} AdjointsConserved(lib: Lib, n: nat, states: seq<State>, actions: seq<Action>, x: nat,
          c: nat, i: nat)
    requires IsRun(lib, n, states, actions) && i < |states| && c < n
    requires HeldThroughout(states, x) && Defined(lib, states[|actions|].ops, states[|actions|].xs)
    requires forall j :: 0 <= j < |actions| ==>
                (Shaped(states[j]) && (actions[j].Diff? ==> actions[j].v < |states[j].ops|))
    ensures Sum(lib, states[i], x, c) == Gains(lib, states, actions, x, c, i)
  {
    if i > 0 {
      var s, a := states[i - 1], actions[i - 1];
      AdjointsConserved(lib, n, states, actions, x, c, i - 1);
      RunInv(lib, n, states, actions, i - 1);
      RunExtends(lib, n, states, actions, i - 1, |actions|);
      PrefixDefined(lib, s, states[|actions|]);
      assert IsStep(lib, n, s, a, states[i]);
      StepSum(lib, s, a, n, x, c);
    }
  }

  // ---------------------------------------------------------------- reading a variable

  /** When a variable has no reference but its handle (the check in `deriv`), no other live node
      depends on it. */
  lemma LiveIndependent(lib: Lib, s: State, n: nat, x: nat, k: nat)
    requires Inv(s, n) && x < |s.ops| && s.ext[x] > 0 && Refs(s.cells[x]) == 1
    requires k < |s.ops| && k != x && s.cells[k].Live?
    ensures Tangents(lib, s.ops, s.xs, x)[k] == 0.0
    decreases k
  {
    TangentsAt(lib, s.ops, s.xs, x, k);
    match s.ops[k]
    case Leaf =>
    case Un(g, o) =>
      LiveOperand(s, n, x, k, o);
      LiveIndependent(lib, s, n, x, o);
    case Bin(_, l, r) =>
      LiveOperand(s, n, x, k, l);
      LiveOperand(s, n, x, k, r);
      LiveIndependent(lib, s, n, x, l);
      LiveIndependent(lib, s, n, x, r);
  }

  lemma LiveOperand(s: State, n: nat, x: nat, k: nat, o: nat)
    requires Inv(s, n) && x < |s.ops| && s.ext[x] > 0 && Refs(s.cells[x]) == 1
    requires k < |s.ops| && s.cells[k].Live? && o < |s.ops| && Slots(s.ops[k], o) > 0
    ensures o != x && s.cells[o].Live?
  {
    UsesAtLeast(s.ops, s.cells, o, |s.ops|, k);
  }

  lemma {:induction false} TotalOf(s: seq<Cell>, t: seq<real>, i: nat, m: nat, x: nat)
    requires m <= |s| == |t| && x < |s| && t[x] == 1.0
    requires forall k :: 0 <= k < |s| && k != x && s[k].Live? ==> t[k] == 0.0
    ensures Total(s, t, i, m) == if x < m then AdjointAt(s[x], i) else 0.0
  {
    if m > 0 {
      TotalOf(s, t, i, m - 1, x);
      if m - 1 != x {
        ZeroTerm(s[m - 1], i, t[m - 1]);
      }
    }
  }

  lemma ZeroTerm(c: Cell, i: nat, t: real)
    requires c.Live? ==> t == 0.0
    ensures AdjointAt(c, i) * t == 0.0
  {
  }

  /** Then what it holds is the whole sum. */
  lemma ReadIsSum(lib: Lib, s: State, n: nat, x: nat, c: nat)
    requires Inv(s, n) && x < |s.ops| && s.ops[x].Leaf? && s.ext[x] > 0 && Refs(s.cells[x]) == 1
    ensures AdjointAt(s.cells[x], c) == Sum(lib, s, x, c)
  {
    var t := Tangents(lib, s.ops, s.xs, x);
    TangentsAt(lib, s.ops, s.xs, x, x);
    forall k | 0 <= k < |s.cells| && k != x && s.cells[k].Live?
      ensures t[k] == 0.0
    {
      LiveIndependent(lib, s, n, x, k);
    }
    TotalOf(s.cells, t, c, |s.cells|, x);
  }

  // ---------------------------------------------------------------- one seed per column

  ghost predicate ZeroColumn(s: seq<Cell>, c: nat) {
    forall k :: 0 <= k < |s| ==> AdjointAt(s[k], c) == 0.0
  }

  lemma {:induction false} ReleaseZero(ops: seq<Op>, w: seq<(real, real)>, s: seq<Cell>, v: nat, c: nat, n: nat)
    requires WellFormed(ops) && |ops| == |w| == |s| && v < |s| && ZeroColumn(s, c) && AdjointsSized(s, n) && c < n
    ensures ZeroColumn(Release(ops, w, s, v), c)
    decreases v, 1
  {
    if Refs(s[v]) == 1 {
      var s' := s[v := Live(0, s[v].adj)];
      if s[v].adj.Values? {
        PropagateZero(ops, w, s', v, s[v].adj.v, c);
        PropagateSized(ops, w, s', v, s[v].adj.v, n);
      }
      ReleaseOperandsZero(ops, w, PushAll(ops, w, s, v), v, c, n);
    }
  }

  lemma {:induction false} ReleaseOperandsZero(ops: seq<Op>, w: seq<(real, real)>, s: seq<Cell>, v: nat, c: nat, n: nat)
    requires WellFormed(ops) && |ops| == |w| == |s| && v < |s| && ZeroColumn(s, c) && AdjointsSized(s, n) && c < n
    ensures ZeroColumn(ReleaseOperands(ops, w, s, v), c)
    decreases v, 0
  {
    match ops[v]
    case Leaf =>
    case Un(_, o) => ReleaseZero(ops, w, s, o, c, n);
    case Bin(_, l, r) =>
      ReleaseZero(ops, w, s, l, c, n);
      ReleaseSized(ops, w, s, l, n);
      ReleaseZero(ops, w, Release(ops, w, s, l), r, c, n);
  }

  lemma PropagateZero(ops: seq<Op>, w: seq<(real, real)>, s: seq<Cell>, v: nat, d: seq<real>, c: nat)
    requires WellFormed(ops) && |ops| == |w| == |s| && v < |s| && ZeroColumn(s, c) && c < |d| && d[c] == 0.0
    ensures ZeroColumn(Propagate(ops, w, s, v, d), c)
  {
    match ops[v]
    case Leaf =>
    case Un(_, o) => AddToZero(s[o], w[v].0, d, c);
    case Bin(_, l, r) =>
      AddToZero(s[l], w[v].0, d, c);
      AddToZero(s[l := AddTo(s[l], w[v].0, d)][r], w[v].1, d, c);
  }

  lemma AddToZero(cell: Cell, k: real, d: seq<real>, c: nat)
    requires AdjointAt(cell, c) == 0.0 && c < |d| && d[c] == 0.0
    ensures AdjointAt(AddTo(cell, k, d), c) == 0.0
  {
  }

  lemma StepZero(lib: Lib, s: State, a: Action, n: nat, c: nat)
    requires Inv(s, n) && Enabled(s, a, n) && c < n && ZeroColumn(s.cells, c) && !(a.Diff? && a.c == c)
    ensures ZeroColumn(Step(lib, s, a, n).cells, c)
  {
    match a
    case NewLeaf(_) =>
    case NewOp(op) =>
    case Copy(_) =>
    case Drop(v) => ReleaseZero(s.ops, W(lib, s), s.cells, v, c, n);
    case Assign(v, _) => ReleaseZero(s.ops, W(lib, s), s.cells, v, c, n);
    case Diff(v, i) => DiffZero(lib, s, v, i, n, c);
  }

  lemma DiffZero(lib: Lib, s: State, v: nat, i: nat, n: nat, c: nat)
    requires Inv(s, n) && Enabled(s, Diff(v, i), n) && c < n && ZeroColumn(s.cells, c) && i != c
    ensures ZeroColumn(Dropped(lib, Seeded(s, v, i, n), v).cells, c)
  {
    var s1 := Seeded(s, v, i, n);
    SeededInv(s, v, i, n);
    ReleaseZero(s1.ops, W(lib, s1), s1.cells, v, c, n);
  }

  lemma {:induction false} UnseededIsZero(lib: Lib, n: nat, states: seq<State>, actions: seq<Action>, c: nat, i: nat)
    requires IsRun(lib, n, states, actions) && i < |states| && c < n
    requires forall j :: 0 <= j < i ==> !(actions[j].Diff? && actions[j].c == c)
    ensures ZeroColumn(states[i].cells, c)
  {
    if i > 0 {
      UnseededIsZero(lib, n, states, actions, c, i - 1);
      RunInv(lib, n, states, actions, i - 1);
      assert IsStep(lib, n, states[i - 1], actions[i - 1], states[i]);
      StepZero(lib, states[i - 1], actions[i - 1], n, c);
    }
  }

  /** Action p is the only `diff` in column c. */
  ghost predicate OnlySeed(actions: seq<Action>, p: nat, c: nat) {
    && p < |actions| && actions[p].Diff? && actions[p].c == c
    && forall j :: 0 <= j < |actions| && j != p ==> !(actions[j].Diff? && actions[j].c == c)
  }

  lemma {:induction false} OnlyGain(lib: Lib, n: nat, states: seq<State>, actions: seq<Action>, x: nat, c: nat,
          p: nat, i: nat)
    requires IsRun(lib, n, states, actions) && i <= |actions| && OnlySeed(actions, p, c) && c < n
    requires forall j :: 0 <= j < |actions| ==>
                (Shaped(states[j]) && (actions[j].Diff? ==> actions[j].v < |states[j].ops|))
    ensures Gains(lib, states, actions, x, c, i)
         == if p < i then Tangents(lib, states[p].ops, states[p].xs, x)[actions[p].v] else 0.0
  {
    if i > 0 {
      OnlyGain(lib, n, states, actions, x, c, p, i - 1);
      if i - 1 == p {
        UnseededIsZero(lib, n, states, actions, c, p);
      }
    }
  }

  /** What x holds when it may be read. */
  ghost predicate Readable(s: State, x: nat) {
    Shaped(s) && x < |s.ops| && s.ops[x].Leaf? && Refs(s.cells[x]) == 1
  }

  /** The derivative of the seeded node, by the textbook rules. */
  lemma ReverseIsTangent(lib: Lib, n: nat, states: seq<State>, actions: seq<Action>, x: nat, c: nat, p: nat)
    requires IsRun(lib, n, states, actions) && HeldThroughout(states, x) && OnlySeed(actions, p, c) && c < n
    requires var s := states[|actions|]; Readable(s, x) && Defined(lib, s.ops, s.xs)
    ensures var s := states[|actions|];
            actions[p].v < |s.ops| && AdjointAt(s.cells[x], c) == Tangents(lib, s.ops, s.xs, x)[actions[p].v]
  {
    var m := |actions|;
    var s, s1 := states[m], states[p];
    RunShaped(lib, n, states, actions);
    AdjointsConserved(lib, n, states, actions, x, c, m);
    OnlyGain(lib, n, states, actions, x, c, p, m);
    RunInv(lib, n, states, actions, m);
    ReadIsSum(lib, s, n, x, c);
    RunExtends(lib, n, states, actions, p, m);
    TangentsPrefix(lib, s.ops, s.xs, x, |s1.ops|);
    assert s.ops[..|s1.ops|] == s1.ops && s.xs[..|s1.ops|] == s1.xs;
  }

  /** Reverse differentiation gives the derivative, in the sense of analysis, of what the user's program
      computes. */
  lemma ReverseIsDerivative(lib: Lib, n: nat, states: seq<State>, actions: seq<Action>, x: nat, c: nat, p: nat)
    requires IsRun(lib, n, states, actions) && HeldThroughout(states, x) && OnlySeed(actions, p, c) && c < n
    requires Readable(states[|actions|], x) && Meaningful(lib, actions)
    requires Calculus.LibSmooth(lib, Program(actions), Starts(lib, actions))
    ensures x < |Program(actions)| && actions[p].v < |Program(actions)|
    ensures Calculus.HasDerivative(Calculus.Along(lib, Program(actions), Starts(lib, actions), x, actions[p].v),
                                   AdjointAt(states[|actions|].cells[x], c))
  {
    RunIsProgram(lib, n, states, actions);
    ReverseIsTangent(lib, n, states, actions, x, c, p);
    Calculus.TangentsAreDerivatives(lib, Program(actions), Starts(lib, actions), x, actions[p].v);
  }

  /** Reverse and forward differentiation agree: the same program run forward, with x given a column
      of its own in gradients of size m, has in that column of the seeded node what x holds. */
  lemma ReverseIsForward(lib: Lib, n: nat, states: seq<State>, actions: seq<Action>, x: nat, c: nat, p: nat,
                         columns: map<nat, nat>, m: nat)
    requires IsRun(lib, n, states, actions) && HeldThroughout(states, x) && OnlySeed(actions, p, c) && c < n
    requires Readable(states[|actions|], x) && Meaningful(lib, actions)
    requires x in columns && columns[x] < m && forall y :: y in columns && columns[y] == columns[x] ==> y == x
    ensures actions[p].v < |Program(actions)|
    ensures var forward := FRun(lib, Program(actions), Starts(lib, actions), columns, m)[actions[p].v];
            && forward.val == Results(lib, actions)[actions[p].v]
            && forward.Deriv(columns[x]) == AdjointAt(states[|actions|].cells[x], c)
  {
    RunIsProgram(lib, n, states, actions);
    ReverseIsTangent(lib, n, states, actions, x, c, p);
    ForwardIsTangent(lib, Program(actions), Starts(lib, actions), columns, m, x, actions[p].v);
  }
}
