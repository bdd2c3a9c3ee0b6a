/** Conservation of adjoints: for any assignment of derivatives t that follows the rules of the
    recorded operations, the sum over all nodes of adjoint times derivative does not change when
    references are released, however far the release cascades. */
module Adjoints {
  import opened Ops
  import opened BackwardStore

  /** t follows the rules whose factors are w at the interior nodes; at the leaves it is free. */
  ghost predicate FollowsRules(ops: seq<Op>, w: seq<(real, real)>, t: seq<real>) {
    && WellFormed(ops) && |ops| == |w| == |t|
    && forall k {:trigger RuleAt(ops[k], w[k], t, k)} :: 0 <= k < |ops| ==> RuleAt(ops[k], w[k], t, k)
  }

  predicate RuleAt(op: Op, p: (real, real), t: seq<real>, k: nat)
    requires k < |t| && OperandsBelow(op, k)
  {
    match op
    case Leaf => true
    case Un(_, o) => Chain1(t[k], p.0, t[o])
    case Bin(_, l, r) => Chain2(t[k], p.0, t[l], p.1, t[r])
  }

  /** The chain rule for one operand, and for two. */
  predicate Chain1(y: real, p: real, u: real) {
    y == p * u
  }

  predicate Chain2(y: real, p: real, u: real, q: real, v: real) {
    y == p * u + q * v
  }

  /** Every adjoint vector has n entries. */
  predicate AdjointsSized(s: seq<Cell>, n: nat) {
    forall k :: 0 <= k < |s| && s[k].Live? && s[k].adj.Values? ==> |s[k].adj.v| == n
  }

  /** The sum over the first m nodes of adjoint (entry i) times derivative. */
  function Total(s: seq<Cell>, t: seq<real>, i: nat, m: nat): real
    requires m <= |s| == |t|
  {
    if m == 0 then 0.0 else Total(s, t, i, m - 1) + Weighted(s[m - 1], i, t[m - 1])
  }

  function Weighted(c: Cell, i: nat, y: real): real {
    AdjointAt(c, i) * y
  }

  lemma {:induction false} TotalUpdate(s: seq<Cell>, t: seq<real>, i: nat, m: nat, j: nat, c: Cell)
    requires m <= |s| == |t| && j < |s|
    ensures Total(s[j := c], t, i, m)
         == Total(s, t, i, m) + (if j < m then Weighted(c, i, t[j]) - Weighted(s[j], i, t[j]) else 0.0)
  {
    if m > 0 {
      TotalUpdate(s, t, i, m - 1, j, c);
      if j != m - 1 {
        assert s[j := c][m - 1] == s[m - 1];
      }
    }
  }

  lemma AddToTotal(s: seq<Cell>, t: seq<real>, i: nat, j: nat, k: real, d: seq<real>, m: nat)
    requires |s| == |t| && j < m <= |s| && s[j].Live? && i < |d|
    ensures Total(s[j := AddTo(s[j], k, d)], t, i, m) == Total(s, t, i, m) + (k * d[i]) * t[j]
  {
    var c := AddTo(s[j], k, d);
    TotalUpdate(s, t, i, m, j, c);
    var a := AdjointAt(s[j], i);
    assert AdjointAt(c, i) == a + k * d[i];
    SplitProduct(a, k * d[i], t[j]);
  }

  lemma SplitProduct(a: real, b: real, t: real)
    ensures (a + b) * t == a * t + b * t
  {
  }

  lemma MoveFactor(k: real, d: real, t: real)
    ensures (k * d) * t == d * (k * t)
  {
  }

  lemma UnRule(ops: seq<Op>, w: seq<(real, real)>, t: seq<real>, v: nat, y: real) returns (p: real)
    requires FollowsRules(ops, w, t) && v < |t| && ops[v].Un? && y == t[v]
    ensures p == w[v].0 && Chain1(y, p, t[ops[v].o])
  {
    assert RuleAt(ops[v], w[v], t, v);
    p := w[v].0;
  }

  lemma BinRule(ops: seq<Op>, w: seq<(real, real)>, t: seq<real>, v: nat, y: real) returns (p: real, q: real)
    requires FollowsRules(ops, w, t) && v < |t| && ops[v].Bin? && y == t[v]
    ensures p == w[v].0 && q == w[v].1 && Chain2(y, p, t[ops[v].l], q, t[ops[v].r])
  {
    assert RuleAt(ops[v], w[v], t, v);
    p, q := w[v].0, w[v].1;
  }

  lemma PropagateUnTotal(ops: seq<Op>, w: seq<(real, real)>, s: seq<Cell>, t: seq<real>, i: nat, v: nat,
          d: seq<real>, p: real, y: real)
    requires WellFormed(ops) && |ops| == |w| == |s| == |t| && v < |s| && i < |d| && ops[v].Un? && s[ops[v].o].Live?
    requires p == w[v].0 && Chain1(y, p, t[ops[v].o])
    ensures Total(Propagate(ops, w, s, v, d), t, i, |s|) == Total(s, t, i, |s|) + d[i] * y
  {
    PushOne(s, t, i, ops[v].o, p, d, y);
  }

  lemma PropagateBinTotal(ops: seq<Op>, w: seq<(real, real)>, s: seq<Cell>, t: seq<real>, i: nat, v: nat,
          d: seq<real>, p: real, q: real, y: real)
    requires WellFormed(ops) && |ops| == |w| == |s| == |t| && v < |s| && i < |d| && ops[v].Bin?
    requires s[ops[v].l].Live? && s[ops[v].r].Live?
    requires p == w[v].0 && q == w[v].1 && Chain2(y, p, t[ops[v].l], q, t[ops[v].r])
    ensures Total(Propagate(ops, w, s, v, d), t, i, |s|) == Total(s, t, i, |s|) + d[i] * y
  {
    PushTwo(s, t, i, ops[v].l, p, ops[v].r, q, d, y);
  }

  /** What a node hands on is its adjoint times its derivative y. */
  lemma PropagateTotal(ops: seq<Op>, w: seq<(real, real)>, s: seq<Cell>, t: seq<real>, i: nat, v: nat,
          d: seq<real>, y: real)
    requires FollowsRules(ops, w, t) && |s| == |t| && v < |s| && i < |d| && !ops[v].Leaf? && y == t[v]
    requires forall k :: 0 <= k < |s| && Slots(ops[v], k) > 0 ==> s[k].Live?
    ensures Total(Propagate(ops, w, s, v, d), t, i, |s|) == Total(s, t, i, |s|) + d[i] * y
  {
    var op := ops[v];
    if op.Un? {
      assert Slots(op, op.o) > 0;
      var p := UnRule(ops, w, t, v, y);
      PropagateUnTotal(ops, w, s, t, i, v, d, p, y);
    } else {
      assert Slots(op, op.l) > 0 && Slots(op, op.r) > 0;
      var p, q := BinRule(ops, w, t, v, y);
      PropagateBinTotal(ops, w, s, t, i, v, d, p, q, y);
    }
  }

  lemma PushOne(s: seq<Cell>, t: seq<real>, i: nat, o: nat, k: real, d: seq<real>, y: real)
    requires |s| == |t| && o < |s| && s[o].Live? && i < |d| && Chain1(y, k, t[o])
    ensures Total(s[o := AddTo(s[o], k, d)], t, i, |s|) == Total(s, t, i, |s|) + d[i] * y
  {
    AddToTotal(s, t, i, o, k, d, |s|);
    MoveFactor(k, d[i], t[o]);
  }

  lemma PushTwo(s: seq<Cell>, t: seq<real>, i: nat, l: nat, p: real, r: nat, q: real, d: seq<real>, y: real)
    requires |s| == |t| && l < |s| && r < |s| && s[l].Live? && s[r].Live? && i < |d| && Chain2(y, p, t[l], q, t[r])
    ensures var s' := s[l := AddTo(s[l], p, d)];
            Total(s'[r := AddTo(s'[r], q, d)], t, i, |s|) == Total(s, t, i, |s|) + d[i] * y
  {
    var s' := s[l := AddTo(s[l], p, d)];
    var x, z := ChainParts(y, p, t[l], q, t[r]);
    PushOne(s, t, i, l, p, d, x);
    PushOne(s', t, i, r, q, d, z);
    Combine(d[i], x, z, y);
  }

  lemma ChainParts(y: real, p: real, u: real, q: real, v: real) returns (x: real, z: real)
    requires Chain2(y, p, u, q, v)
    ensures Chain1(x, p, u) && Chain1(z, q, v) && y == x + z
  {
    x, z := p * u, q * v;
  }

  lemma Combine(d: real, x: real, y: real, z: real)
    requires z == x + y
    ensures d * x + d * y == d * z
  {
  }

  lemma PropagateSized(ops: seq<Op>, w: seq<(real, real)>, s: seq<Cell>, v: nat, d: seq<real>, n: nat)
    requires WellFormed(ops) && |ops| == |w| == |s| && v < |s| && |d| == n && AdjointsSized(s, n)
    ensures AdjointsSized(Propagate(ops, w, s, v, d), n)
  {
  }

  /** A leaf that t gives weight to keeps an external reference. */
  ghost predicate Protected(ops: seq<Op>, ext: seq<nat>, t: seq<real>) {
    |ops| == |ext| == |t| && forall k :: 0 <= k < |ops| && ops[k].Leaf? && t[k] != 0.0 ==> ext[k] > 0
  }

  /** The counts do not matter. */
  lemma {:induction false} TotalKept(s: seq<Cell>, t: seq<real>, i: nat, m: nat, v: nat, c: Cell)
    requires m <= |s| == |t| && v < |s| && AdjointAt(c, i) == AdjointAt(s[v], i)
    ensures Total(s[v := c], t, i, m) == Total(s, t, i, m)
  {
    if m > 0 {
      TotalKept(s, t, i, m - 1, v, c);
      assert AdjointAt(s[v := c][m - 1], i) == AdjointAt(s[m - 1], i);
    }
  }

  /** A dying node hands on exactly what it takes out of the sum. */
  lemma PushAllTotal(ops: seq<Op>, w: seq<(real, real)>, s: seq<Cell>, ext: seq<nat>, t: seq<real>, i: nat, n: nat,
          v: nat)
    requires FollowsRules(ops, w, t) && Counted(ops, s, ext) && AdjointsSized(s, n) && i < n
    requires v < |s| && Refs(s[v]) == 1 && ext[v] > 0 && (ops[v].Leaf? ==> t[v] == 0.0)
    ensures AdjointsSized(PushAll(ops, w, s, v), n)
    ensures Total(PushAll(ops, w, s, v), t, i, |s|) == Total(s, t, i, |s|)
  {
    var a, s' := s[v].adj, s[v := Live(0, s[v].adj)];
    TotalKept(s, t, i, |s|, v, Live(0, a));
    if a.Values? {
      PropagateSized(ops, w, s', v, a.v, n);
      SlotsLive(ops, s, ext, v);
      HandingOnTotal(ops, w, s', t, i, v, a.v);
    }
  }

  lemma SlotsLive(ops: seq<Op>, s: seq<Cell>, ext: seq<nat>, v: nat)
    requires Counted(ops, s, ext) && v < |s| && Refs(s[v]) == 1 && ext[v] > 0
    ensures forall k :: 0 <= k < |s| && Slots(ops[v], k) > 0 ==> s[k].Live?
  {
    DyingCounted(ops, s, ext, v, s[v].adj);
  }

  lemma HandingOnTotal(ops: seq<Op>, w: seq<(real, real)>, s: seq<Cell>, t: seq<real>, i: nat, v: nat, d: seq<real>)
    requires FollowsRules(ops, w, t) && |s| == |t| && v < |s| && (ops[v].Leaf? ==> t[v] == 0.0)
    requires s[v].Live? && s[v].adj == Values(d) && i < |d|
    requires forall k :: 0 <= k < |s| && Slots(ops[v], k) > 0 ==> s[k].Live?
    ensures Total(Propagate(ops, w, s, v, d)[v := Live(0, NoValues)], t, i, |s|) == Total(s, t, i, |s|)
  {
    var p := Propagate(ops, w, s, v, d);
    PropagateRefs(ops, w, s, v, d);
    TotalUpdate(p, t, i, |s|, v, Live(0, NoValues));
    if ops[v].Leaf? {
      assert Weighted(p[v], i, t[v]) == 0.0;
    } else {
      PropagateTotal(ops, w, s, t, i, v, d, t[v]);
    }
  }

  /** Releasing a reference conserves every sum. */
  lemma {:induction false} ReleaseConserves(ops: seq<Op>, w: seq<(real, real)>, s: seq<Cell>, ext: seq<nat>,
          t: seq<real>, i: nat, n: nat, v: nat)
    requires FollowsRules(ops, w, t) && Counted(ops, s, ext) && AdjointsSized(s, n) && i < n
    requires v < |s| && ext[v] > 0 && Protected(ops, ext[v := ext[v] - 1], t)
    ensures AdjointsSized(Release(ops, w, s, v), n)
    ensures Total(Release(ops, w, s, v), t, i, |s|) == Total(s, t, i, |s|)
    decreases v, 2
  {
    var c := s[v];
    assert Refs(c) > 0;
    if c.rc > 1 {
      SharedReleaseConserves(ops, w, s, t, i, n, v);
    } else {
      LastReleaseConserves(ops, w, s, ext, t, i, n, v);
    }
  }

  lemma SharedReleaseConserves(ops: seq<Op>, w: seq<(real, real)>, s: seq<Cell>, t: seq<real>, i: nat, n: nat, v: nat)
    requires WellFormed(ops) && |ops| == |w| == |s| == |t| && AdjointsSized(s, n) && v < |s| && Refs(s[v]) > 1
    ensures AdjointsSized(Release(ops, w, s, v), n)
    ensures Total(Release(ops, w, s, v), t, i, |s|) == Total(s, t, i, |s|)
  {
    var c := s[v].(rc := s[v].rc - 1);
    TotalKept(s, t, i, |s|, v, c);
    assert Release(ops, w, s, v) == s[v := c];
  }

  lemma {:induction false} LastReleaseConserves(ops: seq<Op>, w: seq<(real, real)>, s: seq<Cell>, ext: seq<nat>,
          t: seq<real>, i: nat, n: nat, v: nat)
    requires FollowsRules(ops, w, t) && Counted(ops, s, ext) && AdjointsSized(s, n) && i < n
    requires v < |s| && Refs(s[v]) == 1 && ext[v] > 0 && Protected(ops, ext[v := ext[v] - 1], t)
    ensures AdjointsSized(Release(ops, w, s, v), n)
    ensures Total(Release(ops, w, s, v), t, i, |s|) == Total(s, t, i, |s|)
    decreases v, 1
  {
    var s' := PushAll(ops, w, s, v);
    var s'' := ReleaseOperands(ops, w, s', v);
    PushAllCounted(ops, w, s, ext, v);
    PushAllTotal(ops, w, s, ext, t, i, n, v);
    ReleaseOperandsConserves(ops, w, s', ext[v := 0], t, i, n, v);
    ReleaseOperandsBelow(ops, w, s', v, v);
    TotalUpdate(s'', t, i, |s|, v, Freed);
    NoAdjoint(Live(0, NoValues), i, t[v]);
    assert Release(ops, w, s, v) == s''[v := Freed];
  }

  lemma NoAdjoint(c: Cell, i: nat, t: real)
    requires c.Freed? || c.adj.NoValues?
    ensures AdjointAt(c, i) * t == 0.0
  {
  }

  lemma {:induction false} ReleaseOperandsConserves(ops: seq<Op>, w: seq<(real, real)>, s: seq<Cell>,
          ext: seq<nat>, t: seq<real>, i: nat, n: nat, v: nat)
    requires FollowsRules(ops, w, t) && AdjointsSized(s, n) && i < n && |s| == |ext| == |ops| && v < |s|
    requires Counted(ops, s, WithSlots(ops[v], ext)) && Protected(ops, ext, t)
    ensures AdjointsSized(ReleaseOperands(ops, w, s, v), n)
    ensures Total(ReleaseOperands(ops, w, s, v), t, i, |s|) == Total(s, t, i, |s|)
    decreases v, 0
  {
    match ops[v]
    case Leaf =>
    case Un(_, o) =>
      var e := ext[o := ext[o] + 1];
      assert e[o := e[o] - 1] == ext;
      ReleaseConserves(ops, w, s, e, t, i, n, o);
    case Bin(_, l, r) =>
      var e := ext[r := ext[r] + 1];
      var e' := e[l := e[l] + 1];
      assert e'[l := e'[l] - 1] == e && e[r := e[r] - 1] == ext;
      ReleaseConserves(ops, w, s, e', t, i, n, l);
      ReleaseCounted(ops, w, s, e', l);
      ReleaseConserves(ops, w, Release(ops, w, s, l), e, t, i, n, r);
  }
}
