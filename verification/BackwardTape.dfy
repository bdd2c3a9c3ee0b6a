/** The recorded DAG of badiff.h as it is updated in place: reference counts, operand pointers that
    are cleared when they are given up, and adjoint buffers that move between nodes and the recycle
    bin of the sweep.  Every method refines the abstract machine of `BackwardStore`. */
module BackwardTape {
  import opened Ops
  import opened Recording
  import opened BackwardStore
  import opened Derivatives
  import Session

  datatype Pointer = Null | To(node: nat)

  /** Which overload of `add` and `sub` a node calls on its operand. */
  datatype Form = Plus | Minus | PlusScaled(a: real) | MinusScaled(a: real)

  function Factor(f: Form): real {
    match f
    case Plus => 1.0
    case Minus => -1.0
    case PlusScaled(a) => a
    case MinusScaled(a) => -a
  }

  /** The body of `propagate` of the unary node classes. */
  function UnForm(lib: Lib, g: UnFn, x: real, y: real): (f: Form)
    ensures Factor(f) == UnPush(lib, g, x, y)
  {
    match g
    case ADD1(_) => Plus
    case ADD2(_) => Plus
    case SUB1(_) => Minus
    case SUB2(_) => Plus
    case MUL1(a) => PlusScaled(a)
    case MUL2(b) => PlusScaled(b)
    case DIV1(_) => MinusScaled(Inverse(lib, x) * y)
    case DIV2(b) => PlusScaled(Inverse(lib, b))
    case UMINUS => Minus
    case UPLUS => Plus
    case SQR => PlusScaled(2.0 * x)
    case SQRT => PlusScaled(Inverse(lib, y * 2.0))
    case EXP => PlusScaled(y)
    case LOG => PlusScaled(Inverse(lib, x))
    case SIN => PlusScaled(lib.cos(x))
    case COS => MinusScaled(lib.sin(x))
  }

  /** The same for the binary ones, first operand first. */
  function BinForms(lib: Lib, f: BinFn, x: real, y: real, z: real): (p: (Form, Form))
    ensures (Factor(p.0), Factor(p.1)) == BinPush(lib, f, x, y, z)
  {
    match f
    case ADD => (Plus, Plus)
    case SUB => (Plus, Minus)
    case MUL => (PlusScaled(y), PlusScaled(x))
    case DIV => (PlusScaled(Inverse(lib, y)), MinusScaled(Inverse(lib, y) * z))
  }

  /** The operand pointers of a new node. */
  predicate PointersOf(op: Op, p1: Pointer, p2: Pointer) {
    match op
    case Leaf => p1 == Null && p2 == Null
    case Un(_, o) => p1 == To(o) && p2 == Null
    case Bin(_, l, r) => p1 == To(l) && p2 == To(r)
  }

  class Tape {
    const lib: Lib
    const n: nat                     // the `size` of all `diff` calls
    var ops: seq<Op>                 // class, constants and original operands of each node
    var val: seq<real>               // m_val
    var rc: seq<nat>                 // m_rc
    var alive: seq<bool>             // false after `delete`
    var buf: seq<array?<real>>       // m_derivatives.m_values
    var op1: seq<Pointer>            // m_pOp1, or m_pOp
    var op2: seq<Pointer>            // m_pOp2
    ghost var xs: seq<real>          // the values the leaves were constructed with
    ghost var ext: seq<nat>          // the handles on each node

    predicate SlotsSet(v: nat)
      requires v < |ops| == |op1| == |op2|
      reads `ops, `op1, `op2
    {
      PointersOf(ops[v], op1[v], op2[v])
    }

    predicate SlotsCleared(v: nat)
      requires v < |op1| == |op2|
      reads `op1, `op2
    {
      op1[v] == Null && op2[v] == Null
    }

    /** Every buffer belongs to one live node or once to the bin. */
    ghost predicate Store(bin: Bin)
      reads this
    {
      && WellFormed(ops)
      && |val| == |rc| == |alive| == |buf| == |op1| == |op2| == |ops|
      && BinOf(bin, n)
      && (forall k :: 0 <= k < |buf| && buf[k] != null ==> alive[k] && buf[k].Length == n && buf[k] !in bin)
      && (forall j, k :: 0 <= j < k < |buf| && buf[j] != null ==> buf[j] != buf[k])
      && (forall k :: 0 <= k < |ops| && alive[k] && rc[k] > 0 ==> SlotsSet(k))
    }

    ghost function Cell(k: nat): Cell
      requires k < |alive| == |rc| == |buf|
      reads `rc, `alive, `buf, buf[k]
    {
      if alive[k] then Live(rc[k], AdjointOf(buf[k])) else Freed
    }

    /** The abstract store. */
    ghost function Cells(): (s: seq<Cell>)
      requires |alive| == |rc| == |buf|
      reads `rc, `alive, `buf, buf
      ensures |s| == |rc| && forall k :: 0 <= k < |s| ==> s[k] == Cell(k)
    {
      var a, r, b := alive, rc, buf;
      seq(|r|, k requires 0 <= k < |a| == |r| == |b| reads b => if a[k] then Live(r[k], AdjointOf(b[k])) else Freed)
    }

    ghost function W(): (w: seq<(real, real)>)
      requires WellFormed(ops) && |val| == |ops|
      reads `ops, `val
      ensures |w| == |ops|
    {
      Factors(lib, ops, val)
    }

    ghost function Owned(bin: Bin): set<array<real>>
      reads `buf
    {
      (set b | b in buf) + (set b | b in bin)
    }

    // -------------------------------------------------------------- handing adjoints on

    /** `add` or `sub` of node v's adjoints into node o. */
    method Accumulate(o: nat, form: Form, v: nat, bin: Bin) returns (rest: Bin)
      requires Store(bin) && o < |ops| && v < |ops| && o != v && alive[o] && buf[v] != null
      modifies `buf, Owned(bin)
      ensures Store(rest) && fresh(Owned(rest) - old(Owned(bin)))
      ensures buf[v] == old(buf[v]) && buf[v][..] == old(buf[v][..])
      ensures Cells() == old(Cells())[o := AddTo(old(Cells())[o], Factor(form), old(buf[v][..]))]
    {
      var m;
      m, rest := AddForm(form, buf[o], bin, buf[v]);
      Install(o, bin, m, rest);
    }

    /** Node o uses buffer m from now on. */
    method Install(o: nat, ghost bin: Bin, m: array<real>, ghost rest: Bin)
      requires Store(bin) && o < |ops| && alive[o] && m.Length == n
      requires if buf[o] != null then m == buf[o] && rest == bin
               else if bin != [] then m == bin[|bin| - 1] && rest == bin[..|bin| - 1]
               else m !in buf && rest == []
      modifies `buf
      ensures Store(rest) && Owned(rest) <= old(Owned(bin)) + {m}
      ensures buf == old(buf)[o := m]
      ensures Cells() == old(Cells())[o := Cell(o)]
    {
      ghost var s := Cells();
      buf := buf[o := m];
      assert forall k :: 0 <= k < |buf| && k != o ==> Cell(k) == s[k];
    }

    lemma FactorsAre(v: nat)
      requires WellFormed(ops) && |val| == |ops| && v < |ops|
      ensures ops[v].Un? ==> Factor(UnForm(lib, ops[v].g, val[ops[v].o], val[v])) == W()[v].0
      ensures ops[v].Bin? ==> var p := BinForms(lib, ops[v].f, val[ops[v].l], val[ops[v].r], val[v]);
                              Factor(p.0) == W()[v].0 && Factor(p.1) == W()[v].1
    {
    }

    /** `propagate`: a dying node hands its adjoints on to its operands. */
    method Propagate(v: nat, bin: Bin) returns (rest: Bin)
      requires Store(bin) && v < |ops| && buf[v] != null && SlotsSet(v)
      requires forall k :: 0 <= k < |ops| && Slots(ops[v], k) > 0 ==> alive[k]
      modifies `buf, Owned(bin)
      ensures Store(rest) && fresh(Owned(rest) - old(Owned(bin)))
      ensures buf[v] == old(buf[v])
      ensures Cells() == BackwardStore.Propagate(ops, W(), old(Cells()), v, old(buf[v][..]))
    {
      FactorsAre(v);
      rest := bin;
      match ops[v] {
        case Leaf =>
        case Un(g, o) =>
          assert Slots(ops[v], o) > 0;
          var form := UnForm(lib, g, val[op1[v].node], val[v]);
          rest := Accumulate(op1[v].node, form, v, bin);
        case Bin(f, l, r) =>
          assert Slots(ops[v], l) > 0 && Slots(ops[v], r) > 0;
          var forms := BinForms(lib, f, val[op1[v].node], val[op2[v].node], val[v]);
          rest := PropagateTo(forms, v, bin);
      }
    }

    method PropagateTo(forms: (Form, Form), v: nat, bin: Bin) returns (rest: Bin)
      requires Store(bin) && v < |ops| && buf[v] != null && SlotsSet(v) && ops[v].Bin? && alive[ops[v].l]
                && alive[ops[v].r]
      modifies `buf, Owned(bin)
      ensures Store(rest) && fresh(Owned(rest) - old(Owned(bin)))
      ensures buf[v] == old(buf[v])
      ensures var s, d, l, r := old(Cells()), old(buf[v][..]), ops[v].l, ops[v].r;
              var s' := s[l := AddTo(s[l], Factor(forms.0), d)];
              Cells() == s'[r := AddTo(s'[r], Factor(forms.1), d)]
    {
      rest := Accumulate(op1[v].node, forms.0, v, bin);
      rest := Accumulate(op2[v].node, forms.1, v, rest);
    }

    /** `m_derivatives.recycle(bin)`. */
    method Recycle(v: nat, bin: Bin) returns (rest: Bin)
      requires Store(bin) && v < |ops| && buf[v] != null
      modifies `buf
      ensures Store(rest) && Owned(rest) <= old(Owned(bin))
      ensures buf == old(buf)[v := null]
      ensures Cells() == old(Cells())[v := Live(rc[v], NoValues)]
    {
      ghost var s := Cells();
      rest := bin + [buf[v]];
      buf := buf[v := null];
      assert forall k :: 0 <= k < |buf| && k != v ==> Cell(k) == s[k];
    }

    // -------------------------------------------------------------- giving up references

    /** The operand pointers of the nodes after v, which a release of v does not touch. */
    twostate predicate SameAbove(v: nat)
      reads `op1, `op2
    {
      && |op1| == |old(op1)| && |op2| == |old(op2)| == |old(op1)|
      && forall k :: v < k < |op1| ==> op1[k] == old(op1[k]) && op2[k] == old(op2[k])
    }

    /** `--m_rc`. */
    method LoseReference(v: nat, ghost bin: Bin)
      requires Store(bin) && v < |ops| && alive[v] && rc[v] > 0
      modifies `rc
      ensures Store(bin) && SlotsSet(v) && rc == old(rc)[v := old(rc[v]) - 1]
      ensures Cells() == old(Cells())[v := Live(rc[v], AdjointOf(buf[v]))]
    {
      ghost var s := Cells();
      rc := rc[v := rc[v] - 1];
      assert forall k :: 0 <= k < |buf| && k != v ==> Cell(k) == s[k];
    }

    /** `decRef(bin, p)`: gives up one of the external references e to node v. */
    method DecRefIn(v: nat, bin: Bin, ghost e: seq<nat>) returns (rest: Bin)
      requires Store(bin) && Counted(ops, Cells(), e) && v < |ops| && e[v] > 0
      modifies `rc, `alive, `buf, `op1, `op2, Owned(bin)
      ensures Store(rest) && fresh(Owned(rest) - old(Owned(bin)))
      ensures Cells() == Release(ops, W(), old(Cells()), v)
      ensures SameAbove(v)
      decreases v, 5
    {
      rest := bin;
      ReleaseSteps(v, e);
      LoseReference(v, bin);
      if rc[v] == 0 {
        rest := DieIn(v, bin, e[v := 0]);
      }
    }

    /** The two cases of a release, in terms of the state after the decrement. */
    lemma ReleaseSteps(v: nat, e: seq<nat>)
      requires |rc| == |alive| == |buf| == |ops| == |val| && WellFormed(ops) && Counted(ops, Cells(), e)
                && v < |ops| && e[v] > 0
      ensures alive[v] && rc[v] > 0
      ensures var s := Cells();
              var s' := s[v := Live(rc[v] - 1, AdjointOf(buf[v]))];
              && (rc[v] > 1 ==> Release(ops, W(), s, v) == s')
              && (rc[v] == 1 ==> Counted(ops, s', WithSlots(ops[v], e[v := 0])))
              && (rc[v] == 1 ==>
                    Release(ops, W(), s, v) == ReleaseOperands(ops, W(), PushAll(ops, W(), s', v), v)[v := Freed])
    {
      var s := Cells();
      assert s[v] == Cell(v);
      var s' := s[v := Live(rc[v] - 1, AdjointOf(buf[v]))];
      if rc[v] == 1 {
        DyingCounted(ops, s, e, v, s[v].adj);
        assert s'[v := Live(0, s'[v].adj)] == s';
      }
    }

    /** What `decRef(bin, p)` does when the last reference is gone. */
    method DieIn(v: nat, bin: Bin, ghost e: seq<nat>) returns (rest: Bin)
      requires Store(bin) && v < |ops| == |e| && alive[v] && rc[v] == 0 && SlotsSet(v)
      requires Counted(ops, Cells(), WithSlots(ops[v], e))
      modifies `rc, `alive, `buf, `op1, `op2, Owned(bin)
      ensures Store(rest) && fresh(Owned(rest) - old(Owned(bin)))
      ensures Cells() == ReleaseOperands(ops, W(), PushAll(ops, W(), old(Cells()), v), v)[v := Freed]
      ensures SameAbove(v)
      decreases v, 4
    {
      rest := bin;
      if buf[v] != null {
        rest := Sweep(v, bin, e);
        Delete(v, rest, e, false);
      } else {
        assert Cells()[v := Live(0, Cells()[v].adj)] == Cells();
        Delete(v, rest, e, true);
      }
    }

    /** `propagate`, `recycle` and `propagateChildren`. */
    method Sweep(v: nat, bin: Bin, ghost e: seq<nat>) returns (rest: Bin)
      requires Store(bin) && v < |ops| == |e| && rc[v] == 0 && buf[v] != null && SlotsSet(v)
      requires Counted(ops, Cells(), WithSlots(ops[v], e))
      modifies `rc, `alive, `buf, `op1, `op2, Owned(bin)
      ensures Store(rest) && fresh(Owned(rest) - old(Owned(bin)))
      ensures Cells() == ReleaseOperands(ops, W(), PushAll(ops, W(), old(Cells()), v), v)
      ensures alive[v] && rc[v] == 0 && buf[v] == null
      ensures SameAbove(v) && SlotsCleared(v)
      decreases v, 3
    {
      rest := HandOn(v, bin, e);
      ReleaseOperandsBelow(ops, W(), Cells(), v, v);
      rest := PropagateChildren(v, rest, e);
      assert Cells()[v] == Cell(v);
    }

    method HandOn(v: nat, bin: Bin, ghost e: seq<nat>) returns (rest: Bin)
      requires Store(bin) && v < |ops| == |e| && rc[v] == 0 && buf[v] != null && SlotsSet(v)
      requires Counted(ops, Cells(), WithSlots(ops[v], e))
      modifies `buf, Owned(bin)
      ensures Store(rest) && fresh(Owned(rest) - old(Owned(bin)))
      ensures Counted(ops, Cells(), WithSlots(ops[v], e))
      ensures Cells() == PushAll(ops, W(), old(Cells()), v)
    {
      SlotsLive(v, e);
      HandedOn(v, e);
      rest := Propagate(v, bin);
      rest := Recycle(v, rest);
    }

    /** What the abstract push makes of the counts. */
    lemma HandedOn(v: nat, e: seq<nat>)
      requires |alive| == |rc| == |buf| == |ops| == |val| == |e| && v < |ops| && WellFormed(ops)
      requires alive[v] && rc[v] == 0 && buf[v] != null && Counted(ops, Cells(), WithSlots(ops[v], e))
      ensures var s := Cells();
              && PushAll(ops, W(), s, v) == BackwardStore.Propagate(ops, W(), s, v, buf[v][..])[v := Live(0, NoValues)]
              && Counted(ops, PushAll(ops, W(), s, v), WithSlots(ops[v], e))
    {
      var s, d := Cells(), buf[v][..];
      assert s[v] == Cell(v) && s[v := Live(0, s[v].adj)] == s;
      PropagateRefs(ops, W(), s, v, d);
      CountedSame(ops, s, PushAll(ops, W(), s, v), WithSlots(ops[v], e));
    }

    lemma SlotsLive(v: nat, e: seq<nat>)
      requires |alive| == |rc| == |buf| == |ops| == |e| && v < |ops| && WellFormed(ops)
      requires Counted(ops, Cells(), WithSlots(ops[v], e))
      ensures forall k :: 0 <= k < |ops| && Slots(ops[v], k) > 0 ==> alive[k] && rc[k] > 0
    {
      assert forall k :: 0 <= k < |ops| ==> Cells()[k] == Cell(k);
    }

    /** `m_pOp1->decRef(bin, m_pOp1)` of a dying node. */
    method DropFirst(v: nat, bin: Bin, ghost e: seq<nat>) returns (rest: Bin)
      requires Store(bin) && v < |ops| && alive[v] && rc[v] == 0 && op1[v].To? && op1[v].node < v
      requires Counted(ops, Cells(), e) && e[op1[v].node] > 0
      modifies `rc, `alive, `buf, `op1, `op2, Owned(bin)
      ensures Store(rest) && fresh(Owned(rest) - old(Owned(bin)))
      ensures Cells() == Release(ops, W(), old(Cells()), old(op1[v].node))
      ensures alive[v] && rc[v] == 0
      ensures SameAbove(v) && op1[v] == Null && op2[v] == old(op2[v])
      decreases v, 0
    {
      ReleaseBelow(ops, W(), Cells(), op1[v].node, v);
      rest := DecRefIn(op1[v].node, bin, e);
      assert Cells()[v] == Cell(v);
      op1 := op1[v := Null];
    }

    method DropSecond(v: nat, bin: Bin, ghost e: seq<nat>) returns (rest: Bin)
      requires Store(bin) && v < |ops| && alive[v] && rc[v] == 0 && op2[v].To? && op2[v].node < v
      requires Counted(ops, Cells(), e) && e[op2[v].node] > 0
      modifies `rc, `alive, `buf, `op1, `op2, Owned(bin)
      ensures Store(rest) && fresh(Owned(rest) - old(Owned(bin)))
      ensures Cells() == Release(ops, W(), old(Cells()), old(op2[v].node))
      ensures alive[v] && rc[v] == 0
      ensures SameAbove(v) && op2[v] == Null && op1[v] == old(op1[v])
      decreases v, 0
    {
      ReleaseBelow(ops, W(), Cells(), op2[v].node, v);
      rest := DecRefIn(op2[v].node, bin, e);
      assert Cells()[v] == Cell(v);
      op2 := op2[v := Null];
    }

    /** `propagateChildren(bin)`. */
    method PropagateChildren(v: nat, bin: Bin, ghost e: seq<nat>) returns (rest: Bin)
      requires Store(bin) && v < |ops| == |e| && alive[v] && rc[v] == 0 && SlotsSet(v)
      requires Counted(ops, Cells(), WithSlots(ops[v], e))
      modifies `rc, `alive, `buf, `op1, `op2, Owned(bin)
      ensures Store(rest) && fresh(Owned(rest) - old(Owned(bin)))
      ensures Cells() == ReleaseOperands(ops, W(), old(Cells()), v)
      ensures alive[v] && rc[v] == 0
      ensures SameAbove(v) && SlotsCleared(v)
      decreases v, 2
    {
      rest := bin;
      match ops[v] {
        case Leaf =>
        case Un(_, o) =>
          rest := DropFirst(v, bin, e[o := e[o] + 1]);
        case Bin(_, _, _) =>
          rest := DropBoth(v, bin, e);
      }
    }

    method DropBoth(v: nat, bin: Bin, ghost e: seq<nat>) returns (rest: Bin)
      requires Store(bin) && v < |ops| == |e| && alive[v] && rc[v] == 0 && SlotsSet(v) && ops[v].Bin?
      requires Counted(ops, Cells(), WithSlots(ops[v], e))
      modifies `rc, `alive, `buf, `op1, `op2, Owned(bin)
      ensures Store(rest) && fresh(Owned(rest) - old(Owned(bin)))
      ensures Cells() == Release(ops, W(), Release(ops, W(), old(Cells()), ops[v].l), ops[v].r)
      ensures alive[v] && rc[v] == 0
      ensures SameAbove(v) && SlotsCleared(v)
      decreases v, 1
    {
      ghost var l, e1 := ops[v].l, e[ops[v].r := e[ops[v].r] + 1];
      assert op1[v] == To(l) && op2[v] == To(ops[v].r);
      FirstSlotCounted(v, e, e1);
      rest := DropFirst(v, bin, e1[l := e1[l] + 1]);
      rest := DropSecond(v, rest, e1);
    }

    // -------------------------------------------------------------- destructors

    /** What happens in the store alone leaves the bin of an enclosing sweep apart. */
    twostate lemma KeepsBin(bin: Bin, new rest: Bin)
      requires old(Store(bin)) && Store(rest) && fresh(Owned(rest) - old(Owned([])))
      ensures Store(bin)
    {
      forall k | 0 <= k < |buf| && buf[k] != null
        ensures buf[k] !in bin
      {
        assert buf[k] in Owned(rest);
      }
    }

    /** `decRef(p)`, outside of a sweep or in a destructor: a sweep started here has its own bin. */
    method DecRef(v: nat, ghost bin: Bin, ghost e: seq<nat>)
      requires Store(bin) && Counted(ops, Cells(), e) && v < |ops| && e[v] > 0
      modifies `rc, `alive, `buf, `op1, `op2, Owned([])
      ensures Store(bin) && fresh(Owned([]) - old(Owned([])))
      ensures Cells() == Release(ops, W(), old(Cells()), v)
      ensures SameAbove(v)
      decreases v, 5
    {
      ReleaseSteps(v, e);
      LoseReference(v, bin);
      if rc[v] == 0 {
        Die(v, bin, e[v := 0]);
      }
    }

    method Die(v: nat, ghost bin: Bin, ghost e: seq<nat>)
      requires Store(bin) && v < |ops| == |e| && alive[v] && rc[v] == 0 && SlotsSet(v)
      requires Counted(ops, Cells(), WithSlots(ops[v], e))
      modifies `rc, `alive, `buf, `op1, `op2, Owned([])
      ensures Store(bin) && fresh(Owned([]) - old(Owned([])))
      ensures Cells() == ReleaseOperands(ops, W(), PushAll(ops, W(), old(Cells()), v), v)[v := Freed]
      ensures SameAbove(v)
      decreases v, 4
    {
      if buf[v] != null {
        var own := Sweep(v, [], e);
        KeepsBin(bin, own);
        Delete(v, bin, e, false);
      } else {
        assert Cells()[v := Live(0, Cells()[v].adj)] == Cells();
        Delete(v, bin, e, true);
      }
    }

    /** `delete this`: the destructor gives up the operand pointers that are still set (pending),
        which they are when the node had no adjoints to hand on. */
    method Delete(v: nat, ghost bin: Bin, ghost e: seq<nat>, ghost pending: bool)
      requires Store(bin) && v < |ops| == |e| && alive[v] && rc[v] == 0 && buf[v] == null
      requires pending ==> SlotsSet(v) && Counted(ops, Cells(), WithSlots(ops[v], e))
      requires !pending ==> SlotsCleared(v)
      modifies `rc, `alive, `buf, `op1, `op2, Owned([])
      ensures Store(bin) && fresh(Owned([]) - old(Owned([])))
      ensures Cells() == (if pending then ReleaseOperands(ops, W(), old(Cells()), v) else old(Cells()))[v := Freed]
      ensures SameAbove(v)
      decreases v, 3
    {
      if pending {
        ReleaseOperandsBelow(ops, W(), Cells(), v, v);
      }
      Destroy(v, bin, e, pending);
      ghost var s := Cells();
      assert s[v] == Cell(v);
      alive := alive[v := false];
      assert forall k :: 0 <= k < |buf| && k != v ==> Cell(k) == s[k];
    }

    /** The destructors of the unary and the binary node class. */
    method Destroy(v: nat, ghost bin: Bin, ghost e: seq<nat>, ghost pending: bool)
      requires Store(bin) && v < |ops| == |e| && alive[v] && rc[v] == 0
      requires pending ==> SlotsSet(v) && Counted(ops, Cells(), WithSlots(ops[v], e))
      requires !pending ==> SlotsCleared(v)
      modifies `rc, `alive, `buf, `op1, `op2, Owned([])
      ensures Store(bin) && fresh(Owned([]) - old(Owned([])))
      ensures Cells() == if pending then ReleaseOperands(ops, W(), old(Cells()), v) else old(Cells())
      ensures alive[v] && rc[v] == 0
      ensures SameAbove(v)
      decreases v, 2
    {
      ghost var e1, e2 := SlotsLeft(v, e, pending);
      DestroyFirst(v, bin, e2);
      DestroySecond(v, bin, e1);
    }

    /** What giving up an operand pointer makes of the store. */
    ghost function GivenUp(s: seq<Cell>, p: Pointer): (r: seq<Cell>)
      requires WellFormed(ops) && |val| == |ops| == |s| && (p.To? ==> p.node < |s|)
      reads `ops, `val
      ensures |r| == |s|
    {
      if p.To? then Release(ops, W(), s, p.node) else s
    }

    /** The pointers that are left to the destructor of v, with the references that they hold. */
    lemma SlotsLeft(v: nat, e: seq<nat>, pending: bool) returns (e1: seq<nat>, e2: seq<nat>)
      requires |rc| == |alive| == |buf| == |ops| == |val| == |op1| == |op2| == |e| && WellFormed(ops) && v < |ops|
      requires pending ==> SlotsSet(v) && Counted(ops, Cells(), WithSlots(ops[v], e))
      requires !pending ==> SlotsCleared(v)
      ensures op1[v].To? ==> op1[v].node < v && Counted(ops, Cells(), e2) && e2[op1[v].node] > 0
      ensures op2[v].To? ==>
                (op2[v].node < v && Counted(ops, GivenUp(Cells(), op1[v]), e1) && e1[op2[v].node] > 0)
      ensures (if pending then ReleaseOperands(ops, W(), Cells(), v) else Cells())
              == GivenUp(GivenUp(Cells(), op1[v]), op2[v])
    {
      e1, e2 := e, e;
      if pending && op1[v].To? {
        e1 := if ops[v].Bin? then e[ops[v].r := e[ops[v].r] + 1] else e;
        e2 := e1[op1[v].node := e1[op1[v].node] + 1];
        FirstSlotCounted(v, e, e1);
      }
    }

    lemma FirstSlotCounted(v: nat, e: seq<nat>, e1: seq<nat>)
      requires |rc| == |alive| == |buf| == |ops| == |val| == |op1| == |op2| == |e| && WellFormed(ops) && v < |ops|
                && SlotsSet(v) && op1[v].To?
      requires e1 == if ops[v].Bin? then e[ops[v].r := e[ops[v].r] + 1] else e
      requires Counted(ops, Cells(), WithSlots(ops[v], e))
      ensures var o := op1[v].node;
              && o < v
              && Counted(ops, Cells(), e1[o := e1[o] + 1])
              && Counted(ops, Release(ops, W(), Cells(), o), e1)
    {
      var o := op1[v].node;
      var e2 := e1[o := e1[o] + 1];
      assert e2 == WithSlots(ops[v], e);
      assert e2[o := e2[o] - 1] == e1;
      ReleaseCounted(ops, W(), Cells(), e2, o);
    }

    method DestroyFirst(v: nat, ghost bin: Bin, ghost e: seq<nat>)
      requires Store(bin) && v < |ops| && alive[v] && rc[v] == 0
      requires op1[v].To? ==> op1[v].node < v && Counted(ops, Cells(), e) && e[op1[v].node] > 0
      modifies `rc, `alive, `buf, `op1, `op2, Owned([])
      ensures Store(bin) && fresh(Owned([]) - old(Owned([])))
      ensures Cells() == GivenUp(old(Cells()), old(op1[v]))
      ensures alive[v] && rc[v] == 0
      ensures SameAbove(v) && op1[v] == Null && op2[v] == old(op2[v])
      decreases v, 0
    {
      if op1[v].To? {
        ReleaseBelow(ops, W(), Cells(), op1[v].node, v);
        DecRef(op1[v].node, bin, e);
        assert Cells()[v] == Cell(v);
        op1 := op1[v := Null];
      }
    }

    method DestroySecond(v: nat, ghost bin: Bin, ghost e: seq<nat>)
      requires Store(bin) && v < |ops| && alive[v] && rc[v] == 0
      requires op2[v].To? ==> op2[v].node < v && Counted(ops, Cells(), e) && e[op2[v].node] > 0
      modifies `rc, `alive, `buf, `op1, `op2, Owned([])
      ensures Store(bin) && fresh(Owned([]) - old(Owned([])))
      ensures Cells() == GivenUp(old(Cells()), old(op2[v]))
      ensures alive[v] && rc[v] == 0
      ensures SameAbove(v) && op2[v] == Null && op1[v] == old(op1[v])
      decreases v, 0
    {
      if op2[v].To? {
        ReleaseBelow(ops, W(), Cells(), op2[v].node, v);
        DecRef(op2[v].node, bin, e);
        assert Cells()[v] == Cell(v);
        op2 := op2[v := Null];
      }
    }

    // -------------------------------------------------------------- what the user does

    ghost function Abstract(): Session.State
      requires |alive| == |rc| == |buf|
      reads this, buf
    {
      Session.State(ops, xs, Cells(), ext)
    }

    /** What holds between any two operations of the user. */
    ghost predicate Valid()
      reads this, buf
    {
      && Store([])
      && |xs| == |ops| && val == Vals(lib, ops, xs)
      && Session.Inv(Abstract(), n)
    }

    constructor (lib: Lib, n: nat)
      ensures Valid() && Abstract() == Session.EMPTY && this.lib == lib && this.n == n
    {
      this.lib, this.n := lib, n;
      ops, val, rc, alive, buf, op1, op2, xs, ext := [], [], [], [], [], [], [], [], [];
    }

    /** `incRef` for a new handle. */
    method IncRef(v: nat)
      requires Store([]) && v < |ops| && alive[v] && rc[v] > 0
      modifies `rc
      ensures Store([]) && Cells() == Session.Hold(old(Cells()), v)
    {
      ghost var s := Cells();
      rc := rc[v := rc[v] + 1];
      assert s[v] == Live(rc[v] - 1, AdjointOf(buf[v]));
      assert forall k :: 0 <= k < |buf| && k != v ==> Cell(k) == s[k];
    }

    /** A new node with one handle. */
    method Append(op: Op, x: real, p1: Pointer, p2: Pointer, ghost leaf: real) returns (v: nat)
      requires Store([]) && |xs| == |ops| && val == Vals(lib, ops, xs) && |ext| == |ops|
      requires OperandsBelow(op, |ops|) && x == NodeValue(lib, op, val, leaf) && PointersOf(op, p1, p2)
      modifies this
      ensures Store([]) && |xs| == |ops| && val == Vals(lib, ops, xs) && buf == old(buf) + [null]
      ensures v == |old(ops)| && Abstract() == Session.Appended(old(Abstract()), op, leaf)
      ensures val == old(val) + [x] && PointersOf(op, op1[v], op2[v])
    {
      ValsAppended(lib, ops, xs, op, leaf);
      v := |ops|;
      Push(op, x, p1, p2);
      xs, ext := xs + [leaf], ext + [1];
    }

    method Push(op: Op, x: real, p1: Pointer, p2: Pointer)
      requires Store([]) && OperandsBelow(op, |ops|) && PointersOf(op, p1, p2)
      modifies `ops, `val, `rc, `alive, `buf, `op1, `op2
      ensures Store([]) && ops == old(ops) + [op] && val == old(val) + [x] && buf == old(buf) + [null]
      ensures op1 == old(op1) + [p1] && op2 == old(op2) + [p2]
      ensures Cells() == old(Cells()) + [Live(1, NoValues)]
    {
      ghost var s := Cells();
      ops, val, rc, alive := ops + [op], val + [x], rc + [1], alive + [true];
      buf, op1, op2 := buf + [null], op1 + [p1], op2 + [p2];
      CellsAppended(s);
    }

    lemma CellsAppended(s: seq<Cell>)
      requires 0 < |alive| == |rc| == |buf| == |s| + 1
      requires alive[|s|] && rc[|s|] == 1 && buf[|s|] == null
      requires forall k :: 0 <= k < |s| ==> Cell(k) == s[k]
      ensures Cells() == s + [Live(1, NoValues)]
    {
    }

    /** A variable constructed from a scalar. */
    method NewLeaf(x: real) returns (v: nat)
      requires Valid()
      modifies this
      ensures Valid() && v == |old(ops)| && buf == old(buf) + [null]
      ensures ops == old(ops) + [Leaf] && val == old(val) + [x] && ext == old(ext) + [1]
      ensures Abstract() == Session.Step(lib, old(Abstract()), Session.NewLeaf(x), n)
    {
      Session.StepInv(lib, Abstract(), Session.NewLeaf(x), n);
      v := Append(Leaf, x, Null, Null, x);
    }

    /** An operator applied to handles: the node holds its operands. */
    method NewOp(op: Op) returns (v: nat)
      requires Valid() && Session.Enabled(Abstract(), Session.NewOp(op), n)
      modifies this
      ensures Valid() && v == |old(ops)| && buf == old(buf) + [null]
      ensures ops == old(ops) + [op] && ext == old(ext) + [1] && PointersOf(op, op1[v], op2[v])
      ensures op.Un? ==> val == old(val) + [UnValue(lib, op.g, old(val[op.o]))]
      ensures op.Bin? ==> val == old(val) + [BinValue(lib, op.f, old(val[op.l]), old(val[op.r]))]
      ensures Abstract() == Session.Step(lib, old(Abstract()), Session.NewOp(op), n)
    {
      Session.StepInv(lib, Abstract(), Session.NewOp(op), n);
      match op {
        case Un(g, o) =>
          IncRef(o);
          v := Append(op, UnValue(lib, g, val[o]), To(o), Null, 0.0);
        case Bin(f, l, r) =>
          IncRef(l);
          IncRef(r);
          v := Append(op, BinValue(lib, f, val[l], val[r]), To(l), To(r), 0.0);
      }
    }

    /** The copy constructor of a handle. */
    method Copy(v: nat)
      requires Valid() && Session.Enabled(Abstract(), Session.Copy(v), n)
      modifies `rc, `ext
      ensures Valid()
      ensures ext == old(ext)[v := old(ext[v]) + 1]
      ensures Abstract() == Session.Step(lib, old(Abstract()), Session.Copy(v), n)
    {
      CopyHandle(v);
    }

    method CopyHandle(v: nat)
      requires Valid() && v < |ops| && ext[v] > 0
      modifies `rc, `ext
      ensures Valid() && Abstract() == Session.Copied(old(Abstract()), v)
    {
      Session.CopiedInv(Abstract(), v, n);
      IncRef(v);
      ext := ext[v := ext[v] + 1];
    }

    /** The destructor of a handle. */
    method Drop(v: nat)
      requires Valid() && Session.Enabled(Abstract(), Session.Drop(v), n)
      modifies `rc, `alive, `buf, `op1, `op2, `ext, Owned([])
      ensures Valid() && fresh(Owned([]) - old(Owned([])))
      ensures ext == old(ext)[v := old(ext[v]) - 1]
      ensures Abstract() == Session.Step(lib, old(Abstract()), Session.Drop(v), n)
    {
      DropHandle(v);
    }

    /** What giving up a handle on v leaves. */
    lemma AfterDrop(v: nat) returns (after: Session.State)
      requires Valid() && v < |ops| && ext[v] > 0
      ensures after == Session.Dropped(lib, Abstract(), v) && Session.Inv(after, n)
      ensures after == Session.State(ops, xs, Release(ops, W(), Cells(), v), ext[v := ext[v] - 1])
    {
      after := Session.Dropped(lib, Abstract(), v);
      Session.DroppedInv(lib, Abstract(), v, n);
    }

    ghost method LoseHandle(v: nat, after: Session.State)
      requires Store([]) && |xs| == |ops| && val == Vals(lib, ops, xs) && v < |ext| && ext[v] > 0
      requires after == Session.State(ops, xs, Cells(), ext[v := ext[v] - 1]) && Session.Inv(after, n)
      modifies `ext
      ensures Valid() && Abstract() == after
    {
      ext := ext[v := ext[v] - 1];
    }

    /** `decRef(p)` on a handle. */
    method DropHandle(v: nat)
      requires Valid() && v < |ops| && ext[v] > 0
      modifies `rc, `alive, `buf, `op1, `op2, `ext, Owned([])
      ensures Valid() && fresh(Owned([]) - old(Owned([])))
      ensures Abstract() == Session.Dropped(lib, old(Abstract()), v)
    {
      ghost var after := AfterDrop(v);
      DecRef(v, [], ext);
      LoseHandle(v, after);
    }

    /** `operator=`: a handle on v becomes one on u. */
    method Assign(v: nat, u: nat)
      requires Valid() && Session.Enabled(Abstract(), Session.Assign(v, u), n)
      modifies `rc, `alive, `buf, `op1, `op2, `ext, Owned([])
      ensures Valid() && fresh(Owned([]) - old(Owned([])))
      ensures ext == if v == u then old(ext) else old(ext)[v := old(ext[v]) - 1][u := old(ext[u]) + 1]
      ensures Abstract() == Session.Step(lib, old(Abstract()), Session.Assign(v, u), n)
    {
      if v != u {
        DropHandle(v);
        CopyHandle(u);
      }
    }

    /** `diff(c, n)`: seeds v, gives up the handle on it, and returns a fresh leaf of the same value. */
    method Diff(v: nat, c: nat) returns (u: nat)
      requires Valid() && Session.Enabled(Abstract(), Session.Diff(v, c), n)
      modifies this, Owned([])
      ensures Valid() && u == |old(ops)| && fresh(Owned([]) - old(Owned([])))
      ensures ops == old(ops) + [Leaf] && val == old(val) + [old(val[v])]
      ensures ext == old(ext)[v := old(ext[v]) - 1] + [1]
      ensures Abstract() == Session.Step(lib, old(Abstract()), Session.Diff(v, c), n)
    {
      var x := val[v];
      SeedAndRelease(v, c);
      u := NewLeaf(x);
    }

    method SeedAndRelease(v: nat, c: nat)
      requires Valid() && v < |ops| && ext[v] > 0 && c < n
      modifies `rc, `alive, `buf, `op1, `op2, `ext, Owned([])
      ensures Valid() && fresh(Owned([]) - old(Owned([])))
      ensures Abstract() == Session.Dropped(lib, Session.Seeded(old(Abstract()), v, c, n), v)
    {
      Seed(v, c);
      ReleaseHandle(v);
    }

    /** `decRef(bin, p)` on a handle. */
    method ReleaseHandle(v: nat)
      requires Valid() && v < |ops| && ext[v] > 0
      modifies `rc, `alive, `buf, `op1, `op2, `ext, Owned([])
      ensures Valid() && fresh(Owned([]) - old(Owned([])))
      ensures Abstract() == Session.Dropped(lib, old(Abstract()), v)
    {
      ghost var after := AfterDrop(v);
      ReleaseIn(v, ext);
      LoseHandle(v, after);
    }

    /** The bin of the sweep is thrown away with what is left in it. */
    method ReleaseIn(v: nat, ghost e: seq<nat>)
      requires Store([]) && Counted(ops, Cells(), e) && v < |ops| && e[v] > 0
      modifies `rc, `alive, `buf, `op1, `op2, Owned([])
      ensures Store([]) && fresh(Owned([]) - old(Owned([])))
      ensures Cells() == Release(ops, W(), old(Cells()), v)
    {
      var rest := DecRefIn(v, [], e);
      KeepsBin([], rest);
    }

    method Seed(v: nat, c: nat)
      requires Valid() && v < |ops| && ext[v] > 0 && c < n
      modifies `buf, Owned([])
      ensures Valid() && fresh(Owned([]) - old(Owned([])))
      ensures Abstract() == Session.Seeded(old(Abstract()), v, c, n)
    {
      Session.SeededInv(Abstract(), v, c, n);
      SeedBuffer(v, c);
    }

    /** `m_derivatives.diff(bin, c, n)`. */
    method SeedBuffer(v: nat, c: nat)
      requires Store([]) && v < |ops| && alive[v] && c < n
      modifies `buf, Owned([])
      ensures Store([]) && fresh(Owned([]) - old(Owned([])))
      ensures Cells() == old(Cells())[v := Session.SeedCell(old(Cells())[v], c, n)]
    {
      ghost var s := Cells();
      var m, rest := DiffValues(buf[v], [], c, n);
      assert m[..] == Session.Seed(s[v].adj, c, n).v;
      Install(v, [], m, rest);
    }

    /** `d(i)`: the check that nothing but the handle refers to the variable is the caller's. */
    method Deriv(v: nat, i: nat) returns (d: real)
      requires Valid() && v < |ops| && ext[v] > 0 && rc[v] == 1 && i < n
      ensures d == AdjointAt(Cells()[v], i)
    {
      assert Cells()[v] == Cell(v);
      if buf[v] != null {
        d := buf[v][i];
      } else {
        d := 0.0;
      }
    }
  }

  method AddForm(form: Form, values: array?<real>, bin: Bin, d: array<real>) returns (m: array<real>, rest: Bin)
    requires Separate(values, bin, d)
    modifies values, bin
    ensures m.Length == d.Length && Obtained(values, bin, m, rest)
    ensures Values(m[..]) == BackwardStore.Accumulate(old(AdjointOf(values)), Factor(form), d[..])
  {
    match form
    case Plus => m, rest := AddValues(values, bin, d);
    case Minus => m, rest := SubValues(values, bin, d);
    case PlusScaled(a) => m, rest := AddScaledValues(values, bin, a, d);
    case MinusScaled(a) => m, rest := SubScaledValues(values, bin, a, d);
  }
}
