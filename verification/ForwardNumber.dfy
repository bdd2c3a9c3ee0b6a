/** The heap-based forward number of fadiff.h as an object: the gradient array is allocated when
    the number first depends on something, and is overwritten in place afterwards. */
module ForwardNumber {
  import opened Ops
  import opened Forward

  class F {
    const lib: Lib
    var val: real
    var diff: array<real>   // m_diff; m_size is its length

    ghost function Value(): FVal
      reads this, diff
    {
      FVal(val, diff[..])
    }

    constructor (lib: Lib, c: real)
      ensures Value() == FVal(c, []) && fresh(diff) && this.lib == lib
    {
      this.lib := lib;
      val := c;
      diff := new real[0];
      new;
      assert diff[..] == [];
    }

    /** Makes this the idx-th of n independent variables. */
    method Diff(idx: nat, n: nat)
      requires idx < n && Sized(Value(), n)
      modifies this, diff
      ensures Value() == FVal(old(val), UnitVector(idx, n))
      ensures diff == old(diff) || fresh(diff)
    {
      if diff.Length == 0 {
        diff := new real[n];
      }
      for i := 0 to idx
        invariant diff.Length == n && (diff == old(diff) || fresh(diff)) && val == old(val)
        invariant forall j :: 0 <= j < i ==> diff[j] == 0.0
      {
        diff[i] := 0.0;
      }
      diff[idx] := 1.0;
      for i := idx + 1 to n
        invariant diff.Length == n && (diff == old(diff) || fresh(diff)) && val == old(val)
        invariant forall j :: 0 <= j < i ==> diff[j] == if j == idx then 1.0 else 0.0
      {
        diff[i] := 0.0;
      }
      assert diff[..] == UnitVector(idx, n);
    }

    /** Gives a number that depends on nothing a gradient array of the given length. */
    method SetDepend(n: nat)
      requires Sized(Value(), n)
      modifies this
      ensures diff.Length == n && val == old(val)
      ensures if old(diff.Length) == 0 then fresh(diff) else diff == old(diff)
    {
      if diff.Length == 0 {
        diff := new real[n];
      }
    }

    /** Every unary operator, and every binary one with one constant operand. */
    static method ApplyUn(g: UnFn, a: F) returns (c: F)
      ensures fresh(c) && fresh(c.diff) && c.lib == a.lib
      ensures c.Value() == FUn(a.lib, g, a.Value())
    {
      c := new F(a.lib, UnValue(a.lib, g, a.val));
      if a.diff.Length == 0 {
        return;
      }
      c.SetDepend(a.diff.Length);
      for i := 0 to c.diff.Length
        invariant c.diff.Length == a.diff.Length && c.val == UnValue(a.lib, g, a.val)
        invariant fresh(c.diff) && fresh(c)
        invariant forall j :: 0 <= j < i ==> c.diff[j] == UnGrad(a.lib, g, a.val, a.diff[j])
      {
        c.diff[i] := UnGrad(a.lib, g, a.val, a.diff[i]);
      }
      assert c.diff[..] == FUn(a.lib, g, a.Value()).grad;
    }

    /** The operator on two numbers, with its switch on which of them depends on something. */
    static method ApplyBin(f: BinFn, a: F, b: F) returns (c: F)
      requires a.lib == b.lib
      requires a.Value().Depends() && b.Value().Depends() ==> a.diff.Length == b.diff.Length
      ensures fresh(c) && fresh(c.diff) && c.lib == a.lib
      ensures c.Value() == FBin(a.lib, f, a.Value(), b.Value())
    {
      if a.diff.Length == 0 && b.diff.Length == 0 {
        c := new F(a.lib, BinValue(a.lib, f, a.val, b.val));
      } else if b.diff.Length == 0 {
        c := ApplyUn(ConstantRight(f, b.val), a);
      } else if a.diff.Length == 0 {
        c := ApplyUn(ConstantLeft(f, a.val), b);
      } else {
        c := BothDepend(f, a, b);
      }
    }

    /** add3, sub3, mul3 and div3. */
    static method BothDepend(f: BinFn, a: F, b: F) returns (c: F)
      requires a.lib == b.lib && a.diff.Length == b.diff.Length > 0
      ensures fresh(c) && fresh(c.diff) && c.lib == a.lib
      ensures c.Value() == FBin(a.lib, f, a.Value(), b.Value())
    {
      c := new F(a.lib, BinValue(a.lib, f, a.val, b.val));
      c.SetDepend(a.diff.Length);
      for i := 0 to c.diff.Length
        invariant c.diff.Length == a.diff.Length && c.val == BinValue(a.lib, f, a.val, b.val)
        invariant fresh(c.diff) && fresh(c)
        invariant forall j :: 0 <= j < i ==> c.diff[j] == BinGrad(a.lib, f, a.val, b.val, a.diff[j], b.diff[j])
      {
        c.diff[i] := BinGrad(a.lib, f, a.val, b.val, a.diff[i], b.diff[i]);
      }
      assert c.diff[..] == FBin(a.lib, f, a.Value(), b.Value()).grad;
    }

    // -------------------------------------------------------------- compound assignment

    /** Two numbers are the same object, or share nothing. */
    predicate Apart(b: F)
      reads this, b
    {
      b == this || b.diff != diff
    }

    /** *this += b. The operand may be the number itself. */
    method PlusAssign(b: F)
      requires lib == b.lib && Apart(b)
      requires Value().Depends() && b.Value().Depends() ==> diff.Length == b.diff.Length
      modifies this, diff
      ensures Value() == old(FBin(lib, ADD, Value(), b.Value()))
      ensures diff == old(diff) || fresh(diff)
    {
      ghost var want := FBin(lib, ADD, Value(), b.Value());
      val := val + b.val;
      if b.diff.Length != 0 {
        if diff.Length != 0 {
          AddEntries(b);
        } else {
          SetDepend(b.diff.Length);
          CopyEntries(b.diff);
        }
      }
      assert diff[..] == want.grad;
    }

    method AddEntries(b: F)
      requires Apart(b) && diff.Length == b.diff.Length
      modifies diff
      ensures forall j :: 0 <= j < diff.Length ==> diff[j] == old(diff[j]) + old(b.diff[j])
    {
      for i := 0 to diff.Length
        invariant forall j :: i <= j < diff.Length ==> diff[j] == old(diff[j]) && b.diff[j] == old(b.diff[j])
        invariant forall j :: 0 <= j < i ==> diff[j] == old(diff[j]) + old(b.diff[j])
      {
        diff[i] := diff[i] + b.diff[i];
      }
    }

    method CopyEntries(d: array<real>)
      requires diff.Length == d.Length && diff != d
      modifies diff
      ensures forall j :: 0 <= j < diff.Length ==> diff[j] == d[j]
    {
      for i := 0 to diff.Length
        invariant forall j :: 0 <= j < i ==> diff[j] == d[j]
      {
        diff[i] := d[i];
      }
    }

    /** *this -= b. */
    method MinusAssign(b: F)
      requires lib == b.lib && Apart(b)
      requires Value().Depends() && b.Value().Depends() ==> diff.Length == b.diff.Length
      modifies this, diff
      ensures Value() == old(FBin(lib, SUB, Value(), b.Value()))
      ensures diff == old(diff) || fresh(diff)
    {
      ghost var want := FBin(lib, SUB, Value(), b.Value());
      val := val - b.val;
      if b.diff.Length != 0 {
        if diff.Length != 0 {
          SubtractEntries(b);
        } else {
          SetDepend(b.diff.Length);
          NegateEntries(b.diff);
        }
      }
      assert diff[..] == want.grad;
    }

    method SubtractEntries(b: F)
      requires Apart(b) && diff.Length == b.diff.Length
      modifies diff
      ensures forall j :: 0 <= j < diff.Length ==> diff[j] == old(diff[j]) - old(b.diff[j])
    {
      for i := 0 to diff.Length
        invariant forall j :: i <= j < diff.Length ==> diff[j] == old(diff[j]) && b.diff[j] == old(b.diff[j])
        invariant forall j :: 0 <= j < i ==> diff[j] == old(diff[j]) - old(b.diff[j])
      {
        diff[i] := diff[i] - b.diff[i];
      }
    }

    method NegateEntries(d: array<real>)
      requires diff.Length == d.Length && diff != d
      modifies diff
      ensures forall j :: 0 <= j < diff.Length ==> diff[j] == -d[j]
    {
      for i := 0 to diff.Length
        invariant forall j :: 0 <= j < i ==> diff[j] == -d[j]
      {
        diff[i] := -d[i];
      }
    }

    /** *this *= b: the gradient first, while both values are still the old ones. */
    method TimesAssign(b: F)
      requires lib == b.lib && Apart(b)
      requires Value().Depends() && b.Value().Depends() ==> diff.Length == b.diff.Length
      modifies this, diff
      ensures Value() == old(FBin(lib, MUL, Value(), b.Value()))
      ensures diff == old(diff) || fresh(diff)
    {
      ghost var want := FBin(lib, MUL, Value(), b.Value());
      if diff.Length != 0 && b.diff.Length != 0 {
        TimesBoth(b);
      } else if diff.Length != 0 {
        ScaleInPlace(MUL2(b.val), val);
      } else {
        SetDepend(b.diff.Length);
        CopyScaled(MUL1(val), b.val, b.diff);
      }
      assert diff[..] == want.grad;
      val := val * b.val;
    }

    method TimesBoth(b: F)
      requires Apart(b) && diff.Length == b.diff.Length
      modifies diff
      ensures forall j :: 0 <= j < diff.Length ==>
                diff[j] == BinGrad(lib, MUL, val, b.val, old(diff[j]), old(b.diff[j]))
    {
      for i := 0 to diff.Length
        invariant forall j :: i <= j < diff.Length ==> diff[j] == old(diff[j]) && b.diff[j] == old(b.diff[j])
        invariant forall j :: 0 <= j < i ==> diff[j] == BinGrad(lib, MUL, val, b.val, old(diff[j]), old(b.diff[j]))
      {
        diff[i] := diff[i] * b.val + b.diff[i] * val;
      }
    }

    /** The branches in which only this number depends on something: every entry times, or over, the
        other value. */
    method ScaleInPlace(g: UnFn, ghost x: real)
      requires g.MUL2? || g.DIV2?
      modifies diff
      ensures forall j :: 0 <= j < diff.Length ==> diff[j] == UnGrad(lib, g, x, old(diff[j]))
    {
      for i := 0 to diff.Length
        invariant forall j :: i <= j < diff.Length ==> diff[j] == old(diff[j])
        invariant forall j :: 0 <= j < i ==> diff[j] == UnGrad(lib, g, x, old(diff[j]))
      {
        diff[i] := if g.MUL2? then diff[i] * g.b else Div(lib, diff[i], g.b);
      }
    }

    /** The branches in which only the other number depends on something. */
    method CopyScaled(g: UnFn, x: real, d: array<real>)
      requires g.MUL1? || (g.DIV1? && (x != 0.0 || d.Length == 0))
      requires diff.Length == d.Length && (diff == d ==> d.Length == 0)
      modifies diff
      ensures forall j :: 0 <= j < diff.Length ==> diff[j] == UnGrad(lib, g, x, d[j])
    {
      var c := UnValue(lib, g, x);
      for i := 0 to diff.Length
        invariant forall j :: 0 <= j < i ==> diff[j] == UnGrad(lib, g, x, d[j])
      {
        if g.MUL1? {
          diff[i] := d[i] * g.a;
        } else {
          NegatedQuotient(lib, c, x, d[i]);
          diff[i] := -Div(lib, c * d[i], x);
        }
      }
    }

    /** *this /= b: the value first; for `x /= x` both values then are the quotient 1. */
    method DivideAssign(b: F)
      requires lib == b.lib && Apart(b)
      requires b.val == 0.0 ==> !b.Value().Depends() || (b != this && Value().Depends())
      requires Value().Depends() && b.Value().Depends() ==> diff.Length == b.diff.Length
      modifies this, diff
      ensures Value() == old(FBin(lib, DIV, Value(), b.Value()))
      ensures diff == old(diff) || fresh(diff)
    {
      ghost var want := FBin(lib, DIV, Value(), b.Value());
      ghost var u, v := val, b.val;
      if b == this && v != 0.0 { SelfQuotient(lib, v, 0.0); }
      var a := val;
      val := Div(lib, val, b.val);
      if diff.Length != 0 && b.diff.Length != 0 {
        QuotientEntries(b, u, v, want.grad);
        DivideBoth(b);
      } else if diff.Length != 0 {
        ScaleInPlace(DIV2(b.val), u);
      } else {
        SetDepend(b.diff.Length);
        CopyScaled(DIV1(a), b.val, b.diff);
      }
      assert diff[..] == want.grad;
    }

    /** The value is the quotient by now. */
    method DivideBoth(b: F)
      requires lib == b.lib && Apart(b) && diff.Length == b.diff.Length
      modifies diff
      ensures forall j :: 0 <= j < diff.Length ==>
                diff[j] == QuotientEntry(lib, val, b.val, old(diff[j]), old(b.diff[j]))
    {
      for i := 0 to diff.Length
        invariant forall j :: i <= j < diff.Length ==> diff[j] == old(diff[j]) && b.diff[j] == old(b.diff[j])
        invariant forall j :: 0 <= j < i ==> diff[j] == QuotientEntry(lib, val, b.val, old(diff[j]), old(b.diff[j]))
      {
        diff[i] := QuotientEntry(lib, val, b.val, diff[i], b.diff[i]);
      }
    }

    /** u and v are the operands' values before the division, want is the gradient of the quotient. */
    lemma QuotientEntries(b: F, u: real, v: real, want: seq<real>)
      requires lib == b.lib && diff.Length == b.diff.Length == |want|
      requires val == Div(lib, u, v) && (if b == this then u == v != 0.0 else b.val == v)
      requires forall j :: 0 <= j < |want| ==> want[j] == BinGrad(lib, DIV, u, v, diff[j], b.diff[j])
      ensures forall j :: 0 <= j < |want| ==> want[j] == QuotientEntry(lib, val, b.val, diff[j], b.diff[j])
    {
      forall j | 0 <= j < |want|
        ensures want[j] == QuotientEntry(lib, val, b.val, diff[j], b.diff[j])
      {
        QuotientStep(lib, u, v, val, b.val, diff[j], b.diff[j]);
      }
    }

    /** The assignment `*this = b`: a stored gradient is kept and cleared when b has none. */
    method Assign(b: F)
      requires lib == b.lib && Apart(b)
      requires Value().Depends() && b.Value().Depends() ==> diff.Length == b.diff.Length
      modifies this, diff
      ensures val == old(b.val)
      ensures forall i: nat :: Value().Deriv(i) == old(b.Value().Deriv(i))
      ensures diff == old(diff) || fresh(diff)
    {
      if b == this {
        return;
      }
      ghost var y := b.diff[..];
      val := b.val;
      if b.diff.Length > 0 {
        if diff.Length == 0 {
          diff := new real[b.diff.Length];
        }
        for i := 0 to b.diff.Length
          invariant (diff == old(diff) || fresh(diff)) && diff != b.diff && diff.Length == b.diff.Length
          invariant b.diff == old(b.diff) && b.diff[..] == y && val == old(b.val)
          invariant forall j :: 0 <= j < i ==> diff[j] == y[j]
        {
          diff[i] := b.diff[i];
        }
        assert diff[..] == y;
      } else if diff.Length > 0 {
        for i := 0 to diff.Length
          invariant diff == old(diff) && val == old(b.val)
          invariant forall j :: 0 <= j < i ==> diff[j] == 0.0
        {
          diff[i] := 0.0;
        }
      }
    }
  }

  /** x /= x has the value 1 and the gradient 0, whichever of the two values of x is read. */
  lemma SelfQuotient(lib: Lib, v: real, d: real)
    requires v != 0.0
    ensures Div(lib, v, v) == 1.0
    ensures BinGrad(lib, DIV, v, v, d, d) == 0.0
    ensures Div(lib, d - 1.0 * d, 1.0) == 0.0
  {
    assert v / v == 1.0;
  }

  /** One entry of the quotient's gradient; q is the quotient, and w the divisor as it is read, which
      for `x /= x` is the quotient too. */
  lemma QuotientStep(lib: Lib, u: real, v: real, q: real, w: real, d: real, e: real)
    requires q == Div(lib, u, v) && (w == v || (w == q && u == v != 0.0 && d == e))
    ensures QuotientEntry(lib, q, w, d, e) == BinGrad(lib, DIV, u, v, d, e)
  {
    if w != v {
      SelfQuotient(lib, v, d);
    }
  }

  lemma NegatedQuotient(lib: Lib, c: real, v: real, d: real)
    requires v != 0.0
    ensures -Div(lib, c, v) * d == -Div(lib, c * d, v)
  {
    var q := c / v;
    assert q * v == c;
    QuotientUnique(q * d, c * d, v);
  }
}
