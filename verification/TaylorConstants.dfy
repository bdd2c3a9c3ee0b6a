/** The linear operators of tadiff.h, and its operators with a constant operand: each of the latter
    agrees at every order with the two-operand node over the constant series. */
module TaylorConstants {
  import opened Ops
  import opened Series
  import opened TaylorSeries
  import opened Forward

  lemma AddIsSum(lib: Lib, a: seq<real>, b: seq<real>)
    requires |a| == |b|
    ensures OfBin(lib, ADD, a, b) == Add(a, b)
  {
    forall i | 0 <= i < |a|
      ensures OfBin(lib, ADD, a, b)[i] == Add(a, b)[i]
    {
      BinFillAt(lib, ADD, a, b, |a|, i);
    }
  }

  /** SUB inverts ADD. */
  lemma SubInvertsAdd(lib: Lib, a: seq<real>, b: seq<real>)
    requires |a| == |b|
    ensures OfBin(lib, SUB, OfBin(lib, ADD, a, b), b) == a
  {
    var c := OfBin(lib, ADD, a, b);
    AddIsSum(lib, a, b);
    forall i | 0 <= i < |a|
      ensures OfBin(lib, SUB, c, b)[i] == a[i]
    {
      BinFillAt(lib, SUB, c, b, |a|, i);
    }
  }

  lemma {:induction false} ConvOfConst(k: real, a: seq<real>, n: nat, i: nat, j: nat)
    requires i < n && i < |a| && 1 <= j <= i + 1
    ensures ConvSum(Const(k, n), a, i, j) == k * a[i]
  {
    if j > 1 {
      ConvOfConst(k, a, n, i, j - 1);
    } else {
      assert ConvSum(Const(k, n), a, i, 1) == ConvSum(Const(k, n), a, i, 0) + k * a[i];
    }
  }

  /** Multiplication by a constant series scales. */
  lemma MulByConst(k: real, a: seq<real>)
    ensures Mul(Const(k, |a|), a) == Scale(k, a) && Mul(a, Const(k, |a|)) == Scale(k, a)
  {
    forall i | 0 <= i < |a|
      ensures Mul(Const(k, |a|), a)[i] == Scale(k, a)[i]
    {
      ConvOfConst(k, a, |a|, i, i + 1);
    }
    MulCommutes(a, Const(k, |a|));
  }

  lemma LinearAt(lib: Lib, g: UnFn, a: seq<real>, i: nat)
    requires i < |a|
    requires g.ADD1? || g.ADD2? || g.SUB1? || g.SUB2? || g.MUL1? || g.MUL2? || g.DIV2? || g.UMINUS? || g.UPLUS?
    ensures OfUn(lib, g, a)[i]
         == if g.ADD1? || g.ADD2? || g.SUB2? then (if i == 0 then UnValue(lib, g, a[0]) else a[i])
            else if g.SUB1? then (if i == 0 then UnValue(lib, g, a[0]) else -a[i])
            else UnValue(lib, g, a[i])
  {
    UnFillAt(lib, g, a, |a|, i);
  }

  /** A constant second operand is a constant series. */
  lemma RightConstant(lib: Lib, f: BinFn, k: real, a: seq<real>)
    requires f == DIV ==> k != 0.0
    ensures OfUn(lib, ConstantRight(f, k), a) == OfBin(lib, f, a, Const(k, |a|))
  {
    if f == DIV {
      RightDivisor(lib, k, a);
    } else {
      var c := Const(k, |a|);
      if f == MUL {
        MulIsProduct(lib, a, c);
        MulByConst(k, a);
      }
      forall i | 0 <= i < |a|
        ensures OfUn(lib, ConstantRight(f, k), a)[i] == OfBin(lib, f, a, c)[i]
      {
        LinearAt(lib, ConstantRight(f, k), a, i);
        BinFillAt(lib, f, a, c, |a|, i);
      }
    }
  }

  lemma RightDivisor(lib: Lib, k: real, a: seq<real>)
    requires k != 0.0
    ensures OfUn(lib, DIV2(k), a) == OfBin(lib, DIV, a, Const(k, |a|))
  {
    var u, c := OfUn(lib, DIV2(k), a), Const(k, |a|);
    if a != [] {
      MulByConst(k, u);
      forall i | 0 <= i < |a|
        ensures Scale(k, u)[i] == a[i]
      {
        LinearAt(lib, DIV2(k), a, i);
        Quotient(u[i], a[i], k);
      }
      assert Mul(u, c) == a;
      DivInvertsMul(lib, a, c);
    }
  }

  /** A constant first operand is a constant series. */
  lemma LeftConstant(lib: Lib, f: BinFn, k: real, a: seq<real>)
    requires f == DIV ==> |a| > 0 && a[0] != 0.0
    ensures OfUn(lib, ConstantLeft(f, k), a) == OfBin(lib, f, Const(k, |a|), a)
  {
    if f == DIV {
      Div1InvertsMul(lib, k, a);
    } else if f == MUL {
      LeftFactor(lib, k, a);
    } else {
      LeftTerm(lib, f, k, a);
    }
  }

  lemma LeftFactor(lib: Lib, k: real, a: seq<real>)
    ensures OfUn(lib, MUL1(k), a) == OfBin(lib, MUL, Const(k, |a|), a)
  {
    MulIsProduct(lib, Const(k, |a|), a);
    MulByConst(k, a);
    forall i | 0 <= i < |a|
      ensures OfUn(lib, MUL1(k), a)[i] == Scale(k, a)[i]
    {
      LinearAt(lib, MUL1(k), a, i);
    }
  }

  lemma LeftTerm(lib: Lib, f: BinFn, k: real, a: seq<real>)
    requires f == ADD || f == SUB
    ensures OfUn(lib, ConstantLeft(f, k), a) == OfBin(lib, f, Const(k, |a|), a)
  {
    var c := Const(k, |a|);
    forall i | 0 <= i < |a|
      ensures OfUn(lib, ConstantLeft(f, k), a)[i] == OfBin(lib, f, c, a)[i]
    {
      LinearAt(lib, ConstantLeft(f, k), a, i);
      BinFillAt(lib, f, c, a, |a|, i);
    }
  }

  /** Unary minus subtracts from the zero series, and is its own inverse; unary plus changes nothing. */
  lemma Signs(lib: Lib, a: seq<real>)
    ensures OfUn(lib, UMINUS, a) == OfBin(lib, SUB, Const(0.0, |a|), a)
    ensures OfUn(lib, UMINUS, OfUn(lib, UMINUS, a)) == a
    ensures OfUn(lib, UPLUS, a) == a
  {
    var m, c := OfUn(lib, UMINUS, a), Const(0.0, |a|);
    forall i | 0 <= i < |a|
      ensures m[i] == OfBin(lib, SUB, c, a)[i] && OfUn(lib, UMINUS, m)[i] == a[i] && OfUn(lib, UPLUS, a)[i] == a[i]
    {
      LinearAt(lib, UMINUS, a, i);
      LinearAt(lib, UMINUS, m, i);
      LinearAt(lib, UPLUS, a, i);
      BinFillAt(lib, SUB, c, a, |a|, i);
    }
  }
}
