/** Finite sums of reals, and squares. */
module RealSums {

  function Square(x: real): (y: real)
    ensures y >= 0.0
  {
    x * x
  }

  function Times(a: real, b: real): real {
    a * b
  }

  function Sum(f: nat -> real, n: nat): real {
    if n == 0 then 0.0 else Sum(f, n - 1) + f(n - 1)
  }

  lemma {:induction false} SumSame(f: nat -> real, g: nat -> real, n: nat)
    requires forall i :: 0 <= i < n ==> f(i) == g(i)
    ensures Sum(f, n) == Sum(g, n)
  {
    if n > 0 {
      SumSame(f, g, n - 1);
    }
  }

  lemma {:induction false} SumAtMost(f: nat -> real, g: nat -> real, n: nat)
    requires forall i :: 0 <= i < n ==> f(i) <= g(i)
    ensures Sum(f, n) <= Sum(g, n)
  {
    if n > 0 {
      SumAtMost(f, g, n - 1);
    }
  }

  lemma {:induction false} SumLess(f: nat -> real, g: nat -> real, n: nat, j: nat)
    requires forall i :: 0 <= i < n ==> f(i) <= g(i)
    requires j < n && f(j) < g(j)
    ensures Sum(f, n) < Sum(g, n)
  {
    if j < n - 1 {
      SumLess(f, g, n - 1, j);
    } else {
      SumAtMost(f, g, n - 1);
    }
  }

  lemma {:induction false} SumZero(f: nat -> real, n: nat)
    requires forall i :: 0 <= i < n ==> f(i) == 0.0
    ensures Sum(f, n) == 0.0
  {
    if n > 0 {
      SumZero(f, n - 1);
    }
  }

  lemma {:induction false} SumPlus(f: nat -> real, g: nat -> real, h: nat -> real, n: nat)
    requires forall i :: 0 <= i < n ==> h(i) == f(i) + g(i)
    ensures Sum(h, n) == Sum(f, n) + Sum(g, n)
  {
    if n > 0 {
      SumPlus(f, g, h, n - 1);
    }
  }

  lemma {:induction false} SumSplits(k: real, f: nat -> real, g: nat -> real, h: nat -> real, n: nat)
    requires forall i :: 0 <= i < n ==> k * f(i) == g(i) + h(i)
    ensures k * Sum(f, n) == Sum(g, n) + Sum(h, n)
  {
    if n > 0 {
      SumSplits(k, f, g, h, n - 1);
      assert k * (Sum(f, n - 1) + f(n - 1)) == k * Sum(f, n - 1) + k * f(n - 1);
    }
  }

  function Row(f: (nat, nat) -> real, i: nat): nat -> real {
    (j: nat) => f(i, j)
  }

  function Column(f: (nat, nat) -> real, j: nat): nat -> real {
    (i: nat) => f(i, j)
  }

  function RowSums(f: (nat, nat) -> real, n: nat): nat -> real {
    (i: nat) => Sum(Row(f, i), n)
  }

  function ColumnSums(f: (nat, nat) -> real, m: nat): nat -> real {
    (j: nat) => Sum(Column(f, j), m)
  }

  /** The order of summation does not matter. */
  lemma {:induction false} SumSwap(f: (nat, nat) -> real, m: nat, n: nat)
    ensures Sum(RowSums(f, n), m) == Sum(ColumnSums(f, m), n)
  {
    if m == 0 {
      SumZero(ColumnSums(f, 0), n);
    } else {
      SumSwap(f, m - 1, n);
      SumPlus(ColumnSums(f, m - 1), Row(f, m - 1), ColumnSums(f, m), n);
    }
  }

  /** The term of item p, in the group it belongs to. */
  function Grouped(f: (nat, nat) -> real, a: seq<nat>): nat -> real {
    (p: nat) => if p < |a| then f(a[p], p) else 0.0
  }

  function InGroup(f: (nat, nat) -> real, a: seq<nat>, c: nat): nat -> real {
    (p: nat) => if p < |a| && a[p] == c then f(c, p) else 0.0
  }

  function GroupSums(f: (nat, nat) -> real, a: seq<nat>, n: nat): nat -> real {
    (c: nat) => Sum(InGroup(f, a, c), n)
  }

  /** A sum over items is the sum over their groups. */
  lemma {:induction false} SumByGroup(f: (nat, nat) -> real, a: seq<nat>, k: nat, n: nat)
    requires n <= |a| && forall p :: 0 <= p < n ==> a[p] < k
    ensures Sum(Grouped(f, a), n) == Sum(GroupSums(f, a, n), k)
  {
    if n == 0 {
      SumZero(GroupSums(f, a, 0), k);
    } else {
      SumByGroup(f, a, k, n - 1);
      var last := (c: nat) => InGroup(f, a, c)(n - 1);
      SumPlus(GroupSums(f, a, n - 1), last, GroupSums(f, a, n), k);
      SumSpike(last, k, a[n - 1]);
    }
  }

  lemma {:induction false} SumSpike(f: nat -> real, n: nat, j: nat)
    requires forall i :: 0 <= i < n && i != j ==> f(i) == 0.0
    ensures Sum(f, n) == if j < n then f(j) else 0.0
  {
    if n > 0 {
      SumSpike(f, n - 1, j);
      if n - 1 == j {
        SumZero(f, n - 1);
      }
    }
  }
}
