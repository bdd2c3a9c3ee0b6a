/** The adjoint vector of a node (`Derivatives` in badiff.h): a buffer that may be absent, filled and
    accumulated in place, and taken from and given back to a recycle bin. */
module Derivatives {
  import opened RealSums
  import opened BackwardStore

  /** A recycle bin holds buffers whose contents no longer matter, the top one last. */
  type Bin = seq<array<real>>

  /** Every buffer of the bin has n entries, and none is in it twice. */
  ghost predicate BinOf(bin: Bin, n: nat) {
    && (forall i :: 0 <= i < |bin| ==> bin[i].Length == n)
    && (forall i, j :: 0 <= i < j < |bin| ==> bin[i] != bin[j])
  }

  ghost function AdjointOf(values: array?<real>): Adjoint
    reads values
  {
    if values == null then NoValues else Values(values[..])
  }

  /** The buffer in use after the call: the old one, the top of the bin, or a new one. */
  twostate predicate Obtained(values: array?<real>, bin: Bin, new m: array<real>, new rest: Bin) {
    if values != null then m == values && rest == bin
    else if bin != [] then m == bin[|bin| - 1] && rest == bin[..|bin| - 1]
    else fresh(m) && rest == []
  }

  method PopRecycle(bin: Bin, n: nat) returns (m: array<real>, rest: Bin)
    requires BinOf(bin, n)
    ensures m.Length == n && Obtained(null, bin, m, rest)
  {
    if bin == [] {
      m, rest := new real[n](_ => 0.0), [];
    } else {
      m, rest := bin[|bin| - 1], bin[..|bin| - 1];
    }
  }

  lemma Accumulated(m: seq<real>, a: Adjoint, k: real, d: seq<real>)
    requires |m| == |d| && forall i :: 0 <= i < |d| ==> m[i] == Entry(a, i) + Times(k, d[i])
    ensures Values(m) == Accumulate(a, k, d)
  {
    var r := Accumulate(a, k, d).v;
    forall i | 0 <= i < |d|
      ensures m[i] == r[i]
    {
      assert r[i] == Entry(a, i) + k * d[i];
    }
    assert m == r;
  }

  /** The operands of an accumulation are different buffers of one size. */
  ghost predicate Separate(values: array?<real>, bin: Bin, d: array<real>) {
    && BinOf(bin, d.Length)
    && (values != null ==> values.Length == d.Length && values != d)
    && d !in bin
  }

  /** The seed: entry c becomes one, and a buffer that was absent starts from zeros. */
  method DiffValues(values: array?<real>, bin: Bin, c: nat, n: nat) returns (m: array<real>, rest: Bin)
    requires c < n && BinOf(bin, n) && (values != null ==> values.Length == n && values !in bin)
    modifies values, bin
    ensures m.Length == n && Obtained(values, bin, m, rest)
    ensures forall i :: 0 <= i < n ==> m[i] == if i == c then 1.0 else Entry(old(AdjointOf(values)), i)
  {
    if values == null {
      m, rest := PopRecycle(bin, n);
      for j := 0 to n
        invariant forall i :: 0 <= i < j ==> m[i] == 0.0
      {
        m[j] := 0.0;
      }
    } else {
      m, rest := values, bin;
    }
    m[c] := 1.0;
  }

  method AddValues(values: array?<real>, bin: Bin, d: array<real>) returns (m: array<real>, rest: Bin)
    requires Separate(values, bin, d)
    modifies values, bin
    ensures m.Length == d.Length && Obtained(values, bin, m, rest)
    ensures Values(m[..]) == Accumulate(old(AdjointOf(values)), 1.0, d[..])
  {
    if values == null {
      m, rest := PopRecycle(bin, d.Length);
      for i := 0 to d.Length
        invariant forall j :: 0 <= j < i ==> m[j] == d[j]
      {
        m[i] := d[i];
      }
    } else {
      m, rest := values, bin;
      for i := 0 to d.Length
        invariant forall j :: 0 <= j < d.Length ==> m[j] == old(values[j]) + if j < i then d[j] else 0.0
      {
        m[i] := m[i] + d[i];
      }
    }
  }

  method SubValues(values: array?<real>, bin: Bin, d: array<real>) returns (m: array<real>, rest: Bin)
    requires Separate(values, bin, d)
    modifies values, bin
    ensures m.Length == d.Length && Obtained(values, bin, m, rest)
    ensures Values(m[..]) == Accumulate(old(AdjointOf(values)), -1.0, d[..])
  {
    if values == null {
      m, rest := PopRecycle(bin, d.Length);
      for i := 0 to d.Length
        invariant forall j :: 0 <= j < i ==> m[j] == -d[j]
      {
        m[i] := -d[i];
      }
    } else {
      m, rest := values, bin;
      for i := 0 to d.Length
        invariant forall j :: 0 <= j < d.Length ==> m[j] == old(values[j]) - if j < i then d[j] else 0.0
      {
        m[i] := m[i] - d[i];
      }
    }
  }

  lemma NegatedProduct(a: real, x: real)
    ensures -(a * x) == Times(-a, x)
  {
  }

  method AddScaledValues(values: array?<real>, bin: Bin, a: real, d: array<real>) returns (m: array<real>, rest: Bin)
    requires Separate(values, bin, d)
    modifies values, bin
    ensures m.Length == d.Length && Obtained(values, bin, m, rest)
    ensures Values(m[..]) == Accumulate(old(AdjointOf(values)), a, d[..])
  {
    if values == null {
      m, rest := PopRecycle(bin, d.Length);
      for i := 0 to d.Length
        invariant forall j :: 0 <= j < i ==> m[j] == Times(a, d[j])
      {
        m[i] := a * d[i];
      }
    } else {
      m, rest := values, bin;
      for i := 0 to d.Length
        invariant forall j :: 0 <= j < d.Length ==> m[j] == old(values[j]) + if j < i then Times(a, d[j]) else 0.0
      {
        m[i] := m[i] + a * d[i];
      }
    }
    Accumulated(m[..], old(AdjointOf(values)), a, d[..]);
  }

  method SubScaledValues(values: array?<real>, bin: Bin, a: real, d: array<real>) returns (m: array<real>, rest: Bin)
    requires Separate(values, bin, d)
    modifies values, bin
    ensures m.Length == d.Length && Obtained(values, bin, m, rest)
    ensures Values(m[..]) == Accumulate(old(AdjointOf(values)), -a, d[..])
  {
    ghost var k := -a;
    if values == null {
      m, rest := PopRecycle(bin, d.Length);
      for i := 0 to d.Length
        invariant forall j :: 0 <= j < i ==> m[j] == Times(k, d[j])
      {
        NegatedProduct(a, d[i]);
        m[i] := -(a * d[i]);
      }
    } else {
      m, rest := values, bin;
      for i := 0 to d.Length
        invariant forall j :: 0 <= j < d.Length ==> m[j] == old(values[j]) + if j < i then Times(k, d[j]) else 0.0
      {
        NegatedProduct(a, d[i]);
        m[i] := m[i] - a * d[i];
      }
    }
    Accumulated(m[..], old(AdjointOf(values)), k, d[..]);
  }
}
