/** The line iterator of BresenhamPtr.hpp: a pointer and a point that move together along the cells
    nearest to a line.  Pointers are offsets, in elements, from the base of the buffer. */
module Bresenham {

  datatype Point = Point(x: int, y: int)

  function Abs(a: int): nat {
    if a < 0 then -a else a
  }

  function Max(a: int, b: int): int {
    if a >= b then a else b
  }

  /** The element of the buffer that holds point p. */
  function Address(p: Point, step: nat): int {
    p.x * step + p.y
  }

  // ---------------------------------------------------------------- the line

  /** Steps along the minor axis after k along the major one: k * minor / major, rounded to the
      nearest integer, halves up.  From a line without length the iterator goes off diagonally. */
  function MinorSteps(k: nat, major: nat, minor: nat): nat
    requires minor <= major
  {
    if major == 0 then k else (2 * k * minor + major) / (2 * major)
  }

  /** A number of steps in the direction of d, where zero counts as down. */
  function Towards(d: int, n: int): int {
    if d > 0 then n else -n
  }

  /** The cell of the line from s to e after k steps. */
  function CellAt(s: Point, e: Point, k: nat): Point {
    var a, b := e.x - s.x, e.y - s.y;
    if Abs(b) >= Abs(a)
    then Point(s.x + Towards(a, MinorSteps(k, Abs(b), Abs(a))), s.y + Towards(b, k))
    else Point(s.x + Towards(a, k), s.y + Towards(b, MinorSteps(k, Abs(a), Abs(b))))
  }

  /** The number of steps of the whole line. */
  function Steps(s: Point, e: Point): nat {
    Max(Abs(e.x - s.x), Abs(e.y - s.y))
  }

  /** m is k * minor / major rounded, without division. */
  predicate Rounded(k: nat, major: nat, minor: nat, m: int) {
    2 * major * m <= 2 * k * minor + major && 2 * k * minor < 2 * major * m + major
  }

  lemma RoundedUnique(k: nat, major: nat, minor: nat, m: int)
    requires minor <= major && major > 0 && Rounded(k, major, minor, m)
    ensures m == MinorSteps(k, major, minor)
  {
    var a := 2 * k * minor + major;
    assert 2 * major * m <= a < 2 * major * (m + 1);
    QuotientOf(a, 2 * major, m);
  }

  lemma QuotientOf(a: int, b: int, q: int)
    requires b > 0 && b * q <= a < b * (q + 1)
    ensures a / b == q
  {
    var d := Quotient(a, b);
    QuotientsAgree(a, b, q, d);
  }

  lemma Quotient(a: int, b: int) returns (d: int)
    requires b > 0
    ensures d == a / b && b * d <= a < b * (d + 1)
  {
    d := a / b;
    assert a == b * d + a % b;
  }

  lemma QuotientsAgree(a: int, b: nat, q: int, d: int)
    requires b > 0 && b * q <= a < b * (q + 1) && b * d <= a < b * (d + 1)
    ensures q == d
  {
    if q < d {
      SmallerTimes(q + 1, d, b);
    } else if d < q {
      SmallerTimes(d + 1, q, b);
    }
  }

  lemma MinorStepsRounded(k: nat, major: nat, minor: nat)
    requires minor <= major && major > 0
    ensures Rounded(k, major, minor, MinorSteps(k, major, minor))
  {
    var a, b := 2 * k * minor + major, 2 * major;
    assert a == b * (a / b) + a % b;
  }

  // ---------------------------------------------------------------- its properties

  /** Every cell is within half a cell of the true line, measured along the minor axis: 2 * dx * dy
      is kept within the length of the major axis. */
  lemma HalfCell(s: Point, e: Point, k: nat)
    requires s != e
    ensures var a, b, p := e.x - s.x, e.y - s.y, CellAt(s, e, k);
            if Abs(b) >= Abs(a)
            then Abs(p.y - s.y) == k && Abs(2 * (p.x - s.x) * b - 2 * (p.y - s.y) * a) <= Abs(b)
            else Abs(p.x - s.x) == k && Abs(2 * (p.y - s.y) * a - 2 * (p.x - s.x) * b) <= Abs(a)
  {
    var a, b := e.x - s.x, e.y - s.y;
    if Abs(b) >= Abs(a) {
      HalfCellAlong(a, b, k);
    } else {
      HalfCellAlong(b, a, k);
    }
  }

  lemma HalfCellAlong(minor: int, major: int, k: nat)
    requires Abs(minor) <= Abs(major) && major != 0
    ensures Abs(2 * Towards(minor, MinorSteps(k, Abs(major), Abs(minor))) * major - 2 * Towards(major, k) * minor)
            <= Abs(major)
  {
    var m := MinorSteps(k, Abs(major), Abs(minor));
    MinorStepsRounded(k, Abs(major), Abs(minor));
    SignedDeviation(minor, major, k, m);
  }

  lemma SignedDeviation(minor: int, major: int, k: nat, m: nat)
    ensures Abs(2 * Towards(minor, m) * major - 2 * Towards(major, k) * minor)
            == Abs(2 * k * Abs(minor) - 2 * Abs(major) * m)
  {
  }

  /** Where the true line passes midway between two cells, the one further along the minor axis is
      taken. */
  lemma HalvesGoOn(s: Point, e: Point, k: nat)
    requires s != e
    ensures var a, b, p := e.x - s.x, e.y - s.y, CellAt(s, e, k);
            if Abs(b) >= Abs(a)
            then 0 < 2 * (Abs(p.x - s.x) * Abs(b)) - 2 * (k * Abs(a)) + Abs(b) <= 2 * Abs(b)
            else 0 < 2 * (Abs(p.y - s.y) * Abs(a)) - 2 * (k * Abs(b)) + Abs(a) <= 2 * Abs(a)
  {
    var a, b := Abs(e.x - s.x), Abs(e.y - s.y);
    if b >= a {
      MinorStepsRounded(k, b, a);
      RoundedApart(k, b, a, MinorSteps(k, b, a));
    } else {
      MinorStepsRounded(k, a, b);
      RoundedApart(k, a, b, MinorSteps(k, a, b));
    }
  }

  lemma RoundedApart(k: nat, major: nat, minor: nat, m: nat)
    requires Rounded(k, major, minor, m)
    ensures 0 < 2 * (m * major) - 2 * (k * minor) + major <= 2 * major
  {
  }

  /** The line ends at its end point, after as many steps as its longer side. */
  lemma ArrivesAtEnd(s: Point, e: Point)
    ensures CellAt(s, e, Steps(s, e)) == e
  {
    var a, b := e.x - s.x, e.y - s.y;
    if Abs(b) >= Abs(a) {
      FullMinor(Abs(b), Abs(a));
    } else {
      FullMinor(Abs(a), Abs(b));
    }
  }

  lemma FullMinor(major: nat, minor: nat)
    requires minor <= major
    ensures MinorSteps(major, major, minor) == minor
  {
    if major > 0 {
      assert 2 * major * minor - 2 * major * minor == 0;
      RoundedUnique(major, major, minor, minor);
    }
  }

  predicate Between(a: int, b: int, c: int) {
    a <= b <= c || c <= b <= a
  }

  /** Every visited cell lies in the bounding box of the end points. */
  lemma StaysInBox(s: Point, e: Point, k: nat)
    requires k <= Steps(s, e)
    ensures var p := CellAt(s, e, k); Between(s.x, p.x, e.x) && Between(s.y, p.y, e.y)
  {
    var a, b := e.x - s.x, e.y - s.y;
    if Abs(b) >= Abs(a) {
      MinorBounded(k, Abs(b), Abs(a));
    } else {
      MinorBounded(k, Abs(a), Abs(b));
    }
  }

  lemma MinorBounded(k: nat, major: nat, minor: nat)
    requires k <= major && minor <= major
    ensures 0 <= MinorSteps(k, major, minor) <= minor
  {
    if major > 0 {
      var m := MinorSteps(k, major, minor);
      MinorStepsRounded(k, major, minor);
      Monotone(k, major, minor);
      if m > minor {
        Monotone(minor + 1, m, major);
      }
    }
  }

  lemma Monotone(a: nat, b: nat, c: nat)
    requires a <= b
    ensures a * c <= b * c
  {
  }

  /** In one row of the buffer an address determines the point. */
  lemma AddressInjective(p: Point, q: Point, step: nat)
    requires 0 <= p.y < step && 0 <= q.y < step && Address(p, step) == Address(q, step)
    ensures p == q
  {
    if p.x < q.x {
      LaterRow(p, q, step);
    } else if q.x < p.x {
      LaterRow(q, p, step);
    }
  }

  lemma LaterRow(p: Point, q: Point, step: nat)
    requires 0 <= p.y < step && 0 <= q.y < step && p.x < q.x
    ensures Address(p, step) < Address(q, step)
  {
    SmallerTimes(p.x + 1, q.x, step);
  }

  lemma SmallerTimes(a: int, b: int, c: nat)
    requires a <= b
    ensures a * c <= b * c
  {
  }

  /** The end pointer is met at the end point and not before. */
  lemma PointerMeetsEnd(s: Point, e: Point, step: nat, k: nat)
    requires 0 <= s.y < step && 0 <= e.y < step && k <= Steps(s, e)
    ensures Address(CellAt(s, e, k), step) == Address(e, step) <==> k == Steps(s, e)
  {
    ArrivesAtEnd(s, e);
    if k < Steps(s, e) && Address(CellAt(s, e, k), step) == Address(e, step) {
      StaysInBox(s, e, k);
      AddressInjective(CellAt(s, e, k), e, step);
    }
  }

  // ---------------------------------------------------------------- the iterator

  class Iterator {
    var ptr: int
    var p: Point
    var dx: int
    var dy: int
    var incx: int
    var incy: int
    var balance: int
    ghost const s: Point
    ghost const e: Point
    ghost const step: nat
    ghost var k: nat                   // the steps made so far

    ghost predicate Valid()
      reads this
    {
      var a, b := e.x - s.x, e.y - s.y;
      && step > 0
      && dx == 2 * Abs(b) && dy == 2 * Abs(a)
      && incx == Towards(b, 1) && incy == Towards(a, step)
      && p == CellAt(s, e, k) && ptr == Address(p, step)
      && balance == BalanceAt(s, e, k)
    }

    constructor (ptr: int, p: Point, dx: int, dy: int, incx: int, incy: int, balance: int, ghost s: Point,
            ghost e: Point, ghost step: nat)
      ensures this.ptr == ptr && this.p == p && this.dx == dx && this.dy == dy
      ensures this.incx == incx && this.incy == incy && this.balance == balance
      ensures this.s == s && this.e == e && this.step == step && k == 0
    {
      this.ptr, this.p, this.dx, this.dy, this.incx, this.incy, this.balance := ptr, p, dx, dy, incx, incy, balance;
      this.s, this.e, this.step, k := s, e, step, 0;
    }

    /** operator++ */
    method Next()
      requires Valid()
      modifies this
      ensures Valid() && k == old(k) + 1
    {
      NextCell(s, e, k, step);
      if dx >= dy {
        if balance >= 0 {
          ptr := ptr + incy;
          balance := balance - dx;
          if incy >= 0 {
            p := p.(x := p.x + 1);
          } else {
            p := p.(x := p.x - 1);
          }
        }
        ptr := ptr + incx;
        balance := balance + dy;
        if incx >= 0 {
          p := p.(y := p.y + 1);
        } else {
          p := p.(y := p.y - 1);
        }
      } else {
        if balance >= 0 {
          ptr := ptr + incx;
          balance := balance - dy;
          if incx >= 0 {
            p := p.(y := p.y + 1);
          } else {
            p := p.(y := p.y - 1);
          }
        }
        ptr := ptr + incy;
        balance := balance + dx;
        if incy >= 0 {
          p := p.(x := p.x + 1);
        } else {
          p := p.(x := p.x - 1);
        }
      }
      k := k + 1;
    }
  }

  /** The balance at step k of the line from s to e. */
  function BalanceAt(s: Point, e: Point, k: nat): int {
    var a, b := e.x - s.x, e.y - s.y;
    if Abs(b) >= Abs(a) then Balance(k, Abs(b), Abs(a)) else Balance(k, Abs(a), Abs(b))
  }

  lemma MovedAddress(p: Point, q: Point, step: nat, i: int, j: int, istep: int)
    requires q == Point(p.x + i, p.y + j) && istep == i * step
    ensures Address(q, step) == Address(p, step) + istep + j
  {
  }

  /** How cell, address and balance change from step k to the next. */
  lemma NextCell(s: Point, e: Point, k: nat, step: nat)
    ensures var a, b, p, q := e.x - s.x, e.y - s.y, CellAt(s, e, k), CellAt(s, e, k + 1);
            var diagonal := BalanceAt(s, e, k) >= 0;
            if Abs(b) >= Abs(a)
            then && q == Point(p.x + (if diagonal then Towards(a, 1) else 0), p.y + Towards(b, 1))
                 && Address(q, step) == Address(p, step) + (if diagonal then Towards(a, step) else 0) + Towards(b, 1)
                 && BalanceAt(s, e, k + 1) == BalanceAt(s, e, k) + 2 * Abs(a) - (if diagonal then 2 * Abs(b) else 0)
            else && q == Point(p.x + Towards(a, 1), p.y + (if diagonal then Towards(b, 1) else 0))
                 && Address(q, step) == Address(p, step) + Towards(a, step) + (if diagonal then Towards(b, 1) else 0)
                 && BalanceAt(s, e, k + 1) == BalanceAt(s, e, k) + 2 * Abs(b) - (if diagonal then 2 * Abs(a) else 0)
  {
    var a, b := e.x - s.x, e.y - s.y;
    var p, q := CellAt(s, e, k), CellAt(s, e, k + 1);
    if Abs(b) >= Abs(a) {
      NextMinor(k, Abs(b), Abs(a));
      var i := if Balance(k, Abs(b), Abs(a)) >= 0 then Towards(a, 1) else 0;
      MovedAddress(p, q, step, i, Towards(b, 1), i * step);
    } else {
      NextMinor(k, Abs(a), Abs(b));
      var j := if Balance(k, Abs(a), Abs(b)) >= 0 then Towards(b, 1) else 0;
      MovedAddress(p, q, step, Towards(a, 1), j, Towards(a, step));
    }
  }

  /** What `balance` holds after k steps. */
  function Balance(k: nat, major: nat, minor: nat): int
    requires minor <= major
  {
    2 * minor * (k + 1) - major - 2 * major * MinorSteps(k, major, minor)
  }

  /** The balance stays between twice the difference of the axes and twice the minor one; for sides
      below 2^30 nothing the iterator computes leaves 32 bits. */
  lemma BalanceBounds(k: nat, major: nat, minor: nat)
    requires minor <= major && major > 0
    ensures 2 * minor - 2 * major <= Balance(k, major, minor) < 2 * minor
    ensures major < 0x4000_0000 ==>
              && -0x8000_0000 <= Balance(k, major, minor) < 0x8000_0000
              && (Balance(k, major, minor) >= 0 ==> -0x8000_0000 <= Balance(k, major, minor) - 2 * major)
              && Balance(k, major, minor) + 2 * minor
                 < (if Balance(k, major, minor) >= 0 then 2 * major else 0) + 0x8000_0000
  {
    MinorStepsRounded(k, major, minor);
  }

  /** The sign of the balance says whether the next step is diagonal. */
  lemma NextMinor(k: nat, major: nat, minor: nat)
    requires minor <= major
    ensures MinorSteps(k + 1, major, minor)
            == MinorSteps(k, major, minor) + (if Balance(k, major, minor) >= 0 then 1 else 0)
    ensures Balance(k + 1, major, minor)
         == Balance(k, major, minor) + 2 * minor - (if Balance(k, major, minor) >= 0 then 2 * major else 0)
  {
    if major > 0 {
      var m := MinorSteps(k, major, minor);
      MinorStepsRounded(k, major, minor);
      var m' := if Balance(k, major, minor) >= 0 then m + 1 else m;
      StaysRounded(k, major, minor, m, m', Balance(k, major, minor));
      RoundedUnique(k + 1, major, minor, m');
    }
  }

  lemma StaysRounded(k: nat, major: nat, minor: nat, m: int, m': int, balance: int)
    requires minor <= major && Rounded(k, major, minor, m)
    requires balance == 2 * minor * (k + 1) - major - 2 * major * m && m' == if balance >= 0 then m + 1 else m
    ensures Rounded(k + 1, major, minor, m')
  {
  }

  lemma InitialBalance(s: Point, e: Point)
    ensures var a, b := Abs(e.x - s.x), Abs(e.y - s.y);
            BalanceAt(s, e, 0) == if b >= a then 2 * a - b else 2 * b - a
  {
    var a, b := Abs(e.x - s.x), Abs(e.y - s.y);
    if b >= a {
      NoMinor(b, a);
    } else {
      NoMinor(a, b);
    }
  }

  lemma FirstCell(s: Point, e: Point)
    ensures CellAt(s, e, 0) == s
  {
    var a, b := Abs(e.x - s.x), Abs(e.y - s.y);
    if b >= a {
      NoMinor(b, a);
    } else {
      NoMinor(a, b);
    }
  }

  lemma NoMinor(major: nat, minor: nat)
    requires minor <= major
    ensures MinorSteps(0, major, minor) == 0
  {
    if major > 0 {
      RoundedUnique(0, major, minor, 0);
    }
  }

  class BresenhamPtr {
    var startPtr: int
    var endPtr: int
    var dx: int
    var dy: int
    var incx: int
    var incy: int
    var balance: int
    const start: Point
    ghost const e: Point
    ghost const step: nat

    ghost predicate Valid()
      reads this
    {
      var a, b := e.x - start.x, e.y - start.y;
      && step > 0
      && dx == 2 * Abs(b) && dy == 2 * Abs(a)
      && incx == Towards(b, 1) && incy == Towards(a, step)
      && startPtr == Address(start, step) && endPtr == Address(e, step)
      && balance == BalanceAt(start, e, 0)
    }

    constructor (start: Point, end: Point, step: nat)
      requires step > 0
      ensures Valid() && this.start == start && e == end && this.step == step
    {
      this.start, e, this.step := start, end, step;
      var w, h, ix, iy, b := Increments(end.x - start.x, end.y - start.y, step);
      dx, dy, incx, incy, balance := w, h, ix, iy, b;
      startPtr := start.x * step + start.y;
      endPtr := end.x * step + end.y;
      new;
      InitialBalance(start, end);
    }

    /** The constructor's part that does not depend on where the line is. */
    static method Increments(y: int, x: int, step: nat) returns (dx: int, dy: int, incx: int, incy: int, balance: int)
      ensures dx == 2 * Abs(x) && dy == 2 * Abs(y) && incx == Towards(x, 1) && incy == Towards(y, step)
      ensures balance == if Abs(x) >= Abs(y) then 2 * Abs(y) - Abs(x) else 2 * Abs(x) - Abs(y)
    {
      if x > 0 {
        dx := x;
        incx := 1;
      } else {
        dx := -x;
        incx := -1;
      }
      if y > 0 {
        dy := y;
        incy := step;
      } else {
        dy := -y;
        incy := -(step as int);
      }
      if dx >= dy {
        dy := 2 * dy;
        balance := dy - dx;
        dx := 2 * dx;
      } else {
        dx := 2 * dx;
        balance := dx - dy;
        dy := 2 * dy;
      }
    }

    method Begin() returns (it: Iterator)
      requires Valid()
      ensures fresh(it) && it.Valid() && it.k == 0 && it.s == start && it.e == e && it.step == step
    {
      FirstCell(start, e);
      it := new Iterator(startPtr, start, dx, dy, incx, incy, balance, start, e, step);
    }

    method End() returns (ptr: int)
      requires Valid()
      ensures ptr == Address(e, step)
    {
      ptr := endPtr;
    }
  }
}
