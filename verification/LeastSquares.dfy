/** The incremental least-squares line (LeastSquaresLine.cpp), up to the scaling of its result. */
module LeastSquares {
  import opened RealSums

  datatype Point = Point(x: int, y: int)

  /** The six running sums. */
  datatype Sums = Sums(x2: int, y2: int, xy: int, x: int, y: int, n: int)

  function Plus(s: Sums, t: Sums): Sums {
    Sums(s.x2 + t.x2, s.y2 + t.y2, s.xy + t.xy, s.x + t.x, s.y + t.y, s.n + t.n)
  }

  function Difference(s: Sums, t: Sums): Sums {
    Sums(s.x2 - t.x2, s.y2 - t.y2, s.xy - t.xy, s.x - t.x, s.y - t.y, s.n - t.n)
  }

  const ZERO := Sums(0, 0, 0, 0, 0, 0)

  /** What one point contributes. */
  function Moments(p: Point): Sums {
    Sums(p.x * p.x, p.y * p.y, p.x * p.y, p.x, p.y, 1)
  }

  /** The sums over a list of points; f is what each contributes. */
  function Total(f: Point -> Sums, ps: seq<Point>): Sums {
    if ps == [] then ZERO else Plus(Total(f, ps[..|ps| - 1]), f(ps[|ps| - 1]))
  }

  function SumsOf(ps: seq<Point>): Sums {
    Total(Moments, ps)
  }

  function DetX(s: Sums): int { s.x2 * s.n - s.x * s.x }

  function DetY(s: Sums): int { s.y2 * s.n - s.y * s.y }

  /** a * x + b * y + c == 0. */
  datatype Line = NoLine | Line(a: int, b: int, c: int)

  function LineOf(s: Sums): Line {
    if DetX(s) == 0 && DetY(s) == 0 then NoLine
    else if DetX(s) > DetY(s) then Line(s.n * s.xy - s.x * s.y, -DetX(s), s.x2 * s.y - s.x * s.xy)
    else Line(-DetY(s), s.n * s.xy - s.y * s.x, s.y2 * s.x - s.y * s.xy)
  }

  // ---------------------------------------------------------------- the class

  class LeastSquaresLine {
    var sumX2: int
    var sumX: int
    var sumY2: int
    var sumY: int
    var sumXY: int
    var sum1: int

    function Current(): Sums
      reads this
    {
      Sums(sumX2, sumY2, sumXY, sumX, sumY, sum1)
    }

    constructor ()
      ensures Current() == ZERO
    {
      sumX2, sumY2, sumXY, sumX, sumY, sum1 := 0, 0, 0, 0, 0, 0;
    }

    method AddPoint(p: Point)
      modifies this
      ensures Current() == After(old(Current()), Added(p))
    {
      sumX2 := sumX2 + p.x * p.x;
      sumY2 := sumY2 + p.y * p.y;
      sumXY := sumXY + p.x * p.y;
      sumX := sumX + p.x;
      sumY := sumY + p.y;
      sum1 := sum1 + 1;
    }

    /** The point need not have been added before. */
    method RemovePoint(p: Point)
      modifies this
      ensures Current() == After(old(Current()), Removed(p))
    {
      sumX2 := sumX2 - p.x * p.x;
      sumY2 := sumY2 - p.y * p.y;
      sumXY := sumXY - p.x * p.y;
      sumX := sumX - p.x;
      sumY := sumY - p.y;
      sum1 := sum1 - 1;
    }

    /** The line before it is scaled. */
    method GetLineABC() returns (ok: bool, a: int, b: int, c: int)
      ensures (if ok then Line(a, b, c) else NoLine) == LineOf(Current())
    {
      var detX := sumX2 * sum1 - sumX * sumX;
      var detY := sumY2 * sum1 - sumY * sumY;
      if detX == 0 && detY == 0 {
        return false, 0, 0, 0;
      }
      if detX > detY {
        a := sum1 * sumXY - sumX * sumY;
        b := -detX;
        c := sumX2 * sumY - sumX * sumXY;
      } else {
        a := -detY;
        b := sum1 * sumXY - sumY * sumX;
        c := sumY2 * sumX - sumY * sumXY;
      }
      ok := true;
    }
  }

  // ---------------------------------------------------------------- any history

  datatype Event = Added(p: Point) | Removed(p: Point)

  function After(s: Sums, e: Event): Sums {
    match e
    case Added(p) => Plus(s, Moments(p))
    case Removed(p) => Difference(s, Moments(p))
  }

  /** The sums after a history of calls, oldest first. */
  function SumsAfter(f: Point -> Sums, h: seq<Event>): Sums {
    if h == [] then ZERO else
    var s, e := SumsAfter(f, h[..|h| - 1]), h[|h| - 1];
    if e.Added? then Plus(s, f(e.p)) else Difference(s, f(e.p))
  }

  function Selected(h: seq<Event>, added: bool): seq<Point> {
    if h == [] then [] else
    var s, e := Selected(h[..|h| - 1], added), h[|h| - 1];
    if e.Added? == added then s + [e.p] else s
  }

  lemma {:induction false} SumsAfterAre(f: Point -> Sums, h: seq<Event>)
    ensures SumsAfter(f, h) == Difference(Total(f, Selected(h, true)), Total(f, Selected(h, false)))
  {
    if h != [] {
      var n := |h| - 1;
      SumsAfterAre(f, h[..n]);
      var a, r := Selected(h[..n], true), Selected(h[..n], false);
      if h[n].Added? {
        TotalOfAppended(f, a, h[n].p);
        PlusDifference(Total(f, a), Total(f, r), f(h[n].p));
      } else {
        TotalOfAppended(f, r, h[n].p);
        DifferencePlus(Total(f, a), Total(f, r), f(h[n].p));
      }
    }
  }

  lemma HistoryStep(h: seq<Event>, e: Event)
    ensures SumsAfter(Moments, h + [e]) == After(SumsAfter(Moments, h), e)
  {
    assert (h + [e])[..|h|] == h;
  }

  lemma PlusDifference(a: Sums, r: Sums, m: Sums)
    ensures Plus(Difference(a, r), m) == Difference(Plus(a, m), r)
  {
  }

  lemma DifferencePlus(a: Sums, r: Sums, m: Sums)
    ensures Difference(Difference(a, r), m) == Difference(a, Plus(r, m))
  {
  }

  lemma Cancelled(l: Sums, a: Sums, r: Sums)
    requires l == Difference(a, r)
    ensures forall l', m {:trigger Plus(l', m)} :: Plus(l', m) == l ==> l' == Difference(a, Plus(r, m))
  {
  }

  lemma TotalOfAppended(f: Point -> Sums, ps: seq<Point>, p: Point)
    ensures Total(f, ps + [p]) == Plus(Total(f, ps), f(p))
  {
    assert (ps + [p])[..|ps|] == ps;
  }

  lemma {:induction false} TotalWithout(f: Point -> Sums, ps: seq<Point>, i: nat)
    requires i < |ps|
    ensures Total(f, ps) == Plus(Total(f, ps[..i] + ps[i + 1..]), f(ps[i]))
  {
    var n := |ps| - 1;
    if i < n {
      TotalWithout(f, ps[..n], i);
      var q := ps[..n][..i] + ps[..n][i + 1..];
      assert ps[..i] + ps[i + 1..] == q + [ps[n]];
      TotalOfAppended(f, q, ps[n]);
    } else {
      assert ps[..i] + ps[i + 1..] == ps[..n];
    }
  }

  lemma MultisetWithout(ps: seq<Point>, i: nat)
    requires i < |ps|
    ensures multiset(ps[..i] + ps[i + 1..]) == multiset(ps) - multiset{ps[i]}
  {
    assert ps == ps[..i] + [ps[i]] + ps[i + 1..];
  }

  lemma Without(f: Point -> Sums, ps: seq<Point>, p: Point) returns (left: seq<Point>)
    requires p in multiset(ps)
    ensures multiset(left) == multiset(ps) - multiset{p}
    ensures Plus(Total(f, left), f(p)) == Total(f, ps)
  {
    var i :| 0 <= i < |ps| && ps[i] == p;
    TotalWithout(f, ps, i);
    MultisetWithout(ps, i);
    left := ps[..i] + ps[i + 1..];
  }

  lemma {:induction false} TotalOfHistory(f: Point -> Sums, added: seq<Point>,
          removed: seq<Point>) returns (left: seq<Point>)
    requires multiset(removed) <= multiset(added)
    ensures multiset(left) == multiset(added) - multiset(removed)
    ensures Total(f, left) == Difference(Total(f, added), Total(f, removed))
  {
    if removed == [] {
      left := added;
    } else {
      var n := |removed| - 1;
      assert removed == removed[..n] + [removed[n]];
      left := TotalOfHistory(f, added, removed[..n]);
      Cancelled(Total(f, left), Total(f, added), Total(f, removed[..n]));
      left := Without(f, left, removed[n]);
    }
  }

  /** If only points that were present have been removed, the running sums are those of the points
      that are left. */
  lemma SumsOfHistory(h: seq<Event>) returns (left: seq<Point>)
    requires multiset(Selected(h, false)) <= multiset(Selected(h, true))
    ensures multiset(left) == multiset(Selected(h, true)) - multiset(Selected(h, false))
    ensures SumsAfter(Moments, h) == SumsOf(left)
  {
    SumsAfterAre(Moments, h);
    left := TotalOfHistory(Moments, Selected(h, true), Selected(h, false));
  }

  /** What the six sums are before and after each of the calls of h on a new object. */
  ghost predicate IsRun(sums: seq<Sums>, h: seq<Event>) {
    && |sums| == |h| + 1 && sums[0] == ZERO
    && forall i :: 0 <= i < |h| ==> sums[i + 1] == After(sums[i], h[i])
  }

  lemma {:induction false} RunIsHistory(sums: seq<Sums>, h: seq<Event>, i: nat)
    requires IsRun(sums, h) && i <= |h|
    ensures sums[i] == SumsAfter(Moments, h[..i])
  {
    if i > 0 {
      RunIsHistory(sums, h, i - 1);
      assert h[..i] == h[..i - 1] + [h[i - 1]];
      HistoryStep(h[..i - 1], h[i - 1]);
    }
  }

  /** After any calls of `addPoint` and `removePoint` of which the latter only remove points that have
      been added, the sums are those of the points that are left. */
  lemma RunSums(sums: seq<Sums>, h: seq<Event>) returns (left: seq<Point>)
    requires IsRun(sums, h) && multiset(Selected(h, false)) <= multiset(Selected(h, true))
    ensures multiset(left) == multiset(Selected(h, true)) - multiset(Selected(h, false))
    ensures sums[|h|] == SumsOf(left)
  {
    left := SumsOfHistory(h);
    RunIsHistory(sums, h, |h|);
    assert h[..|h|] == h;
  }

  // ---------------------------------------------------------------- determinants

  function Xs(ps: seq<Point>): seq<int> {
    seq(|ps|, i requires 0 <= i < |ps| => ps[i].x)
  }

  function Ys(ps: seq<Point>): seq<int> {
    seq(|ps|, i requires 0 <= i < |ps| => ps[i].y)
  }

  function Sum(v: seq<int>): int {
    if v == [] then 0 else Sum(v[..|v| - 1]) + v[|v| - 1]
  }

  function SumSquares(v: seq<int>): int {
    if v == [] then 0 else SumSquares(v[..|v| - 1]) + v[|v| - 1] * v[|v| - 1]
  }

  /** The squared distances of the members of v from a. */
  function Around(v: seq<int>, a: int): (r: int)
    ensures r >= 0
  {
    if v == [] then 0 else Around(v[..|v| - 1], a) + Squared(v[|v| - 1] - a)
  }

  function Squared(a: int): (r: int)
    ensures r >= 0
  {
    a * a
  }

  /** The squared distances of all pairs. */
  function Pairs(v: seq<int>): (r: int)
    ensures r >= 0
  {
    if v == [] then 0 else Pairs(v[..|v| - 1]) + Around(v[..|v| - 1], v[|v| - 1])
  }

  lemma {:induction false} AroundIs(v: seq<int>, a: int, aa: int)
    requires aa == a * a
    ensures Around(v, a) == SumSquares(v) - 2 * (a * Sum(v)) + |v| * aa
  {
    if v != [] {
      var n := |v| - 1;
      AroundIs(v[..n], a, aa);
      AroundStep(v[n], a, aa, Sum(v[..n]), n);
    }
  }

  lemma AroundStep(x: int, a: int, aa: int, s: int, n: int)
    requires aa == a * a
    ensures Squared(x - a) - 2 * (a * s) + n * aa == x * x - 2 * (a * (s + x)) + (n + 1) * aa
  {
  }

  /** The determinant is the sum over all pairs of their squared distance. */
  lemma {:induction false} DeterminantIsPairs(v: seq<int>)
    ensures SumSquares(v) * |v| - Sum(v) * Sum(v) == Pairs(v)
  {
    if v != [] {
      var n := |v| - 1;
      DeterminantIsPairs(v[..n]);
      AroundIs(v[..n], v[n], v[n] * v[n]);
      DeterminantStep(SumSquares(v[..n]), Sum(v[..n]), n, v[n], v[n] * v[n]);
    }
  }

  lemma DeterminantStep(q: int, s: int, n: int, x: int, xx: int)
    requires xx == x * x
    ensures (q + xx) * (n + 1) - (s + x) * (s + x) == (q * n - s * s) + (q - 2 * (x * s) + n * xx)
  {
  }

  lemma {:induction false} SumsAre(ps: seq<Point>)
    ensures var s := SumsOf(ps);
            && s.x == Sum(Xs(ps)) && s.x2 == SumSquares(Xs(ps))
            && s.y == Sum(Ys(ps)) && s.y2 == SumSquares(Ys(ps)) && s.n == |ps|
  {
    if ps != [] {
      var n := |ps| - 1;
      SumsAre(ps[..n]);
      assert Xs(ps)[..n] == Xs(ps[..n]) && Ys(ps)[..n] == Ys(ps[..n]);
    }
  }

  lemma {:induction false} PairsZero(v: seq<int>)
    ensures Pairs(v) == 0 <==> forall i, j :: 0 <= i < |v| && 0 <= j < |v| ==> v[i] == v[j]
  {
    if v != [] {
      var n := |v| - 1;
      var w := v[..n];
      PairsZero(w);
      AroundZero(w, v[n]);
      assert forall i :: 0 <= i < n ==> w[i] == v[i];
      if Pairs(v) == 0 {
        assert forall i :: 0 <= i < n ==> v[i] == v[n];
      }
    }
  }

  lemma {:induction false} AroundZero(v: seq<int>, a: int)
    ensures Around(v, a) == 0 <==> forall i :: 0 <= i < |v| ==> v[i] == a
  {
    if v != [] {
      var n := |v| - 1;
      AroundZero(v[..n], a);
      SquareZero(v[n] - a);
      assert forall i :: 0 <= i < n ==> v[..n][i] == v[i];
    }
  }

  lemma SquareZero(a: int)
    ensures Squared(a) == 0 <==> a == 0
  {
  }

  lemma Determinants(ps: seq<Point>)
    ensures DetX(SumsOf(ps)) == Pairs(Xs(ps)) >= 0 && DetY(SumsOf(ps)) == Pairs(Ys(ps)) >= 0
  {
    SumsAre(ps);
    DeterminantIsPairs(Xs(ps));
    DeterminantIsPairs(Ys(ps));
  }

  /** There is no line exactly when all points coincide, in particular when there are none. */
  lemma NoLineIffCoincident(ps: seq<Point>)
    ensures LineOf(SumsOf(ps)).NoLine? <==> forall i, j :: 0 <= i < |ps| && 0 <= j < |ps| ==> ps[i] == ps[j]
  {
    Determinants(ps);
    PairsZero(Xs(ps));
    PairsZero(Ys(ps));
    var xs, ys := Xs(ps), Ys(ps);
    if LineOf(SumsOf(ps)).NoLine? {
      forall i, j | 0 <= i < |ps| && 0 <= j < |ps|
        ensures ps[i] == ps[j]
      {
        assert xs[i] == xs[j] && ys[i] == ys[j];
      }
    }
  }

  /** A line is never degenerate: it is scaled so that the coefficient of the fitted coordinate is minus
      the spread of the other one, of which the greater is taken. */
  lemma NonDegenerate(ps: seq<Point>)
    ensures var l, x, y := LineOf(SumsOf(ps)), Pairs(Xs(ps)), Pairs(Ys(ps));
            l.Line? ==> if x > y then l.b == -x < 0 else l.a == -y < 0
  {
    Determinants(ps);
  }

  // ---------------------------------------------------------------- normal equations

  predicate NormalY(s: Sums, l: Line)
    requires l.Line?
  {
    && l.a * s.x2 + l.b * s.xy + l.c * s.x == 0
    && l.a * s.x + l.b * s.y + l.c * s.n == 0
  }

  predicate NormalX(s: Sums, l: Line)
    requires l.Line?
  {
    && l.a * s.xy + l.b * s.y2 + l.c * s.y == 0
    && l.a * s.x + l.b * s.y + l.c * s.n == 0
  }

  /** The line solves the normal equations of the regression it chose: of y on x when x is spread
      more, of x on y otherwise. */
  lemma NormalEquations(s: Sums)
    ensures var l := LineOf(s); l.Line? ==> if DetX(s) > DetY(s) then NormalY(s, l) else NormalX(s, l)
  {
    if DetX(s) > DetY(s) {
      SolvesNormal(s.x2, s.xy, s.x, s.y, s.n);
    } else {
      SolvesNormal(s.y2, s.xy, s.y, s.x, s.n);
    }
  }

  lemma SolvesNormal(x2: int, xy: int, x: int, y: int, n: int)
    ensures var a, b, c := n * xy - x * y, -(x2 * n - x * x), x2 * y - x * xy;
            a * x2 + b * xy + c * x == 0 && a * x + b * y + c * n == 0
  {
  }

  // ---------------------------------------------------------------- optimality

  /** How far below p the line y = m * x + q passes. */
  function Residual(p: Point, m: real, q: real): real {
    p.y as real - m * p.x as real - q
  }

  /** The sum of the squared y-errors of a line. */
  function Error(ps: seq<Point>, m: real, q: real): (e: real)
    ensures e >= 0.0
  {
    if ps == [] then 0.0 else Error(ps[..|ps| - 1], m, q) + Square(Residual(ps[|ps| - 1], m, q))
  }

  function Deviation(p: Point, u: real, v: real): real {
    u * p.x as real + v
  }

  /** The sum of the squared values of u * x + v, and of its products with the residuals. */
  function Spread(ps: seq<Point>, u: real, v: real): (e: real)
    ensures e >= 0.0
  {
    if ps == [] then 0.0 else Spread(ps[..|ps| - 1], u, v) + Square(Deviation(ps[|ps| - 1], u, v))
  }

  function Correlation(ps: seq<Point>, m: real, q: real, u: real, v: real): real {
    if ps == [] then 0.0
    else Correlation(ps[..|ps| - 1], m, q, u, v) + Times(Residual(ps[|ps| - 1], m, q), Deviation(ps[|ps| - 1], u, v))
  }

  lemma {:induction false} ErrorOfOther(ps: seq<Point>, m: real, q: real, u: real, v: real)
    ensures Error(ps, m + u, q + v) == Error(ps, m, q) - 2.0 * Correlation(ps, m, q, u, v) + Spread(ps, u, v)
  {
    if ps != [] {
      var n := |ps| - 1;
      ErrorOfOther(ps[..n], m, q, u, v);
      SquareOfOther(ps[n], m, q, u, v);
    }
  }

  lemma ResidualOfOther(p: Point, m: real, q: real, u: real, v: real)
    ensures Residual(p, m + u, q + v) == Residual(p, m, q) - Deviation(p, u, v)
  {
  }

  lemma SquareOfOther(p: Point, m: real, q: real, u: real, v: real)
    ensures var r, d := Residual(p, m, q), Deviation(p, u, v);
            Square(Residual(p, m + u, q + v)) == Square(r) - 2.0 * Times(r, d) + Square(d)
  {
    ResidualOfOther(p, m, q, u, v);
    SquareOfDifference(Residual(p, m, q), Deviation(p, u, v), Residual(p, m + u, q + v));
  }

  lemma SquareOfDifference(a: real, b: real, d: real)
    requires d == a - b
    ensures Square(d) == Square(a) - 2.0 * Times(a, b) + Square(b)
  {
  }

  /** What the normal equations of the regression of y on x say is zero. */
  function NormalSlope(s: Sums, m: real, q: real): real {
    s.xy as real - m * s.x2 as real - q * s.x as real
  }

  function NormalOffset(s: Sums, m: real, q: real): real {
    s.y as real - m * s.x as real - q * s.n as real
  }

  lemma {:induction false} CorrelationIs(ps: seq<Point>, m: real, q: real, u: real, v: real)
    ensures Correlation(ps, m, q, u, v)
            == Times(u, NormalSlope(SumsOf(ps), m, q)) + Times(v, NormalOffset(SumsOf(ps), m, q))
  {
    if ps != [] {
      var n := |ps| - 1;
      var s, p := SumsOf(ps[..n]), ps[n];
      CorrelationIs(ps[..n], m, q, u, v);
      NormalStep(s, p, m, q);
      CorrelationStep(Residual(p, m, q), p.x as real, u, v, NormalSlope(s, m, q), NormalOffset(s, m, q));
    }
  }

  lemma NormalStep(s: Sums, p: Point, m: real, q: real)
    ensures NormalSlope(Plus(s, Moments(p)), m, q) == NormalSlope(s, m, q) + Times(p.x as real, Residual(p, m, q))
    ensures NormalOffset(Plus(s, Moments(p)), m, q) == NormalOffset(s, m, q) + Residual(p, m, q)
  {
    RealProduct(p.x, p.x);
    RealProduct(p.x, p.y);
  }

  lemma RealProduct(a: int, b: int)
    ensures (a * b) as real == a as real * b as real
  {
  }

  lemma CorrelationStep(r: real, x: real, u: real, v: real, a: real, b: real)
    ensures Times(u, a) + Times(v, b) + Times(r, u * x + v) == Times(u, a + Times(x, r)) + Times(v, b + r)
  {
  }

  /** A line that satisfies both normal equations has the least sum of squared y-errors of all real
      lines y = m * x + q. */
  lemma NormalIsBest(ps: seq<Point>, m: real, q: real, m': real, q': real)
    requires NormalSlope(SumsOf(ps), m, q) == 0.0 && NormalOffset(SumsOf(ps), m, q) == 0.0
    ensures Error(ps, m, q) <= Error(ps, m', q')
  {
    var u, v := m' - m, q' - q;
    assert m + u == m' && q + v == q';
    ErrorOfOther(ps, m, q, u, v);
    CorrelationIs(ps, m, q, u, v);
  }

  lemma DividedNormal(s: Sums, l: Line, a: real, b: real, c: real, m: real, q: real)
    requires l.Line? && NormalY(s, l) && l.b != 0 && a == l.a as real && b == l.b as real && c == l.c as real
    requires m * b == -a && q * b == -c
    ensures NormalSlope(s, m, q) == 0.0 && NormalOffset(s, m, q) == 0.0
  {
    HomogeneousReal(l.a, s.x2, l.b, s.xy, l.c, s.x);
    HomogeneousReal(l.a, s.x, l.b, s.y, l.c, s.n);
    DividedEquation(a, b, c, m, q, s.x2 as real, s.xy as real, s.x as real);
    DividedEquation(a, b, c, m, q, s.x as real, s.y as real, s.n as real);
  }

  lemma HomogeneousReal(a: int, x: int, b: int, y: int, c: int, z: int)
    requires a * x + b * y + c * z == 0
    ensures a as real * x as real + b as real * y as real + c as real * z as real == 0.0
  {
    RealProduct(a, x);
    RealProduct(b, y);
    RealProduct(c, z);
  }

  lemma DividedEquation(a: real, b: real, c: real, m: real, q: real, x: real, y: real, z: real)
    requires b != 0.0 && m * b == -a && q * b == -c && a * x + b * y + c * z == 0.0
    ensures y - m * x - q * z == 0.0
  {
    assert b * (y - m * x - q * z) == b * y - (m * b) * x - (q * b) * z;
  }

  // ---------------------------------------------------------------- both regressions

  function Swap(p: Point): Point {
    Point(p.y, p.x)
  }

  function Swapped(ps: seq<Point>): (r: seq<Point>)
    ensures |r| == |ps|
  {
    seq(|ps|, i requires 0 <= i < |ps| => Swap(ps[i]))
  }

  lemma {:induction false} SumsOfSwapped(ps: seq<Point>)
    ensures var s := SumsOf(ps); SumsOf(Swapped(ps)) == Sums(s.y2, s.x2, s.xy, s.y, s.x, s.n)
  {
    if ps != [] {
      var n := |ps| - 1;
      SumsOfSwapped(ps[..n]);
      assert Swapped(ps)[..n] == Swapped(ps[..n]);
    }
  }

  /** The fitted line as y = m * x + q, or, on swapped points, as x = m * y + q. */
  lemma FittedLine(ps: seq<Point>, l: Line, m: real, q: real)
    requires l.Line? && l.b != 0 && NormalY(SumsOf(ps), l) && m == -(l.a as real) / l.b as real
              && q == -(l.c as real) / l.b as real
    ensures forall m': real, q': real :: Error(ps, m, q) <= Error(ps, m', q')
  {
    var a, b, c := l.a as real, l.b as real, l.c as real;
    assert m * b == -a && q * b == -c;
    DividedNormal(SumsOf(ps), l, a, b, c, m, q);
    forall m': real, q': real
      ensures Error(ps, m, q) <= Error(ps, m', q')
    {
      NormalIsBest(ps, m, q, m', q');
    }
  }

  /** The line is optimal: of all lines y = m * x + q it has the least squared y-errors when x is
      spread more than y, and of all lines x = m * y + q the least squared x-errors otherwise. */
  lemma LeastSquaresOptimal(ps: seq<Point>)
    ensures var s := SumsOf(ps);
            var l := LineOf(s);
            l.Line? ==>
              if DetX(s) > DetY(s)
              then l.b != 0 && forall m: real, q: real ::
                     Error(ps, -(l.a as real) / l.b as real, -(l.c as real) / l.b as real) <= Error(ps, m, q)
              else l.a != 0 && forall m: real, q: real ::
                     Error(Swapped(ps), -(l.b as real) / l.a as real, -(l.c as real) / l.a as real)
                      <= Error(Swapped(ps), m, q)
  {
    var s := SumsOf(ps);
    var l := LineOf(s);
    Determinants(ps);
    if l.Line? {
      NormalEquations(s);
      if DetX(s) > DetY(s) {
        FittedLine(ps, l, -(l.a as real) / l.b as real, -(l.c as real) / l.b as real);
      } else {
        SumsOfSwapped(ps);
        var k := Line(l.b, l.a, l.c);
        SwappedNormal(s, l, SumsOf(Swapped(ps)), k);
        FittedLine(Swapped(ps), k, -(k.a as real) / k.b as real, -(k.c as real) / k.b as real);
      }
    }
  }

  lemma SwappedNormal(s: Sums, l: Line, r: Sums, k: Line)
    requires l.Line? && NormalX(s, l) && r == Sums(s.y2, s.x2, s.xy, s.y, s.x, s.n) && k == Line(l.b, l.a, l.c)
    ensures NormalY(r, k)
  {
  }

  // ---------------------------------------------------------------- machine integers

  predicate Int32(a: int) { -0x8000_0000 <= a < 0x8000_0000 }

  predicate Int64(a: int) { -0x8000_0000_0000_0000 <= a < 0x8000_0000_0000_0000 }

  predicate Fits32(s: Sums) {
    Int32(s.x2) && Int32(s.y2) && Int32(s.xy) && Int32(s.x) && Int32(s.y) && Int32(s.n)
  }

  /** a * b, c * d, their difference and its negation. */
  predicate ProductsFit(a: int, b: int, c: int, d: int) {
    Int64(a * b) && Int64(c * d) && Int64(a * b - c * d) && Int64(-(a * b - c * d))
  }

  lemma TimesMonotone(a: int, b: int, c: int)
    requires b <= c
    ensures a >= 0 ==> a * b <= a * c
    ensures a <= 0 ==> a * c <= a * b
  {
  }

  lemma ProductBound(a: int, b: int)
    requires Int32(a) && Int32(b)
    ensures -0x8000_0000 * 0x7fff_ffff <= a * b <= 0x8000_0000 * 0x8000_0000
  {
    TimesMonotone(a, -0x8000_0000, b);
    TimesMonotone(a, b, 0x7fff_ffff);
  }

  lemma DifferenceFits(a: int, b: int, c: int, d: int)
    requires Int32(a) && Int32(b) && Int32(c) && Int32(d)
    ensures ProductsFit(a, b, c, d)
  {
    ProductBound(a, b);
    ProductBound(c, d);
  }

  /** As long as the running sums fit 32 bits, whatever they are, nothing computed from them in 64
      bits overflows. */
  lemma NoOverflow(s: Sums)
    requires Fits32(s)
    ensures ProductsFit(s.x2, s.n, s.x, s.x) && ProductsFit(s.y2, s.n, s.y, s.y)
    ensures ProductsFit(s.n, s.xy, s.x, s.y) && ProductsFit(s.n, s.xy, s.y, s.x)
    ensures ProductsFit(s.x2, s.y, s.x, s.xy) && ProductsFit(s.y2, s.x, s.y, s.xy)
  {
    DifferenceFits(s.x2, s.n, s.x, s.x);
    DifferenceFits(s.y2, s.n, s.y, s.y);
    DifferenceFits(s.n, s.xy, s.x, s.y);
    DifferenceFits(s.n, s.xy, s.y, s.x);
    DifferenceFits(s.x2, s.y, s.x, s.xy);
    DifferenceFits(s.y2, s.x, s.y, s.xy);
  }
}
