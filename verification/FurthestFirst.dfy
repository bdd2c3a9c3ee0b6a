/** Seeding of the clustering (Cluster.cpp): squared distance, and the choice of the first
    centroids, each one the point furthest from those chosen before. */
module FurthestFirst {
  import opened RealSums

  type Point = seq<real>

  /** numeric_limits<float>::max(), where the search for a minimum starts. */
  const FAR := 340282346638528859811704183484516925440.0

  // ---------------------------------------------------------------- squared distance

  /** The sum over the first n coordinates. */
  function DistUpTo(x: Point, y: Point, n: nat): (d: real)
    requires n <= |x| && n <= |y|
    ensures d >= 0.0
  {
    if n == 0 then 0.0 else DistUpTo(x, y, n - 1) + Square(x[n - 1] - y[n - 1])
  }

  function Dist(x: Point, y: Point): (d: real)
    requires |x| <= |y|
    ensures d >= 0.0
  {
    DistUpTo(x, y, |x|)
  }

  method Distance(x: Point, y: Point) returns (total: real)
    requires |x| <= |y|
    ensures total == Dist(x, y)
  {
    total := 0.0;
    var i := 0;
    while i != |x|
      invariant 0 <= i <= |x|
      invariant total == DistUpTo(x, y, i)
      decreases |x| - i
    {
      var diff := x[i] - y[i];
      total := total + diff * diff;
      i := i + 1;
    }
  }

  lemma {:induction false} DistSymmetric(x: Point, y: Point, n: nat)
    requires n <= |x| && n <= |y|
    ensures DistUpTo(x, y, n) == DistUpTo(y, x, n)
  {
    if n > 0 {
      DistSymmetric(x, y, n - 1);
      SquareOfNegated(x[n - 1] - y[n - 1], y[n - 1] - x[n - 1]);
    }
  }

  lemma SquareOfNegated(a: real, b: real)
    requires a == -b
    ensures Square(a) == Square(b)
  {
  }

  lemma DistToSelf(x: Point, n: nat)
    requires n <= |x|
    ensures DistUpTo(x, x, n) == 0.0
  {
  }

  /** What takes the place of the triangle inequality for squared distances. */
  lemma {:induction false} DistRelaxed(x: Point, y: Point, z: Point, n: nat)
    requires n <= |x| && n <= |y| && n <= |z|
    ensures DistUpTo(x, y, n) <= 2.0 * DistUpTo(x, z, n) + 2.0 * DistUpTo(z, y, n)
  {
    if n > 0 {
      DistRelaxed(x, y, z, n - 1);
      SquareRelaxed(x[n - 1] - z[n - 1], z[n - 1] - y[n - 1], x[n - 1] - y[n - 1]);
    }
  }

  lemma SquareRelaxed(a: real, b: real, c: real)
    requires c == a + b
    ensures Square(c) <= 2.0 * Square(a) + 2.0 * Square(b)
  {
    assert 2.0 * Square(a) + 2.0 * Square(b) - Square(a + b) == Square(a - b);
  }

  // ---------------------------------------------------------------- nearest centre

  /** All points have dimension dim. */
  predicate InSpace(ps: seq<Point>, dim: nat) {
    forall i :: 0 <= i < |ps| ==> |ps[i]| == dim
  }

  /** The distance of p to the nearest of the centres, FAR at most. */
  function Nearest(p: Point, centres: seq<Point>): (m: real)
    requires InSpace(centres, |p|)
    ensures 0.0 <= m <= FAR
  {
    if centres == [] then FAR else
    var n := |centres| - 1;
    var m := Nearest(p, centres[..n]);
    var d := Dist(centres[n], p);
    if d < m then d else m
  }

  /** It is at most every distance, and one of them or FAR. */
  lemma {:induction false} NearestIs(p: Point, centres: seq<Point>)
    requires InSpace(centres, |p|)
    ensures forall i :: 0 <= i < |centres| ==> Nearest(p, centres) <= Dist(centres[i], p)
    ensures Nearest(p, centres) == FAR || exists i :: 0 <= i < |centres| && Nearest(p, centres) == Dist(centres[i], p)
  {
    if centres != [] {
      var n := |centres| - 1;
      NearestIs(p, centres[..n]);
      assert forall i :: 0 <= i < n ==> centres[i] == centres[..n][i];
    }
  }

  lemma NearestGrows(p: Point, centres: seq<Point>, n: nat)
    requires InSpace(centres, |p|) && n <= |centres|
    ensures Nearest(p, centres) <= Nearest(p, centres[..n])
  {
    NearestIs(p, centres);
    NearestIs(p, centres[..n]);
    if Nearest(p, centres[..n]) != FAR {
      var i :| 0 <= i < n && Nearest(p, centres[..n]) == Dist(centres[..n][i], p);
      assert centres[..n][i] == centres[i];
    }
  }

  method NearestOf(p: Point, centres: seq<Point>) returns (min: real)
    requires InSpace(centres, |p|)
    ensures min == Nearest(p, centres)
  {
    min := FAR;
    for i := 0 to |centres|
      invariant min == Nearest(p, centres[..i])
    {
      var d := Distance(centres[i], p);
      assert centres[..i + 1][..i] == centres[..i];
      if d < min {
        min := d;
      }
    }
    assert centres[..|centres|] == centres;
  }

  /** The first of the first n points that none of them is further from the centres than. */
  function Furthest(subset: seq<Point>, centres: seq<Point>, n: nat, dim: nat): (best: nat)
    requires InSpace(subset, dim) && InSpace(centres, dim) && 0 < n <= |subset|
    ensures best < n
  {
    if n == 1 then 0 else
    var best := Furthest(subset, centres, n - 1, dim);
    if Nearest(subset[n - 1], centres) > Nearest(subset[best], centres) then n - 1 else best
  }

  /** The index of a point that is furthest from the centres. */
  method FurthestIndex(subset: seq<Point>, centres: seq<Point>, ghost dim: nat) returns (best: nat)
    requires InSpace(subset, dim) && InSpace(centres, dim) && subset != []
    ensures best < |subset|
    ensures forall k :: 0 <= k < |subset| ==> Nearest(subset[k], centres) <= Nearest(subset[best], centres)
    ensures forall k :: 0 <= k < best ==> Nearest(subset[k], centres) < Nearest(subset[best], centres)
    ensures best == Furthest(subset, centres, |subset|, dim)
  {
    var furthest := 0.0;
    best := 0;
    for k := 0 to |subset|
      invariant best < |subset| && (k == 0 ==> best == 0 && furthest == 0.0)
      invariant k > 0 ==> best == Furthest(subset, centres, k, dim) && furthest == Nearest(subset[best], centres)
      invariant forall j :: 0 <= j < k ==> Nearest(subset[j], centres) <= furthest
      invariant forall j :: 0 <= j < best ==> Nearest(subset[j], centres) < furthest
    {
      var min := NearestOf(subset[k], centres);
      if min > furthest {
        furthest := min;
        best := k;
      }
    }
  }

  // ---------------------------------------------------------------- choosing the centres

  /** No point of rest, and no later pick, was further from the first j picks than pick j. */
  ghost predicate PickedFurthest(picks: seq<Point>, rest: seq<Point>, dim: nat, j: nat)
    requires InSpace(picks, dim) && InSpace(rest, dim) && j < |picks|
  {
    var far := Nearest(picks[j], picks[..j]);
    && (forall i :: 0 <= i < |rest| ==> Nearest(rest[i], picks[..j]) <= far)
    && (forall i :: j < i < |picks| ==> Nearest(picks[i], picks[..j]) <= far)
  }

  /** The picks and the rest are the subset, and the picks were made furthest first. */
  ghost predicate FurthestFirstPicks(subset: seq<Point>, picks: seq<Point>, rest: seq<Point>, dim: nat) {
    && InSpace(subset, dim) && InSpace(picks, dim) && InSpace(rest, dim)
    && multiset(picks) + multiset(rest) == multiset(subset)
    && forall j :: 0 < j < |picks| ==> PickedFurthest(picks, rest, dim, j)
  }

  /** What further picks, each the first one that is furthest, make of the picks and the rest. */
  function Picked(picks: seq<Point>, rest: seq<Point>, k: nat, dim: nat): (r: seq<Point>)
    requires InSpace(picks, dim) && InSpace(rest, dim) && |picks| <= k <= |picks| + |rest|
    ensures |r| == k && InSpace(r, dim)
    decreases |rest|
  {
    if |picks| == k then picks else
    var best := Furthest(rest, picks, |rest|, dim);
    Picked(picks + [rest[best]], rest[..best] + rest[best + 1..], k, dim)
  }

  /** The centroids that the subset decides. */
  function Seeds(subset: seq<Point>, k: nat, dim: nat): (r: seq<Point>)
    requires 1 <= k <= |subset| && InSpace(subset, dim)
    ensures |r| == k && InSpace(r, dim)
  {
    var n := |subset| - 1;
    Picked([subset[n]], subset[..n], k, dim)
  }

  /** The selection loop: the last point of the subset first, then k - 1 times the furthest. */
  method ChooseCentres(points: seq<Point>, k: nat, ghost dim: nat) returns (centroids: seq<Point>, subset: seq<Point>)
    requires 1 <= k <= |points| && InSpace(points, dim)
    ensures |centroids| == k && centroids[0] == points[|points| - 1]
    ensures FurthestFirstPicks(points, centroids, subset, dim)
    ensures centroids == Seeds(points, k, dim)
  {
    subset := points;
    centroids := [subset[|subset| - 1]];
    RemoveLast(subset);
    subset := subset[..|subset| - 1];
    while |centroids| < k
      invariant 1 <= |centroids| <= k && |centroids| + |subset| == |points|
      invariant centroids[0] == points[|points| - 1]
      invariant FurthestFirstPicks(points, centroids, subset, dim)
      invariant Picked(centroids, subset, k, dim) == Seeds(points, k, dim)
    {
      var best := FurthestIndex(subset, centroids, dim);
      PickKeeps(points, centroids, subset, dim, best);
      centroids := centroids + [subset[best]];
      subset := subset[..best] + subset[best + 1..];
    }
  }

  lemma RemoveLast(s: seq<Point>)
    requires s != []
    ensures multiset([s[|s| - 1]]) + multiset(s[..|s| - 1]) == multiset(s)
  {
    assert s == s[..|s| - 1] + [s[|s| - 1]];
  }

  lemma RemoveAt(s: seq<Point>, b: nat)
    requires b < |s|
    ensures multiset([s[b]]) + multiset(s[..b] + s[b + 1..]) == multiset(s)
  {
    assert s == s[..b] + [s[b]] + s[b + 1..];
  }

  /** Picking a furthest point next keeps the order. */
  lemma PickKeeps(points: seq<Point>, picks: seq<Point>, rest: seq<Point>, dim: nat, b: nat)
    requires FurthestFirstPicks(points, picks, rest, dim) && b < |rest| && picks != []
    requires forall k :: 0 <= k < |rest| ==> Nearest(rest[k], picks) <= Nearest(rest[b], picks)
    ensures FurthestFirstPicks(points, picks + [rest[b]], rest[..b] + rest[b + 1..], dim)
  {
    var picks', rest' := picks + [rest[b]], rest[..b] + rest[b + 1..];
    PickMoves(points, picks, rest, b);
    assert IsWithout(rest', rest, b);
    forall j | 0 < j < |picks'|
      ensures PickedFurthest(picks', rest', dim, j)
    {
      if j < |picks| {
        assert PickedFurthest(picks, rest, dim, j);
        OldPickStays(picks, rest, picks', rest', dim, b, j);
      } else {
        NewPick(picks, rest, picks', rest', dim, b);
      }
    }
  }

  predicate IsWithout(s: seq<Point>, t: seq<Point>, b: nat) {
    |s| < |t| && forall i :: 0 <= i < |s| ==> s[i] == t[if i < b then i else i + 1]
  }

  lemma PickMoves(points: seq<Point>, picks: seq<Point>, rest: seq<Point>, b: nat)
    requires multiset(picks) + multiset(rest) == multiset(points) && b < |rest|
    ensures multiset(picks + [rest[b]]) + multiset(rest[..b] + rest[b + 1..]) == multiset(points)
  {
    RemoveAt(rest, b);
    assert multiset(picks + [rest[b]]) == multiset(picks) + multiset([rest[b]]);
  }

  lemma OldPickStays(picks: seq<Point>, rest: seq<Point>, picks': seq<Point>, rest': seq<Point>,
                     dim: nat, b: nat, j: nat)
    requires InSpace(picks, dim) && InSpace(rest, dim) && InSpace(picks', dim) && InSpace(rest', dim)
    requires b < |rest| && 0 < j < |picks| && PickedFurthest(picks, rest, dim, j)
    requires picks' == picks + [rest[b]] && IsWithout(rest', rest, b)
    ensures PickedFurthest(picks', rest', dim, j)
  {
    assert picks'[..j] == picks[..j];
  }

  lemma NewPick(picks: seq<Point>, rest: seq<Point>, picks': seq<Point>, rest': seq<Point>, dim: nat, b: nat)
    requires InSpace(picks, dim) && InSpace(rest, dim) && InSpace(picks', dim) && InSpace(rest', dim)
    requires b < |rest| && forall k :: 0 <= k < |rest| ==> Nearest(rest[k], picks) <= Nearest(rest[b], picks)
    requires picks' == picks + [rest[b]] && IsWithout(rest', rest, b)
    ensures PickedFurthest(picks', rest', dim, |picks|)
  {
    assert picks'[..|picks|] == picks;
  }

  // ---------------------------------------------------------------- the approximation

  /** Later picks are at least as far from earlier ones as any remaining point is from all. */
  lemma PicksApart(points: seq<Point>, picks: seq<Point>, rest: seq<Point>, dim: nat, i: nat, j: nat, r: nat)
    requires FurthestFirstPicks(points, picks, rest, dim) && i < j < |picks| && r < |rest|
    ensures Nearest(rest[r], picks) <= Dist(picks[i], picks[j])
  {
    assert PickedFurthest(picks, rest, dim, j);
    NearestGrows(rest[r], picks, j);
    NearestIs(picks[j], picks[..j]);
    assert picks[..j][i] == picks[i];
  }

  /** Among k + 1 things in k places two are in the same place. */
  lemma {:induction false} Pigeonhole(f: seq<nat>, k: nat) returns (i: nat, j: nat)
    requires |f| == k + 1 && forall x :: 0 <= x <= k ==> f[x] < k
    ensures i < j <= k && f[i] == f[j]
    decreases k
  {
    if x :| 0 <= x < k && f[x] == f[k] {
      i, j := x, k;
    } else {
      // move whatever is in the last place to the place of the last thing
      var g := seq(k, x requires 0 <= x < k => if f[x] == k - 1 then f[k] else f[x]);
      i, j := Pigeonhole(g, k - 1);
    }
  }

  /** The point is within squared distance rho of one of the centres. */
  ghost predicate Covered(p: Point, centres: seq<Point>, rho: real)
    requires InSpace(centres, |p|)
  {
    exists c :: 0 <= c < |centres| && Dist(p, centres[c]) <= rho
  }

  ghost predicate Covers(centres: seq<Point>, points: seq<Point>, rho: real, dim: nat)
    requires InSpace(centres, dim) && InSpace(points, dim)
  {
    forall i :: 0 <= i < |points| ==> Covered(points[i], centres, rho)
  }

  lemma CoverOf(centres: seq<Point>, points: seq<Point>, rho: real, dim: nat, p: Point) returns (c: nat)
    requires InSpace(centres, dim) && InSpace(points, dim) && Covers(centres, points, rho, dim) && p in points
    ensures |p| == dim && c < |centres| && Dist(p, centres[c]) <= rho
  {
    var i :| 0 <= i < |points| && points[i] == p;
    assert Covered(points[i], centres, rho);
    c :| 0 <= c < |centres| && Dist(p, centres[c]) <= rho;
  }

  lemma SameCentre(x: Point, y: Point, c: Point, rho: real)
    requires |x| == |y| == |c| && Dist(x, c) <= rho && Dist(y, c) <= rho
    ensures Dist(x, y) <= 4.0 * rho
  {
    DistRelaxed(x, y, c, |x|);
    DistSymmetric(y, c, |x|);
  }

  /** Whatever k centres cover the points within rho, any k picks made furthest first cover them within
      4 * rho. */
  ghost predicate FourApproximates(k: nat, dim: nat, rho: real) {
    forall points, picks, rest, centres ::
      (FurthestFirstPicks(points, picks, rest, dim) && |picks| == k
       && InSpace(centres, dim) && |centres| == k && Covers(centres, points, rho, dim))
      ==> Covers(picks, points, 4.0 * rho, dim)
  }

  /** The space has points that the search for a minimum cannot tell apart, although one centre covers
      both within rho. */
  ghost predicate FarWithin(dim: nat, rho: real) {
    exists x: Point, y: Point :: |x| == |y| == dim && FAR <= Dist(x, y) <= 4.0 * rho
  }

  /** Seeding is a 4-approximation, if and only if there is but one centre or no two points as far
      apart as FAR lie within rho of one centre. */
  lemma FourApproximation(k: nat, dim: nat, rho: real)
    requires k > 0
    ensures FourApproximates(k, dim, rho) <==> k == 1 || !FarWithin(dim, rho)
  {
    if k == 1 || !FarWithin(dim, rho) {
      forall points, picks, rest, centres | FurthestFirstPicks(points, picks, rest, dim) && |picks| == k
                                            && InSpace(centres, dim) && |centres| == k
                                            && Covers(centres, points, rho, dim)
        ensures Covers(picks, points, 4.0 * rho, dim)
      {
        PicksCover(points, picks, rest, dim, centres, rho);
      }
    } else {
      var x: Point, y: Point :| |x| == |y| == dim && FAR <= Dist(x, y) <= 4.0 * rho;
      var points, picks, rest, centres := FarPoints(x, y, k, rho);
    }
  }

  lemma PicksCover(points: seq<Point>, picks: seq<Point>, rest: seq<Point>, dim: nat, centres: seq<Point>, rho: real)
    requires FurthestFirstPicks(points, picks, rest, dim) && picks != []
    requires InSpace(centres, dim) && |centres| == |picks| && Covers(centres, points, rho, dim)
    requires |picks| == 1 || !FarWithin(dim, rho)
    ensures Covers(picks, points, 4.0 * rho, dim)
  {
    forall i | 0 <= i < |points|
      ensures Covered(points[i], picks, 4.0 * rho)
    {
      var p := points[i];
      assert p in multiset(points);
      var c0 := CoverOf(centres, points, rho, dim, p);
      if p in picks {
        var c :| 0 <= c < |picks| && picks[c] == p;
        DistToSelf(p, dim);
      } else {
        var r :| 0 <= r < |rest| && rest[r] == p;
        var c := RestCovered(points, picks, rest, dim, centres, rho, r);
      }
    }
  }

  lemma RestCovered(points: seq<Point>, picks: seq<Point>, rest: seq<Point>, dim: nat, centres: seq<Point>,
          rho: real, r: nat) returns (c: nat)
    requires FurthestFirstPicks(points, picks, rest, dim) && picks != [] && r < |rest|
    requires InSpace(centres, dim) && |centres| == |picks| && Covers(centres, points, rho, dim)
    requires |picks| == 1 || !FarWithin(dim, rho)
    ensures c < |picks| && Dist(rest[r], picks[c]) <= 4.0 * rho
  {
    var k := |picks|;
    var all := picks + [rest[r]];
    var f := Assigned(points, picks, rest, dim, centres, rho, all);
    var i, j := Pigeonhole(f, k);
    SameCentre(all[i], all[j], centres[f[i]], rho);
    if j < k {
      assert Dist(picks[i], picks[j]) < FAR;
      PicksApart(points, picks, rest, dim, i, j, r);
      NearestIs(rest[r], picks);
      c :| 0 <= c < k && Nearest(rest[r], picks) == Dist(picks[c], rest[r]);
    } else {
      c := i;
    }
    DistSymmetric(picks[c], rest[r], dim);
  }

  /** A covering centre for each point of a list. */
  lemma {:induction false} Assigned(points: seq<Point>, picks: seq<Point>, rest: seq<Point>, dim: nat,
          centres: seq<Point>, rho: real, all: seq<Point>)
    returns (f: seq<nat>)
    requires FurthestFirstPicks(points, picks, rest, dim)
    requires InSpace(centres, dim) && Covers(centres, points, rho, dim)
    requires forall i :: 0 <= i < |all| ==> all[i] in picks || all[i] in rest
    ensures |f| == |all|
    ensures forall i :: 0 <= i < |all| ==> f[i] < |centres| && |all[i]| == dim && Dist(all[i], centres[f[i]]) <= rho
  {
    if all == [] {
      f := [];
    } else {
      var n := |all| - 1;
      f := Assigned(points, picks, rest, dim, centres, rho, all[..n]);
      assert all[n] in multiset(points);
      var c := CoverOf(centres, points, rho, dim, all[n]);
      assert forall i :: 0 <= i < n ==> all[..n][i] == all[i];
      f := f + [c];
    }
  }

  // ---------------------------------------------------------------- far points

  /** The point at t on the line through x and y. */
  function OnLine(x: Point, y: Point, t: real): (p: Point)
    requires |x| == |y|
    ensures |p| == |x|
  {
    seq(|x|, i requires 0 <= i < |x| => Between(x[i], y[i], t))
  }

  lemma {:induction false} LineDist(x: Point, y: Point, s: real, t: real, n: nat)
    requires n <= |x| == |y|
    ensures DistUpTo(OnLine(x, y, s), OnLine(x, y, t), n) == Square(s - t) * DistUpTo(x, y, n)
  {
    if n > 0 {
      LineDist(x, y, s, t, n - 1);
      LineStep(x[n - 1], y[n - 1], s, t, DistUpTo(x, y, n - 1));
    }
  }

  function Between(x: real, y: real, t: real): real {
    x + t * (y - x)
  }

  lemma LineStep(x: real, y: real, s: real, t: real, d: real)
    ensures Square(s - t) * d + Square(Between(x, y, s) - Between(x, y, t)) == Square(s - t) * (d + Square(x - y))
  {
    LineSquare(x, y, s, t, Between(x, y, s), Between(x, y, t));
    Distribute(Square(s - t), d, Square(x - y), d + Square(x - y));
  }

  lemma Distribute(a: real, b: real, c: real, d: real)
    requires d == b + c
    ensures a * d == a * b + a * c
  {
  }

  lemma LineSquare(x: real, y: real, s: real, t: real, p: real, q: real)
    requires p == x + s * (y - x) && q == x + t * (y - x)
    ensures Square(p - q) == Square(s - t) * Square(x - y)
  {
    var a, b := s - t, x - y;
    Distribute(y - x, -t, s, a);
    assert p - q == -(a * b);
    assert Square(p - q) == (a * b) * (a * b);
    assert (a * b) * (a * b) == (a * a) * (b * b);
  }

  /** Points at least FAR apart. */
  ghost predicate FarApart(ps: seq<Point>, dim: nat) {
    InSpace(ps, dim) && forall i, j :: 0 <= i < j < |ps| ==> Dist(ps[i], ps[j]) >= FAR
  }

  lemma NothingNear(p: Point, centres: seq<Point>)
    requires InSpace(centres, |p|) && forall i :: 0 <= i < |centres| ==> Dist(centres[i], p) >= FAR
    ensures Nearest(p, centres) == FAR
  {
    NearestIs(p, centres);
  }

  /** From points far apart any may be picked at any time. */
  lemma FarPicks(ps: seq<Point>, k: nat, dim: nat)
    requires FarApart(ps, dim) && k <= |ps|
    ensures FurthestFirstPicks(ps, ps[..k], ps[k..], dim)
  {
    assert ps == ps[..k] + ps[k..];
    forall j | 0 < j < k
      ensures PickedFurthest(ps[..k], ps[k..], dim, j)
    {
      assert ps[..k][..j] == ps[..j];
      NothingNear(ps[j], ps[..j]);
    }
  }

  /** The first k of k + 1 points on a line are picked; the last is far from all of them, while a centre
      between the first two leaves a centre for it. */
  lemma FarPoints(x: Point, y: Point, k: nat, rho: real)
    returns (points: seq<Point>, picks: seq<Point>, rest: seq<Point>, centres: seq<Point>)
    requires |x| == |y| && FAR <= Dist(x, y) <= 4.0 * rho && k >= 2
    ensures FurthestFirstPicks(points, picks, rest, |x|) && |picks| == k
    ensures InSpace(centres, |x|) && |centres| == k && Covers(centres, points, rho, |x|)
    ensures !Covers(picks, points, 4.0 * rho, |x|)
  {
    var far := k as real + 4.0 * rho;
    points := seq(k + 1, i requires 0 <= i <= k => OnLine(x, y, At(i, k, far)));
    forall i, j | 0 <= i < j <= k
      ensures Dist(points[i], points[j]) >= if j < k then FAR else FAR + 4.0 * rho
    {
      LinePointsApart(x, y, i, j, k, rho);
    }
    FarPicks(points, k, |x|);
    picks, rest := points[..k], points[k..];
    centres := [OnLine(x, y, 0.5)] + points[2..];
    CentresCover(x, y, rho, points, centres);
    forall c | 0 <= c < k
      ensures Dist(points[k], picks[c]) > 4.0 * rho
    {
      DistSymmetric(points[k], picks[c], |x|);
    }
    assert !Covered(points[k], picks, 4.0 * rho);
  }

  lemma OnLineApart(x: Point, y: Point, s: real, t: real, r: real)
    requires |x| == |y| && Dist(x, y) >= FAR && s - t <= -1.0 - r && r >= 0.0
    ensures Dist(OnLine(x, y, s), OnLine(x, y, t)) >= FAR + r
  {
    LineDist(x, y, s, t, |x|);
    Spread(s - t, r, Dist(x, y));
    assert Dist(OnLine(x, y, s), OnLine(x, y, t)) == DistUpTo(OnLine(x, y, s), OnLine(x, y, t), |x|);
  }

  lemma LinePointsApart(x: Point, y: Point, i: nat, j: nat, k: nat, rho: real)
    requires |x| == |y| && FAR <= Dist(x, y) <= 4.0 * rho && i < j <= k
    ensures var far := k as real + 4.0 * rho;
            Dist(OnLine(x, y, At(i, k, far)), OnLine(x, y, At(j, k, far))) >= if j < k then FAR else FAR + 4.0 * rho
  {
    var far := k as real + 4.0 * rho;
    OnLineApart(x, y, At(i, k, far), At(j, k, far), if j < k then 0.0 else 4.0 * rho);
  }

  function At(i: nat, k: nat, far: real): real {
    if i < k then i as real else far
  }

  /** Points that differ by one or more on the line are as far apart as x and y. */
  lemma Spread(t: real, r: real, d: real)
    requires t <= -1.0 - r && r >= 0.0 && d >= FAR
    ensures Square(t) * d >= FAR + r
  {
    assert Square(t) == Square(-t);
    SquareAtLeast(-t, r + 1.0);
    LongSquare(r);
    SmallerFactor(d, 1.0 + 2.0 * r, Square(t));
    SmallerFactor(2.0 * r, 1.0, d);
  }

  lemma SquareAtLeast(a: real, b: real)
    requires a >= b >= 0.0
    ensures Square(a) >= Square(b)
  {
    var c := a - b;
    assert b * c >= 0.0;
    assert Square(a) == Square(b) + 2.0 * (b * c) + Square(c);
  }

  lemma CentresCover(x: Point, y: Point, rho: real, points: seq<Point>, centres: seq<Point>)
    requires |x| == |y| && Dist(x, y) <= 4.0 * rho && |points| >= 2 && InSpace(points, |x|)
    requires points[0] == OnLine(x, y, 0.0) && points[1] == OnLine(x, y, 1.0)
    requires centres == [OnLine(x, y, 0.5)] + points[2..]
    ensures Covers(centres, points, rho, |x|)
  {
    forall i | 0 <= i < |points|
      ensures Covered(points[i], centres, rho)
    {
      if i >= 2 {
        assert centres[i - 1] == points[i];
        DistToSelf(points[i], |x|);
        assert Dist(points[i], centres[i - 1]) <= rho;
      } else {
        LineDist(x, y, i as real, 0.5, |x|);
        assert Dist(points[i], centres[0]) <= rho;
      }
    }
  }

  /** Below FAR / 4 there are no such points in any space, and above it there are in all but that of
      dimension 0. */
  lemma FarWithinIf(dim: nat, rho: real)
    ensures 4.0 * rho < FAR || dim == 0 ==> !FarWithin(dim, rho)
    ensures 4.0 * rho > FAR && dim > 0 ==> FarWithin(dim, rho)
  {
    if 4.0 * rho > FAR && dim > 0 {
      var l := SquareBetween(FAR, 4.0 * rho);
      var x := seq(dim, _ => 0.0);
      var y := seq(dim, i requires 0 <= i < dim => if i == 0 then l else 0.0);
      AxisDist(x, y, l, dim);
    }
  }

  lemma {:induction false} AxisDist(x: Point, y: Point, l: real, n: nat)
    requires 0 < n <= |x| == |y| && (forall i :: 0 <= i < |x| ==> x[i] == 0.0)
    requires y[0] == l && (forall i :: 0 < i < |y| ==> y[i] == 0.0)
    ensures DistUpTo(x, y, n) == Square(l)
  {
    if n == 1 {
      assert DistUpTo(x, y, 0) == 0.0;
      SquareOfNegated(0.0 - l, l);
    } else {
      AxisDist(x, y, l, n - 1);
    }
  }

  /** There is a square between any two positive numbers: steps small enough cannot miss it. */
  lemma SquareBetween(u: real, v: real) returns (l: real)
    requires 0.0 < u < v
    ensures u <= Square(l) <= v
  {
    var e := Step(u, v);
    var left: nat := ((u + 1.0) / e).Floor + 1;
    EnoughSteps(u + 1.0, e, left);
    l := SquareFrom(u, v, e, 0.0, left);
  }

  /** n steps. */
  function Steps(e: real, n: nat): real {
    if n == 0 then 0.0 else Steps(e, n - 1) + e
  }

  lemma {:induction false} StepsAre(e: real, n: nat)
    ensures Steps(e, n) == e * n as real
  {
    if n > 0 {
      StepsAre(e, n - 1);
      Distribute(e, (n - 1) as real, 1.0, n as real);
    }
  }

  ghost predicate SmallStep(u: real, v: real, e: real) {
    0.0 < e <= 1.0 && e * (2.0 * u + 3.0) <= v - u
  }

  lemma {:induction false} SquareFrom(u: real, v: real, e: real, l: real, left: nat) returns (l': real)
    requires 0.0 < u < v && SmallStep(u, v, e)
    requires l >= 0.0 && Square(l) <= v && l + Steps(e, left) >= u + 1.0
    ensures u <= Square(l') <= v
    decreases left
  {
    l' := l;
    if Square(l) < u {
      NextSquare(u, v, l, e);
      l' := SquareFrom(u, v, e, l + e, left - 1);
    }
  }

  function Step(u: real, v: real): (e: real)
    requires 0.0 < u < v
    ensures SmallStep(u, v, e)
  {
    var e := (v - u) / (2.0 * u + 3.0);
    if e <= 1.0 then e else 1.0
  }

  lemma EnoughSteps(x: real, e: real, n: nat)
    requires x >= 0.0 && e > 0.0 && n == (x / e).Floor + 1
    ensures Steps(e, n) >= x
  {
    var q := x / e;
    assert e * q == x;
    SmallerFactor(e, q, n as real);
    StepsAre(e, n);
  }

  /** Before the square passes u a step takes it past v at most. */
  lemma NextSquare(u: real, v: real, l: real, e: real)
    requires 0.0 < u < v && l >= 0.0 && Square(l) < u && SmallStep(u, v, e)
    ensures l < u + 1.0 && Square(l + e) <= v
  {
    if l >= u + 1.0 {
      SquareAtLeast(l, u + 1.0);
      LongSquare(u);
      assert false;
    }
    assert Square(l + e) == Square(l) + e * (2.0 * l + e);
    SmallerFactor(e, 2.0 * l + e, 2.0 * u + 3.0);
  }

  lemma LongSquare(u: real)
    requires u >= 0.0
    ensures Square(u + 1.0) >= 1.0 + 2.0 * u
  {
    assert Square(u + 1.0) == 1.0 + 2.0 * u + Square(u);
  }

  lemma SmallerFactor(e: real, x: real, y: real)
    requires e >= 0.0 && x <= y
    ensures e * x <= e * y
  {
  }
}
