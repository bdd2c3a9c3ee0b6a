/** The k-means loop (Cluster.cpp) in exact arithmetic, up to the point where a cluster loses its
    last point: every pass that moves a point lowers the total squared distance to the means, so no
    partition comes back and the loop ends, at nearest centroids. */
module KMeans {
  import opened RealSums
  import opened FurthestFirst

  // ---------------------------------------------------------------- cost of a partition

  /** Coordinate i of point p; zero outside. */
  function Coord(points: seq<Point>, p: nat, i: nat): real {
    if p < |points| && i < |points[p]| then points[p][i] else 0.0
  }

  /** The members of cluster c, and the sum of their coordinates i, among the first n points. */
  function Members(a: seq<nat>, c: nat, n: nat): nat
    requires n <= |a|
  {
    if n == 0 then 0 else Members(a, c, n - 1) + (if a[n - 1] == c then 1 else 0)
  }

  function CoordSum(points: seq<Point>, a: seq<nat>, c: nat, i: nat, n: nat): real
    requires n <= |a|
  {
    if n == 0 then 0.0
    else CoordSum(points, a, c, i, n - 1) + (if a[n - 1] == c then Coord(points, n - 1, i) else 0.0)
  }

  /** The mean of a cluster; zero when it is empty. */
  function Mean(points: seq<Point>, a: seq<nat>, c: nat, dim: nat): (m: Point)
    ensures |m| == dim
  {
    var n := Members(a, c, |a|);
    seq(dim, (i: nat) => if n == 0 then 0.0 else CoordSum(points, a, c, i, |a|) / n as real)
  }

  function Means(points: seq<Point>, a: seq<nat>, k: nat, dim: nat): (ms: seq<Point>)
    ensures |ms| == k && InSpace(ms, dim) && forall c :: 0 <= c < k ==> ms[c] == Mean(points, a, c, dim)
  {
    seq(k, (c: nat) => Mean(points, a, c, dim))
  }

  predicate IsAssignment(a: seq<nat>, n: nat, k: nat) {
    |a| == n && forall p :: 0 <= p < n ==> a[p] < k
  }

  /** The squared distance of point p to its centre. */
  function ToCentre(points: seq<Point>, a: seq<nat>, centres: seq<Point>): nat -> real {
    (p: nat) =>
      if p < |points| && p < |a| && a[p] < |centres| && |centres[a[p]]| == |points[p]|
      then Dist(centres[a[p]], points[p]) else 0.0
  }

  function Cost(points: seq<Point>, a: seq<nat>, centres: seq<Point>): real {
    Sum(ToCentre(points, a, centres), |points|)
  }

  /** The cost of a partition at its own means. */
  function PartitionCost(points: seq<Point>, a: seq<nat>, k: nat, dim: nat): real {
    Cost(points, a, Means(points, a, k, dim))
  }

  // ---------------------------------------------------------------- means are best

  /** The cost of cluster c in coordinate i. */
  function Spread(points: seq<Point>, a: seq<nat>, c: nat, i: nat, z: real, n: nat): real
    requires n <= |a|
  {
    if n == 0 then 0.0
    else Spread(points, a, c, i, z, n - 1) + (if a[n - 1] == c then Square(z - Coord(points, n - 1, i)) else 0.0)
  }

  /** How a spread differs between two centres whose squares differ by q and which differ by d, for
      k points with sum s. */
  function Shift(k: real, s: real, q: real, d: real): real {
    k * q - 2.0 * s * d
  }

  lemma ShiftMore(k: real, s: real, q: real, d: real, x: real, k': real, s': real)
    requires k' == k + 1.0 && s' == s + x
    ensures Shift(k', s', q, d) == Shift(k, s, q, d) + Shift(1.0, x, q, d)
  {
  }

  lemma SquareShift(z: real, m: real, x: real, q: real, d: real)
    requires q == z * z - m * m && d == z - m
    ensures Square(z - x) == Square(m - x) + Shift(1.0, x, q, d)
  {
  }

  ghost predicate Shifts(z: real, m: real, q: real, d: real) {
    forall x: real :: Square(z - x) == Square(m - x) + Shift(1.0, x, q, d)
  }

  lemma {:induction false} SpreadDifference(points: seq<Point>, a: seq<nat>, c: nat, i: nat, z: real, m: real,
          q: real, d: real, n: nat)
    requires n <= |a| && Shifts(z, m, q, d)
    ensures Spread(points, a, c, i, z, n)
         == Spread(points, a, c, i, m, n) + Shift(Members(a, c, n) as real, CoordSum(points, a, c, i, n), q, d)
  {
    if n > 0 {
      SpreadDifference(points, a, c, i, z, m, q, d, n - 1);
      if a[n - 1] == c {
        ShiftMore(Members(a, c, n - 1) as real, CoordSum(points, a, c, i, n - 1), q, d, Coord(points, n - 1, i),
                  Members(a, c, n) as real, CoordSum(points, a, c, i, n));
      }
    }
  }

  lemma MeanIsBest(points: seq<Point>, a: seq<nat>, c: nat, i: nat, z: real, m: real, k: real, s: real)
    requires k == Members(a, c, |a|) as real && s == CoordSum(points, a, c, i, |a|) && Scaled(m, k, s)
    ensures Spread(points, a, c, i, m, |a|) <= Spread(points, a, c, i, z, |a|)
  {
    var q, d := z * z - m * m, z - m;
    forall x: real
      ensures Square(z - x) == Square(m - x) + Shift(1.0, x, q, d)
    {
      SquareShift(z, m, x, q, d);
    }
    ShiftFromMean(k, z, m, s, q, d);
    MeanIsBestBy(points, a, c, i, z, m, k, s, q, d);
  }

  predicate Scaled(m: real, k: real, s: real) {
    m * k == s
  }

  lemma MeanIsBestBy(points: seq<Point>, a: seq<nat>, c: nat, i: nat, z: real, m: real, k: real, s: real, q: real,
          d: real)
    requires k == Members(a, c, |a|) as real && s == CoordSum(points, a, c, i, |a|) && Shift(k, s, q, d) >= 0.0
    requires Shifts(z, m, q, d)
    ensures Spread(points, a, c, i, m, |a|) <= Spread(points, a, c, i, z, |a|)
  {
    SpreadDifference(points, a, c, i, z, m, q, d, |a|);
  }

  lemma ShiftFromMean(k: real, z: real, m: real, s: real, q: real, d: real)
    requires k >= 0.0 && Scaled(m, k, s) && q == z * z - m * m && d == z - m
    ensures Shift(k, s, q, d) >= 0.0
  {
    assert Shift(k, s, q, d) == k * Square(d);
    NonNegative(k, Square(d));
  }

  lemma NonNegative(x: real, y: real)
    requires x >= 0.0 && y >= 0.0
    ensures x * y >= 0.0
  {
  }

  /** Coordinate i of the difference of point p and its centre, squared. */
  function Part(points: seq<Point>, a: seq<nat>, centres: seq<Point>): (nat, nat) -> real {
    (p: nat, i: nat) => if p < |a| then Square(Coord(centres, a[p], i) - Coord(points, p, i)) else 0.0
  }

  function PartOf(points: seq<Point>, centres: seq<Point>, i: nat): (nat, nat) -> real {
    (c: nat, p: nat) => Square(Coord(centres, c, i) - Coord(points, p, i))
  }

  function ByCluster(points: seq<Point>, a: seq<nat>, centres: seq<Point>, i: nat): nat -> real {
    (c: nat) => Spread(points, a, c, i, Coord(centres, c, i), |a|)
  }

  function ByCoord(points: seq<Point>, a: seq<nat>, centres: seq<Point>, k: nat): nat -> real {
    (i: nat) => Sum(ByCluster(points, a, centres, i), k)
  }

  lemma {:induction false} DistAsParts(points: seq<Point>, a: seq<nat>, centres: seq<Point>, p: nat, dim: nat, n: nat)
    requires p < |points| && p < |a| && a[p] < |centres| && |centres[a[p]]| == |points[p]| == dim && n <= dim
    ensures Sum(Row(Part(points, a, centres), p), n) == DistUpTo(centres[a[p]], points[p], n)
  {
    if n > 0 {
      DistAsParts(points, a, centres, p, dim, n - 1);
    }
  }

  lemma {:induction false} SpreadAsSum(points: seq<Point>, a: seq<nat>, centres: seq<Point>, c: nat, i: nat, n: nat)
    requires n <= |a|
    ensures Sum(InGroup(PartOf(points, centres, i), a, c), n) == Spread(points, a, c, i, Coord(centres, c, i), n)
  {
    if n > 0 {
      SpreadAsSum(points, a, centres, c, i, n - 1);
    }
  }

  /** The cost, coordinate by coordinate and cluster by cluster. */
  lemma CostBySpread(points: seq<Point>, a: seq<nat>, centres: seq<Point>, k: nat, dim: nat)
    requires IsAssignment(a, |points|, k) && |centres| == k && InSpace(points, dim) && InSpace(centres, dim)
    ensures Cost(points, a, centres) == Sum(ByCoord(points, a, centres, k), dim)
  {
    var f, n := Part(points, a, centres), |points|;
    forall p | 0 <= p < n
      ensures ToCentre(points, a, centres)(p) == RowSums(f, dim)(p)
    {
      DistAsParts(points, a, centres, p, dim, dim);
    }
    SumSame(ToCentre(points, a, centres), RowSums(f, dim), n);
    SumSwap(f, n, dim);
    forall i | 0 <= i < dim
      ensures ColumnSums(f, n)(i) == ByCoord(points, a, centres, k)(i)
    {
      CoordBySpread(points, a, centres, k, i);
    }
    SumSame(ColumnSums(f, n), ByCoord(points, a, centres, k), dim);
  }

  lemma CoordBySpread(points: seq<Point>, a: seq<nat>, centres: seq<Point>, k: nat, i: nat)
    requires IsAssignment(a, |points|, k)
    ensures Sum(Column(Part(points, a, centres), i), |a|) == Sum(ByCluster(points, a, centres, i), k)
  {
    var g := PartOf(points, centres, i);
    SumSame(Column(Part(points, a, centres), i), Grouped(g, a), |a|);
    SumByGroup(g, a, k, |a|);
    forall c | 0 <= c < k
      ensures GroupSums(g, a, |a|)(c) == ByCluster(points, a, centres, i)(c)
    {
      SpreadAsSum(points, a, centres, c, i, |a|);
    }
    SumSame(GroupSums(g, a, |a|), ByCluster(points, a, centres, i), k);
  }

  lemma {:induction false} NoMembers(points: seq<Point>, a: seq<nat>, c: nat, i: nat, n: nat)
    requires n <= |a| && Members(a, c, n) == 0
    ensures CoordSum(points, a, c, i, n) == 0.0
  {
    if n > 0 {
      NoMembers(points, a, c, i, n - 1);
    }
  }

  lemma MeanScaled(points: seq<Point>, a: seq<nat>, c: nat, i: nat, dim: nat, m: real, k: real, s: real)
    requires i < dim && m == Mean(points, a, c, dim)[i] && k == Members(a, c, |a|) as real
              && s == CoordSum(points, a, c, i, |a|)
    ensures Scaled(m, k, s)
  {
    if Members(a, c, |a|) == 0 {
      NoMembers(points, a, c, i, |a|);
    } else {
      assert m == s / k;
    }
  }

  /** For a given partition no centres cost less than the means. */
  lemma MeansAreBest(points: seq<Point>, a: seq<nat>, centres: seq<Point>, k: nat, dim: nat)
    requires IsAssignment(a, |points|, k) && |centres| == k && InSpace(points, dim) && InSpace(centres, dim)
    ensures PartitionCost(points, a, k, dim) <= Cost(points, a, centres)
  {
    var means := Means(points, a, k, dim);
    CostBySpread(points, a, means, k, dim);
    CostBySpread(points, a, centres, k, dim);
    forall i | 0 <= i < dim
      ensures ByCoord(points, a, means, k)(i) <= ByCoord(points, a, centres, k)(i)
    {
      forall c | 0 <= c < k
        ensures ByCluster(points, a, means, i)(c) <= ByCluster(points, a, centres, i)(c)
      {
        var m, n, s := Coord(means, c, i), Members(a, c, |a|) as real, CoordSum(points, a, c, i, |a|);
        MeanScaled(points, a, c, i, dim, m, n, s);
        MeanIsBest(points, a, c, i, Coord(centres, c, i), m, n, s);
      }
      SumAtMost(ByCluster(points, a, means, i), ByCluster(points, a, centres, i), k);
    }
    SumAtMost(ByCoord(points, a, means, k), ByCoord(points, a, centres, k), dim);
  }

  // ---------------------------------------------------------------- one pass

  /** Centre c is nearest to point p. */
  predicate NearestCentre(points: seq<Point>, centres: seq<Point>, p: nat, c: nat, dim: nat)
    requires InSpace(points, dim) && InSpace(centres, dim) && p < |points|
  {
    c < |centres| && forall e :: 0 <= e < |centres| ==> Dist(centres[c], points[p]) <= Dist(centres[e], points[p])
  }

  lemma IsNearest(points: seq<Point>, centres: seq<Point>, p: nat, c: nat, dim: nat)
    requires InSpace(points, dim) && InSpace(centres, dim) && p < |points| && c < |centres|
    requires Dist(centres[c], points[p]) == Nearest(points[p], centres)
    ensures NearestCentre(points, centres, p, c, dim)
  {
    NearestIs(points[p], centres);
  }

  /** A point stays in its cluster unless another centre is strictly nearer; then it goes to the
      first one that is nearest. */
  predicate Reassigned(points: seq<Point>, centres: seq<Point>, p: nat, was: nat, now: nat, dim: nat)
    requires InSpace(points, dim) && InSpace(centres, dim) && p < |points| && was < |centres|
  {
    && NearestCentre(points, centres, p, now, dim)
    && (NearestCentre(points, centres, p, was, dim) ==> now == was)
    && (now != was ==> forall e :: 0 <= e < now ==> Dist(centres[now], points[p]) < Dist(centres[e], points[p]))
  }

  /** Where the initial allocation puts point p: at the first nearest centroid, or, when every centroid is as
      far as FAR, where the point before it went. */
  predicate Allocated(points: seq<Point>, centres: seq<Point>, a: seq<nat>, p: nat, dim: nat)
    requires InSpace(points, dim) && InSpace(centres, dim) && p < |points| && p < |a|
  {
    if Nearest(points[p], centres) < FAR
    then NearestCentre(points, centres, p, a[p], dim)
         && forall e :: 0 <= e < a[p] ==> Dist(centres[a[p]], points[p]) < Dist(centres[e], points[p])
    else a[p] == if p == 0 then 0 else a[p - 1]
  }

  /** The first nearest centre below FAR, or else the one given. */
  function Closest(p: Point, centres: seq<Point>, before: nat): (c: nat)
    requires InSpace(centres, |p|)
    ensures c < |centres| || c == before
  {
    if centres == [] then before else
    var n := |centres| - 1;
    if Dist(centres[n], p) < Nearest(p, centres[..n]) then n else Closest(p, centres[..n], before)
  }

  /** The clusters that the centres decide for the first n points. */
  function Allocation(points: seq<Point>, centres: seq<Point>, n: nat, dim: nat): (a: seq<nat>)
    requires InSpace(points, dim) && InSpace(centres, dim) && n <= |points|
    ensures |a| == n
  {
    if n == 0 then [] else
    var a := Allocation(points, centres, n - 1, dim);
    a + [Closest(points[n - 1], centres, if n == 1 then 0 else a[n - 2])]
  }

  lemma {:induction false} ClosestIs(p: Point, centres: seq<Point>, before: nat)
    requires InSpace(centres, |p|)
    ensures var c := Closest(p, centres, before);
            if Nearest(p, centres) < FAR
            then c < |centres| && Dist(centres[c], p) == Nearest(p, centres)
                 && forall e :: 0 <= e < c ==> Dist(centres[c], p) < Dist(centres[e], p)
            else c == before
  {
    if centres != [] {
      var n := |centres| - 1;
      ClosestIs(p, centres[..n], before);
      NearestIs(p, centres[..n]);
      assert forall e :: 0 <= e < n ==> centres[..n][e] == centres[e];
    }
  }

  lemma {:induction false} AllocationAllocates(points: seq<Point>, centres: seq<Point>, n: nat, dim: nat)
    requires InSpace(points, dim) && InSpace(centres, dim) && n <= |points|
    ensures forall p :: 0 <= p < n ==> Allocated(points, centres, Allocation(points, centres, n, dim), p, dim)
  {
    if n > 0 {
      AllocationAllocates(points, centres, n - 1, dim);
      var a, b := Allocation(points, centres, n - 1, dim), Allocation(points, centres, n, dim);
      ClosestIs(points[n - 1], centres, if n == 1 then 0 else a[n - 2]);
      if Nearest(points[n - 1], centres) < FAR {
        IsNearest(points, centres, n - 1, b[n - 1], dim);
      }
      assert forall p :: 0 <= p < n - 1 ==> b[p] == a[p] && Allocated(points, centres, a, p, dim);
    }
  }

  /** A pass that moves a point lowers the cost of the partition, whatever happens to its means. */
  lemma PassLowersCost(points: seq<Point>, a: seq<nat>, b: seq<nat>, k: nat, dim: nat)
    requires IsAssignment(a, |points|, k) && IsAssignment(b, |points|, k) && InSpace(points, dim)
    requires forall p :: 0 <= p < |points| ==> Reassigned(points, Means(points, a, k, dim), p, a[p], b[p], dim)
    requires a != b
    ensures PartitionCost(points, b, k, dim) < PartitionCost(points, a, k, dim)
  {
    var means, n := Means(points, a, k, dim), |points|;
    var p :| 0 <= p < n && a[p] != b[p];
    forall q | 0 <= q < n
      ensures ToCentre(points, b, means)(q) <= ToCentre(points, a, means)(q)
    {
      assert Reassigned(points, means, q, a[q], b[q], dim);
    }
    assert ToCentre(points, b, means)(p) < ToCentre(points, a, means)(p) by {
      assert Reassigned(points, means, p, a[p], b[p], dim);
    }
    SumLess(ToCentre(points, b, means), ToCentre(points, a, means), n, p);
    MeansAreBest(points, b, means, k, dim);
  }

  /** b is the partition that a pass over a at its means leads to, and some point moved. */
  ghost predicate MovingPass(points: seq<Point>, a: seq<nat>, b: seq<nat>, k: nat, dim: nat)
    requires InSpace(points, dim)
  {
    && IsAssignment(a, |points|, k) && IsAssignment(b, |points|, k) && a != b
    && forall p :: 0 <= p < |points| ==> Reassigned(points, Means(points, a, k, dim), p, a[p], b[p], dim)
  }

  lemma MovingPassLowersCost(points: seq<Point>, a: seq<nat>, b: seq<nat>, k: nat, dim: nat)
    requires InSpace(points, dim) && MovingPass(points, a, b, k, dim)
    ensures PartitionCost(points, b, k, dim) < PartitionCost(points, a, k, dim)
  {
    PassLowersCost(points, a, b, k, dim);
  }

  /** However long the run, a partition that was left never comes back. */
  lemma {:induction false} NoPartitionRepeats(points: seq<Point>, h: seq<seq<nat>>, k: nat, dim: nat, i: nat, j: nat)
    requires InSpace(points, dim) && i < j < |h|
    requires forall t {:trigger MovingPass(points, h[t], h[t + 1], k, dim)} :: 0 <= t < |h| - 1 ==>
               MovingPass(points, h[t], h[t + 1], k, dim)
    ensures PartitionCost(points, h[j], k, dim) < PartitionCost(points, h[i], k, dim)
    ensures h[i] != h[j]
  {
    var t := j - 1;
    assert MovingPass(points, h[t], h[t + 1], k, dim);
    MovingPassLowersCost(points, h[t], h[t + 1], k, dim);
    if i < j - 1 {
      NoPartitionRepeats(points, h, k, dim, i, j - 1);
    }
  }

  // ---------------------------------------------------------------- termination

  /** All partitions of n points into k clusters. */
  ghost function Partitions(n: nat, k: nat): (all: set<seq<nat>>)
    ensures forall a :: a in all <==> IsAssignment(a, n, k)
  {
    if n == 0 then {[]} else
    var smaller := Partitions(n - 1, k);
    var all := set a, c: nat | a in smaller && c < k :: a + [c];
    assert forall a :: IsAssignment(a, n, k) ==> a in all by {
      forall a | IsAssignment(a, n, k)
        ensures a in all
      {
        assert a[..n - 1] in smaller && a == a[..n - 1] + [a[n - 1]];
      }
    }
    all
  }

  /** The partitions that cost less than a: what is left for later passes. */
  ghost function Cheaper(points: seq<Point>, a: seq<nat>, k: nat, dim: nat): set<seq<nat>> {
    set b | b in Partitions(|points|, k) && PartitionCost(points, b, k, dim) < PartitionCost(points, a, k, dim)
  }

  lemma FewerCheaper(points: seq<Point>, a: seq<nat>, b: seq<nat>, k: nat, dim: nat)
    requires IsAssignment(b, |points|, k) && PartitionCost(points, b, k, dim) < PartitionCost(points, a, k, dim)
    ensures |Cheaper(points, b, k, dim)| < |Cheaper(points, a, k, dim)|
  {
    var less, more := Cheaper(points, b, k, dim), Cheaper(points, a, k, dim);
    assert b in more && b !in less;
    assert less <= more - {b};
    SubsetSize(less, more - {b});
  }

  lemma SubsetSize<T>(x: set<T>, y: set<T>)
    requires x <= y
    ensures |x| <= |y|
  {
    assert y == x + (y - x);
  }

  // ---------------------------------------------------------------- the algorithm in place

  /** The two maps are inverse to each other, for the first n points. */
  ghost predicate Inverse(sets: seq<set<nat>>, a: seq<nat>, n: nat)
    requires n <= |a|
  {
    forall c: nat, p: nat {:trigger p in sets[c]} :: c < |sets| ==> (p in sets[c] <==> p < n && a[p] == c)
  }

  /** The first n points have been inserted where a puts them, and nothing was erased. */
  ghost predicate Inserted(before: seq<set<nat>>, sets: seq<set<nat>>, a: seq<nat>, n: nat)
    requires n <= |a|
  {
    && |sets| == |before|
    && forall c: nat, p: nat {:trigger p in sets[c]} {:trigger p in before[c]} :: c < |sets| ==>
         (p in sets[c] <==> p in before[c] || (p < n && a[p] == c))
  }

  lemma InsertedNext(before: seq<set<nat>>, sets: seq<set<nat>>, a: seq<nat>, n: nat, c: nat)
    requires n < |a| && Inserted(before, sets, a, n) && c < |sets|
    ensures Inserted(before, sets[c := sets[c] + {n}], a[n := c], n + 1)
  {
  }

  /** The seeds put every member of a cluster back into it. */
  ghost predicate Returned(before: seq<set<nat>>, points: seq<Point>, seeds: seq<Point>, dim: nat)
    requires InSpace(points, dim) && InSpace(seeds, dim)
  {
    var a := Allocation(points, seeds, |points|, dim);
    forall c: nat, p: nat {:trigger p in before[c]} :: c < |before| && p in before[c] ==> p < |a| && a[p] == c
  }

  /** Seeding does not clear earlier memberships: afterwards the maps are inverse exactly when the seeds
      put every earlier member back into its old cluster, in particular when the clusters were empty. */
  lemma InverseAfterSeeding(before: seq<set<nat>>, sets: seq<set<nat>>, points: seq<Point>, seeds: seq<Point>, dim: nat)
    requires InSpace(points, dim) && InSpace(seeds, dim)
    requires Inserted(before, sets, Allocation(points, seeds, |points|, dim), |points|)
    ensures Inverse(sets, Allocation(points, seeds, |points|, dim), |points|) <==> Returned(before, points, seeds, dim)
  {
    var a := Allocation(points, seeds, |points|, dim);
    if Inverse(sets, a, |a|) {
      forall c: nat, p: nat | c < |before| && p in before[c]
        ensures p < |a| && a[p] == c
      {
        assert p in sets[c];
      }
    }
  }

  /** The first seeding leaves cluster 1 empty, which makes k-means seed again; the second one moves
      point 0, which then is a member of both clusters. */
  lemma RedoBreaksInverse() returns (points: seq<Point>, first: seq<Point>, second: seq<Point>,
      sets: seq<set<nat>>, sets': seq<set<nat>>)
    ensures InSpace(points, 1) && InSpace(first, 1) && InSpace(second, 1) && |first| == |second| == 2
    ensures var a := Allocation(points, Seeds(first, 2, 1), |points|, 1);
            Inserted([{}, {}], sets, a, |a|) && Inverse(sets, a, |a|) && Members(a, 1, |a|) == 0
    ensures var a := Allocation(points, Seeds(second, 2, 1), |points|, 1);
            Inserted(sets, sets', a, |a|) && 0 in sets'[0] && 0 in sets'[1] && !Inverse(sets', a, |a|)
  {
    var o, e: Point := [0.0], [1.0];
    points, first, second := [o, e], [o, o], [o, e];
    sets, sets' := [{0, 1}, {}], [{0, 1}, {0}];
    TwoSeeds(o, o);
    TwoSeeds(o, e);
    TwoAllocated(o, e, o, o);
    TwoAllocated(o, e, e, o);
    OneApart();
    var a, a' := Allocation(points, [o, o], 2, 1), Allocation(points, [e, o], 2, 1);
    assert a == [0, 0] && a' == [1, 0];
    assert Members(a, 1, 1) == 0;
  }

  lemma OneApart()
    ensures var o, e: Point := [0.0], [1.0];
            Dist(o, o) == Dist(e, e) == 0.0 && Dist(o, e) == Dist(e, o) == 1.0
  {
    var o, e: Point := [0.0], [1.0];
    assert DistUpTo(o, e, 0) == DistUpTo(e, o, 0) == DistUpTo(o, o, 0) == DistUpTo(e, e, 0) == 0.0;
  }

  lemma TwoSeeds(p: Point, q: Point)
    requires |p| == |q|
    ensures Seeds([p, q], 2, |p|) == [q, p]
  {
    assert [p, q][..1] == [p];
    assert Furthest([p], [q], 1, |p|) == 0;
    assert [q] + [p] == [q, p];
    assert Picked([q], [p], 2, |p|) == [q, p];
  }

  lemma TwoAllocated(p: Point, q: Point, c: Point, d: Point)
    requires |p| == |q| == |c| == |d| && Dist(c, p) < FAR && Dist(c, q) < FAR
    ensures Allocation([p, q], [c, d], 2, |p|) == [if Dist(d, p) < Dist(c, p) then 1 else 0,
                                                   if Dist(d, q) < Dist(c, q) then 1 else 0]
  {
    assert [c, d][..1] == [c];
    ClosestOfTwo(p, c, d, 0);
    var a := Allocation([p, q], [c, d], 1, |p|);
    assert a == [Closest(p, [c, d], 0)];
    ClosestOfTwo(q, c, d, a[0]);
  }

  lemma ClosestOfTwo(p: Point, c: Point, d: Point, before: nat)
    requires |p| == |c| == |d| && Dist(c, p) < FAR
    ensures Closest(p, [c, d], before) == if Dist(d, p) < Dist(c, p) then 1 else 0
  {
    assert [c, d][..1] == [c] && [c][..0] == [];
    assert Nearest(p, [c]) == Dist(c, p);
    assert Closest(p, [c], before) == 0;
  }

  class Clusters {
    const points: seq<Point>                  // ps__
    const k: nat                              // num_clusters__
    const dim: nat                            // num_dimensions__
    var clustersToPoints: seq<set<nat>>
    var pointsToClusters: seq<nat>
    var centroids: seq<Point>

    predicate Sized()
      reads this
    {
      && k > 0 && InSpace(points, dim)
      && |clustersToPoints| == |centroids| == k && InSpace(centroids, dim)
      && IsAssignment(pointsToClusters, |points|, k)
    }

    ghost predicate Valid()
      reads this
    {
      Sized() && Inverse(clustersToPoints, pointsToClusters, |points|)
    }

    constructor (points: seq<Point>, k: nat, dim: nat)
      requires k > 0 && InSpace(points, dim)
      ensures Sized() && Inverse(clustersToPoints, pointsToClusters, 0) && this.points == points && this.k == k
               && this.dim == dim
    {
      this.points, this.k, this.dim := points, k, dim;
      clustersToPoints := seq(k, _ => {});
      pointsToClusters := seq(|points|, _ => 0);
      centroids := seq(k, _ => seq(dim, _ => 0.0));
    }

    /** Furthest-first seeding with a given subset. */
    method SFFPartitionPoints(subset: seq<Point>) returns (ghost rest: seq<Point>)
      requires Sized() && InSpace(subset, dim) && k <= |subset|
      modifies this
      ensures Sized() && Inserted(old(clustersToPoints), clustersToPoints, pointsToClusters, |points|)
      ensures FurthestFirstPicks(subset, centroids, rest, dim) && centroids == Seeds(subset, k, dim)
      ensures pointsToClusters == Allocation(points, centroids, |points|, dim)
      ensures Inverse(clustersToPoints, pointsToClusters, |points|)
              <==> Returned(old(clustersToPoints), points, centroids, dim)
      ensures forall p :: 0 <= p < |points| ==> Allocated(points, centroids, pointsToClusters, p, dim)
    {
      var left;
      centroids, left := ChooseCentres(subset, k, dim);
      rest := left;
      ghost var before := clustersToPoints;
      AllocatePoints();
      InverseAfterSeeding(before, clustersToPoints, points, centroids, dim);
    }

    /** Each point goes to its closest cluster. */
    method AllocatePoints()
      requires Sized()
      modifies `clustersToPoints, `pointsToClusters
      ensures Sized() && Inserted(old(clustersToPoints), clustersToPoints, pointsToClusters, |points|)
      ensures forall p :: 0 <= p < |points| ==> Allocated(points, centroids, pointsToClusters, p, dim)
      ensures pointsToClusters == Allocation(points, centroids, |points|, dim)
    {
      var toCluster: nat := 0;
      for pid := 0 to |points|
        invariant Sized() && Inserted(old(clustersToPoints), clustersToPoints, pointsToClusters, pid)
        invariant toCluster == if pid == 0 then 0 else pointsToClusters[pid - 1]
        invariant pointsToClusters[..pid] == Allocation(points, centroids, pid, dim)
      {
        toCluster := FirstNearest(points[pid], toCluster);
        InsertedNext(old(clustersToPoints), clustersToPoints, pointsToClusters, pid, toCluster);
        pointsToClusters := pointsToClusters[pid := toCluster];
        clustersToPoints := clustersToPoints[toCluster := clustersToPoints[toCluster] + {pid}];
      }
      assert pointsToClusters[..|points|] == pointsToClusters;
      AllocationAllocates(points, centroids, |points|, dim);
    }

    method FirstNearest(p: Point, before: nat) returns (toCluster: nat)
      requires Sized() && |p| == dim && before < k
      ensures toCluster < k
      ensures toCluster == Closest(p, centroids, before)
    {
      var min := FAR;
      toCluster := before;
      for cid := 0 to k
        invariant toCluster < k && min == Nearest(p, centroids[..cid])
        invariant toCluster == Closest(p, centroids[..cid], before)
      {
        var d := Distance(centroids[cid], p);
        assert centroids[..cid + 1][..cid] == centroids[..cid];
        if d < min {
          min := d;
          toCluster := cid;
        }
      }
      assert centroids[..k] == centroids;
    }

    /** Fails when a cluster has no points. */
    method ComputeCentroids() returns (ok: bool)
      requires Valid()
      modifies `centroids
      ensures Valid()
      ensures ok <==> forall c :: 0 <= c < k ==> Members(pointsToClusters, c, |points|) > 0
      ensures ok ==> centroids == Means(points, pointsToClusters, k, dim)
    {
      centroids := seq(k, _ => seq(dim, _ => 0.0));
      for cid := 0 to k
        invariant Valid()
        invariant forall c :: 0 <= c < cid ==> Members(pointsToClusters, c, |points|) > 0
        invariant forall c :: 0 <= c < cid ==> centroids[c] == Mean(points, pointsToClusters, c, dim)
        invariant forall c :: cid <= c < k ==> centroids[c] == seq(dim, _ => 0.0)
      {
        var sum, num := SumOfCluster(cid, centroids[cid]);
        if num == 0 {
          centroids := centroids[cid := sum];
          return false;
        }
        sum := Divided(sum, num);
        centroids := centroids[cid := sum];
        assert centroids[cid] == Mean(points, pointsToClusters, cid, dim);
      }
      return true;
    }

    method SumOfCluster(cid: nat, zero: Point) returns (sum: Point, num: nat)
      requires Valid() && cid < k && zero == seq(dim, _ => 0.0)
      ensures |sum| == dim
      ensures forall i :: 0 <= i < dim ==> sum[i] == CoordSum(points, pointsToClusters, cid, i, |points|)
      ensures num == Members(pointsToClusters, cid, |points|)
    {
      sum, num := zero, 0;
      for pid := 0 to |points|   // a std::set is walked in ascending order
        invariant |sum| == dim && forall i :: 0 <= i < dim ==> sum[i] == CoordSum(points, pointsToClusters, cid, i, pid)
        invariant num == Members(pointsToClusters, cid, pid)
      {
        if pid in clustersToPoints[cid] {
          var p := points[pid];
          for i := 0 to dim
            invariant |sum| == dim
            invariant forall j :: 0 <= j < i ==> sum[j] == CoordSum(points, pointsToClusters, cid, j, pid + 1)
            invariant forall j :: i <= j < dim ==> sum[j] == CoordSum(points, pointsToClusters, cid, j, pid)
          {
            sum := sum[i := sum[i] + p[i]];
          }
          num := num + 1;
        }
      }
    }

    method Divided(sum: Point, num: nat) returns (centroid: Point)
      requires num > 0
      ensures |centroid| == |sum| && forall i :: 0 <= i < |sum| ==> centroid[i] == sum[i] / num as real
    {
      centroid := sum;
      for i := 0 to |sum|
        invariant |centroid| == |sum|
        invariant forall j :: 0 <= j < |sum| ==> centroid[j] == if j < i then sum[j] / num as real else sum[j]
      {
        centroid := centroid[i := centroid[i] / num as real];
      }
    }

    /** One pass over the points; says whether any of them moved. */
    method Reassign() returns (moving: bool)
      requires Valid()
      modifies `clustersToPoints, `pointsToClusters
      ensures Valid()
      ensures forall p :: 0 <= p < |points| ==>
                Reassigned(points, centroids, p, old(pointsToClusters[p]), pointsToClusters[p], dim)
      ensures moving <==> pointsToClusters != old(pointsToClusters)
    {
      moving := false;
      ghost var a := pointsToClusters;
      for pid := 0 to |points|
        invariant Valid()
        invariant forall p :: 0 <= p < pid ==> Reassigned(points, centroids, p, a[p], pointsToClusters[p], dim)
        invariant forall p :: pid <= p < |points| ==> pointsToClusters[p] == a[p]
        invariant moving <==> pointsToClusters != a
      {
        var moved := ReassignPoint(pid);
        moving := moving || moved;
      }
    }

    method ReassignPoint(pid: nat) returns (move: bool)
      requires Valid() && pid < |points|
      modifies `clustersToPoints, `pointsToClusters
      ensures Valid()
      ensures pointsToClusters == old(pointsToClusters)[pid := pointsToClusters[pid]]
      ensures Reassigned(points, centroids, pid, old(pointsToClusters[pid]), pointsToClusters[pid], dim)
      ensures move <==> pointsToClusters[pid] != old(pointsToClusters[pid])
    {
      var was, x := pointsToClusters[pid], points[pid];
      var toCluster: nat := was;
      var min := Distance(centroids[was], x);
      move := false;
      for cid := 0 to k
        invariant Sized() && pointsToClusters == old(pointsToClusters)
        invariant clustersToPoints
               == if move then old(clustersToPoints)[was := old(clustersToPoints[was]) - {pid}]
                   else old(clustersToPoints)
        invariant toCluster < k && min == Dist(centroids[toCluster], x)
        invariant forall c :: 0 <= c < cid ==> min <= Dist(centroids[c], x)
        invariant min <= Dist(centroids[was], x) && (move <==> min < Dist(centroids[was], x))
        invariant move ==> forall c :: 0 <= c < toCluster ==> min < Dist(centroids[c], x)
        invariant !move ==> toCluster == was
      {
        var d := Distance(centroids[cid], x);
        if d < min {
          min := d;
          move := true;
          toCluster := cid;
          clustersToPoints := clustersToPoints[was := clustersToPoints[was] - {pid}];
          assert clustersToPoints[was] == old(clustersToPoints[was]) - {pid};
        }
      }
      if move {
        pointsToClusters := pointsToClusters[pid := toCluster];
        clustersToPoints := clustersToPoints[toCluster := clustersToPoints[toCluster] + {pid}];
      }
    }

    /** k-means from a given subset, until no point moves.  It gives up (false) when a cluster has
        become empty. */
    method KMeans(subset: seq<Point>) returns (converged: bool)
      requires Sized() && Inverse(clustersToPoints, pointsToClusters, 0) && InSpace(subset, dim) && k <= |subset|
      modifies this
      ensures Valid()
      ensures converged ==> centroids == Means(points, pointsToClusters, k, dim)
      ensures converged ==>
                forall p :: 0 <= p < |points| ==> NearestCentre(points, centroids, p, pointsToClusters[p], dim)
      ensures converged <==> forall c :: 0 <= c < k ==> Members(pointsToClusters, c, |points|) > 0
    {
      var _ := SFFPartitionPoints(subset);
      var somePointIsMoving := true;
      converged := false;
      while somePointIsMoving
        invariant Valid()
        invariant !somePointIsMoving ==>
                    && converged
                    && centroids == Means(points, pointsToClusters, k, dim)
                    && (forall p :: 0 <= p < |points| ==> NearestCentre(points, centroids, p, pointsToClusters[p], dim))
                    && forall c :: 0 <= c < k ==> Members(pointsToClusters, c, |points|) > 0
        decreases |Cheaper(points, pointsToClusters, k, dim)|, if somePointIsMoving then 1 else 0
      {
        var ok := ComputeCentroids();
        if !ok {
          return false;
        }
        ghost var a := pointsToClusters;
        somePointIsMoving := Reassign();
        if somePointIsMoving {
          PassLowersCost(points, a, pointsToClusters, k, dim);
          FewerCheaper(points, a, pointsToClusters, k, dim);
        } else {
          converged := true;
          assert forall p :: 0 <= p < |points| ==> Reassigned(points, centroids, p, a[p], pointsToClusters[p], dim);
        }
      }
    }
  }
}
