/** Distances between cubes and the bounds they give over an index. */
module CubeDistance {
  import opened Cube
  import opened CubeGist

  /** distance_1D. */
  function Distance1D(a1: real, a2: real, b1: real, b2: real): (d: real)
    ensures d == Gap(Min(a1, a2), Max(a1, a2), Min(b1, b2), Max(b1, b2))
  {
    if a1 <= b1 && a2 <= b1 && a1 <= b2 && a2 <= b2 then Min(b1, b2) - Max(a1, a2)
    else if a1 > b1 && a2 > b1 && a1 > b2 && a2 > b2 then Min(a1, a2) - Max(b1, b2)
    else 0.0
  }

  /** The length of the gap between two intervals, zero if they touch. */
  function Gap(lo1: real, hi1: real, lo2: real, hi2: real): (d: real)
    ensures d >= 0.0
  {
    if hi1 <= lo2 then lo2 - hi1 else if hi2 <= lo1 then lo1 - hi2 else 0.0
  }

  function Abs(x: real): real {
    if x < 0.0 then -x else x
  }

  /** The gap between two cubes in dimension i. */
  function GapAt(a: Box, b: Box, i: nat): (d: real)
    ensures d >= 0.0
  {
    Gap(a.Lo(i), a.Hi(i), b.Lo(i), b.Hi(i))
  }

  /** A coordinate of a that is nearest to b. */
  function NearestOf(a: Box, b: Box, i: nat): real {
    if a.Lo(i) >= b.Lo(i) then a.Lo(i) else if a.Hi(i) <= b.Lo(i) then a.Hi(i) else b.Lo(i)
  }

  /** A coordinate of b that is nearest to x. */
  function NearestTo(b: Box, x: real, i: nat): real {
    if b.Lo(i) >= x then b.Lo(i) else if b.Hi(i) <= x then b.Hi(i) else x
  }

  /** The gap is the least distance of a coordinate of a from one of b, and it is attained. */
  lemma GapIsLeast(a: Box, b: Box, i: nat)
    ensures forall x, y | InSpan(x, a, i) && InSpan(y, b, i) :: GapAt(a, b, i) <= Abs(x - y)
    ensures var x := NearestOf(a, b, i);
            var y := NearestTo(b, x, i);
            InSpan(x, a, i) && InSpan(y, b, i) && GapAt(a, b, i) == Abs(x - y)
  {
    Interval(a, i);
    Interval(b, i);
  }

  datatype Metric = Taxicab | SquaredEuclid | Chebyshev

  function Square(d: real): real {
    d * d
  }

  function Step(m: Metric, distance: real, d: real): real {
    match m
    case Taxicab => distance + d
    case SquaredEuclid => distance + Square(d)
    case Chebyshev => Max(distance, d)
  }

  /** The metric over the first n dimensions. */
  function Accumulated(m: Metric, a: Box, b: Box, n: nat): (d: real)
    ensures d >= 0.0
  {
    if n == 0 then 0.0 else Step(m, Accumulated(m, a, b, n - 1), GapAt(a, b, n - 1))
  }

  function Distance(m: Metric, a: Box, b: Box): real {
    Accumulated(m, a, b, MaxDim(a, b))
  }

  lemma {:induction false} AccumulatedTurned(m: Metric, a: Box, b: Box, n: nat)
    ensures Accumulated(m, a, b, n) == Accumulated(m, b, a, n)
  {
    if n > 0 {
      AccumulatedTurned(m, a, b, n - 1);
    }
  }

  /** distance_taxicab. */
  method DistanceTaxicab(a0: Box, b0: Box) returns (distance: real)
    ensures distance == Distance(Taxicab, a0, b0)
  {
    var a, b := a0, b0;
    if a.dim < b.dim {
      a, b := b, a;
    }
    distance := 0.0;
    for i := 0 to b.dim
      invariant distance == Accumulated(Taxicab, a, b, i)
    {
      distance := distance + Abs(Distance1D(a.LL(i), a.UR(i), b.LL(i), b.UR(i)));
    }
    for i := b.dim to a.dim
      invariant distance == Accumulated(Taxicab, a, b, i)
    {
      distance := distance + Abs(Distance1D(a.LL(i), a.UR(i), 0.0, 0.0));
    }
    AccumulatedTurned(Taxicab, a, b, a.dim);
  }

  ghost predicate IsRoot(sqrt: real -> real) {
    forall x | 0.0 <= x :: 0.0 <= sqrt(x) && sqrt(x) * sqrt(x) == x
  }

  /** cube_distance; sqrt is that of the C library on real numbers. */
  method DistanceEuclid(a: Box, b: Box, sqrt: real -> real) returns (distance: real)
    requires IsRoot(sqrt)
    ensures 0.0 <= distance && distance * distance == Distance(SquaredEuclid, a, b)
  {
    var sum := SumOfSquares(a, b);
    distance := sqrt(sum);
  }

  /** The loops of cube_distance. */
  method SumOfSquares(a0: Box, b0: Box) returns (distance: real)
    ensures distance == Distance(SquaredEuclid, a0, b0)
  {
    hide Square;
    var a, b := a0, b0;
    if a.dim < b.dim {
      a, b := b, a;
    }
    distance := 0.0;
    for i := 0 to b.dim
      invariant distance == Accumulated(SquaredEuclid, a, b, i)
    {
      var d := Distance1D(a.LL(i), a.UR(i), b.LL(i), b.UR(i));
      distance := distance + Square(d);
    }
    for i := b.dim to a.dim
      invariant distance == Accumulated(SquaredEuclid, a, b, i)
    {
      var d := Distance1D(a.LL(i), a.UR(i), 0.0, 0.0);
      distance := distance + Square(d);
    }
    AccumulatedTurned(SquaredEuclid, a, b, a.dim);
  }

  /** distance_chebyshev. */
  method DistanceChebyshev(a0: Box, b0: Box) returns (distance: real)
    ensures distance == Distance(Chebyshev, a0, b0)
  {
    var a, b := a0, b0;
    if a.dim < b.dim {
      a, b := b, a;
    }
    distance := 0.0;
    for i := 0 to b.dim
      invariant distance == Accumulated(Chebyshev, a, b, i)
    {
      var d := Abs(Distance1D(a.LL(i), a.UR(i), b.LL(i), b.UR(i)));
      if d > distance {
        distance := d;
      }
    }
    for i := b.dim to a.dim
      invariant distance == Accumulated(Chebyshev, a, b, i)
    {
      var d := Abs(Distance1D(a.LL(i), a.UR(i), 0.0, 0.0));
      if d > distance {
        distance := d;
      }
    }
    AccumulatedTurned(Chebyshev, a, b, a.dim);
  }

  // ---------- What the distances are ----------

  function Sum(s: seq<real>): real {
    if s == [] then 0.0 else Sum(s[..|s| - 1]) + s[|s| - 1]
  }

  lemma SumNext(s: seq<real>, n: nat)
    requires n < |s|
    ensures Sum(s[..n + 1]) == Sum(s[..n]) + s[n]
  {
    assert s[..n + 1][..n] == s[..n];
  }

  /** p is a point of the cube in |p| dimensions. */
  predicate PointOf(p: seq<real>, c: Box) {
    forall i | 0 <= i < |p| :: InSpan(p[i], c, i)
  }

  function Apart(p: seq<real>, q: seq<real>): (r: seq<real>)
    requires |p| == |q|
    ensures |r| == |p| && forall i | 0 <= i < |r| :: r[i] == Abs(p[i] - q[i])
  {
    seq(|p|, i requires 0 <= i < |p| => Abs(p[i] - q[i]))
  }

  function Squares(s: seq<real>): (r: seq<real>)
    ensures |r| == |s| && forall i | 0 <= i < |r| :: r[i] == s[i] * s[i]
  {
    seq(|s|, i requires 0 <= i < |s| => s[i] * s[i])
  }

  /** The terms that a metric sums up. */
  function Terms(m: Metric, p: seq<real>, q: seq<real>): (r: seq<real>)
    requires |p| == |q| && !m.Chebyshev?
    ensures |r| == |p|
  {
    if m.Taxicab? then Apart(p, q) else Squares(Apart(p, q))
  }

  /** A nearest pair of points of two cubes, in n dimensions. */
  function NearPoint(a: Box, b: Box, n: nat): (r: seq<real>)
    ensures |r| == n
  {
    seq(n, i requires 0 <= i < n => NearestOf(a, b, i))
  }

  function FarPoint(a: Box, b: Box, n: nat): (r: seq<real>)
    ensures |r| == n
  {
    seq(n, i requires 0 <= i < n => NearestTo(b, NearestOf(a, b, i), i))
  }

  lemma TermIsLeast(m: Metric, a: Box, b: Box, p: seq<real>, q: seq<real>, i: nat)
    requires !m.Chebyshev? && |p| == |q| && i < |p| && PointOf(p, a) && PointOf(q, b)
    ensures Step(m, 0.0, GapAt(a, b, i)) <= Terms(m, p, q)[i]
    ensures GapAt(a, b, i) == Abs(p[i] - q[i]) ==> Step(m, 0.0, GapAt(a, b, i)) == Terms(m, p, q)[i]
  {
    hide GapAt, InSpan, Step, Terms;
    GapIsLeast(a, b, i);
    TermAt(m, p, q, i);
    StepGrows(m, 0.0, 0.0, GapAt(a, b, i), Abs(p[i] - q[i]));
  }

  lemma TermAt(m: Metric, p: seq<real>, q: seq<real>, i: nat)
    requires !m.Chebyshev? && |p| == |q| && i < |p|
    ensures Terms(m, p, q)[i] == Step(m, 0.0, Abs(p[i] - q[i]))
  {
  }

  lemma {:induction false} SumIsAbove(m: Metric, a: Box, b: Box, p: seq<real>, q: seq<real>, n: nat)
    requires !m.Chebyshev? && |p| == |q| && n <= |p| && PointOf(p, a) && PointOf(q, b)
    ensures Accumulated(m, a, b, n) <= Sum(Terms(m, p, q)[..n])
    ensures (forall i | 0 <= i < n :: GapAt(a, b, i) == Abs(p[i] - q[i])) ==>
              Accumulated(m, a, b, n) == Sum(Terms(m, p, q)[..n])
  {
    hide GapAt, PointOf, Terms, Sum, Square;
    if n == 0 {
      NothingSummed();
    } else {
      SumIsAbove(m, a, b, p, q, n - 1);
      SumNext(Terms(m, p, q), n - 1);
      TermIsLeast(m, a, b, p, q, n - 1);
    }
  }

  lemma NothingSummed()
    ensures Sum([]) == 0.0
  {
  }

  /** The taxicab and the squared Euclidean distance of two points. */
  function PointDistance(m: Metric, p: seq<real>, q: seq<real>): real
    requires |p| == |q| && !m.Chebyshev?
  {
    Sum(Terms(m, p, q))
  }

  /** The distance of two cubes is the least distance of a point of the one from a point of the other. */
  lemma DistanceIsLeast(m: Metric, a: Box, b: Box)
    requires !m.Chebyshev?
    ensures forall p, q | |p| == |q| == MaxDim(a, b) && PointOf(p, a) && PointOf(q, b) ::
              Distance(m, a, b) <= PointDistance(m, p, q)
    ensures exists p, q :: |p| == |q| == MaxDim(a, b) && PointOf(p, a) && PointOf(q, b)
                           && Distance(m, a, b) == PointDistance(m, p, q)
  {
    hide Accumulated, PointOf, Terms, Sum, GapAt, NearPoint, FarPoint;
    var n := MaxDim(a, b);
    forall p, q | |p| == |q| == n && PointOf(p, a) && PointOf(q, b)
      ensures Distance(m, a, b) <= PointDistance(m, p, q)
    {
      SumIsAbove(m, a, b, p, q, n);
      assert Terms(m, p, q)[..n] == Terms(m, p, q);
    }
    var p, q := NearPoint(a, b, n), FarPoint(a, b, n);
    NearestPair(a, b, n);
    SumIsAbove(m, a, b, p, q, n);
    assert Terms(m, p, q)[..n] == Terms(m, p, q);
  }

  lemma NearestPair(a: Box, b: Box, n: nat)
    ensures PointOf(NearPoint(a, b, n), a) && PointOf(FarPoint(a, b, n), b)
    ensures forall i | 0 <= i < n :: GapAt(a, b, i) == Abs(NearPoint(a, b, n)[i] - FarPoint(a, b, n)[i])
  {
    hide NearestOf, NearestTo, InSpan, GapAt;
    forall i | 0 <= i < n
      ensures InSpan(NearPoint(a, b, n)[i], a, i) && InSpan(FarPoint(a, b, n)[i], b, i)
      ensures GapAt(a, b, i) == Abs(NearPoint(a, b, n)[i] - FarPoint(a, b, n)[i])
    {
      GapIsLeast(a, b, i);
    }
  }

  lemma {:induction false} GreatestUpTo(a: Box, b: Box, n: nat)
    ensures forall i | 0 <= i < n :: GapAt(a, b, i) <= Accumulated(Chebyshev, a, b, n)
    ensures if n == 0 then Accumulated(Chebyshev, a, b, n) == 0.0
            else exists i | 0 <= i < n :: Accumulated(Chebyshev, a, b, n) == GapAt(a, b, i)
  {
    hide GapAt;
    if n > 0 {
      GreatestUpTo(a, b, n - 1);
      var d := Accumulated(Chebyshev, a, b, n);
      if d == Accumulated(Chebyshev, a, b, n - 1) && n > 1 {
        var i :| 0 <= i < n - 1 && Accumulated(Chebyshev, a, b, n - 1) == GapAt(a, b, i);
        assert d == GapAt(a, b, i);
      } else {
        assert d == GapAt(a, b, n - 1);
      }
    }
  }

  /** The Chebyshev distance is the greatest of the gaps, and zero without dimensions. */
  lemma ChebyshevIsGreatest(a: Box, b: Box)
    ensures forall i: nat :: GapAt(a, b, i) <= Distance(Chebyshev, a, b)
    ensures if MaxDim(a, b) == 0 then Distance(Chebyshev, a, b) == 0.0
            else exists i | 0 <= i < MaxDim(a, b) :: Distance(Chebyshev, a, b) == GapAt(a, b, i)
  {
    GreatestUpTo(a, b, MaxDim(a, b));
    forall i: nat ensures GapAt(a, b, i) <= Distance(Chebyshev, a, b) {
      if i >= MaxDim(a, b) {
        assert GapAt(a, b, i) == 0.0;
      }
    }
  }

  // ---------- A key is never farther than a cube below it ----------

  lemma GapShrinks(key: Box, leaf: Box, q: Box, i: nat)
    requires Covers(key, leaf)
    ensures GapAt(key, q, i) <= GapAt(leaf, q, i)
  {
    if i < key.dim {
      assert Within(key, leaf, i);
    }
    Interval(leaf, i);
    Interval(q, i);
  }

  lemma StepGrows(m: Metric, x: real, y: real, d: real, e: real)
    requires 0.0 <= x <= y && 0.0 <= d <= e
    ensures Step(m, x, d) <= Step(m, y, e)
  {
    if m.SquaredEuclid? {
      assert d * d <= e * e by {
        assert d * d <= d * e;
        assert d * e <= e * e;
      }
    }
  }

  lemma {:induction false} AccumulatedGrows(m: Metric, key: Box, leaf: Box, q: Box, n: nat)
    requires Covers(key, leaf)
    ensures Accumulated(m, key, q, n) <= Accumulated(m, leaf, q, n)
  {
    if n > 0 {
      AccumulatedGrows(m, key, leaf, q, n - 1);
      GapShrinks(key, leaf, q, n - 1);
      StepGrows(m, Accumulated(m, key, q, n - 1), Accumulated(m, leaf, q, n - 1),
                GapAt(key, q, n - 1), GapAt(leaf, q, n - 1));
    }
  }

  /** Dimensions that neither cube has add nothing. */
  lemma {:induction false} NothingBeyond(m: Metric, a: Box, b: Box, n: nat)
    requires n >= MaxDim(a, b)
    ensures Accumulated(m, a, b, n) == Distance(m, a, b)
  {
    if n > MaxDim(a, b) {
      NothingBeyond(m, a, b, n - 1);
    }
  }

  lemma DistanceGrows(m: Metric, key: Box, leaf: Box, q: Box)
    requires Covers(key, leaf)
    ensures Distance(m, key, q) <= Distance(m, leaf, q)
  {
    AccumulatedGrows(m, key, leaf, q, MaxDim(key, q));
    NothingBeyond(m, leaf, q, MaxDim(key, q));
  }

  /** The distance to a key the index has built is a lower bound of that to every cube below it. */
  lemma DistanceIsLowerBound(m: Metric, key: Box, leaf: Box, q: Box)
    requires BuiltOver(key, leaf)
    ensures Distance(m, key, q) <= Distance(m, leaf, q)
  {
    hide BuiltOver, Covers;
    BuiltOverCovers(key, leaf);
    DistanceGrows(m, key, leaf, q);
  }

  /** Taking the root of the sum of squares keeps the bound. */
  lemma RootIsLowerBound(key: Box, leaf: Box, q: Box, r: real, d: real)
    requires BuiltOver(key, leaf)
    requires 0.0 <= r && r * r == Distance(SquaredEuclid, key, q)
    requires 0.0 <= d && d * d == Distance(SquaredEuclid, leaf, q)
    ensures r <= d
  {
    hide BuiltOver, Distance;
    DistanceIsLowerBound(SquaredEuclid, key, leaf, q);
    RootGrows(r, d);
  }

  lemma RootGrows(r: real, d: real)
    requires 0.0 <= r && 0.0 <= d && r * r <= d * d
    ensures r <= d
  {
    if d < r {
      SquareGrows(d, r);
    }
  }

  lemma SquareGrows(d: real, r: real)
    requires 0.0 <= d < r
    ensures d * d < r * r
  {
    ProductGrows(r - d, r + d);
    assert r * r - d * d == (r - d) * (r + d);
  }

  lemma ProductGrows(a: real, b: real)
    requires 0.0 < a && 0.0 < b
    ensures 0.0 < a * b
  {
  }

  // ---------- Coordinates ----------

  datatype Result = Ok(value: real) | ZeroIndex

  /** cube_coord_llur. */
  function CoordLlur(c: Box, coord: int): Result {
    if coord == 0 then ZeroIndex
    else
      var n := if coord < 0 then -coord else coord;
      var value :=
        if n <= 2 * c.dim then
          var index := (n - 1) / 2;
          if c.point then c.x[index]
          else if (n - 1) % 2 == 1 then Max(c.x[index], c.x[index + c.dim])
          else Min(c.x[index], c.x[index + c.dim])
        else 0.0;
      Ok(if coord < 0 then -value else value)
  }

  /** The branch of g_cube_distance for the operator ~>. */
  function IndexCoord(c: Box, coord: int, isLeaf: bool): Result {
    if coord == 0 then ZeroIndex
    else
      var n := if coord < 0 then -coord else coord;
      var value :=
        if n <= 2 * c.dim then
          var index := (n - 1) / 2;
          if c.point then c.x[index]
          else if (if isLeaf then (n - 1) % 2 == 1 else coord < 0) then Max(c.x[index], c.x[index + c.dim])
          else Min(c.x[index], c.x[index + c.dim])
        else 0.0;
      Ok(if coord < 0 then -value else value)
  }

  /** Odd numbers name the lower ends, even ones the upper ends, negative ones their negatives. */
  lemma CoordMeaning(c: Box, d: nat)
    ensures CoordLlur(c, 2 * d + 1) == Ok(c.Lo(d)) && CoordLlur(c, -(2 * d + 1)) == Ok(-c.Lo(d))
    ensures CoordLlur(c, 2 * d + 2) == Ok(c.Hi(d)) && CoordLlur(c, -(2 * d + 2)) == Ok(-c.Hi(d))
  {
  }

  /** On a leaf the index yields the operator's value; for a key it has built, a lower bound of that. */
  lemma CoordIsLowerBound(key: Box, leaf: Box, coord: int)
    requires BuiltOver(key, leaf)
    ensures IndexCoord(leaf, coord, true) == CoordLlur(leaf, coord)
    ensures coord != 0 ==> IndexCoord(key, coord, false).value <= IndexCoord(leaf, coord, true).value
    ensures coord == 0 <==> IndexCoord(key, coord, false) == ZeroIndex
  {
    hide BuiltOver, Covers, IndexCoord, CoordLlur;
    BuiltOverCovers(key, leaf);
    CoordGrows(key, leaf, coord);
  }

  lemma CoordGrows(key: Box, leaf: Box, coord: int)
    requires Covers(key, leaf)
    ensures IndexCoord(leaf, coord, true) == CoordLlur(leaf, coord)
    ensures coord != 0 ==> IndexCoord(key, coord, false).value <= IndexCoord(leaf, coord, true).value
    ensures coord == 0 <==> IndexCoord(key, coord, false) == ZeroIndex
  {
    if coord != 0 {
      NonzeroCoordGrows(key, leaf, coord);
    }
  }

  lemma NonzeroCoordGrows(key: Box, leaf: Box, coord: int)
    requires Covers(key, leaf) && coord != 0
    ensures IndexCoord(key, coord, false).Ok? && CoordLlur(leaf, coord).Ok?
    ensures IndexCoord(key, coord, false).value <= CoordLlur(leaf, coord).value
  {
    hide IndexCoord, CoordLlur;
    var n := if coord < 0 then -coord else coord;
    var d := (n - 1) / 2;
    IndexCoordIs(key, coord);
    CoordMeaning(leaf, d);
    assert n == 2 * d + 1 || n == 2 * d + 2;
    EndsInside(key, leaf, d);
  }

  lemma EndsInside(key: Box, leaf: Box, d: nat)
    requires Covers(key, leaf)
    ensures key.Lo(d) <= leaf.Lo(d) <= leaf.Hi(d) <= key.Hi(d)
  {
    Interval(leaf, d);
    if d < key.dim {
      assert Within(key, leaf, d);
    }
  }

  lemma IndexCoordIs(key: Box, coord: int)
    requires coord != 0
    ensures var d := ((if coord < 0 then -coord else coord) - 1) / 2;
            IndexCoord(key, coord, false) == Ok(if coord < 0 then -key.Hi(d) else key.Lo(d))
  {
  }
}
