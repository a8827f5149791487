/** Points, segments with their slope and intercept, floor rounding, the sweep-order
    comparator and the line intersection test of the plane sweep program. */
module Geometry {
  import opened Base

  /** Coordinates are exact rationals: the input is integral and every derived
      quantity is built with +, -, * and /. */
  datatype Point = Point(x: real, y: real)

  /** The slope of a segment; `Vertical` stands for Python's float('inf'). */
  datatype Slope = Vertical | Finite(m: real)

  /** A segment of the sweep. `id` stands for object identity: the program builds
      fresh Point objects for every segment and compares Points by identity. */
  datatype Segment = Segment(id: nat, left: Point, right: Point) {
    predicate IsVertical() { left.x == right.x }
  }

  function SlopeOf(s: Segment): (r: Slope)
    ensures r.Vertical? <==> s.IsVertical()
  {
    if s.left.x != s.right.x then Finite((s.right.y - s.left.y) / (s.right.x - s.left.x)) else Vertical
  }

  /** The y-intercept; for a vertical segment the program's value is inf or nan and is never used
      by a computation that does not raise, so it is left undefined here. */
  function InterceptOf(s: Segment): (b: real)
    requires !s.IsVertical()
    ensures b == s.right.y - SlopeOf(s).m * s.right.x
  {
    var m := SlopeOf(s).m;
    assert m * (s.right.x - s.left.x) == s.right.y - s.left.y;
    s.left.y - m * s.left.x
  }

  /** y of the line through a non-vertical segment at abscissa x. */
  function LineAt(s: Segment, x: real): real
    requires !s.IsVertical()
  {
    SlopeOf(s).m * x + InterceptOf(s)
  }

  /** p lies on the infinite line through s (cross-product form, independent of slope and intercept). */
  predicate Collinear(s: Segment, p: Point) {
    (p.y - s.left.y) * (s.right.x - s.left.x) == (s.right.y - s.left.y) * (p.x - s.left.x)
  }

  /** x lies within the segment's x-range. */
  predicate InXRange(s: Segment, x: real) {
    Min(s.left.x, s.right.x) <= x <= Max(s.left.x, s.right.x)
  }

  function Min(a: real, b: real): real { if a <= b then a else b }
  function Max(a: real, b: real): real { if a <= b then b else a }

  /** Both endpoints satisfy y = slope * x + intercept, and the line form agrees with the
      cross-product form everywhere: slope and intercept describe the segment's line. */
  lemma SlopeInterceptDescribeLine(s: Segment, p: Point)
    requires !s.IsVertical()
    ensures s.left.y == LineAt(s, s.left.x) && s.right.y == LineAt(s, s.right.x)
    ensures p.y == LineAt(s, p.x) <==> Collinear(s, p)
  {
    var dx := s.right.x - s.left.x;
    var dy := s.right.y - s.left.y;
    var m := SlopeOf(s).m;
    assert m * dx == dy;
    assert LineAt(s, p.x) - s.left.y == m * (p.x - s.left.x);
    calc {
      (LineAt(s, p.x) - s.left.y) * dx;
      m * (p.x - s.left.x) * dx;
      (m * dx) * (p.x - s.left.x);
      dy * (p.x - s.left.x);
    }
    if p.y != LineAt(s, p.x) {
      assert (p.y - s.left.y) * dx != (LineAt(s, p.x) - s.left.y) * dx;
    }
    assert LineAt(s, s.right.x) - s.left.y == m * dx;
  }

  /** 10 to the power p. */
  function Pow10(p: nat): (r: nat)
    ensures r >= 1
  {
    if p == 0 then 1 else 10 * Pow10(p - 1)
  }

  /** The smallest step of p decimals, 10^-p. */
  function Unit(p: nat): (u: real)
    ensures u > 0.0
  {
    1.0 / (Pow10(p) as real)
  }

  /** round_float: floor-based rounding to `precision` decimals. The result is a whole multiple
      of 10^-p at most 10^-p below the value (so it is the floor), zero exactly on [0, 10^-p) and
      positive exactly from 10^-p on. */
  function RoundFloat(value: real, precision: nat): (r: real)
    ensures r <= value < r + Unit(precision)
    ensures r == 0.0 <==> 0.0 <= value < Unit(precision)
    ensures r > 0.0 <==> value >= Unit(precision)
    ensures r * Scale(precision) == (value * Scale(precision)).Floor as real
    ensures (r * Scale(precision)).Floor as real == r * Scale(precision)
  {
    var f := (value * Scale(precision)).Floor;
    FloorRounding(value, Scale(precision), Unit(precision), f, (f as real) / Scale(precision));
    (f as real) / Scale(precision)
  }

  /** The facts behind RoundFloat, for a scale s = 10^p and its unit u = 10^-p. */
  lemma FloorRounding(value: real, s: real, u: real, f: int, r: real)
    requires s > 0.0 && u == 1.0 / s && f == (value * s).Floor && r == (f as real) / s
    ensures r <= value < r + u
    ensures r == 0.0 <==> 0.0 <= value < u
    ensures r > 0.0 <==> value >= u
    ensures r * s == f as real && (r * s).Floor == f
  {
    ScaledFloorBounds(f as real, value, s);
    DivisionSign(f as real, s);
    ScaledComparison(value, s, u);
  }

  /** 10^p as a real. */
  function Scale(p: nat): (s: real)
    ensures s >= 1.0
  {
    Pow10(p) as real
  }

  lemma ScaledFloorBounds(a: real, v: real, s: real)
    requires s > 0.0 && a <= v * s < a + 1.0
    ensures a / s <= v < a / s + 1.0 / s
  {
    assert a / s * s == a;
    assert (a + 1.0) / s * s == a + 1.0;
    assert a / s + 1.0 / s == (a + 1.0) / s;
  }

  lemma DivisionSign(a: real, s: real)
    requires s > 0.0
    ensures a / s == 0.0 <==> a == 0.0
    ensures a / s > 0.0 <==> a > 0.0
  {
    assert a / s * s == a;
  }

  lemma ScaledComparison(v: real, s: real, u: real)
    requires s > 0.0 && u == 1.0 / s
    ensures v * s < 1.0 <==> v < u
    ensures v * s >= 1.0 <==> v >= u
    ensures 0.0 <= v * s <==> 0.0 <= v
  {
    var w := v * s;
    assert u * s == 1.0;
    var d := (v - u) * s;
    assert d == w - u * s;
    assert d == w - 1.0;
    if v < u {
      assert d < 0.0;
    } else {
      assert d >= 0.0;
    }
  }

  /** The comparator's tie-break, self.slope > other.slope, for a non-vertical `other`. */
  predicate SteeperThan(self: Segment, other: Segment)
    requires !other.IsVertical()
  {
    match SlopeOf(self)
    case Vertical => true
    case Finite(a) => a > SlopeOf(other).m
  }

  /** The signed vertical offset of `key` from the line through `other`. */
  function Offset(key: Point, other: Segment): (d: real)
    requires !other.IsVertical()
    ensures d == key.y - LineAt(other, key.x)
    ensures d == 0.0 <==> Collinear(other, key)
  {
    SlopeInterceptDescribeLine(other, key);
    key.y - key.x * SlopeOf(other).m - InterceptOf(other)
  }

  /** The rounding precision of the comparator. */
  const Precision: nat := 5

  /** Segment.__lt__ with self's key given explicitly: self sorts before other when its key
      lies at least 10^-5 above other's line, or within [0, 10^-5) of it and self is steeper.
      Against a vertical `other` the offset is nan or infinite and math.floor raises. */
  function Less(self: Segment, key: Point, other: Segment): (r: Result<bool>)
    ensures r.Failure? <==> other.IsVertical()
    ensures r.Success? ==>
      (r.value <==> Offset(key, other) >= Unit(Precision)
                    || (0.0 <= Offset(key, other) < Unit(Precision) && SteeperThan(self, other)))
  {
    if other.IsVertical() then Failure(FloorOfNonFinite)
    else
      var v := RoundFloat(Offset(key, other), Precision);
      if v == 0.0 then Success(SteeperThan(self, other)) else Success(v > 0.0)
  }

  /** A key on a non-vertical segment's own line (its left endpoint, the constructor's initial key)
      does not sort the segment before itself; a vertical segment cannot be compared at all. */
  lemma LessIrreflexive(s: Segment, key: Point)
    requires !s.IsVertical() ==> Collinear(s, key)
    ensures !s.IsVertical() ==> Less(s, key, s) == Success(false)
    ensures s.IsVertical() ==> Less(s, key, s).Failure?
  {
    if !s.IsVertical() {
      SlopeInterceptDescribeLine(s, key);
      assert Offset(key, s) == 0.0;
    }
  }

  /** The constructor's initial key, the left endpoint, is on the segment's line. */
  lemma LeftEndpointCollinear(s: Segment)
    ensures Collinear(s, s.left)
  {
  }

  /** The point where the lines through two non-parallel segments meet, as do_intersect
      computes it: directly at a vertical segment's x, otherwise by solving both line equations. */
  function LineCrossing(l1: Segment, l2: Segment): Point
    requires !(l1.IsVertical() && l2.IsVertical()) && SlopeOf(l1) != SlopeOf(l2)
  {
    if l1.IsVertical() then
      Point(l1.left.x, SlopeOf(l2).m * l1.left.x + InterceptOf(l2))
    else if l2.IsVertical() then
      Point(l2.left.x, SlopeOf(l1).m * l2.left.x + InterceptOf(l1))
    else
      var x := (InterceptOf(l2) - InterceptOf(l1)) / (SlopeOf(l1).m - SlopeOf(l2).m);
      Point(x, SlopeOf(l1).m * x + InterceptOf(l1))
  }

  /** do_intersect: intersect the two lines and keep the point if its x is in both x-ranges. */
  function DoIntersect(l1: Segment, l2: Segment): (r: Option<Point>)
    ensures (l1.IsVertical() && l2.IsVertical()) || SlopeOf(l1) == SlopeOf(l2) ==> r.None?
    ensures r.Some? ==> InXRange(l1, r.value.x) && InXRange(l2, r.value.x)
    ensures r.Some? && l1.IsVertical() ==> r.value.x == l1.left.x && r.value.y == LineAt(l2, r.value.x)
    ensures r.Some? && l2.IsVertical() ==> r.value.x == l2.left.x && r.value.y == LineAt(l1, r.value.x)
  {
    if (l1.IsVertical() && l2.IsVertical()) || SlopeOf(l1) == SlopeOf(l2) then None
    else
      var p := LineCrossing(l1, l2);
      if InXRange(l1, p.x) && InXRange(l2, p.x) then Some(p) else None
  }

  /** Two non-vertical, non-parallel lines meet where their line equations agree. */
  lemma CrossingOfLines(l1: Segment, l2: Segment)
    requires !l1.IsVertical() && !l2.IsVertical() && SlopeOf(l1) != SlopeOf(l2)
    ensures var x := (InterceptOf(l2) - InterceptOf(l1)) / (SlopeOf(l1).m - SlopeOf(l2).m);
            LineAt(l1, x) == LineAt(l2, x)
  {
    var m1, m2, b1, b2 := SlopeOf(l1).m, SlopeOf(l2).m, InterceptOf(l1), InterceptOf(l2);
    var x := (b2 - b1) / (m1 - m2);
    assert (m1 - m2) * x == b2 - b1;
    assert m1 * x + b1 - (m2 * x + b2) == (m1 - m2) * x - (b2 - b1);
  }

  /** A point returned by do_intersect lies on both infinite lines. */
  lemma DoIntersectOnBothLines(l1: Segment, l2: Segment)
    requires DoIntersect(l1, l2).Some?
    ensures Collinear(l1, DoIntersect(l1, l2).value) && Collinear(l2, DoIntersect(l1, l2).value)
  {
    var p := DoIntersect(l1, l2).value;
    if l1.IsVertical() {
      SlopeInterceptDescribeLine(l2, p);
    } else if l2.IsVertical() {
      SlopeInterceptDescribeLine(l1, p);
    } else {
      CrossingOfLines(l1, l2);
      SlopeInterceptDescribeLine(l1, p);
      SlopeInterceptDescribeLine(l2, p);
    }
  }

  /** Conversely, a point on both lines, inside both x-ranges, of two non-parallel segments that
      are not single points, is exactly what do_intersect returns. */
  lemma DoIntersectComplete(l1: Segment, l2: Segment, p: Point)
    requires l1.left != l1.right && l2.left != l2.right
    requires !(l1.IsVertical() && l2.IsVertical()) && SlopeOf(l1) != SlopeOf(l2)
    requires Collinear(l1, p) && Collinear(l2, p)
    requires InXRange(l1, p.x) && InXRange(l2, p.x)
    ensures DoIntersect(l1, l2) == Some(p)
  {
    if l1.IsVertical() {
      VerticalCrossing(l1, l2, p);
    } else if l2.IsVertical() {
      VerticalCrossing(l2, l1, p);
      DoIntersectSymmetric(l1, l2);
    } else {
      SlopedCrossing(l1, l2, p);
    }
  }

  /** The case of DoIntersectComplete where the first segment is vertical. */
  lemma VerticalCrossing(l1: Segment, l2: Segment, p: Point)
    requires l1.left != l1.right && l1.IsVertical() && !l2.IsVertical()
    requires Collinear(l1, p) && Collinear(l2, p)
    requires InXRange(l1, p.x) && InXRange(l2, p.x)
    ensures DoIntersect(l1, l2) == Some(p)
  {
    assert (l1.right.y - l1.left.y) * (p.x - l1.left.x) == 0.0;
    assert p.x == l1.left.x;
    SlopeInterceptDescribeLine(l2, p);
  }

  /** The case of DoIntersectComplete where neither segment is vertical. */
  lemma SlopedCrossing(l1: Segment, l2: Segment, p: Point)
    requires !l1.IsVertical() && !l2.IsVertical() && SlopeOf(l1) != SlopeOf(l2)
    requires Collinear(l1, p) && Collinear(l2, p)
    requires InXRange(l1, p.x) && InXRange(l2, p.x)
    ensures DoIntersect(l1, l2) == Some(p)
  {
    SlopeInterceptDescribeLine(l1, p);
    SlopeInterceptDescribeLine(l2, p);
    var m1, m2, b1, b2 := SlopeOf(l1).m, SlopeOf(l2).m, InterceptOf(l1), InterceptOf(l2);
    assert m1 * p.x + b1 == m2 * p.x + b2;
    assert (m1 - m2) * p.x == b2 - b1;
    var x := (b2 - b1) / (m1 - m2);
    assert p.x == x;
    assert p == LineCrossing(l1, l2);
  }

  /** do_intersect does not depend on the order of its arguments. */
  lemma DoIntersectSymmetric(l1: Segment, l2: Segment)
    ensures DoIntersect(l1, l2) == DoIntersect(l2, l1)
  {
    if !l1.IsVertical() && !l2.IsVertical() && SlopeOf(l1) != SlopeOf(l2) {
      var m1, m2, b1, b2 := SlopeOf(l1).m, SlopeOf(l2).m, InterceptOf(l1), InterceptOf(l2);
      var x := (b2 - b1) / (m1 - m2);
      assert (b1 - b2) / (m2 - m1) == x;
      CrossingOfLines(l1, l2);
      assert m1 * x + b1 == m2 * x + b2;
      assert LineCrossing(l1, l2) == LineCrossing(l2, l1);
    }
  }

  /** A segment never intersects itself: its slope equals its own slope. */
  lemma NoSelfIntersection(s: Segment)
    ensures DoIntersect(s, s).None?
  {
  }
}
