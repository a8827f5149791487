/** The brute-force checker: the same line intersection test on start/end segments and an
    enumeration of every unordered pair. */
module BruteForce {
  import opened Base
  import G = Geometry

  datatype LineSegment = LineSegment(start: G.Point, end: G.Point) {
    predicate IsVertical() { start.x == end.x }
  }

  function SlopeOf(l: LineSegment): (r: G.Slope)
    ensures r.Vertical? <==> l.IsVertical()
  {
    if l.start.x != l.end.x then G.Finite((l.end.y - l.start.y) / (l.end.x - l.start.x)) else G.Vertical
  }

  /** The y-intercept; measured from either endpoint it is the same. */
  function InterceptOf(l: LineSegment): (b: real)
    requires !l.IsVertical()
    ensures b == l.end.y - SlopeOf(l).m * l.end.x
  {
    var m := SlopeOf(l).m;
    assert m * (l.end.x - l.start.x) == l.end.y - l.start.y;
    l.start.y - m * l.start.x
  }

  /** y of the line through a non-vertical segment at abscissa x. */
  function LineAt(l: LineSegment, x: real): real
    requires !l.IsVertical()
  {
    SlopeOf(l).m * x + InterceptOf(l)
  }

  predicate InXRange(l: LineSegment, x: real) {
    G.Min(l.start.x, l.end.x) <= x <= G.Max(l.start.x, l.end.x)
  }

  /** Where the lines through two non-parallel segments meet, computed as `intersection` does. */
  function LinesMeet(l1: LineSegment, l2: LineSegment): G.Point
    requires !(l1.IsVertical() && l2.IsVertical()) && SlopeOf(l1) != SlopeOf(l2)
  {
    if l1.IsVertical() then
      G.Point(l1.start.x, SlopeOf(l2).m * l1.start.x + InterceptOf(l2))
    else if l2.IsVertical() then
      G.Point(l2.start.x, SlopeOf(l1).m * l2.start.x + InterceptOf(l1))
    else
      var x := (InterceptOf(l2) - InterceptOf(l1)) / (SlopeOf(l1).m - SlopeOf(l2).m);
      G.Point(x, SlopeOf(l1).m * x + InterceptOf(l1))
  }

  /** intersection: None for two vertical or equally sloped segments and for a meeting point
      outside either x-range; otherwise the point where the two line equations agree. */
  function Intersection(l1: LineSegment, l2: LineSegment): (r: Option<G.Point>)
    ensures (l1.IsVertical() && l2.IsVertical()) || SlopeOf(l1) == SlopeOf(l2) ==> r.None?
    ensures r.Some? ==> InXRange(l1, r.value.x) && InXRange(l2, r.value.x)
  {
    if (l1.IsVertical() && l2.IsVertical()) || SlopeOf(l1) == SlopeOf(l2) then None
    else
      var p := LinesMeet(l1, l2);
      if InXRange(l1, p.x) && InXRange(l2, p.x) then Some(p) else None
  }

  /** Solving m1*x + b1 = m2*x + b2 for x. */
  lemma SolveLines(m1: real, m2: real, b1: real, b2: real)
    requires m1 != m2
    ensures var x := (b2 - b1) / (m1 - m2); m1 * x + b1 == m2 * x + b2
  {
    var x := (b2 - b1) / (m1 - m2);
    assert (m1 - m2) * x == b2 - b1;
    assert m1 * x + b1 - (m2 * x + b2) == (m1 - m2) * x - (b2 - b1);
  }

  /** Where the lines meet: in the non-vertical case the point solves
      slope1*x + intercept1 = slope2*x + intercept2 and its y is slope1*x + intercept1; with one
      vertical segment it sits at that segment's x on the other line. */
  lemma LinesMeetSolves(l1: LineSegment, l2: LineSegment)
    requires !(l1.IsVertical() && l2.IsVertical()) && SlopeOf(l1) != SlopeOf(l2)
    ensures var p := LinesMeet(l1, l2);
      && (!l1.IsVertical() && !l2.IsVertical() ==> LineAt(l1, p.x) == LineAt(l2, p.x) && p.y == LineAt(l1, p.x))
      && (l1.IsVertical() ==> p.x == l1.start.x && p.y == LineAt(l2, p.x))
      && (l2.IsVertical() ==> p.x == l2.start.x && p.y == LineAt(l1, p.x))
  {
    if !l1.IsVertical() && !l2.IsVertical() {
      SlopedLinesMeet(l1, l2);
    }
  }

  lemma SlopedLinesMeet(l1: LineSegment, l2: LineSegment)
    requires !l1.IsVertical() && !l2.IsVertical() && SlopeOf(l1) != SlopeOf(l2)
    ensures var p := LinesMeet(l1, l2); LineAt(l1, p.x) == LineAt(l2, p.x) && p.y == LineAt(l1, p.x)
  {
    var m1, m2, b1, b2 := SlopeOf(l1).m, SlopeOf(l2).m, InterceptOf(l1), InterceptOf(l2);
    var x := (b2 - b1) / (m1 - m2);
    SolveLines(m1, m2, b1, b2);
    assert LinesMeet(l1, l2) == G.Point(x, m1 * x + b1);
    assert LineAt(l1, x) == m1 * x + b1;
    assert LineAt(l2, x) == m2 * x + b2;
  }

  /** The same for a point intersection reports. */
  lemma IntersectionSolvesLines(l1: LineSegment, l2: LineSegment)
    requires Intersection(l1, l2).Some?
    ensures var p := Intersection(l1, l2).value;
      && (!l1.IsVertical() && !l2.IsVertical() ==> LineAt(l1, p.x) == LineAt(l2, p.x) && p.y == LineAt(l1, p.x))
      && (l1.IsVertical() ==> p.x == l1.start.x && p.y == LineAt(l2, p.x))
      && (l2.IsVertical() ==> p.x == l2.start.x && p.y == LineAt(l1, p.x))
  {
    LinesMeetSolves(l1, l2);
    assert Intersection(l1, l2).value == LinesMeet(l1, l2);
  }

  /** The checker's segment for a sweep segment with the same endpoints. */
  function FromSegment(s: G.Segment): LineSegment {
    LineSegment(s.left, s.right)
  }

  function FromSegments(arr: seq<G.Segment>): (r: seq<LineSegment>)
    ensures |r| == |arr| && forall i :: 0 <= i < |arr| ==> r[i] == FromSegment(arr[i])
  {
    seq(|arr|, i requires 0 <= i < |arr| => FromSegment(arr[i]))
  }

  /** intersection agrees with do_intersect on segments with the same endpoints. */
  lemma IntersectionAgreesWithDoIntersect(a: G.Segment, b: G.Segment)
    ensures Intersection(FromSegment(a), FromSegment(b)) == G.DoIntersect(a, b)
  {
    var l1, l2 := FromSegment(a), FromSegment(b);
    assert SlopeOf(l1) == G.SlopeOf(a) && SlopeOf(l2) == G.SlopeOf(b);
    if !(a.IsVertical() && b.IsVertical()) && G.SlopeOf(a) != G.SlopeOf(b) {
      assert !a.IsVertical() ==> InterceptOf(l1) == G.InterceptOf(a);
      assert !b.IsVertical() ==> InterceptOf(l2) == G.InterceptOf(b);
      assert LinesMeet(l1, l2) == G.LineCrossing(a, b);
    }
  }

  /** The segment with its endpoints given the other way round. */
  function Reversed(l: LineSegment): LineSegment {
    LineSegment(l.end, l.start)
  }

  lemma ReversedSameLine(l: LineSegment)
    ensures SlopeOf(Reversed(l)) == SlopeOf(l)
    ensures !l.IsVertical() ==> InterceptOf(Reversed(l)) == InterceptOf(l)
  {
    if !l.IsVertical() {
      var dx, dy := l.end.x - l.start.x, l.end.y - l.start.y;
      var m, m' := SlopeOf(l).m, SlopeOf(Reversed(l)).m;
      assert m * dx == dy;
      assert m' * (-dx) == -dy;
      assert (m' - m) * dx == 0.0;
      assert l.end.y - m * l.end.x == l.start.y - m * l.start.x;
    }
  }

  /** intersection does not depend on which endpoint is `start`: normalising the input, as the
      checker's main does, changes no result. */
  lemma IntersectionIgnoresOrientation(l1: LineSegment, l2: LineSegment)
    ensures Intersection(Reversed(l1), l2) == Intersection(l1, l2)
    ensures Intersection(l1, Reversed(l2)) == Intersection(l1, l2)
  {
    ReversedSameLine(l1);
    ReversedSameLine(l2);
    if !(l1.IsVertical() && l2.IsVertical()) && SlopeOf(l1) != SlopeOf(l2) {
      ReversedMeetsAlike(l1, l2);
    }
  }

  /** LinesMeet reads only the slopes and intercepts, and a vertical segment's x. */
  lemma MeetsAlike(l1: LineSegment, l2: LineSegment, r1: LineSegment, r2: LineSegment)
    requires !(l1.IsVertical() && l2.IsVertical()) && SlopeOf(l1) != SlopeOf(l2)
    requires SlopeOf(r1) == SlopeOf(l1) && SlopeOf(r2) == SlopeOf(l2)
    requires l1.IsVertical() ==> r1.start.x == l1.start.x
    requires l2.IsVertical() ==> r2.start.x == l2.start.x
    requires !l1.IsVertical() ==> InterceptOf(r1) == InterceptOf(l1)
    requires !l2.IsVertical() ==> InterceptOf(r2) == InterceptOf(l2)
    ensures LinesMeet(r1, r2) == LinesMeet(l1, l2)
  {
    if l1.IsVertical() {
      MeetsAlikeAtVertical(l1, l2, r1, r2);
    } else if l2.IsVertical() {
      MeetsAlikeAtVertical(l2, l1, r2, r1);
      assert LinesMeet(r1, r2) == G.Point(r2.start.x, SlopeOf(r1).m * r2.start.x + InterceptOf(r1));
    } else {
      MeetsAlikeSloped(l1, l2, r1, r2);
    }
  }

  lemma MeetsAlikeSloped(l1: LineSegment, l2: LineSegment, r1: LineSegment, r2: LineSegment)
    requires !l1.IsVertical() && !l2.IsVertical() && SlopeOf(l1) != SlopeOf(l2)
    requires SlopeOf(r1) == SlopeOf(l1) && SlopeOf(r2) == SlopeOf(l2)
    requires InterceptOf(r1) == InterceptOf(l1) && InterceptOf(r2) == InterceptOf(l2)
    ensures LinesMeet(r1, r2) == LinesMeet(l1, l2)
  {
    var m1, m2, b1, b2 := SlopeOf(l1).m, SlopeOf(l2).m, InterceptOf(l1), InterceptOf(l2);
    var x := (b2 - b1) / (m1 - m2);
    assert LinesMeet(l1, l2) == G.Point(x, m1 * x + b1);
    assert LinesMeet(r1, r2) == G.Point(x, m1 * x + b1);
  }

  lemma MeetsAlikeAtVertical(l1: LineSegment, l2: LineSegment, r1: LineSegment, r2: LineSegment)
    requires l1.IsVertical() && !l2.IsVertical()
    requires r1.IsVertical() && r1.start.x == l1.start.x
    requires SlopeOf(r2) == SlopeOf(l2) && InterceptOf(r2) == InterceptOf(l2)
    ensures LinesMeet(r1, r2) == LinesMeet(l1, l2) ==
      G.Point(l1.start.x, SlopeOf(l2).m * l1.start.x + InterceptOf(l2))
  {
  }

  lemma ReversedMeetsAlike(l1: LineSegment, l2: LineSegment)
    requires !(l1.IsVertical() && l2.IsVertical()) && SlopeOf(l1) != SlopeOf(l2)
    requires SlopeOf(Reversed(l1)) == SlopeOf(l1) && SlopeOf(Reversed(l2)) == SlopeOf(l2)
    requires !l1.IsVertical() ==> InterceptOf(Reversed(l1)) == InterceptOf(l1)
    requires !l2.IsVertical() ==> InterceptOf(Reversed(l2)) == InterceptOf(l2)
    ensures LinesMeet(Reversed(l1), l2) == LinesMeet(l1, l2)
    ensures LinesMeet(l1, Reversed(l2)) == LinesMeet(l1, l2)
  {
    MeetsAlike(l1, l2, Reversed(l1), l2);
    MeetsAlike(l1, l2, l1, Reversed(l2));
  }

  /** The test the loops apply to index pair (i, j): `intersection` of the two segments. */
  function Tester(segs: seq<LineSegment>): (nat, nat) -> Option<G.Point> {
    (i: nat, j: nat) => if i < |segs| && j < |segs| then Intersection(segs[i], segs[j]) else None
  }

  /** The points the inner loop appends for outer index i while j runs over 0 .. j-1. */
  function Row(test: (nat, nat) -> Option<G.Point>, i: nat, j: nat): seq<G.Point> {
    if j == 0 then []
    else Row(test, i, j - 1) + (if i < j - 1 && test(i, j - 1).Some? then [test(i, j - 1).value] else [])
  }

  /** The points appended by the first i rounds of the outer loop over n segments, in (i, j) order. */
  function Rows(test: (nat, nat) -> Option<G.Point>, n: nat, i: nat): seq<G.Point> {
    if i == 0 then [] else Rows(test, n, i - 1) + Row(test, i - 1, n)
  }

  /** What find_all_intersections returns. */
  function AllIntersections(segs: seq<LineSegment>): seq<G.Point> {
    Rows(Tester(segs), |segs|, |segs|)
  }

  /** find_all_intersections: both loops run over every index; only pairs with i < j are
      tested, and every non-None result is appended. */
  method FindAllIntersections(segs: seq<LineSegment>) returns (points: seq<G.Point>)
    ensures points == AllIntersections(segs)
  {
    points := [];
    for i := 0 to |segs|
      invariant points == Rows(Tester(segs), |segs|, i)
    {
      points := TestRow(segs, i, points);
    }
  }

  /** The inner loop of find_all_intersections for outer index i. */
  method TestRow(segs: seq<LineSegment>, i: nat, points: seq<G.Point>) returns (out: seq<G.Point>)
    ensures out == points + Row(Tester(segs), i, |segs|)
  {
    ghost var test := Tester(segs);
    out := points;
    for j := 0 to |segs|
      invariant out == points + Row(test, i, j)
    {
      if i < j {
        var hit := Intersection(segs[i], segs[j]);
        assert hit == test(i, j);
        if hit.Some? {
          out := out + [hit.value];
        }
      }
    }
  }

  /** Pair (a, b) with a < b is tested and yields p. */
  predicate FoundAt(segs: seq<LineSegment>, a: int, b: int, p: G.Point) {
    0 <= a < b < |segs| && Intersection(segs[a], segs[b]) == Some(p)
  }

  /** The same for any test over n indices. */
  predicate Yields(test: (nat, nat) -> Option<G.Point>, n: nat, a: int, b: int, p: G.Point) {
    0 <= a < b < n && test(a, b) == Some(p)
  }

  /** A point of row i was yielded by some pair (i, k) with k < j. */
  lemma {:induction false} RowYielded(test: (nat, nat) -> Option<G.Point>, i: nat, j: nat, p: G.Point) returns (k: nat)
    requires p in Row(test, i, j)
    ensures Yields(test, j, i, k, p)
  {
    var last := if i < j - 1 && test(i, j - 1).Some? then [test(i, j - 1).value] else [];
    assert Row(test, i, j) == Row(test, i, j - 1) + last;
    if p in Row(test, i, j - 1) {
      k := RowYielded(test, i, j - 1, p);
    } else {
      k := j - 1;
    }
  }

  /** Every pair (i, k) with k < j that yields p puts p in row i. */
  lemma {:induction false} YieldedInRow(test: (nat, nat) -> Option<G.Point>, i: nat, j: nat, k: nat, p: G.Point)
    requires Yields(test, j, i, k, p)
    ensures p in Row(test, i, j)
  {
    var last := if i < j - 1 && test(i, j - 1).Some? then [test(i, j - 1).value] else [];
    assert Row(test, i, j) == Row(test, i, j - 1) + last;
    if k < j - 1 {
      YieldedInRow(test, i, j - 1, k, p);
    } else {
      assert p in last;
    }
  }

  /** A point of the first i rows was yielded by a pair (a, b) with a < i. */
  lemma {:induction false} RowsYielded(test: (nat, nat) -> Option<G.Point>, n: nat, i: nat, p: G.Point) returns (a: nat, b: nat)
    requires p in Rows(test, n, i)
    ensures a < i && Yields(test, n, a, b, p)
  {
    var earlier, row := Rows(test, n, i - 1), Row(test, i - 1, n);
    assert Rows(test, n, i) == earlier + row;
    if p in earlier {
      a, b := RowsYielded(test, n, i - 1, p);
    } else {
      a := i - 1;
      b := RowYielded(test, i - 1, n, p);
    }
  }

  /** Every pair (a, b) with a < i that yields p puts p in the first i rows. */
  lemma {:induction false} YieldedInRows(test: (nat, nat) -> Option<G.Point>, n: nat, i: nat, a: nat, b: nat, p: G.Point)
    requires a < i && Yields(test, n, a, b, p)
    ensures p in Rows(test, n, i)
  {
    var earlier, row := Rows(test, n, i - 1), Row(test, i - 1, n);
    assert Rows(test, n, i) == earlier + row;
    if a == i - 1 {
      YieldedInRow(test, i - 1, n, b, p);
      assert p in row;
    } else {
      YieldedInRows(test, n, i - 1, a, b, p);
      assert p in earlier;
    }
  }

  /** The result holds exactly the non-None intersections of pairs i < j. */
  lemma AllIntersectionsMembers(segs: seq<LineSegment>, p: G.Point)
    ensures p in AllIntersections(segs) <==> exists i, j :: FoundAt(segs, i, j, p)
  {
    var test, n := Tester(segs), |segs|;
    if p in AllIntersections(segs) {
      var a, b := RowsYielded(test, n, n, p);
      assert FoundAt(segs, a, b, p);
    }
    if exists i, j :: FoundAt(segs, i, j, p) {
      var a, b :| FoundAt(segs, a, b, p);
      assert Yields(test, n, a, b, p);
      YieldedInRows(test, n, n, a, b, p);
    }
  }

  lemma {:induction false} RowLength(test: (nat, nat) -> Option<G.Point>, i: nat, j: nat)
    ensures |Row(test, i, j)| <= if j > i then j - i - 1 else 0
  {
    if j > 0 {
      RowLength(test, i, j - 1);
    }
  }

  lemma {:induction false} RowsLength(test: (nat, nat) -> Option<G.Point>, n: nat, i: nat)
    requires i <= n
    ensures 2 * |Rows(test, n, i)| <= i * (2 * n - i - 1)
  {
    if i > 0 {
      RowsLength(test, n, i - 1);
      RowLength(test, i - 1, n);
      assert 2 * |Rows(test, n, i)| <= (i - 1) * (2 * n - i) + 2 * (n - i);
      assert (i - 1) * (2 * n - i) + 2 * (n - i) == i * (2 * n - i - 1);
    }
  }

  /** Every unordered pair is tested once: at most n(n-1)/2 points, none for fewer than two segments. */
  lemma AllIntersectionsCount(segs: seq<LineSegment>)
    ensures |AllIntersections(segs)| <= |segs| * (|segs| - 1) / 2
    ensures |segs| < 2 ==> AllIntersections(segs) == []
  {
    RowsLength(Tester(segs), |segs|, |segs|);
  }
}
