/** How both programs' main turn the parsed input lines into segments. */
module Input {
  import opened Geometry
  import BruteForce

  /** One parsed input line `x1 y1 x2 y2`. */
  datatype InputLine = InputLine(x1: int, y1: int, x2: int, y2: int)

  function First(l: InputLine): Point { Point(l.x1 as real, l.y1 as real) }
  function Second(l: InputLine): Point { Point(l.x2 as real, l.y2 as real) }

  /** main's endpoint swap: afterwards the first endpoint has the smaller or equal x; the two
      endpoints are the same, and a line already in order is left alone (a vertical segment
      keeps its endpoints as given). */
  function Normalize(l: InputLine): (n: InputLine)
    ensures n.x1 <= n.x2
    ensures multiset{First(n), Second(n)} == multiset{First(l), Second(l)}
    ensures l.x1 <= l.x2 ==> n == l
  {
    if l.x1 > l.x2 then InputLine(l.x2, l.y2, l.x1, l.y1) else l
  }

  lemma NormalizeIdempotent(l: InputLine)
    ensures Normalize(Normalize(l)) == Normalize(l)
  {
  }

  /** The segments of LineSegmentIntersection's main: one per line, with fresh endpoints, so
      the index serves as identity. */
  function Segments(lines: seq<InputLine>): (segs: seq<Segment>)
    ensures |segs| == |lines|
    ensures forall i :: 0 <= i < |lines| ==> segs[i].id == i
    ensures forall i :: 0 <= i < |lines| ==> segs[i].left.x <= segs[i].right.x
    ensures forall i :: 0 <= i < |lines| ==>
      segs[i].left == First(Normalize(lines[i])) && segs[i].right == Second(Normalize(lines[i]))
    ensures forall i :: 0 <= i < |lines| ==>
      multiset{segs[i].left, segs[i].right} == multiset{First(lines[i]), Second(lines[i])}
  {
    seq(|lines|, i requires 0 <= i < |lines| =>
      Segment(i, First(Normalize(lines[i])), Second(Normalize(lines[i]))))
  }

  /** The loop of LineSegmentIntersection's main that builds the segment list. */
  method LoadSegments(lines: seq<InputLine>) returns (segs: seq<Segment>)
    ensures segs == Segments(lines)
  {
    segs := [];
    for i := 0 to |lines|
      invariant segs == Segments(lines)[..i]
    {
      var n := Normalize(lines[i]);
      segs := segs + [Segment(i, First(n), Second(n))];
    }
  }

  /** The segments of BruteForce's main. */
  function LineSegments(lines: seq<InputLine>): (segs: seq<BruteForce.LineSegment>)
    ensures |segs| == |lines|
  {
    seq(|lines|, i requires 0 <= i < |lines| =>
      BruteForce.LineSegment(First(Normalize(lines[i])), Second(Normalize(lines[i]))))
  }

  /** The loop of BruteForce's main that builds the segment list. */
  method LoadLineSegments(lines: seq<InputLine>) returns (segs: seq<BruteForce.LineSegment>)
    ensures segs == LineSegments(lines)
  {
    segs := [];
    for i := 0 to |lines|
      invariant segs == LineSegments(lines)[..i]
    {
      var n := Normalize(lines[i]);
      segs := segs + [BruteForce.LineSegment(First(n), Second(n))];
    }
  }

  /** A vertical segment of the list comes from an input line whose two x coordinates agree. */
  lemma VerticalLineOf(lines: seq<InputLine>, t: Segment) returns (i: nat)
    requires t in Segments(lines) && t.IsVertical()
    ensures i < |lines| && lines[i].x1 == lines[i].x2
  {
    var segs := Segments(lines);
    var k :| 0 <= k < |segs| && segs[k] == t;
    i := k;
    var n := Normalize(lines[i]);
    assert t.left == First(n) && t.right == Second(n);
  }

  /** Both programs see the same segments. */
  lemma SameSegmentsForBoth(lines: seq<InputLine>)
    ensures BruteForce.FromSegments(Segments(lines)) == LineSegments(lines)
  {
  }
}
