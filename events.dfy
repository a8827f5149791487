/** The events of the sweep and their order and equality. */
module Events {
  import opened Geometry

  /** What an event is about: a segment's left endpoint (is_left, not is_intersect), its right
      endpoint (neither), or a crossing of two segments (is_intersect; the program also sets
      is_left there, which no branch reads). */
  datatype Kind =
    | Start(seg: Segment)
    | End(seg: Segment)
    | Crossing(first: Segment, second: Segment)

  datatype Event = Event(x: real, y: real, kind: Kind) {
    predicate IsIntersect() { kind.Crossing? }
  }

  /** What Event.__eq__ looks at: (x, y, is_intersect). */
  datatype EventId = EventId(x: real, y: real, isIntersect: bool)

  function Id(e: Event): EventId {
    EventId(e.x, e.y, e.IsIntersect())
  }

  /** Event.__eq__: the payload and is_left are ignored. */
  predicate Same(a: Event, b: Event) {
    a.x == b.x && a.y == b.y && a.IsIntersect() == b.IsIntersect()
  }

  /** Event.__lt__. */
  predicate Precedes(a: Event, b: Event) {
    if a.x == b.x then a.y < b.y else a.x < b.x
  }

  /** Two events at the same (x, y), in either order of kind. */
  predicate SamePlace(a: Event, b: Event) {
    a.x == b.x && a.y == b.y
  }

  /** __lt__ is the strict lexicographic order on (x, y); events at one place are unordered, and
      equal events are always at one place. */
  lemma PrecedesIsLexicographic(a: Event, b: Event)
    ensures Precedes(a, b) <==> a.x < b.x || (a.x == b.x && a.y < b.y)
    ensures !Precedes(a, b) && !Precedes(b, a) <==> SamePlace(a, b)
    ensures Same(a, b) <==> Id(a) == Id(b)
    ensures Same(a, b) ==> SamePlace(a, b)
  {
  }

  lemma PrecedesTransitive(a: Event, b: Event, c: Event)
    ensures Precedes(a, b) && Precedes(b, c) ==> Precedes(a, c)
    ensures !Precedes(b, a) && !Precedes(c, b) ==> !Precedes(c, a)
  {
  }

  /** A start event and an end event at the same point are equal: the queue keeps only one. */
  lemma EndpointEventsAtOnePointAreEqual(s: Segment, t: Segment)
    requires s.left == t.right
    ensures Same(Event(s.left.x, s.left.y, Start(s)), Event(t.right.x, t.right.y, End(t)))
  {
  }
}
