/** plane_sweep: the event loop over the queue and the sweep status, following the
    program's own index arithmetic, and main's use of it. */
module PlaneSweep {
  import opened Base
  import opened Geometry
  import opened Events
  import opened EventQueue
  import opened SweepStatus
  import BruteForce
  import Input

  /** What plane_sweep returns (res, event_order) and the total it prints (ans). */
  datatype SweepResult = SweepResult(intersections: seq<Point>, eventOrder: seq<Event>, count: nat)

  /** An event the program can create from its input: endpoint events carry their segment's
      endpoint, crossing events the do_intersect point of their two segments. */
  ghost predicate FromInput(arr: seq<Segment>, e: Event) {
    match e.kind
    case Start(s) => s in arr && e.x == s.left.x && e.y == s.left.y
    case End(s) => s in arr && e.x == s.right.x && e.y == s.right.y
    case Crossing(a, b) => a in arr && b in arr && DoIntersect(a, b) == Some(Point(e.x, e.y))
  }

  function StartId(s: Segment): EventId { EventId(s.left.x, s.left.y, false) }
  function EndId(s: Segment): EventId { EventId(s.right.x, s.right.y, false) }

  /** The (x, y, is_intersect) of every event in the sequence. */
  ghost function Ids(events: seq<Event>): set<EventId> {
    if events == [] then {} else Ids(events[..|events| - 1]) + {Id(events[|events| - 1])}
  }

  lemma {:induction false} IdsMembers(events: seq<Event>, id: EventId)
    ensures id in Ids(events) <==> exists e :: e in events && Id(e) == id
  {
    if events != [] {
      var init, last := events[..|events| - 1], events[|events| - 1];
      assert events == init + [last];
      IdsMembers(init, id);
      if exists e :: e in events && Id(e) == id {
        var e :| e in events && Id(e) == id;
        if e != last {
          assert e in init;
        }
      }
      if id in Ids(init) {
        var e :| e in init && Id(e) == id;
        assert e in events;
      }
    }
  }

  lemma IdsMonotone(a: seq<Event>, b: seq<Event>)
    requires forall e :: e in a ==> e in b
    ensures Ids(a) <= Ids(b)
  {
    forall id | id in Ids(a) ensures id in Ids(b) {
      IdsMembers(a, id);
      IdsMembers(b, id);
    }
  }

  /** SortedSet membership is membership of the event's (x, y, is_intersect). */
  lemma ContainsById(q: seq<Event>, ev: Event)
    ensures Contains(q, ev) <==> Id(ev) in Ids(q)
  {
    IdsMembers(q, Id(ev));
    if Id(ev) in Ids(q) {
      var e :| e in q && Id(e) == Id(ev);
      var i :| 0 <= i < |q| && q[i] == e;
      assert Same(q[i], ev);
    }
    if Contains(q, ev) {
      var i :| 0 <= i < |q| && Same(q[i], ev);
      assert q[i] in q && Id(q[i]) == Id(ev);
    }
  }

  /** Every event the program can ever queue for this input, as __eq__ sees it: a finite set. */
  ghost function Candidates(arr: seq<Segment>): set<EventId> {
    (set s | s in arr :: StartId(s)) + (set s | s in arr :: EndId(s)) +
    (set a, b | a in arr && b in arr && DoIntersect(a, b).Some? ::
       EventId(DoIntersect(a, b).value.x, DoIntersect(a, b).value.y, true))
  }

  lemma CandidateOf(arr: seq<Segment>, e: Event)
    requires FromInput(arr, e)
    ensures Id(e) in Candidates(arr)
  {
    match e.kind
    case Start(s) => assert Id(e) == StartId(s);
    case End(s) => assert Id(e) == EndId(s);
    case Crossing(a, b) =>
      assert Id(e) == EventId(DoIntersect(a, b).value.x, DoIntersect(a, b).value.y, true);
  }

  /** What one branch of the loop may do to the queue: every event it leaves was queued
      before or is a new event of this input strictly right of the current event, and it
      removes no endpoint event (remove is only called on crossing events). */
  ghost predicate QueueStep(arr: seq<Segment>, before: seq<Event>, after: seq<Event>, curr: Event) {
    && (forall e :: e in after ==> e in before || (e.x > curr.x && FromInput(arr, e)))
    && (forall e :: e in before && !e.IsIntersect() ==> e in after)
  }

  lemma QueueStepTransitive(arr: seq<Segment>, a: seq<Event>, b: seq<Event>, c: seq<Event>, curr: Event)
    requires QueueStep(arr, a, b, curr) && QueueStep(arr, b, c, curr)
    ensures QueueStep(arr, a, c, curr)
  {
  }

  /** The segments on the sweep line all come from the input. */
  ghost predicate OnlyInput(arr: seq<Segment>, line: seq<Segment>) {
    forall t :: t in line ==> t in arr
  }

  /** The queue after a branch's guarded add: the crossing event of a and b is added when
      do_intersect finds a point strictly right of the current event. */
  function Scheduled(events: seq<Event>, a: Segment, b: Segment, curr: Event): (r: seq<Event>)
    ensures forall e :: e in events ==> e in r
    ensures forall e :: e in r ==>
      e in events || (e.kind == Crossing(a, b) && e.x > curr.x && DoIntersect(a, b) == Some(Point(e.x, e.y)))
    ensures DoIntersect(a, b).Some? && DoIntersect(a, b).value.x > curr.x ==>
      var p := DoIntersect(a, b).value;
      Contains(r, Event(p.x, p.y, Crossing(a, b)))
    ensures (DoIntersect(a, b).None? || DoIntersect(a, b).value.x <= curr.x) ==> r == events
  {
    match DoIntersect(a, b)
    case Some(p) => if p.x > curr.x then Added(events, Event(p.x, p.y, Crossing(a, b))) else events
    case None => events
  }

  /** The queue after a branch's guarded remove, or None where remove raises: when the test
      fires exactly one queued event goes, otherwise the queue is left as it is. */
  function Cancelled(events: seq<Event>, a: Segment, b: Segment, curr: Event): (r: Option<seq<Event>>)
    ensures r.None? ==> DoIntersect(a, b).Some? && DoIntersect(a, b).value.x > curr.x
    ensures r.Some? ==> forall e :: e in r.value ==> e in events
    ensures r.Some? && DoIntersect(a, b).Some? && DoIntersect(a, b).value.x > curr.x ==>
      |r.value| + 1 == |events|
    ensures (DoIntersect(a, b).None? || DoIntersect(a, b).value.x <= curr.x) ==> r == Some(events)
    ensures DoIntersect(a, b).Some? && DoIntersect(a, b).value.x > curr.x ==>
      var p := DoIntersect(a, b).value;
      var ev := Event(p.x, p.y, Crossing(a, b));
      && (!Contains(events, ev) ==> r.None?)
      && (r.Some? ==> exists e :: e in events && Same(e, ev) && multiset(r.value) + multiset{e} == multiset(events))
  {
    match DoIntersect(a, b)
    case Some(p) => if p.x > curr.x then Discarded(events, Event(p.x, p.y, Crossing(a, b))) else Some(events)
    case None => Some(events)
  }

  /** The guarded add of a crossing event that every branch uses. */
  method Schedule(q: Queue, a: Segment, b: Segment, curr: Event, ghost arr: seq<Segment>)
    requires q.Valid() && a in arr && b in arr
    modifies q
    ensures q.Valid() && QueueStep(arr, old(q.events), q.events, curr)
    ensures q.events == Scheduled(old(q.events), a, b, curr)
  {
    var hit := DoIntersect(a, b);
    if hit.Some? && hit.value.x > curr.x {
      var ev := Event(hit.value.x, hit.value.y, Crossing(a, b));
      AddedIsSortedSet(q.events, ev);
      q.Add(ev);
    }
  }

  /** The same test followed by e.remove(...), which raises when the event cannot be removed. */
  method Cancel(q: Queue, a: Segment, b: Segment, curr: Event, ghost arr: seq<Segment>) returns (r: Outcome)
    requires q.Valid()
    modifies q
    ensures q.Valid() && QueueStep(arr, old(q.events), q.events, curr)
    ensures r.Fail? ==> r.error == NotInQueue
    ensures var c := Cancelled(old(q.events), a, b, curr);
      (r.Pass? <==> c.Some?) && q.events == (if c.Some? then c.value else old(q.events))
  {
    var hit := DoIntersect(a, b);
    r := Pass;
    if hit.Some? && hit.value.x > curr.x {
      var ev := Event(hit.value.x, hit.value.y, Crossing(a, b));
      DiscardedIsSortedSet(q.events, ev);
      var ok := q.Remove(ev);
      if !ok {
        r := Fail(NotInQueue);
      }
    }
  }

  /** The guarded add of the crossing of line[k] with the segment below it, line[k+1], under
      the program's guard `k+1 < len and k+1 != 0`. */
  ghost function ScheduledBelow(q0: seq<Event>, line: seq<Segment>, k: nat, curr: Event): seq<Event>
    requires k < |line|
  {
    if k + 1 < |line| && k + 1 != 0 then Scheduled(q0, line[k], line[k + 1], curr) else q0
  }

  /** The guarded add of the crossing of the segment above line[k], line[k-1], with line[k],
      under the program's guard `0 < k-1 < len`. */
  ghost function ScheduledAbove(q0: seq<Event>, line: seq<Segment>, k: nat, curr: Event): seq<Event>
    requires k < |line|
  {
    if 0 < k - 1 < |line| then Scheduled(q0, line[k - 1], line[k], curr) else q0
  }

  /** The guarded remove of the crossing of line[k-1] with line[k], under `0 < k-1 < len`. */
  ghost function CancelledAbove(q0: seq<Event>, line: seq<Segment>, k: nat, curr: Event): Option<seq<Event>>
    requires k < |line|
  {
    if 0 < k - 1 < |line| then Cancelled(q0, line[k - 1], line[k], curr) else Some(q0)
  }

  /** The guarded remove of the crossing of line[k] with line[k+1], under `k+1 < len and k+1 != 0`. */
  ghost function CancelledBelow(q0: seq<Event>, line: seq<Segment>, k: nat, curr: Event): Option<seq<Event>>
    requires k < |line|
  {
    if k + 1 < |line| && k + 1 != 0 then Cancelled(q0, line[k], line[k + 1], curr) else Some(q0)
  }

  /** The guarded add of the crossing of line[k] with line[k+1]. */
  method ScheduleBelow(q: Queue, s: Sweep, k: nat, curr: Event, ghost arr: seq<Segment>)
    requires q.Valid() && k < |s.line| && OnlyInput(arr, s.line)
    modifies q
    ensures q.Valid() && QueueStep(arr, old(q.events), q.events, curr)
    ensures q.events == ScheduledBelow(old(q.events), s.line, k, curr)
  {
    if k + 1 < s.Length() && k + 1 != 0 {
      var here := s.GetItem(k);
      var next := s.GetItem(k + 1);
      Schedule(q, here, next, curr, arr);
    }
  }

  /** The guarded add of the crossing of line[k-1] with line[k]. */
  method ScheduleAbove(q: Queue, s: Sweep, k: nat, curr: Event, ghost arr: seq<Segment>)
    requires q.Valid() && k < |s.line| && OnlyInput(arr, s.line)
    modifies q
    ensures q.Valid() && QueueStep(arr, old(q.events), q.events, curr)
    ensures q.events == ScheduledAbove(old(q.events), s.line, k, curr)
  {
    if 0 < k - 1 < s.Length() {
      var prev := s.GetItem(k - 1);
      var here := s.GetItem(k);
      Schedule(q, prev, here, curr, arr);
    }
  }

  /** The guarded remove of the crossing of line[k-1] with line[k]; fails where remove raises. */
  method CancelAbove(q: Queue, s: Sweep, k: nat, curr: Event, ghost arr: seq<Segment>) returns (r: Outcome)
    requires q.Valid() && k < |s.line|
    modifies q
    ensures q.Valid() && QueueStep(arr, old(q.events), q.events, curr)
    ensures r.Fail? ==> r.error == NotInQueue
    ensures var c := CancelledAbove(old(q.events), s.line, k, curr);
      (r.Pass? <==> c.Some?) && q.events == (if c.Some? then c.value else old(q.events))
  {
    r := Pass;
    if 0 < k - 1 < s.Length() {
      var prev := s.GetItem(k - 1);
      var here := s.GetItem(k);
      r := Cancel(q, prev, here, curr, arr);
    }
  }

  /** The guarded remove of the crossing of line[k] with line[k+1]; fails where remove raises. */
  method CancelBelow(q: Queue, s: Sweep, k: nat, curr: Event, ghost arr: seq<Segment>) returns (r: Outcome)
    requires q.Valid() && k < |s.line|
    modifies q
    ensures q.Valid() && QueueStep(arr, old(q.events), q.events, curr)
    ensures r.Fail? ==> r.error == NotInQueue
    ensures var c := CancelledBelow(old(q.events), s.line, k, curr);
      (r.Pass? <==> c.Some?) && q.events == (if c.Some? then c.value else old(q.events))
  {
    r := Pass;
    if k + 1 < s.Length() && k + 1 != 0 {
      var here := s.GetItem(k);
      var next := s.GetItem(k + 1);
      r := Cancel(q, here, next, curr, arr);
    }
  }

  /** The queue steps of the start branch for the segment at index cs of the line: the guarded
      add of its crossing with line[cs+1], then of line[cs-1]'s crossing with it, then, when both
      neighbours exist, the guarded remove of the crossing of line[cs-1] and line[cs+1]. The
      guards are the program's (`cs+1 != 0` always holds, and index 0 is never taken as
      line[cs-1]). */
  ghost predicate StartRescheduled(q0: seq<Event>, line: seq<Segment>, cs: nat, curr: Event, r: Outcome, q1: seq<Event>)
    requires cs < |line|
  {
    var qb := ScheduledAbove(ScheduledBelow(q0, line, cs, curr), line, cs, curr);
    if cs + 1 < |line| && cs + 1 != 0 && 0 < cs - 1 < |line| then
      var c := Cancelled(qb, line[cs - 1], line[cs + 1], curr);
      (r.Pass? <==> c.Some?) && q1 == (if c.Some? then c.value else qb)
    else r.Pass? && q1 == qb
  }

  /** The queue step of the end branch after the segment at index k was removed: the guarded add
      of the crossing of the segments now at k-1 and k+1, under the program's guards. */
  ghost predicate EndRescheduled(q0: seq<Event>, line: seq<Segment>, k: nat, curr: Event, q1: seq<Event>) {
    q1 == if k + 1 < |line| && k + 1 != 0 && 0 < k - 1 < |line|
          then Scheduled(q0, line[k - 1], line[k + 1], curr)
          else q0
  }

  /** The three queue steps of the start branch, once the segment is on the line at index cs. */
  method StartNeighbours(q: Queue, s: Sweep, cs: nat, curr: Event, ghost arr: seq<Segment>) returns (r: Outcome)
    requires q.Valid() && cs < |s.line| && OnlyInput(arr, s.line)
    modifies q
    ensures q.Valid() && QueueStep(arr, old(q.events), q.events, curr)
    ensures r.Fail? ==> r.error == NotInQueue
    ensures StartRescheduled(old(q.events), s.line, cs, curr, r, q.events)
  {
    ghost var q0 := q.events;
    ScheduleBelow(q, s, cs, curr, arr);
    ghost var q1 := q.events;
    ScheduleAbove(q, s, cs, curr, arr);
    QueueStepTransitive(arr, q0, q1, q.events, curr);
    ghost var q2 := q.events;
    r := Pass;
    if cs + 1 < s.Length() && cs + 1 != 0 && 0 < cs - 1 < s.Length() {
      var next := s.GetItem(cs + 1);
      var prev := s.GetItem(cs - 1);
      r := Cancel(q, prev, next, curr, arr);
    }
    QueueStepTransitive(arr, q0, q2, q.events, curr);
  }

  /** A start event: insert the segment at its left endpoint, then run the start branch's queue
      steps at the index get_index finds on the new line, as the program computes it. */
  method OnStart(q: Queue, s: Sweep, curr: Event, ghost arr: seq<Segment>) returns (r: Outcome)
    requires q.Valid() && curr.kind.Start? && curr.kind.seg in arr && OnlyInput(arr, s.line)
    modifies q, s
    ensures q.Valid() && QueueStep(arr, old(q.events), q.events, curr) && OnlyInput(arr, s.line)
    ensures s.keys == old(s.keys)[curr.kind.seg.id := Point(curr.x, curr.y)]
    ensures r.Fail? ==> r.error == FloorOfNonFinite || r.error == NotInQueue
    ensures r == Fail(FloorOfNonFinite) ==>
      s.line == old(s.line) && q.events == old(q.events) && exists t :: t in arr && t.IsVertical()
    ensures r != Fail(FloorOfNonFinite) ==>
      exists k: nat :: IsBisectRight(old(s.line), curr.kind.seg, Point(curr.x, curr.y), k) &&
        s.line == old(s.line)[..k] + [curr.kind.seg] + old(s.line)[k..]
    ensures r != Fail(FloorOfNonFinite) ==>
      IndexOf(s.line, curr.kind.seg.id).Some? &&
      StartRescheduled(old(q.events), s.line, IndexOf(s.line, curr.kind.seg.id).value, curr, r, q.events)
    ensures r.Pass? ==> |s.line| == |old(s.line)| + 1
  {
    var seg := curr.kind.seg;
    ghost var line0 := s.line;
    r := s.AddItem(seg, Point(curr.x, curr.y));
    if r.Fail? {
      ghost var i :| 0 <= i < |line0| && line0[i].IsVertical();
      assert line0[i] in arr;
      return;
    }
    assert s.GetIndex(seg).Some? by {
      var k :| 0 <= k < |s.line| && s.line[k] == seg;
    }
    var cs := s.GetIndex(seg).value;
    r := StartNeighbours(q, s, cs, curr, arr);
  }

  /** The start branch compares a new segment with index-1 only from index 2 on. With A from
      (0, 10) to (10, 0) and B from (1, 0) to (10, 10), B's start event puts B below A at index 1
      of the line [A], where neither guard of the branch holds, although the two segments
      cross. */
  lemma StartAtIndexOneSkipsNeighbour()
    ensures var a := Segment(0, Point(0.0, 10.0), Point(10.0, 0.0));
            var b := Segment(1, Point(1.0, 0.0), Point(10.0, 10.0));
            && DoIntersect(a, b) == Some(Point(100.0 / 19.0, 90.0 / 19.0))
            && (forall k: nat :: IsBisectRight([a], b, b.left, k) ==> k == 1)
            && IndexOf([a, b], b.id) == Some(1)
            && !(1 + 1 < |[a, b]|) && !(0 < 1 - 1)
  {
    var a := Segment(0, Point(0.0, 10.0), Point(10.0, 0.0));
    var b := Segment(1, Point(1.0, 0.0), Point(10.0, 10.0));
    assert Offset(b.left, a) == -9.0;
    assert Less(b, b.left, a) == Success(false);
  }

  /** When one segment starts where another ends, the first loop of plane_sweep keeps only one
      event there. For A from (1, 1) to (2, 2) and B from (2, 2) to (3, 3), the queue built by
      the four adds holds no start event of B, so B never enters the line. The end branch's
      contract then makes B's end event fail with NotInSweep. */
  lemma SharedEndpointDropsStart()
    ensures var a := Segment(0, Point(1.0, 1.0), Point(2.0, 2.0));
            var b := Segment(1, Point(2.0, 2.0), Point(3.0, 3.0));
            var q := Added(Added(Added(Added([], Event(1.0, 1.0, Start(a))), Event(2.0, 2.0, End(a))),
                                 Event(2.0, 2.0, Start(b))), Event(3.0, 3.0, End(b)));
            && q == [Event(1.0, 1.0, Start(a)), Event(2.0, 2.0, End(a)), Event(3.0, 3.0, End(b))]
            && forall e :: e in q ==> e.kind != Start(b)
  {
    var a := Segment(0, Point(1.0, 1.0), Point(2.0, 2.0));
    var b := Segment(1, Point(2.0, 2.0), Point(3.0, 3.0));
    var sa, ea, sb, eb := Event(1.0, 1.0, Start(a)), Event(2.0, 2.0, End(a)),
                          Event(2.0, 2.0, Start(b)), Event(3.0, 3.0, End(b));
    var q1 := Added([], sa);
    assert q1 == [sa];
    var q2 := Added(q1, ea);
    assert !Contains(q1, ea);
    assert EventQueue.BisectRight(q1, ea) == 1;
    assert q2 == [sa, ea];
    assert Same(q2[1], sb);
    assert Added(q2, sb) == q2;
    assert !Contains(q2, eb) by {
      forall i | 0 <= i < |q2| ensures !Same(q2[i], eb) {}
    }
    assert EventQueue.BisectRight(q2, eb) == 2;
  }

  /** An end event: find and remove the segment, then schedule the crossing of the segments
      now at index-1 and index+1 of the shortened line (which are not the removed segment's
      two neighbours). */
  method OnEnd(q: Queue, s: Sweep, curr: Event, ghost arr: seq<Segment>) returns (r: Outcome)
    requires q.Valid() && curr.kind.End? && OnlyInput(arr, s.line)
    modifies q, s
    ensures q.Valid() && QueueStep(arr, old(q.events), q.events, curr) && OnlyInput(arr, s.line)
    ensures s.keys == old(s.keys)
    ensures IndexOf(old(s.line), curr.kind.seg.id).None? ==>
      r == Fail(NotInSweep) && s.line == old(s.line) && q.events == old(q.events)
    ensures IndexOf(old(s.line), curr.kind.seg.id).Some? ==>
      var k := IndexOf(old(s.line), curr.kind.seg.id).value;
      && r.Pass?
      && s.line == old(s.line)[..k] + old(s.line)[k + 1..]
      && EndRescheduled(old(q.events), s.line, k, curr, q.events)
    ensures r.Fail? ==> r.error == NotInSweep
    ensures r.Pass? ==> |s.line| == |old(s.line)| - 1
  {
    var seg := curr.kind.seg;
    var found := s.GetIndex(seg);
    if found.None? {
      return Fail(NotInSweep);
    }
    var cs := found.value;
    var current := s.GetItem(cs);
    r := s.RemoveItem(current);
    if cs + 1 < s.Length() && cs + 1 != 0 && 0 < cs - 1 < s.Length() {
      var next := s.GetItem(cs + 1);
      var prev := s.GetItem(cs - 1);
      Schedule(q, prev, next, curr, arr);
    }
  }

  /** First step of an intersection event: find the first (upper) segment, cancel its crossing
      with the segment at index-1 (only when index-1 is at least 1), and take it off the line. */
  method DetachFirst(q: Queue, s: Sweep, a: Segment, curr: Event, ghost arr: seq<Segment>) returns (r: Outcome)
    requires q.Valid() && OnlyInput(arr, s.line)
    modifies q, s
    ensures q.Valid() && QueueStep(arr, old(q.events), q.events, curr) && OnlyInput(arr, s.line)
    ensures s.keys == old(s.keys)
    ensures IndexOf(old(s.line), a.id).None? ==>
      r == Fail(NotInSweep) && s.line == old(s.line) && q.events == old(q.events)
    ensures IndexOf(old(s.line), a.id).Some? ==>
      var k := IndexOf(old(s.line), a.id).value;
      var c := CancelledAbove(old(q.events), old(s.line), k, curr);
      && (r.Pass? <==> c.Some?)
      && (c.None? ==> r == Fail(NotInQueue) && s.line == old(s.line) && q.events == old(q.events))
      && (c.Some? ==> q.events == c.value && s.line == old(s.line)[..k] + old(s.line)[k + 1..])
    ensures r.Pass? ==> |s.line| == |old(s.line)| - 1
    ensures r.Pass? ==> multiset(LineIds(s.line)) + multiset{a.id} == multiset(LineIds(old(s.line)))
    ensures forall t :: t in s.line ==> t in old(s.line)
  {
    var f := s.GetIndex(a);
    if f.None? {
      return Fail(NotInSweep);
    }
    var cf := f.value;
    var top := s.GetItem(cf);
    ghost var line0 := s.line;
    assert IndexOf(line0, top.id) == Some(cf);
    ghost var q0 := q.events;
    r := CancelAbove(q, s, cf, curr, arr);
    if r.Fail? {
      return;
    }
    assert q.events == CancelledAbove(q0, line0, cf, curr).value;
    r := s.RemoveItem(top);
    assert s.line == line0[..cf] + line0[cf + 1..];
  }

  /** Second step: the same for the second (lower) segment and the segment at index+1. */
  method DetachSecond(q: Queue, s: Sweep, b: Segment, curr: Event, ghost arr: seq<Segment>) returns (r: Outcome)
    requires q.Valid() && OnlyInput(arr, s.line)
    modifies q, s
    ensures q.Valid() && QueueStep(arr, old(q.events), q.events, curr) && OnlyInput(arr, s.line)
    ensures s.keys == old(s.keys)
    ensures IndexOf(old(s.line), b.id).None? ==>
      r == Fail(NotInSweep) && s.line == old(s.line) && q.events == old(q.events)
    ensures IndexOf(old(s.line), b.id).Some? ==>
      var k := IndexOf(old(s.line), b.id).value;
      var c := CancelledBelow(old(q.events), old(s.line), k, curr);
      && (r.Pass? <==> c.Some?)
      && (c.None? ==> r == Fail(NotInQueue) && s.line == old(s.line) && q.events == old(q.events))
      && (c.Some? ==> q.events == c.value && s.line == old(s.line)[..k] + old(s.line)[k + 1..])
    ensures r.Pass? ==> |s.line| == |old(s.line)| - 1
    ensures r.Pass? ==> multiset(LineIds(s.line)) + multiset{b.id} == multiset(LineIds(old(s.line)))
    ensures forall t :: t in s.line ==> t in old(s.line)
  {
    var g := s.GetIndex(b);
    if g.None? {
      return Fail(NotInSweep);
    }
    var cg := g.value;
    var bottom := s.GetItem(cg);
    ghost var line0 := s.line;
    assert IndexOf(line0, bottom.id) == Some(cg);
    ghost var q0 := q.events;
    r := CancelBelow(q, s, cg, curr, arr);
    if r.Fail? {
      return;
    }
    assert q.events == CancelledBelow(q0, line0, cg, curr).value;
    r := s.RemoveItem(bottom);
    assert s.line == line0[..cg] + line0[cg + 1..];
  }

  /** Third step: put the second segment back at the crossing point and schedule its crossing
      with the segment at index-1 (only when index-1 is at least 1). */
  method AttachSecond(q: Queue, s: Sweep, b: Segment, curr: Event, ghost arr: seq<Segment>) returns (r: Outcome)
    requires q.Valid() && b in arr && OnlyInput(arr, s.line)
    modifies q, s
    ensures q.Valid() && QueueStep(arr, old(q.events), q.events, curr) && OnlyInput(arr, s.line)
    ensures s.keys == old(s.keys)[b.id := Point(curr.x, curr.y)]
    ensures r.Fail? ==> r.error == FloorOfNonFinite && s.line == old(s.line) && q.events == old(q.events)
    ensures r.Fail? ==> exists t :: t in arr && t.IsVertical()
    ensures r.Pass? ==>
      exists k: nat :: IsBisectRight(old(s.line), b, Point(curr.x, curr.y), k) &&
        s.line == old(s.line)[..k] + [b] + old(s.line)[k..]
    ensures r.Pass? ==>
      IndexOf(s.line, b.id).Some? &&
      var j := IndexOf(s.line, b.id).value;
      q.events == ScheduledAbove(old(q.events), s.line, j, curr)
    ensures r.Pass? ==> |s.line| == |old(s.line)| + 1
    ensures r.Pass? ==> multiset(LineIds(s.line)) == multiset(LineIds(old(s.line))) + multiset{b.id}
    ensures r.Pass? ==> forall t :: t in s.line <==> t in old(s.line) || t == b
  {
    ghost var line0 := s.line;
    r := s.AddItem(b, Point(curr.x, curr.y));
    if r.Fail? {
      ghost var i :| 0 <= i < |line0| && line0[i].IsVertical();
      assert line0[i] in arr;
      return;
    }
    assert s.GetIndex(b).Some? by {
      var k :| 0 <= k < |s.line| && s.line[k] == b;
    }
    var cg := s.GetIndex(b).value;
    ScheduleAbove(q, s, cg, curr, arr);
  }

  /** Last step: put the first segment back and schedule its crossing with the segment at
      index+1. */
  method AttachFirst(q: Queue, s: Sweep, a: Segment, curr: Event, ghost arr: seq<Segment>) returns (r: Outcome)
    requires q.Valid() && a in arr && OnlyInput(arr, s.line)
    modifies q, s
    ensures q.Valid() && QueueStep(arr, old(q.events), q.events, curr) && OnlyInput(arr, s.line)
    ensures s.keys == old(s.keys)[a.id := Point(curr.x, curr.y)]
    ensures r.Fail? ==> r.error == FloorOfNonFinite && s.line == old(s.line) && q.events == old(q.events)
    ensures r.Fail? ==> exists t :: t in arr && t.IsVertical()
    ensures r.Pass? ==>
      exists k: nat :: IsBisectRight(old(s.line), a, Point(curr.x, curr.y), k) &&
        s.line == old(s.line)[..k] + [a] + old(s.line)[k..]
    ensures r.Pass? ==>
      IndexOf(s.line, a.id).Some? &&
      var j := IndexOf(s.line, a.id).value;
      q.events == ScheduledBelow(old(q.events), s.line, j, curr)
    ensures r.Pass? ==> |s.line| == |old(s.line)| + 1
    ensures r.Pass? ==> multiset(LineIds(s.line)) == multiset(LineIds(old(s.line))) + multiset{a.id}
    ensures r.Pass? ==> forall t :: t in s.line <==> t in old(s.line) || t == a
  {
    ghost var line0 := s.line;
    r := s.AddItem(a, Point(curr.x, curr.y));
    if r.Fail? {
      ghost var i :| 0 <= i < |line0| && line0[i].IsVertical();
      assert line0[i] in arr;
      return;
    }
    assert s.GetIndex(a).Some? by {
      var k :| 0 <= k < |s.line| && s.line[k] == a;
    }
    var cf := s.GetIndex(a).value;
    ScheduleBelow(q, s, cf, curr, arr);
  }

  /** An intersection event: take both segments off the line, cancelling their crossings with
      their outer neighbours, then re-insert the second and then the first at the crossing
      point, scheduling their crossings with their new outer neighbours. On success both
      segments are on the line again, keyed at the crossing point, and the line keeps its
      length. */
  method OnCrossing(q: Queue, s: Sweep, curr: Event, ghost arr: seq<Segment>) returns (r: Outcome)
    requires q.Valid() && curr.kind.Crossing? && curr.kind.first in arr && curr.kind.second in arr
    requires OnlyInput(arr, s.line)
    modifies q, s
    ensures q.Valid() && QueueStep(arr, old(q.events), q.events, curr) && OnlyInput(arr, s.line)
    ensures r.Fail? ==> r.error == NotInSweep || r.error == NotInQueue || r.error == FloorOfNonFinite
    ensures r == Fail(FloorOfNonFinite) ==> exists t :: t in arr && t.IsVertical()
    ensures r.Pass? ==> s.keys == old(s.keys)[curr.kind.second.id := Point(curr.x, curr.y)]
                                             [curr.kind.first.id := Point(curr.x, curr.y)]
    ensures r.Pass? ==> curr.kind.first in s.line && curr.kind.second in s.line
    ensures r.Pass? ==> forall t :: t in s.line ==> t in old(s.line) || t == curr.kind.first || t == curr.kind.second
    ensures r.Pass? ==> |s.line| == |old(s.line)|
    ensures r.Pass? ==> multiset(LineIds(s.line)) == multiset(LineIds(old(s.line)))
  {
    var a, b := curr.kind.first, curr.kind.second;
    ghost var q0 := q.events;
    r := DetachFirst(q, s, a, curr, arr);
    if r.Fail? {
      return;
    }
    ghost var q1 := q.events;
    r := DetachSecond(q, s, b, curr, arr);
    QueueStepTransitive(arr, q0, q1, q.events, curr);
    if r.Fail? {
      return;
    }
    ghost var q2 := q.events;
    r := AttachSecond(q, s, b, curr, arr);
    QueueStepTransitive(arr, q0, q2, q.events, curr);
    if r.Fail? {
      return;
    }
    ghost var q3 := q.events;
    r := AttachFirst(q, s, a, curr, arr);
    QueueStepTransitive(arr, q0, q3, q.events, curr);
  }

  /** The intersection points the loop appends: one per intersection event, in event order. */
  function CrossingPoints(order: seq<Event>): (r: seq<Point>)
    ensures |r| <= |order|
  {
    if order == [] then []
    else
      var last := order[|order| - 1];
      CrossingPoints(order[..|order| - 1]) + if last.IsIntersect() then [Point(last.x, last.y)] else []
  }

  /** Processing one more event appends its place when it is an intersection event. */
  lemma CrossingPointsSnoc(order: seq<Event>, curr: Event)
    ensures CrossingPoints(order + [curr]) ==
            CrossingPoints(order) + if curr.IsIntersect() then [Point(curr.x, curr.y)] else []
  {
    assert (order + [curr])[..|order|] == order;
  }

  /** Every appended point is the place of an intersection event, and every intersection event
      contributes its place. */
  lemma {:induction false} CrossingPointsMembers(order: seq<Event>, p: Point)
    ensures p in CrossingPoints(order) <==>
      exists e :: e in order && e.IsIntersect() && p == Point(e.x, e.y)
  {
    if order != [] {
      var init := order[..|order| - 1];
      var last := order[|order| - 1];
      CrossingPointsMembers(init, p);
      assert order == init + [last];
      if p in CrossingPoints(init) {
        var e :| e in init && e.IsIntersect() && p == Point(e.x, e.y);
        assert e in order;
      }
      if exists e :: e in order && e.IsIntersect() && p == Point(e.x, e.y) {
        var e :| e in order && e.IsIntersect() && p == Point(e.x, e.y);
        if e != last {
          assert e in init;
        }
      }
    }
  }

  /** In an event order with no two __eq__ events, no intersection point is reported twice. */
  lemma {:induction false} CrossingPointsDistinct(order: seq<Event>)
    requires DuplicateFree(order)
    ensures forall i, j :: 0 <= i < j < |CrossingPoints(order)| ==>
      CrossingPoints(order)[i] != CrossingPoints(order)[j]
  {
    if order != [] {
      var init := order[..|order| - 1];
      var last := order[|order| - 1];
      assert DuplicateFree(init);
      CrossingPointsDistinct(init);
      if last.IsIntersect() {
        var p := Point(last.x, last.y);
        var c := CrossingPoints(init);
        forall i | 0 <= i < |c| ensures c[i] != p {
          CrossingPointsMembers(init, c[i]);
          var e :| e in init && e.IsIntersect() && c[i] == Point(e.x, e.y);
          var k :| 0 <= k < |init| && init[k] == e;
          assert !Same(order[k], order[|order| - 1]);
        }
        assert CrossingPoints(order) == c + [p];
      }
    }
  }

  /** What the event loop keeps: the queue is a SortedSet of not-yet-processed input events,
      none of which sorts before a processed one; the processed events are in order, pairwise
      distinct and from the input; and each segment's two endpoint events are processed or
      still queued. */
  ghost predicate Progress(arr: seq<Segment>, events: seq<Event>, order: seq<Event>, done: set<EventId>) {
    && Sorted(events) && DuplicateFree(events)
    && (forall e :: e in events ==> FromInput(arr, e) && Id(e) !in done)
    && (forall e, o :: e in events && o in order ==> !Precedes(e, o))
    && Sorted(order) && DuplicateFree(order)
    && done == Ids(order)
    && (forall o :: o in order ==> FromInput(arr, o))
    && (forall t :: t in arr ==> StartId(t) in done + Ids(events) && EndId(t) in done + Ids(events))
  }

  /** The processed events are all candidates. */
  lemma DoneAreCandidates(arr: seq<Segment>, order: seq<Event>)
    requires forall o :: o in order ==> FromInput(arr, o)
    ensures Ids(order) <= Candidates(arr)
  {
    forall id | id in Ids(order) ensures id in Candidates(arr) {
      IdsMembers(order, id);
      var o :| o in order && Id(o) == id;
      CandidateOf(arr, o);
    }
  }

  /** The queue after one turn: its events are unprocessed input events that sort no earlier
      than any processed one. */
  lemma QueueAfterStep(arr: seq<Segment>, events: seq<Event>, order: seq<Event>, done: set<EventId>,
                       after: seq<Event>)
    requires Progress(arr, events, order, done) && events != []
    requires QueueStep(arr, events[1..], after, events[0])
    ensures forall e :: e in after ==> FromInput(arr, e) && Id(e) !in done + {Id(events[0])}
    ensures forall e, o :: e in after && o in order + [events[0]] ==> !Precedes(e, o)
  {
    var curr, rest := events[0], events[1..];
    forall o | o in order ensures o.x <= curr.x {
      assert !Precedes(curr, o);
    }
    forall e | e in rest ensures Id(e) != Id(curr) && !Precedes(e, curr) {
      var k :| 0 <= k < |rest| && rest[k] == e;
      assert events[k + 1] == e;
      assert !Same(events[0], events[k + 1]);
    }
    forall e | e in after ensures Id(e) !in done {
      IdsMembers(order, Id(e));
    }
  }

  /** The processed events after one turn: still sorted and distinct, and still `done`. */
  lemma OrderAfterStep(order: seq<Event>, done: set<EventId>, curr: Event)
    requires Sorted(order) && DuplicateFree(order) && done == Ids(order) && Id(curr) !in done
    requires forall o :: o in order ==> !Precedes(curr, o)
    ensures Sorted(order + [curr]) && DuplicateFree(order + [curr])
    ensures done + {Id(curr)} == Ids(order + [curr])
  {
    var order' := order + [curr];
    IdsMembers(order, Id(curr));
    forall i, j | 0 <= i < j < |order'| ensures !Precedes(order'[j], order'[i]) && !Same(order'[i], order'[j]) {
      if j < |order| {
        assert order'[i] == order[i] && order'[j] == order[j];
      } else {
        assert order'[i] in order;
        PrecedesIsLexicographic(order'[i], curr);
      }
    }
    assert order'[..|order|] == order;
  }

  /** Endpoint events are never removed, so each is processed or still queued after one turn. */
  lemma EndpointsAfterStep(arr: seq<Segment>, events: seq<Event>, order: seq<Event>, done: set<EventId>,
                           after: seq<Event>)
    requires Progress(arr, events, order, done) && events != []
    requires QueueStep(arr, events[1..], after, events[0])
    ensures forall t :: t in arr ==>
      StartId(t) in done + {Id(events[0])} + Ids(after) && EndId(t) in done + {Id(events[0])} + Ids(after)
  {
    forall id | id in Ids(events) && id != Id(events[0]) && !id.isIntersect ensures id in Ids(after) {
      IdsMembers(events, id);
      IdsMembers(after, id);
      var e :| e in events && Id(e) == id;
      var k :| 0 <= k < |events| && events[k] == e;
      assert k != 0;
      assert e in events[1..];
    }
  }

  /** One turn of the loop keeps Progress and processes one more candidate. */
  lemma ProgressStep(arr: seq<Segment>, events: seq<Event>, order: seq<Event>, done: set<EventId>,
                     after: seq<Event>)
    requires Progress(arr, events, order, done) && events != []
    requires QueueStep(arr, events[1..], after, events[0])
    requires Sorted(after) && DuplicateFree(after)
    ensures Progress(arr, after, order + [events[0]], done + {Id(events[0])})
    ensures |Candidates(arr) - (done + {Id(events[0])})| < |Candidates(arr) - done|
  {
    QueueAfterStep(arr, events, order, done, after);
    assert events[0] in events;
    OrderAfterStep(order, done, events[0]);
    EndpointsAfterStep(arr, events, order, done, after);
    DoneAreCandidates(arr, order);
    CandidateOf(arr, events[0]);
    assert Candidates(arr) - (done + {Id(events[0])}) < Candidates(arr) - done;
  }

  /** The first loop of plane_sweep: a start and an end event for every segment, and no
      crossing event. */
  method QueueEndpoints(arr: seq<Segment>) returns (q: Queue)
    ensures fresh(q) && q.Valid()
    ensures forall e :: e in q.events ==> !e.IsIntersect()
    ensures forall e :: e in q.events ==> FromInput(arr, e)
    ensures forall t :: t in arr ==> StartId(t) in Ids(q.events) && EndId(t) in Ids(q.events)
  {
    q := new Queue();
    for i := 0 to |arr|
      invariant q.Valid() && EndpointsQueued(arr, i, q.events)
    {
      QueueSegment(q, arr, i);
    }
    forall t | t in arr ensures StartId(t) in Ids(q.events) && EndId(t) in Ids(q.events) {
      var k :| 0 <= k < |arr| && arr[k] == t;
    }
  }

  /** What the first loop has achieved after its first n turns. */
  ghost predicate EndpointsQueued(arr: seq<Segment>, n: nat, events: seq<Event>) {
    && (forall e :: e in events ==> !e.IsIntersect() && FromInput(arr, e))
    && (forall k :: 0 <= k < n <= |arr| ==> StartId(arr[k]) in Ids(events) && EndId(arr[k]) in Ids(events))
  }

  /** The two e.add calls of the first loop, for segment i. */
  method QueueSegment(q: Queue, arr: seq<Segment>, i: nat)
    requires q.Valid() && i < |arr| && EndpointsQueued(arr, i, q.events)
    modifies q
    ensures q.Valid() && EndpointsQueued(arr, i + 1, q.events)
    ensures q.events == Added(Added(old(q.events), Event(arr[i].left.x, arr[i].left.y, Start(arr[i]))),
                              Event(arr[i].right.x, arr[i].right.y, End(arr[i])))
  {
    var t := arr[i];
    ghost var before := q.events;
    var first := Event(t.left.x, t.left.y, Start(t));
    AddedIsSortedSet(q.events, first);
    q.Add(first);
    ghost var middle := q.events;
    var second := Event(t.right.x, t.right.y, End(t));
    AddedIsSortedSet(q.events, second);
    q.Add(second);
    SegmentQueued(arr, i, before, middle, q.events);
  }

  /** One turn of the first loop, on the three queues before, between and after its two adds. */
  lemma SegmentQueued(arr: seq<Segment>, i: nat, before: seq<Event>, middle: seq<Event>, after: seq<Event>)
    requires i < |arr| && EndpointsQueued(arr, i, before)
    requires Contains(middle, Event(arr[i].left.x, arr[i].left.y, Start(arr[i])))
    requires Contains(after, Event(arr[i].right.x, arr[i].right.y, End(arr[i])))
    requires forall e :: e in before ==> e in middle
    requires forall e :: e in middle ==> e in after
    requires forall e :: e in middle ==> e in before || e == Event(arr[i].left.x, arr[i].left.y, Start(arr[i]))
    requires forall e :: e in after ==> e in middle || e == Event(arr[i].right.x, arr[i].right.y, End(arr[i]))
    ensures EndpointsQueued(arr, i + 1, after)
  {
    assert arr[i] in arr;
    ContainsById(middle, Event(arr[i].left.x, arr[i].left.y, Start(arr[i])));
    ContainsById(after, Event(arr[i].right.x, arr[i].right.y, End(arr[i])));
    IdsMonotone(before, after);
    IdsMonotone(middle, after);
    forall k | 0 <= k < i + 1
      ensures StartId(arr[k]) in Ids(after) && EndId(arr[k]) in Ids(after)
    {
      if k < i {
        assert StartId(arr[k]) in Ids(before) && EndId(arr[k]) in Ids(before);
      }
    }
  }

  /** Before the loop nothing is processed and every endpoint event is queued. */
  lemma ProgressStart(arr: seq<Segment>, events: seq<Event>)
    requires Sorted(events) && DuplicateFree(events)
    requires forall e :: e in events ==> FromInput(arr, e)
    requires forall t :: t in arr ==> StartId(t) in Ids(events) && EndId(t) in Ids(events)
    ensures Progress(arr, events, [], {})
  {
    assert Ids([]) == {};
  }

  /** With the queue empty, every endpoint event has been processed. */
  lemma Finished(arr: seq<Segment>, order: seq<Event>, done: set<EventId>)
    requires Progress(arr, [], order, done)
    ensures forall t :: t in arr ==> StartId(t) in Ids(order) && EndId(t) in Ids(order)
    ensures forall i, j :: 0 <= i < j < |CrossingPoints(order)| ==>
      CrossingPoints(order)[i] != CrossingPoints(order)[j]
    ensures forall p :: p in CrossingPoints(order) ==>
      p in BruteForce.AllIntersections(BruteForce.FromSegments(arr))
  {
    assert Ids([]) == {};
    CrossingPointsDistinct(order);
    CrossingsFoundByBruteForce(arr, order);
  }

  /** What the branch for the event's kind does to the sweep line and the keys, and how it can
      fail: a start event inserts its segment at a bisect_right position, an end event deletes
      the first segment with its identity or fails when there is none, and an intersection
      event leaves both segments on the line keyed at the crossing point. */
  ghost predicate BranchEffect(curr: Event, r: Outcome, line0: seq<Segment>, line1: seq<Segment>,
                               keys0: map<nat, Point>, keys1: map<nat, Point>)
  {
    var at := Point(curr.x, curr.y);
    match curr.kind
    case Start(t) =>
      && keys1 == keys0[t.id := at]
      && (r.Fail? ==> r.error == FloorOfNonFinite || r.error == NotInQueue)
      && (r == Fail(FloorOfNonFinite) ==> line1 == line0)
      && (r != Fail(FloorOfNonFinite) ==>
            exists k: nat :: IsBisectRight(line0, t, at, k) && line1 == line0[..k] + [t] + line0[k..])
    case End(t) =>
      && keys1 == keys0
      && (IndexOf(line0, t.id).None? ==> r == Fail(NotInSweep) && line1 == line0)
      && (IndexOf(line0, t.id).Some? ==>
            var k := IndexOf(line0, t.id).value;
            r.Pass? && line1 == line0[..k] + line0[k + 1..])
    case Crossing(a, b) =>
      && (r.Fail? ==> r.error == NotInSweep || r.error == NotInQueue || r.error == FloorOfNonFinite)
      && (r.Pass? ==> keys1 == keys0[b.id := at][a.id := at] && a in line1 && b in line1)
      && (r.Pass? ==> |line1| == |line0| && multiset(LineIds(line1)) == multiset(LineIds(line0)))
  }

  /** What the start and end branches do to the queue, as OnStart and OnEnd state it: the
      guarded adds and the guarded remove at the segment's index on the new line. The
      intersection branch's queue is given by QueueStep only. */
  ghost predicate BranchQueue(curr: Event, r: Outcome, line0: seq<Segment>, line1: seq<Segment>,
                              q0: seq<Event>, q1: seq<Event>)
  {
    match curr.kind
    case Start(t) =>
      && (r == Fail(FloorOfNonFinite) ==> q1 == q0)
      && (r != Fail(FloorOfNonFinite) ==>
            IndexOf(line1, t.id).Some? && StartRescheduled(q0, line1, IndexOf(line1, t.id).value, curr, r, q1))
    case End(t) =>
      && (IndexOf(line0, t.id).None? ==> q1 == q0)
      && (IndexOf(line0, t.id).Some? ==> EndRescheduled(q0, line1, IndexOf(line0, t.id).value, curr, q1))
    case Crossing(_, _) => true
  }

  /** The identities of the segments whose start events are among the processed events. */
  ghost function StartedIds(order: seq<Event>): multiset<nat> {
    if order == [] then multiset{}
    else
      var last := order[|order| - 1];
      StartedIds(order[..|order| - 1]) + if last.kind.Start? then multiset{last.kind.seg.id} else multiset{}
  }

  /** The identities of the segments whose end events are among the processed events. */
  ghost function EndedIds(order: seq<Event>): multiset<nat> {
    if order == [] then multiset{}
    else
      var last := order[|order| - 1];
      EndedIds(order[..|order| - 1]) + if last.kind.End? then multiset{last.kind.seg.id} else multiset{}
  }

  /** Processing one more event adds its segment's identity to the started or the ended ones. */
  lemma ProcessedIdsSnoc(order: seq<Event>, curr: Event)
    ensures StartedIds(order + [curr]) ==
            StartedIds(order) + if curr.kind.Start? then multiset{curr.kind.seg.id} else multiset{}
    ensures EndedIds(order + [curr]) ==
            EndedIds(order) + if curr.kind.End? then multiset{curr.kind.seg.id} else multiset{}
  {
    assert (order + [curr])[..|order|] == order;
  }

  /** A successful branch keeps the sweep line balanced: what is on it, together with what
      has ended, is what was on it at the start together with what has started. */
  lemma BalanceStep(start: seq<Segment>, order: seq<Event>, curr: Event, r: Outcome,
                    line0: seq<Segment>, line1: seq<Segment>, keys0: map<nat, Point>, keys1: map<nat, Point>)
    requires multiset(LineIds(line0)) + EndedIds(order) == multiset(LineIds(start)) + StartedIds(order)
    requires r.Pass? && BranchEffect(curr, r, line0, line1, keys0, keys1)
    ensures multiset(LineIds(line1)) + EndedIds(order + [curr]) ==
            multiset(LineIds(start)) + StartedIds(order + [curr])
  {
    ProcessedIdsSnoc(order, curr);
    var l0, l1 := multiset(LineIds(line0)), multiset(LineIds(line1));
    var st, e0, s0 := multiset(LineIds(start)), EndedIds(order), StartedIds(order);
    match curr.kind
    case Start(t) =>
      var k: nat :| IsBisectRight(line0, t, Point(curr.x, curr.y), k) && line1 == line0[..k] + [t] + line0[k..];
      InsertedIds(line0, k, t);
      Rebalanced(l0, l1, e0, e0, st, s0, s0 + multiset{t.id}, multiset{t.id}, multiset{});
    case End(t) =>
      var k := IndexOf(line0, t.id).value;
      RemovedIds(line0, k);
      Rebalanced(l0, l1, e0, e0 + multiset{t.id}, st, s0, s0, multiset{}, multiset{t.id});
    case Crossing(_, _) =>
      Rebalanced(l0, l1, e0, e0, st, s0, s0, multiset{}, multiset{});
  }

  /** The balance as multiset arithmetic: the line gains what starts and loses what ends. */
  lemma Rebalanced(l0: multiset<nat>, l1: multiset<nat>, e0: multiset<nat>, e1: multiset<nat>,
                   st: multiset<nat>, s0: multiset<nat>, s1: multiset<nat>, gained: multiset<nat>, lost: multiset<nat>)
    requires l0 + e0 == st + s0
    requires l1 + lost == l0 + gained && e1 == e0 + lost && s1 == s0 + gained
    ensures l1 + e1 == st + s1
  {
    forall x ensures (l1 + e1)[x] == (st + s1)[x] {
      assert (l1 + lost)[x] == (l0 + gained)[x];
      assert (l0 + e0)[x] == (st + s0)[x];
    }
  }

  /** The three branches of the loop body, chosen by the kind of the popped event. */
  method Dispatch(q: Queue, s: Sweep, curr: Event, ghost arr: seq<Segment>) returns (r: Outcome)
    requires q.Valid() && FromInput(arr, curr) && OnlyInput(arr, s.line)
    modifies q, s
    ensures q.Valid() && QueueStep(arr, old(q.events), q.events, curr) && OnlyInput(arr, s.line)
    ensures r == Fail(FloorOfNonFinite) ==> exists t :: t in arr && t.IsVertical()
    ensures BranchEffect(curr, r, old(s.line), s.line, old(s.keys), s.keys)
    ensures BranchQueue(curr, r, old(s.line), s.line, old(q.events), q.events)
  {
    match curr.kind {
      case Start(_) =>
        r := OnStart(q, s, curr, arr);
      case End(_) =>
        r := OnEnd(q, s, curr, arr);
      case Crossing(_, _) =>
        r := OnCrossing(q, s, curr, arr);
    }
  }

  /** One turn of the loop: pop the first event and run its branch. */
  method Turn(q: Queue, s: Sweep, ghost arr: seq<Segment>, ghost order: seq<Event>, ghost done: set<EventId>)
    returns (curr: Event, r: Outcome)
    requires q.Valid() && q.events != [] && Progress(arr, q.events, order, done) && OnlyInput(arr, s.line)
    modifies q, s
    ensures q.Valid() && OnlyInput(arr, s.line) && curr == old(q.events[0])
    ensures r.Pass? ==> Progress(arr, q.events, order + [curr], done + {Id(curr)})
    ensures r.Pass? ==> |Candidates(arr) - (done + {Id(curr)})| < |Candidates(arr) - done|
    ensures r == Fail(FloorOfNonFinite) ==> exists t :: t in arr && t.IsVertical()
    ensures BranchEffect(curr, r, old(s.line), s.line, old(s.keys), s.keys)
    ensures BranchQueue(curr, r, old(s.line), s.line, old(q.events)[1..], q.events)
  {
    ghost var events := q.events;
    curr := q.PopMin();
    assert curr in events;
    r := Dispatch(q, s, curr, arr);
    if r.Pass? {
      ProgressStep(arr, events, order, done, q.events);
    }
  }

  /** The while loop of plane_sweep: pop events in order and dispatch on their kind until the
      queue is empty, recording every event and every intersection point. A failure is an
      exception the program would raise. */
  method EventLoop(q: Queue, s: Sweep, ghost arr: seq<Segment>) returns (r: Result<SweepResult>)
    requires q.Valid() && Progress(arr, q.events, [], {}) && OnlyInput(arr, s.line)
    modifies q, s
    ensures r.Success? ==> r.value.count == |r.value.intersections|
    ensures r.Success? ==> r.value.intersections == CrossingPoints(r.value.eventOrder)
    ensures r.Success? ==> Sorted(r.value.eventOrder) && DuplicateFree(r.value.eventOrder)
    ensures r.Success? ==> forall e :: e in r.value.eventOrder ==> FromInput(arr, e)
    ensures r.Success? ==> forall t :: t in arr ==>
      StartId(t) in Ids(r.value.eventOrder) && EndId(t) in Ids(r.value.eventOrder)
    ensures r.Success? ==> forall i, j :: 0 <= i < j < |r.value.intersections| ==>
      r.value.intersections[i] != r.value.intersections[j]
    ensures r.Success? ==> forall p :: p in r.value.intersections ==>
      p in BruteForce.AllIntersections(BruteForce.FromSegments(arr))
    ensures r.Failure? && r.error == FloorOfNonFinite ==> exists t :: t in arr && t.IsVertical()
    ensures r.Success? ==> multiset(LineIds(s.line)) + EndedIds(r.value.eventOrder) ==
                           multiset(LineIds(old(s.line))) + StartedIds(r.value.eventOrder)
  {
    ghost var start := s.line;
    var ans := 0;
    var res: seq<Point> := [];
    var order: seq<Event> := [];
    ghost var done: set<EventId> := {};
    while q.Length() != 0
      invariant q.Valid()
      invariant Progress(arr, q.events, order, done)
      invariant OnlyInput(arr, s.line)
      invariant res == CrossingPoints(order) && ans == |res|
      invariant multiset(LineIds(s.line)) + EndedIds(order) == multiset(LineIds(start)) + StartedIds(order)
      decreases |Candidates(arr) - done|
    {
      ghost var line0, keys0 := s.line, s.keys;
      var curr, o := Turn(q, s, arr, order, done);
      if o.Fail? {
        return Failure(o.error);
      }
      BalanceStep(start, order, curr, o, line0, s.line, keys0, s.keys);
      CrossingPointsSnoc(order, curr);
      order := order + [curr];
      if curr.IsIntersect() {
        res := res + [Point(curr.x, curr.y)];
        ans := ans + 1;
      }
      done := done + {Id(curr)};
    }
    Finished(arr, order, done);
    r := Success(SweepResult(res, order, ans));
  }

  /** plane_sweep: queue both endpoint events of every segment, then run the event loop on an
      empty sweep line. */
  method PlaneSweep(arr: seq<Segment>) returns (r: Result<SweepResult>)
    ensures r.Success? ==> r.value.count == |r.value.intersections|
    ensures r.Success? ==> r.value.intersections == CrossingPoints(r.value.eventOrder)
    ensures r.Success? ==> Sorted(r.value.eventOrder) && DuplicateFree(r.value.eventOrder)
    ensures r.Success? ==> forall e :: e in r.value.eventOrder ==> FromInput(arr, e)
    ensures r.Success? ==> forall t :: t in arr ==>
      StartId(t) in Ids(r.value.eventOrder) && EndId(t) in Ids(r.value.eventOrder)
    ensures r.Success? ==> forall i, j :: 0 <= i < j < |r.value.intersections| ==>
      r.value.intersections[i] != r.value.intersections[j]
    ensures r.Success? ==> forall p :: p in r.value.intersections ==>
      p in BruteForce.AllIntersections(BruteForce.FromSegments(arr))
    ensures r.Failure? && r.error == FloorOfNonFinite ==> exists t :: t in arr && t.IsVertical()
    ensures r.Success? ==> EndedIds(r.value.eventOrder) <= StartedIds(r.value.eventOrder)
  {
    var q := QueueEndpoints(arr);
    ProgressStart(arr, q.events);
    var s := new Sweep();
    r := EventLoop(q, s, arr);
    if r.Success? {
      ghost var order := r.value.eventOrder;
      assert LineIds([]) == [];
      forall x ensures EndedIds(order)[x] <= StartedIds(order)[x] {
        assert (multiset(LineIds(s.line)) + EndedIds(order))[x] == StartedIds(order)[x];
      }
    }
  }

  /** A crossing event of the input is a pair i < j of the brute-force enumeration. */
  lemma CrossingFoundByBruteForce(arr: seq<Segment>, e: Event)
    requires e.IsIntersect() && FromInput(arr, e)
    ensures Point(e.x, e.y) in BruteForce.AllIntersections(BruteForce.FromSegments(arr))
  {
    var a, b, p := e.kind.first, e.kind.second, Point(e.x, e.y);
    var segs := BruteForce.FromSegments(arr);
    var i :| 0 <= i < |arr| && arr[i] == a;
    var j :| 0 <= j < |arr| && arr[j] == b;
    if i == j {
      NoSelfIntersection(a);
      assert false;
    }
    DoIntersectSymmetric(a, b);
    BruteForce.IntersectionAgreesWithDoIntersect(a, b);
    BruteForce.IntersectionAgreesWithDoIntersect(b, a);
    if i < j {
      assert BruteForce.FoundAt(segs, i, j, p);
    } else {
      assert BruteForce.FoundAt(segs, j, i, p);
    }
    BruteForce.AllIntersectionsMembers(segs, p);
  }

  /** Every point the sweep reports is also reported by the brute-force checker. */
  lemma CrossingsFoundByBruteForce(arr: seq<Segment>, order: seq<Event>)
    requires forall e :: e in order ==> FromInput(arr, e)
    ensures forall p :: p in CrossingPoints(order) ==>
      p in BruteForce.AllIntersections(BruteForce.FromSegments(arr))
  {
    forall p | p in CrossingPoints(order)
      ensures p in BruteForce.AllIntersections(BruteForce.FromSegments(arr))
    {
      CrossingPointsMembers(order, p);
      var e :| e in order && e.IsIntersect() && p == Point(e.x, e.y);
      CrossingFoundByBruteForce(arr, e);
    }
  }

  /** main of LineSegmentIntersection: build the segments from the parsed lines, then sweep.
      Each point it reports is one BruteForce's main reports for the same lines. */
  method SweepLines(lines: seq<Input.InputLine>) returns (r: Result<SweepResult>)
    ensures r.Success? ==> r.value.count == |r.value.intersections|
    ensures r.Success? ==> forall i, j :: 0 <= i < j < |r.value.intersections| ==>
      r.value.intersections[i] != r.value.intersections[j]
    ensures r.Success? ==> forall p :: p in r.value.intersections ==>
      p in BruteForce.AllIntersections(Input.LineSegments(lines))
    ensures r.Failure? && r.error == FloorOfNonFinite ==>
      exists i :: 0 <= i < |lines| && lines[i].x1 == lines[i].x2
  {
    var arr := Input.LoadSegments(lines);
    Input.SameSegmentsForBoth(lines);
    r := PlaneSweep(arr);
    if r.Failure? && r.error == FloorOfNonFinite {
      ghost var t :| t in arr && t.IsVertical();
      ghost var i := Input.VerticalLineOf(lines, t);
    }
  }
}
