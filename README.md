# Line segment intersection: plane sweep and brute-force checker

This project models a small Python repository and proves properties of the model. The repository has two programs:

- `LineSegmentIntersection.py` finds the crossing points of a set of line segments with a plane sweep. An event queue (a `SortedSet` of endpoint and crossing events ordered by `(x, y)`) drives a sweep status: a Python list of the active segments, kept in the order of `Segment.__lt__`.
- `BruteForce.py` tests every unordered pair of segments with the same line intersection formula.

The model is split into these modules:

| module | file | models |
|---|---|---|
| `Base` | `base.dfy` | `Option`, `Result` and `Outcome`, plus the three ways the program can raise |
| `Geometry` | `geometry.dfy` | `Point`, `Segment` with slope and intercept, `round_float`, `Segment.__lt__`, `do_intersect` |
| `Events` | `events.dfy` | `Event`, `Event.__eq__`, `Event.__lt__` |
| `EventQueue` | `event_queue.dfy` | the `SortedSet` of events: add, pop(0), remove |
| `SweepStatus` | `sweep_status.dfy` | the `Sweep` class and its bisect_right insertion |
| `BruteForce` | `brute_force.dfy` | `LineSegment`, `intersection`, `find_all_intersections` |
| `Input` | `input.dfy` | how both `main` functions turn input lines into segments |
| `PlaneSweep` | `plane_sweep.dfy` | the `plane_sweep` driver and `main`'s call of it |

Floating point becomes exact `real` arithmetic. The input coordinates are integers, so every slope, intercept and crossing point is rational. `float('inf')`, the slope of a vertical segment, becomes the `Vertical` case of a `Slope` datatype.

Python's `Point` has no `__eq__`, so `Segment.__eq__` compares endpoint objects by identity. `main` builds fresh points for each segment. Segment identity is therefore modelled as an integer `id`, the segment's index in the input.

Things that raise in Python are modelled as explicit failures:

- `math.floor` of the nan or infinite offset that `__lt__` computes against a vertical segment: `FloorOfNonFinite`.
- `list.index` and `list.remove` of a segment not on the sweep line: `NotInSweep`.
- `SortedSet.remove` of an event that cannot be removed: `NotInQueue`.

`do_intersect` compares slopes and x-ranges exactly; only `Segment.__lt__` rounds. `main` swaps a line's endpoints only when x1 > x2, so a vertical segment keeps its endpoints in input order.

The queue and the sweep line are classes whose methods update their fields. `plane_sweep` is a `while` loop with invariants. The brute-force enumeration is two nested `for` loops proved against a recursive specification function.

The central results about `plane_sweep` are:

- it terminates;
- it processes events in non-decreasing `(x, y)` order, with no two `__eq__` events;
- for each endpoint of every segment, it processes an event `__eq__` to that endpoint's event (the queue holds one event per `(x, y, is_intersect)`, so this may be another segment's event);
- `ans` equals the number of reported points;
- the sweep line stays balanced: the segments on it, together with those whose end events were processed, are those whose start events were processed;
- no point is reported twice;
- every reported point is one that the brute-force checker also reports for the same input.

## Model

| member | source | states |
|---|---|---|
| Geometry.SlopeOf | LineSegmentIntersection.py:29 | The slope is the infinite (`Vertical`) case exactly when the two endpoints have the same x |
| Geometry.InterceptOf | LineSegmentIntersection.py:30 | The intercept of a non-vertical segment is the same measured from either endpoint: b == right.y - slope*right.x |
| Geometry.SlopeInterceptDescribeLine | LineSegmentIntersection.py:29-30 | For a non-vertical segment, both endpoints satisfy y = slope*x + intercept. A point satisfies that equation iff it is collinear with the endpoints |
| Geometry.RoundFloat | LineSegmentIntersection.py:103-110 | Floor rounding to p decimals: r is the floor of v*10^p divided by 10^p, so r*10^p is whole and r <= v < r + 10^-p. The result is 0 iff 0 <= v < 10^-p, and positive iff v >= 10^-p |
| Geometry.Less | LineSegmentIntersection.py:36-41 | The comparator fails (floor of a non-finite value) iff `other` is vertical. Otherwise self sorts before other iff the key lies at least 10^-5 above other's line, or within [0, 10^-5) of it and self is steeper |
| Geometry.LessIrreflexive | LineSegmentIntersection.py:29-41 | A non-vertical segment whose key is on its own line is not `__lt__` itself. A vertical one cannot be compared with itself |
| Geometry.Offset | LineSegmentIntersection.py:37 | `val` of `__lt__` is the key's signed vertical distance above other's line, and is zero exactly when the key is on that line |
| Geometry.LeftEndpointCollinear | LineSegmentIntersection.py:31 | The constructor's initial key, the left endpoint, lies on the segment's line |
| Geometry.DoIntersect | LineSegmentIntersection.py:113-137 | None when both segments are vertical or the slopes are equal. A result has its x in both x-ranges. With one vertical segment, the result's x is that segment's x and its y lies on the other line |
| Geometry.CrossingOfLines | LineSegmentIntersection.py:130-131 | The computed x makes both line equations agree |
| Geometry.DoIntersectOnBothLines | LineSegmentIntersection.py:123-135 | A returned point lies on both infinite lines |
| Geometry.DoIntersectComplete | LineSegmentIntersection.py:120-137 | Conversely, a point on both lines and in both x-ranges of two non-parallel, non-degenerate segments is exactly what do_intersect returns |
| Geometry.DoIntersectSymmetric | LineSegmentIntersection.py:113-137 | do_intersect does not depend on the order of its arguments |
| Geometry.NoSelfIntersection | LineSegmentIntersection.py:120-121 | A segment never intersects itself, because its slope equals its own slope |
| Events.PrecedesIsLexicographic | LineSegmentIntersection.py:85-96 | `__lt__` is the strict lexicographic order on (x, y). Two events are unordered iff they are at the same place. `__eq__` is equality of (x, y, is_intersect), and equal events are at the same place |
| Events.PrecedesTransitive | LineSegmentIntersection.py:93-96 | `__lt__` and its complement are transitive |
| Events.EndpointEventsAtOnePointAreEqual | LineSegmentIntersection.py:85-88 | A start event and an end event at the same point are `__eq__`, so the queue keeps only one of them |
| EventQueue.BisectRight | LineSegmentIntersection.py:179-180 | The add position: no event before it sorts after the new event, and the event at it does |
| EventQueue.BisectLeft | LineSegmentIntersection.py:216 | The remove position: every event before it sorts before the removed event, and the event at it does not |
| EventQueue.BisectSplitsSorted | LineSegmentIntersection.py:177-180 | On a sorted queue, the whole suffix from each bisect position is on the corresponding side of the event |
| EventQueue.Added | LineSegmentIntersection.py:179-180 | SortedSet.add on the contents: the event is present afterwards. The contents are unchanged when an `__eq__` event was queued, and one longer otherwise. No event is lost and only the new one is gained |
| EventQueue.AddedIsSortedSet | LineSegmentIntersection.py:179-180 | Adding keeps the queue sorted and duplicate-free and makes the event present. The new contents are the old ones plus the event when no equal event was queued. The length grows by one exactly then |
| EventQueue.Discarded | LineSegmentIntersection.py:216 | SortedSet.remove on the contents: no result when no `__eq__` event is queued. A result takes out exactly one queued event `__eq__` to the removed one, is one shorter and gains nothing |
| EventQueue.DiscardedIsSortedSet | LineSegmentIntersection.py:216 | Removing an absent event fails. A successful remove takes out exactly the one equal event and keeps the queue a sorted set one shorter |
| EventQueue.DiscardedFindsLoneEvent | LineSegmentIntersection.py:216 | Removing a present event succeeds when no other event shares its place |
| EventQueue.RemoveBlockedBySamePlaceEvent | LineSegmentIntersection.py:246 | Removing a crossing event fails when an endpoint event at the same (x, y) sorts first at the bisect_left position |
| EventQueue.Queue.constructor | LineSegmentIntersection.py:177 | A new queue is empty and valid |
| EventQueue.Queue.Length | LineSegmentIntersection.py:186 | `len(e)` is the number of queued events, and zero exactly when the queue is empty |
| EventQueue.Queue.Add | LineSegmentIntersection.py:179-180 | `e.add`: the new contents are the sorted-set insertion of the event |
| EventQueue.Queue.PopMin | LineSegmentIntersection.py:186-187 | `e.pop(0)`: returns the first event, which no queued event precedes, and leaves the rest |
| EventQueue.Queue.Remove | LineSegmentIntersection.py:216 | `e.remove`: succeeds exactly when the sorted-set removal succeeds, and then the contents are that removal. Otherwise nothing changes |
| SweepStatus.IndexOf | LineSegmentIntersection.py:57-58 | `list.index`: the first position holding a segment with the same identity. None iff no position does |
| SweepStatus.BisectRight | LineSegmentIntersection.py:54 | Binary search for the bisect_right position under `__lt__`. It fails with FloorOfNonFinite only if some segment on the line is vertical |
| SweepStatus.BisectRightKeepsOrder | LineSegmentIntersection.py:52-55 | On a line ordered for the item, everything before the bisect_right position is not above the item and everything from it on is |
| SweepStatus.Sweep.constructor | LineSegmentIntersection.py:49-50 | A new sweep line is empty |
| SweepStatus.Sweep.AddItem | LineSegmentIntersection.py:52-55 | `add_item` writes the key. On success it inserts exactly one element at a bisect_right position, keeping the others in order. On failure the list is unchanged |
| SweepStatus.Sweep.GetIndex | LineSegmentIntersection.py:57-58 | `get_index`: the first position holding a segment with the item's identity. None, where `list.index` raises, exactly when no position does |
| SweepStatus.Sweep.GetItemOfGetIndex | LineSegmentIntersection.py:57-64 | get_item(get_index(s)) has s's identity, and is s when no other value on the line has that identity |
| SweepStatus.Sweep.RemoveItem | LineSegmentIntersection.py:60-61 | `remove_item` deletes exactly the first element with the item's identity, or fails with NotInSweep and changes nothing |
| SweepStatus.Sweep.GetItem | LineSegmentIntersection.py:63-64 | `get_item`: the segment at the index, counting from the end for a negative index as Python does |
| SweepStatus.Sweep.Length | LineSegmentIntersection.py:66-67 | `get_length`: the list's length, zero exactly when the line is empty |
| BruteForce.SlopeOf | BruteForce.py:8 | The slope is `Vertical` exactly when the start and end x are equal |
| BruteForce.InterceptOf | BruteForce.py:9 | The intercept of a non-vertical segment is the same measured from either endpoint: b == end.y - slope*end.x |
| BruteForce.Intersection | BruteForce.py:11-36 | None for two vertical segments or equal slopes. A result has its x in both x-ranges |
| BruteForce.SolveLines | BruteForce.py:29 | x = (b2-b1)/(m1-m2) solves m1*x + b1 = m2*x + b2 |
| BruteForce.LinesMeetSolves | BruteForce.py:22-30 | In the non-vertical case the meeting point solves both line equations and has y = slope1*x + intercept1. With one vertical segment, it sits at that segment's x on the other line |
| BruteForce.SlopedLinesMeet | BruteForce.py:28-30 | The non-vertical case of the same |
| BruteForce.IntersectionSolvesLines | BruteForce.py:22-34 | The same properties for any point `intersection` returns |
| BruteForce.IntersectionAgreesWithDoIntersect | BruteForce.py:11-36 | `intersection` returns exactly what `do_intersect` returns for a segment with the same endpoints |
| BruteForce.ReversedSameLine | BruteForce.py:8-9 | Swapping a segment's endpoints leaves its slope and intercept unchanged |
| BruteForce.IntersectionIgnoresOrientation | BruteForce.py:19-36 | `intersection` gives the same result when either segment has its endpoints swapped |
| BruteForce.FindAllIntersections | BruteForce.py:91-104 | The nested loops compute AllIntersections, the recursive specification of the pair enumeration |
| BruteForce.TestRow | BruteForce.py:99-103 | The inner loop appends exactly row i of the specification |
| BruteForce.AllIntersectionsMembers | BruteForce.py:97-104 | A point is in the result iff `intersection(segments[i], segments[j])` yields it for some i < j |
| BruteForce.AllIntersectionsCount | BruteForce.py:97-104 | The result has at most n(n-1)/2 points, and none for fewer than two segments |
| Input.Normalize | LineSegmentIntersection.py:327-329 | After the swap, the first x is at most the second. The two endpoints are the same pair. A line already in order is unchanged |
| Input.NormalizeIdempotent | LineSegmentIntersection.py:327-329 | Swapping twice is the same as swapping once |
| Input.Segments | LineSegmentIntersection.py:326-330 | One segment per input line, identified by its index. Its left and right endpoints are the line's first and second points after the swap, so left.x <= right.x and the endpoints are the line's two points |
| Input.VerticalLineOf | LineSegmentIntersection.py:326-330 | A vertical segment of the list comes from an input line whose two x coordinates are equal |
| Input.LoadSegments | LineSegmentIntersection.py:325-330 | The loop of main builds exactly Segments |
| Input.LineSegments | BruteForce.py:110-115 | One checker segment per input line |
| Input.LoadLineSegments | BruteForce.py:110-115 | The loop of main builds exactly LineSegments |
| Input.SameSegmentsForBoth | BruteForce.py:111-115 | Both programs build segments with the same endpoints from the same lines |
| PlaneSweep.Schedule | LineSegmentIntersection.py:198-201 | The queue becomes `Scheduled` of the old queue: the add of the crossing event of (a, b) when do_intersect finds a point strictly right of the current event, otherwise no change |
| PlaneSweep.Cancel | LineSegmentIntersection.py:213-216 | Succeeds exactly when `Cancelled` of the old queue is a queue, and then the queue is that one. Otherwise it fails with NotInQueue and the queue is unchanged |
| PlaneSweep.Scheduled | LineSegmentIntersection.py:198-201 | The guarded add on the contents. When do_intersect gives a point strictly right of the current event, an event `__eq__` to the crossing event of (a, b) at that point is present afterwards. Otherwise the contents are unchanged. No queued event is lost, and the only new event can be that crossing event |
| PlaneSweep.Cancelled | LineSegmentIntersection.py:213-216 | The guarded remove on the contents. Without a do_intersect point strictly right of the current event it is the unchanged queue. With one, it fails when no event `__eq__` to the crossing event is queued. A result then takes out exactly one queued event `__eq__` to it, as a multiset, and gains nothing |
| PlaneSweep.ScheduleBelow | LineSegmentIntersection.py:196-201 | Under the guard `k+1 < len and k+1 != 0`, the queue becomes `Scheduled` for (line[k], line[k+1]). Otherwise it is unchanged. Either way it stays a sorted set of input events right of the current event |
| PlaneSweep.ScheduleAbove | LineSegmentIntersection.py:203-208 | Under the guard `0 < k-1 < len`, the queue becomes `Scheduled` for (line[k-1], line[k]). Otherwise it is unchanged, so index 0 is never taken as the neighbour above |
| PlaneSweep.CancelAbove | LineSegmentIntersection.py:240-246 | Under the guard `0 < k-1 < len`, the queue becomes `Cancelled` for (line[k-1], line[k]). It fails with NotInQueue, changing nothing, exactly when that remove raises. Without the guard it succeeds and changes nothing |
| PlaneSweep.CancelBelow | LineSegmentIntersection.py:251-257 | The same for (line[k], line[k+1]) under the guard `k+1 < len and k+1 != 0` |
| PlaneSweep.StartNeighbours | LineSegmentIntersection.py:196-216 | With the new segment at index cs, the queue gets the guarded add below, then the guarded add above, then, when both neighbours exist, the guarded remove of their crossing. It fails with NotInQueue exactly when that remove raises |
| PlaneSweep.OnStart | LineSegmentIntersection.py:189-216 | The start event writes the key and inserts the segment at a bisect_right position. At its index cs the queue then gets, in order: `Scheduled` with line[cs+1] under the guard `cs+1 < len and cs+1 != 0`, `Scheduled` with line[cs-1] under `0 < cs-1 < len`, and `Cancelled` of (line[cs-1], line[cs+1]) when both hold (the predicate `StartRescheduled`). It fails with NotInQueue exactly when that removal fails. It fails with FloorOfNonFinite, changing neither line nor queue, only if some input segment is vertical |
| PlaneSweep.StartAtIndexOneSkipsNeighbour | LineSegmentIntersection.py:196-208 | For A from (0, 10) to (10, 0) and B from (1, 0) to (10, 10), which cross at (100/19, 90/19), B's only bisect_right position on the line [A] is 1, and at index 1 of [A, B] neither guard of the start branch holds |
| PlaneSweep.SharedEndpointDropsStart | LineSegmentIntersection.py:177-180 | For A from (1, 1) to (2, 2) and B from (2, 2) to (3, 3), the first loop's four adds leave the queue [start of A, end of A, end of B]: B's start event is absorbed by A's `__eq__` end event |
| PlaneSweep.OnEnd | LineSegmentIntersection.py:218-232 | Fails with NotInSweep, changing nothing, exactly when the segment is not on the line. Otherwise it removes the segment's first occurrence k, and the queue is `Scheduled` for the new line[k-1] and line[k+1] when `k+1 < len and k+1 != 0 and 0 < k-1 < len`, else unchanged (the predicate `EndRescheduled`) |
| PlaneSweep.DetachFirst | LineSegmentIntersection.py:237-247 | Fails with NotInSweep, changing nothing, when the first segment is absent. Otherwise, at its index k, the queue is `Cancelled` of (line[k-1], line[k]) when `0 < k-1 < len`. When that removal fails it fails with NotInQueue and changes nothing. Else the queue is the removal's result and the line loses exactly position k |
| PlaneSweep.DetachSecond | LineSegmentIntersection.py:249-258 | The same for the second segment, cancelling (line[k], line[k+1]) under the guard `k+1 < len and k+1 != 0` |
| PlaneSweep.AttachSecond | LineSegmentIntersection.py:260-268 | Writes the crossing point as the second segment's key and inserts it at a bisect_right position j, so the line gains exactly that segment. The queue is `Scheduled` for (line[j-1], line[j]) when `0 < j-1 < len`, else unchanged. It fails only with FloorOfNonFinite, changing neither line nor queue, and only if some input segment is vertical |
| PlaneSweep.AttachFirst | LineSegmentIntersection.py:270-278 | The same for the first segment, scheduling (line[j], line[j+1]) under the guard `j+1 < len and j+1 != 0` |
| PlaneSweep.OnCrossing | LineSegmentIntersection.py:234-281 | An intersection event fails only with NotInSweep, NotInQueue or FloorOfNonFinite, the last only if some input segment is vertical. On success both segments are on the line with the crossing point as key, no other segment joins the line, and the length is unchanged |
| PlaneSweep.CrossingPoints | LineSegmentIntersection.py:280-281 | `res` has at most one point per processed event |
| PlaneSweep.CrossingPointsSnoc | LineSegmentIntersection.py:280-281 | Processing one more event appends its place to `res` when it is an intersection event, and appends nothing otherwise |
| PlaneSweep.CrossingPointsMembers | LineSegmentIntersection.py:280 | A point is in `res` iff some processed intersection event is at that point |
| PlaneSweep.CrossingPointsDistinct | LineSegmentIntersection.py:186-188 | Over duplicate-free processed events, `res` has no repeated point |
| PlaneSweep.ProgressStep | LineSegmentIntersection.py:186-188 | One turn keeps the loop invariant and processes one more of the finitely many possible events |
| PlaneSweep.QueueEndpoints | LineSegmentIntersection.py:177-180 | The first loop queues only endpoint events of input segments, and an event `__eq__` to the start and to the end event of every segment |
| PlaneSweep.QueueSegment | LineSegmentIntersection.py:179-180 | The queue becomes exactly the two sorted-set adds of segment i's start and end events, and the loop invariant then covers segments 0..i |
| PlaneSweep.SegmentQueued | LineSegmentIntersection.py:178-180 | When the queue before held the endpoint events of segments 0..i-1 and the two adds make segment i's events present and lose none, the queue after holds those of segments 0..i |
| PlaneSweep.ProgressStart | LineSegmentIntersection.py:177-185 | Before the loop, the invariant holds with nothing processed |
| PlaneSweep.Finished | LineSegmentIntersection.py:186 | With the queue empty, every endpoint event has been processed. The points are distinct and all found by the brute-force checker |
| PlaneSweep.Dispatch | LineSegmentIntersection.py:189-281 | Runs the branch of the event's kind. A start event writes the key and inserts its segment at a bisect_right position, failing only with FloorOfNonFinite (line and queue unchanged) or NotInQueue. At the segment's new index cs, the queue then gets `Scheduled` with line[cs+1], `Scheduled` with line[cs-1] and `Cancelled` of (line[cs-1], line[cs+1]), each under the source's guard, as in OnStart. An end event fails with NotInSweep, changing nothing, exactly when its segment is absent. Otherwise it deletes that segment's first occurrence k and applies `Scheduled` to the new line[k-1] and line[k+1] under the source's guard, as in OnEnd. A successful intersection event keys both segments at the crossing point, keeps them on the line, and keeps the line's length and identities. The queue stays a valid set of input events |
| PlaneSweep.Turn | LineSegmentIntersection.py:186-281 | Pops the first event and runs its branch, with the same per-kind effect on the line, the keys and the rest of the queue as Dispatch. On success it keeps the loop invariant and strictly decreases the measure. A FloorOfNonFinite failure needs a vertical input segment |
| PlaneSweep.ProcessedIdsSnoc | LineSegmentIntersection.py:186-188 | Appending an event to `event_order` adds its segment's identity to the started identities for a start event, to the ended ones for an end event, and to neither for an intersection event |
| PlaneSweep.BalanceStep | LineSegmentIntersection.py:189-281 | A successful branch keeps the balance: a start adds one identity to the line, an end removes one, an intersection keeps the line's identities |
| PlaneSweep.EventLoop | LineSegmentIntersection.py:186-284 | The while loop, from a queue of endpoint events, gives the guarantees of PlaneSweep. It also keeps the line balanced: the identities on the line plus those of the processed end events equal the identities on the starting line plus those of the processed start events |
| PlaneSweep.PlaneSweep | LineSegmentIntersection.py:168-284 | Terminates. On success `ans == len(res)`, and `res` lists the processed intersection points without repeats. `event_order` is in non-decreasing (x, y) order with no two `__eq__` events and holds only input events. For each endpoint of every segment, an event `__eq__` to its endpoint event is processed. Every point in `res` is found by the brute-force checker. Each segment ends at most as often as it starts. A FloorOfNonFinite failure happens only if some segment is vertical |
| PlaneSweep.CrossingFoundByBruteForce | BruteForce.py:97-104 | The point of any crossing event of the input is yielded by some pair i < j of the enumeration |
| PlaneSweep.CrossingsFoundByBruteForce | BruteForce.py:97-104 | Every point in `res` is in the brute-force result for the same segments |
| PlaneSweep.SweepLines | LineSegmentIntersection.py:322-332 | `main`: on success, the count matches, no point repeats, and every point is one that BruteForce's `main` reports for the same input lines. A FloorOfNonFinite failure needs an input line with x1 == x2 |

## Left out

- File input and output (`get_points`, `update_points`, the argv handling in both `main` functions): plumbing. The model starts from parsed integer lines (`Input.InputLine`).
- Plotting and animation (`plot_line_segments`, `plot_intersection_points`, `FuncAnimation`), `print` tracing and the `__str__` methods: console and UI output only.
- IEEE floating point. Arithmetic is exact over `real`. The nan or infinite intercept of a vertical segment is never used by a computation that does not raise, so it is left undefined. Comparing against a vertical segment is the modelled `FloorOfNonFinite` failure.
- `sortedcontainers` internals and `Event.__hash__`. The queue is an abstract sorted, duplicate-free sequence. Insertion is at bisect_right. Removal is at bisect_left, and fails when the event found there is not `__eq__`. Hashing only affects lookup speed.
- The `is_left` flag of intersection events, which no branch reads, and the duplicated `do_intersect` call in each test. The call is pure, so it is made once.
- PlaneSweep.PlaneSweep: states that every reported point is a true crossing, but not the converse that every crossing is reported. The converse is false as written: the guard `0 < index-1` never compares the segment at index 1 with the one at index 0, its upper neighbour. `PlaneSweep.StartAtIndexOneSkipsNeighbour` shows two crossing segments whose pair no branch of the start event tests. There is no corrected sweep in the model, so this is not listed as a finding with a corrected member.
- PlaneSweep.PlaneSweep: states that an event `__eq__` to each endpoint event is processed, not that each segment's own end event is. For the segments (2,2)-(3,3) and (1,1)-(2,2), the start event of the first and the end event of the second are `__eq__`, and the queue keeps only the first.
- PlaneSweep.PlaneSweep: does not say when the NotInSweep and NotInQueue failures happen, only that a failure ends the sweep. They do happen. With A from (1, 1) to (2, 2) and B from (2, 2) to (3, 3), `PlaneSweep.SharedEndpointDropsStart` shows that B's start event never enters the queue. B's end event then finds no B on the line, which is the end branch's NotInSweep case in `PlaneSweep.Dispatch`.
- PlaneSweep.EventLoop: carries the three `PlaneSweep.PlaneSweep` gaps above. Every reported point is a true crossing, but not every crossing is reported. Endpoint events are covered only up to `__eq__`. Of the failures, only FloorOfNonFinite is characterised (it needs a vertical input segment); NotInSweep and NotInQueue are not.
- PlaneSweep.SweepLines: states for `main` only the count, the distinct points, that each point is one the brute-force checker reports for the same lines, and that FloorOfNonFinite needs a vertical input line. Like `PlaneSweep.PlaneSweep`, it does not state completeness or when NotInSweep and NotInQueue happen. It also leaves the processing order and the endpoint coverage (up to `__eq__`) to `PlaneSweep.PlaneSweep`.
- PlaneSweep.Dispatch: gives the intersection branch's queue only as a set of input events right of the current event, losing no endpoint event, not as the exact queue. The exact queue is stated step by step in `DetachFirst`, `DetachSecond`, `AttachSecond` and `AttachFirst`.
- PlaneSweep.Turn: carries the same gap as `PlaneSweep.Dispatch`. After an intersection event, the rest of the queue is given only as a set of input events right of the current event, losing no endpoint event, not as the exact queue.
- PlaneSweep.OnCrossing: states the failure cases, the keys and which segments the line holds, not the exact final queue and list. The four steps it chains (`DetachFirst`, `DetachSecond`, `AttachSecond`, `AttachFirst`) state theirs exactly.
- PlaneSweep.QueueEndpoints: states which events the queue holds, not a closed form of the whole queue. `QueueSegment` states the exact queue after each iteration.
