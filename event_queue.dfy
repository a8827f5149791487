/** The event queue: a SortedSet of events, i.e. a sequence kept in __lt__ order with no two
    __eq__ events. Insertion goes to the bisect_right position, removal looks at the
    bisect_left position, and the minimum is popped from the front. */
module EventQueue {
  import opened Base
  import opened Events

  /** No event sorts before an earlier one. */
  predicate Sorted(q: seq<Event>) {
    forall i, j :: 0 <= i < j < |q| ==> !Precedes(q[j], q[i])
  }

  /** No two events are __eq__. */
  predicate DuplicateFree(q: seq<Event>) {
    forall i, j :: 0 <= i < j < |q| ==> !Same(q[i], q[j])
  }

  /** The set membership test of SortedSet (hash and __eq__). */
  predicate Contains(q: seq<Event>, ev: Event) {
    exists i :: 0 <= i < |q| && Same(q[i], ev)
  }

  /** bisect_right: the first position whose event ev sorts before. */
  function BisectRight(q: seq<Event>, ev: Event): (k: nat)
    ensures k <= |q|
    ensures forall i :: 0 <= i < k ==> !Precedes(ev, q[i])
    ensures k < |q| ==> Precedes(ev, q[k])
  {
    if q == [] || Precedes(ev, q[0]) then 0 else 1 + BisectRight(q[1..], ev)
  }

  /** bisect_left: the first position whose event does not sort before ev. */
  function BisectLeft(q: seq<Event>, ev: Event): (k: nat)
    ensures k <= |q|
    ensures forall i :: 0 <= i < k ==> Precedes(q[i], ev)
    ensures k < |q| ==> !Precedes(q[k], ev)
  {
    if q == [] || !Precedes(q[0], ev) then 0 else 1 + BisectLeft(q[1..], ev)
  }

  /** On a sorted queue every event from bisect_right on comes strictly after ev, and every
      event from bisect_left on does not come before it. */
  lemma BisectSplitsSorted(q: seq<Event>, ev: Event)
    requires Sorted(q)
    ensures forall i :: BisectRight(q, ev) <= i < |q| ==> Precedes(ev, q[i])
    ensures forall i :: BisectLeft(q, ev) <= i < |q| ==> !Precedes(q[i], ev)
  {
    var k := BisectRight(q, ev);
    forall i | k <= i < |q| ensures Precedes(ev, q[i]) {
      PrecedesTransitive(ev, q[k], q[i]);
    }
    var l := BisectLeft(q, ev);
    forall i | l <= i < |q| ensures !Precedes(q[i], ev) {
      PrecedesTransitive(ev, q[l], q[i]);
    }
  }

  /** SortedSet.add: nothing happens if an equal event is queued; otherwise the event is
      inserted at the bisect_right position. */
  function Added(q: seq<Event>, ev: Event): (r: seq<Event>)
    ensures Contains(r, ev)
    ensures Contains(q, ev) ==> r == q
    ensures !Contains(q, ev) ==> |r| == |q| + 1
    ensures forall e :: e in q ==> e in r
    ensures forall e :: e in r ==> e in q || e == ev
  {
    if Contains(q, ev) then q
    else
      var k := BisectRight(q, ev);
      assert q == q[..k] + q[k..];
      assert (q[..k] + [ev] + q[k..])[k] == ev;
      q[..k] + [ev] + q[k..]
  }

  /** add keeps the queue a sorted set, makes ev (or an equal event) present, and adds
      ev and nothing else exactly when no equal event was queued. */
  lemma AddedIsSortedSet(q: seq<Event>, ev: Event)
    requires Sorted(q) && DuplicateFree(q)
    ensures Sorted(Added(q, ev)) && DuplicateFree(Added(q, ev))
    ensures Contains(Added(q, ev), ev)
    ensures forall e :: e in Added(q, ev) <==> e in q || (e == ev && !Contains(q, ev))
    ensures |Added(q, ev)| == if Contains(q, ev) then |q| else |q| + 1
  {
    if !Contains(q, ev) {
      var k := BisectRight(q, ev);
      var r := q[..k] + [ev] + q[k..];
      BisectSplitsSorted(q, ev);
      assert r[k] == ev;
      assert forall i :: 0 <= i < k ==> r[i] == q[i];
      assert forall i :: k < i < |r| ==> r[i] == q[i - 1];
      forall i, j | 0 <= i < j < |r| ensures !Precedes(r[j], r[i]) && !Same(r[i], r[j]) {
        if j < k {
        } else if j == k {
          assert !Precedes(ev, q[i]);
          PrecedesTransitive(ev, q[i], q[i]);
        } else if i == k {
          assert Precedes(ev, q[j - 1]);
        } else if i < k {
          assert !Precedes(q[j - 1], q[i]);
        }
      }
      assert Same(r[k], ev);
    }
  }

  /** SortedSet.remove: the event at the bisect_left position must be __eq__ to ev; otherwise
      the call raises (KeyError when no equal event is queued, ValueError when an event of the
      other kind at the same place sits at that position). */
  function Discarded(q: seq<Event>, ev: Event): (r: Option<seq<Event>>)
    ensures !Contains(q, ev) ==> r.None?
    ensures r.Some? ==> exists e :: e in q && Same(e, ev) && multiset(r.value) + multiset{e} == multiset(q)
    ensures r.Some? ==> |r.value| + 1 == |q| && forall e :: e in r.value ==> e in q
  {
    var k := BisectLeft(q, ev);
    if k < |q| && Same(q[k], ev) then
      assert q == q[..k] + [q[k]] + q[k + 1..];
      assert q[k] in q;
      Some(q[..k] + q[k + 1..])
    else None
  }

  /** A successful remove takes out exactly the one event equal to ev and keeps a sorted set;
      remove of an event that is not queued fails. */
  lemma DiscardedIsSortedSet(q: seq<Event>, ev: Event)
    requires Sorted(q) && DuplicateFree(q)
    ensures !Contains(q, ev) ==> Discarded(q, ev).None?
    ensures Discarded(q, ev).Some? ==>
      var r := Discarded(q, ev).value;
      && Contains(q, ev) && !Contains(r, ev)
      && Sorted(r) && DuplicateFree(r) && |r| == |q| - 1
      && forall e :: e in r <==> e in q && !Same(e, ev)
  {
    var k := BisectLeft(q, ev);
    if k < |q| && Same(q[k], ev) {
      var r := q[..k] + q[k + 1..];
      assert forall i :: 0 <= i < k ==> r[i] == q[i];
      assert forall i :: k <= i < |r| ==> r[i] == q[i + 1];
      forall i, j | 0 <= i < j < |r| ensures !Precedes(r[j], r[i]) && !Same(r[i], r[j]) {
        if j < k {
        } else if i < k {
          assert r[j] == q[j + 1];
        } else {
          assert r[i] == q[i + 1] && r[j] == q[j + 1];
        }
      }
      forall e | e in q && !Same(e, ev) ensures e in r {
        var i :| 0 <= i < |q| && q[i] == e;
        if i < k { assert r[i] == e; } else { assert i != k; assert r[i - 1] == e; }
      }
      forall e | e in r ensures e in q && !Same(e, ev) {
        var i :| 0 <= i < |r| && r[i] == e;
        if i < k { assert !Same(q[i], q[k]); } else { assert !Same(q[k], q[i + 1]); }
      }
      forall i | 0 <= i < |r| ensures !Same(r[i], ev) {
        if i < k { assert !Same(q[i], q[k]); } else { assert !Same(q[k], q[i + 1]); }
      }
    }
  }

  /** remove finds a queued event whenever no event of the other kind shares its place. */
  lemma DiscardedFindsLoneEvent(q: seq<Event>, ev: Event)
    requires Sorted(q) && DuplicateFree(q) && Contains(q, ev)
    requires forall i :: 0 <= i < |q| && SamePlace(q[i], ev) ==> Same(q[i], ev)
    ensures Discarded(q, ev).Some?
  {
    var i :| 0 <= i < |q| && Same(q[i], ev);
    var k := BisectLeft(q, ev);
    BisectSplitsSorted(q, ev);
    assert k <= i;
    assert !Precedes(q[k], ev);
    assert !Precedes(q[k], q[i]) && !Precedes(q[i], q[k]) by {
      if k < i { assert !Precedes(q[i], q[k]); }
    }
    assert SamePlace(q[k], ev);
  }

  /** A queued crossing event that shares its place with an end event queued before it cannot be
      removed: bisect_left stops at the end event, which is not equal to it. */
  lemma RemoveBlockedBySamePlaceEvent(e: Event, c: Event)
    requires !e.IsIntersect() && c.IsIntersect() && SamePlace(e, c)
    ensures Sorted([e, c]) && DuplicateFree([e, c]) && Contains([e, c], c)
    ensures Discarded([e, c], c).None?
  {
    assert Same([e, c][1], c);
    assert BisectLeft([e, c], c) == 0;
  }

  /** The queue object. */
  class Queue {
    var events: seq<Event>

    ghost predicate Valid()
      reads this
    {
      Sorted(events) && DuplicateFree(events)
    }

    constructor ()
      ensures Valid() && events == []
    {
      events := [];
    }

    /** len(e). */
    function Length(): (n: nat)
      reads this
      ensures n == 0 <==> events == []
      ensures n == |events|
    {
      |events|
    }

    method Add(ev: Event)
      requires Valid()
      modifies this
      ensures Valid()
      ensures events == Added(old(events), ev)
    {
      AddedIsSortedSet(events, ev);
      events := Added(events, ev);
    }

    /** pop(0): removes and returns the least event. */
    method PopMin() returns (ev: Event)
      requires Valid() && events != []
      modifies this
      ensures Valid()
      ensures ev == old(events)[0] && events == old(events)[1..]
      ensures forall e :: e in old(events) ==> !Precedes(e, ev)
    {
      ev := events[0];
      events := events[1..];
    }

    method Remove(ev: Event) returns (ok: bool)
      requires Valid()
      modifies this
      ensures Valid()
      ensures ok == Discarded(old(events), ev).Some?
      ensures events == if ok then Discarded(old(events), ev).value else old(events)
    {
      DiscardedIsSortedSet(events, ev);
      var r := Discarded(events, ev);
      ok := r.Some?;
      if ok {
        events := r.value;
      }
    }
  }
}
