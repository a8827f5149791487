/** The sweep status: the Python list of active segments, kept in comparator order by
    bisect_right insertion, with removal and lookup by segment identity. */
module SweepStatus {
  import opened Base
  import opened Geometry

  /** list.index under Segment.__eq__ (identity, i.e. equal ids): the first position
      holding the segment, or None where Python raises ValueError. */
  function IndexOf(line: seq<Segment>, id: nat): (r: Option<nat>)
    ensures r.Some? ==> r.value < |line| && line[r.value].id == id
    ensures r.Some? ==> forall j :: 0 <= j < r.value ==> line[j].id != id
    ensures r.None? <==> forall j :: 0 <= j < |line| ==> line[j].id != id
  {
    if line == [] then None
    else if line[0].id == id then Some(0)
    else
      match IndexOf(line[1..], id)
      case None => None
      case Some(k) => Some(k + 1)
  }

  /** k is where bisect_right may stop: the segment before k does not sort above the item,
      the segment at k does. */
  predicate IsBisectRight(line: seq<Segment>, item: Segment, key: Point, k: nat) {
    && k <= |line|
    && (k == 0 || Less(item, key, line[k - 1]) == Success(false))
    && (k == |line| || Less(item, key, line[k]) == Success(true))
  }

  /** bisect.bisect_right(line, item) with item's key set to `key`: binary search calling
      item.__lt__(line[mid]). It raises as soon as it probes a vertical segment. The body follows
      CPython's probe sequence; the ensures give only some `IsBisectRight` position, which is the
      exact split where the line is ordered for the item (`BisectRightKeepsOrder`). */
  method BisectRight(line: seq<Segment>, item: Segment, key: Point) returns (r: Result<nat>)
    ensures r.Success? ==> IsBisectRight(line, item, key, r.value)
    ensures r.Failure? ==> r.error == FloorOfNonFinite
    ensures r.Failure? ==> exists i :: 0 <= i < |line| && line[i].IsVertical()
  {
    var lo, hi := 0, |line|;
    while lo < hi
      invariant 0 <= lo <= hi <= |line|
      invariant lo == 0 || Less(item, key, line[lo - 1]) == Success(false)
      invariant hi == |line| || Less(item, key, line[hi]) == Success(true)
    {
      var mid := (lo + hi) / 2;
      var c := Less(item, key, line[mid]);
      if c.Failure? {
        return Failure(c.error);
      }
      if c.value {
        hi := mid;
      } else {
        lo := mid + 1;
      }
    }
    return Success(lo);
  }

  /** The active list is ordered as seen from the item: no comparison raises, and once the
      item sorts above a segment it sorts above every later one. */
  predicate OrderedFor(line: seq<Segment>, item: Segment, key: Point) {
    && (forall i :: 0 <= i < |line| ==> Less(item, key, line[i]).Success?)
    && (forall i, j :: 0 <= i < j < |line| && Less(item, key, line[i]) == Success(true) ==>
          Less(item, key, line[j]) == Success(true))
  }

  /** On a list ordered for the item, bisect_right's position is the only one that keeps the
      order: everything before it is not above the item, everything from it on is. */
  lemma {:induction false} BisectRightKeepsOrder(line: seq<Segment>, item: Segment, key: Point, k: nat)
    requires OrderedFor(line, item, key) && IsBisectRight(line, item, key, k)
    ensures forall i :: 0 <= i < k ==> Less(item, key, line[i]) == Success(false)
    ensures forall i :: k <= i < |line| ==> Less(item, key, line[i]) == Success(true)
  {
    forall i | 0 <= i < k ensures Less(item, key, line[i]) == Success(false) {
      if Less(item, key, line[i]) == Success(true) && i < k - 1 {
        assert Less(item, key, line[k - 1]) == Success(true);
      }
    }
  }

  /** The identities of the segments on a line, in list order. */
  function LineIds(line: seq<Segment>): (r: seq<nat>)
    ensures |r| == |line|
  {
    if line == [] then [] else [line[0].id] + LineIds(line[1..])
  }

  lemma {:induction false} LineIdsAppend(a: seq<Segment>, b: seq<Segment>)
    ensures LineIds(a + b) == LineIds(a) + LineIds(b)
  {
    if a == [] {
      assert a + b == b;
    } else {
      assert (a + b)[1..] == a[1..] + b;
      LineIdsAppend(a[1..], b);
    }
  }

  /** The identities of x + [t] + y, and of x + y. */
  lemma SplitIds(x: seq<Segment>, t: Segment, y: seq<Segment>)
    ensures LineIds(x + [t] + y) == LineIds(x) + [t.id] + LineIds(y)
    ensures LineIds(x + y) == LineIds(x) + LineIds(y)
  {
    LineIdsAppend(x + [t], y);
    LineIdsAppend(x, [t]);
    LineIdsAppend(x, y);
    assert LineIds([t]) == [t.id];
  }

  /** Inserting a segment adds its identity to the line's multiset of identities. */
  lemma InsertedIds(line: seq<Segment>, k: nat, item: Segment)
    requires k <= |line|
    ensures multiset(LineIds(line[..k] + [item] + line[k..])) == multiset(LineIds(line)) + multiset{item.id}
  {
    var x, y := line[..k], line[k..];
    assert line == x + y;
    SplitIds(x, item, y);
    var ix, iy := LineIds(x), LineIds(y);
    assert multiset(ix + [item.id] + iy) == multiset(ix) + multiset{item.id} + multiset(iy);
    assert multiset(ix + iy) == multiset(ix) + multiset(iy);
  }

  /** A sequence is its prefix, the element at k and its suffix. */
  lemma SplitAt<T>(s: seq<T>, k: nat)
    requires k < |s|
    ensures s == s[..k] + [s[k]] + s[k + 1..]
  {
  }

  /** Deleting position k takes the identity found there out of the multiset. */
  lemma RemovedIds(line: seq<Segment>, k: nat)
    requires k < |line|
    ensures multiset(LineIds(line[..k] + line[k + 1..])) + multiset{line[k].id} == multiset(LineIds(line))
  {
    var x, t, y := line[..k], line[k], line[k + 1..];
    SplitAt(line, k);
    SplitIds(x, t, y);
    var ix, iy := LineIds(x), LineIds(y);
    assert multiset(ix + [t.id] + iy) == multiset(ix) + multiset{t.id} + multiset(iy);
    assert multiset(ix + iy) == multiset(ix) + multiset(iy);
  }

  /** Inserting t at position k of line keeps every member and adds t, and nothing else. */
  lemma InsertedMembers(line: seq<Segment>, k: nat, t: Segment)
    requires k <= |line|
    ensures var ins := line[..k] + [t] + line[k..];
      |ins| == |line| + 1 && t in ins && forall u :: u in ins <==> u in line || u == t
  {
    assert line == line[..k] + line[k..];
  }

  /** The Sweep object. `keys` is the side table of the `key` fields that add_item writes;
      a segment that never went through add_item still has the constructor's key, its left
      endpoint. */
  class Sweep {
    var line: seq<Segment>
    var keys: map<nat, Point>

    constructor ()
      ensures line == [] && keys == map[]
    {
      line := [];
      keys := map[];
    }

    function KeyOf(s: Segment): Point
      reads this
    {
      if s.id in keys then keys[s.id] else s.left
    }

    /** add_item: write item.key, then insert at the bisect_right position. If the comparator
        raises, the key is already written and the list is unchanged. */
    method AddItem(item: Segment, key: Point) returns (r: Outcome)
      modifies this
      ensures keys == old(keys)[item.id := key] && KeyOf(item) == key
      ensures r.Pass? ==> exists k: nat :: IsBisectRight(old(line), item, key, k) &&
                                      line == old(line)[..k] + [item] + old(line)[k..]
      ensures r.Pass? ==> |line| == |old(line)| + 1 && item in line
      ensures r.Pass? ==> forall s :: s in line <==> s in old(line) || s == item
      ensures r.Fail? ==> r.error == FloorOfNonFinite && line == old(line)
      ensures r.Fail? ==> exists i :: 0 <= i < |old(line)| && old(line)[i].IsVertical()
      ensures r.Pass? ==> multiset(LineIds(line)) == multiset(LineIds(old(line))) + multiset{item.id}
    {
      keys := keys[item.id := key];
      var k := BisectRight(line, item, KeyOf(item));
      if k.Failure? {
        return Fail(k.error);
      }
      ghost var before := line;
      assert IsBisectRight(before, item, key, k.value);
      line := line[..k.value] + [item] + line[k.value..];
      InsertedIds(before, k.value, item);
      InsertedMembers(before, k.value, item);
      return Pass;
    }

    /** get_index: list.index, the first position of the item, or None where it raises. */
    function GetIndex(item: Segment): (r: Option<nat>)
      reads this
      ensures r.Some? ==> r.value < |line| && line[r.value].id == item.id
      ensures r.Some? ==> forall j :: 0 <= j < r.value ==> line[j].id != item.id
      ensures r.None? <==> forall t :: t in line ==> t.id != item.id
    {
      IndexOf(line, item.id)
    }

    /** get_item(get_index(s)) is s: the index found holds a segment with s's identity, and
        that segment is s itself when no other value on the line carries the same id. */
    lemma GetItemOfGetIndex(item: Segment)
      requires item in line
      ensures GetIndex(item).Some? && GetIndex(item).value < |line|
      ensures GetItem(GetIndex(item).value).id == item.id
      ensures (forall t :: t in line && t.id == item.id ==> t == item) ==>
        GetItem(GetIndex(item).value) == item
    {
      var k :| 0 <= k < |line| && line[k] == item;
      assert line[k].id == item.id;
    }

    /** remove_item: list.remove deletes the first segment __eq__ to the item, or raises. */
    method RemoveItem(item: Segment) returns (r: Outcome)
      modifies this
      ensures keys == old(keys)
      ensures old(IndexOf(line, item.id)).None? ==> r == Fail(NotInSweep) && line == old(line)
      ensures old(IndexOf(line, item.id)).Some? ==>
        var k := old(IndexOf(line, item.id)).value;
        r.Pass? && line == old(line)[..k] + old(line)[k + 1..]
      ensures r.Pass? ==> |line| == |old(line)| - 1
      ensures forall s :: s in line ==> s in old(line)
      ensures r.Pass? ==> multiset(LineIds(line)) + multiset{item.id} == multiset(LineIds(old(line)))
    {
      match IndexOf(line, item.id)
      case None =>
        r := Fail(NotInSweep);
      case Some(k) =>
        ghost var before := line;
        line := line[..k] + line[k + 1..];
        RemovedIds(before, k);
        assert forall s :: s in line ==> s in before[..k] || s in before[k + 1..];
        r := Pass;
    }

    /** get_item, with Python's negative indices. */
    function GetItem(index: int): (t: Segment)
      reads this
      requires -|line| <= index < |line|
      ensures t in line
      ensures 0 <= index ==> t == line[index]
      ensures index < 0 ==> t == line[|line| + index]
    {
      line[if index < 0 then |line| + index else index]
    }

    /** get_length. */
    function Length(): (n: nat)
      reads this
      ensures n == 0 <==> line == []
      ensures n == |line|
    {
      |line|
    }
  }
}
