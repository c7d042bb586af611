/** The timeline index of utils/grid.py: two binary searches, window queries over data ranges and
    events, and bounds computed over three levels of containers. */
module TimelineIndex {
  import opened Common

  datatype DataRange = DataRange(start: int, end: int)

  /** Python slicing: the upper bound is clamped, and crossing bounds give an empty slice. */
  function Slice<T>(s: seq<T>, lo: nat, hi: nat): seq<T> {
    var hi' := if hi <= |s| then hi else |s|;
    if lo <= hi' then s[lo..hi'] else []
  }

  // ---------------------------------------------------------------------------------------------
  // Data ranges

  /** Sorted, well-formed and disjoint. */
  predicate Disjoint(rs: seq<DataRange>) {
    && (forall i :: 0 <= i < |rs| ==> rs[i].start <= rs[i].end)
    && (forall i, j :: 0 <= i < j < |rs| ==> rs[i].end < rs[j].start)
  }

  predicate Contains(r: DataRange, key: int) {
    r.start <= key <= r.end
  }

  /** The range meets the window. */
  predicate Meets(r: DataRange, start: int, end: int) {
    r.start <= end && start <= r.end
  }

  /** Some range contains `key`. */
  predicate Hit(rs: seq<DataRange>, key: int) {
    exists i :: 0 <= i < |rs| && Contains(rs[i], key)
  }

  /** The selected index window, as the four branches of the code choose it from two lookups. */
  function Window(s: int, e: int, n: nat): (nat, nat)
    requires s >= -1 && e >= -1
  {
    if s == -1 && e == -1 then (0, 0)
    else if s == -1 then (0, e + 1)
    else if e == -1 then (s, n)
    else (s, e + 1)
  }

  /** What the search finds between the indices `l` and `u`, halving as it does, on any list. */
  function LookupBetween(rs: seq<DataRange>, key: int, l: int, u: int): (found: int)
    requires 0 <= l <= u + 1 <= |rs|
    ensures found == -1 || (l <= found <= u && Contains(rs[found], key))
    decreases u - l + 1
  {
    if l > u then -1
    else
      var i := (l + u) / 2;
      if Contains(rs[i], key) then i
      else if key < rs[i].start then LookupBetween(rs, key, l, i - 1)
      else LookupBetween(rs, key, i + 1, u)
  }

  function Lookup(rs: seq<DataRange>, key: int): int {
    LookupBetween(rs, key, 0, |rs| - 1)
  }

  /** What a search may return for `key`: an index of a range containing it, or -1 when there is none. */
  ghost predicate Found(rs: seq<DataRange>, key: int, found: int) {
    if found == -1 then !Hit(rs, key) else 0 <= found < |rs| && Contains(rs[found], key)
  }

  lemma {:induction false} LookupMisses(rs: seq<DataRange>, key: int, l: int, u: int, k: nat)
    requires Disjoint(rs) && 0 <= l <= u + 1 <= |rs| && l <= k <= u
    requires LookupBetween(rs, key, l, u) == -1
    ensures !Contains(rs[k], key)
    decreases u - l + 1
  {
    var i := (l + u) / 2;
    if k < i {
      assert rs[k].end < rs[i].start;
    } else if i < k {
      assert rs[i].end < rs[k].start;
    }
    if key < rs[i].start && k < i {
      LookupMisses(rs, key, l, i - 1, k);
    } else if rs[i].end < key && i < k {
      LookupMisses(rs, key, i + 1, u, k);
    }
  }

  lemma LookupFinds(rs: seq<DataRange>, key: int)
    ensures Disjoint(rs) ==> Found(rs, key, Lookup(rs, key))
  {
    if Disjoint(rs) && Lookup(rs, key) == -1 {
      forall k | 0 <= k < |rs| ensures !Contains(rs[k], key) {
        LookupMisses(rs, key, 0, |rs| - 1, k);
      }
    }
  }

  /** On any list a range in the middle, rounded down, is found first. */
  lemma MiddleIsFound(rs: seq<DataRange>, key: int)
    requires rs != [] && Contains(rs[(|rs| - 1) / 2], key)
    ensures Lookup(rs, key) == (|rs| - 1) / 2
  {
  }

  class TimelineDataRange {
    var ranges: seq<DataRange>

    constructor ()
      ensures ranges == []
    {
      ranges := [];
    }

    method Search(key: int) returns (found: int)
      ensures found == Lookup(ranges, key)
      ensures Disjoint(ranges) ==> Found(ranges, key, found)
    {
      LookupFinds(ranges, key);
      var l, u := 0, |ranges| - 1;
      while l <= u
        invariant 0 <= l <= u + 1 <= |ranges|
        invariant LookupBetween(ranges, key, l, u) == Lookup(ranges, key)
      {
        var i := (l + u) / 2;
        if ranges[i].start <= key <= ranges[i].end {
          return i;
        } else if key < ranges[i].start {
          u := i - 1;
        } else {
          l := i + 1;
        }
      }
      return -1;
    }

    /** Any list gives the slice of the two lookups; sorted disjoint ranges give the selection. */
    method GetRanges(start: int, end: int) returns (rs: seq<DataRange>)
      ensures var (lo, hi) := Window(Lookup(ranges, start), Lookup(ranges, end), |ranges|); rs == Slice(ranges, lo, hi)
      ensures Disjoint(ranges) ==> Disjoint(rs) && forall r :: r in rs <==> Selected(ranges, start, end, r)
    {
      var s := Search(start);
      var e := Search(end);
      if s == -1 && e == -1 {
        rs := [];
      } else if s == -1 {
        rs := Slice(ranges, 0, e + 1);
      } else if e == -1 {
        rs := Slice(ranges, s, |ranges|);
      } else {
        rs := Slice(ranges, s, e + 1);
      }
      if Disjoint(ranges) {
        SliceIsSelection(ranges, start, end, s, e);
      }
    }

    /** The index window of the same slice. */
    method GetRangesBounds(start: int, end: int) returns (lo: nat, hi: nat)
      ensures (lo, hi) == Window(Lookup(ranges, start), Lookup(ranges, end), |ranges|)
      ensures Disjoint(ranges) ==>
        forall i :: 0 <= i < |ranges| ==> (lo <= i < hi <==> Selected(ranges, start, end, ranges[i]))
    {
      var s := Search(start);
      var e := Search(end);
      if Disjoint(ranges) {
        WindowIsSelection(ranges, start, end, s, e);
      }
      if s == -1 && e == -1 {
        return 0, 0;
      } else if s == -1 {
        return 0, e + 1;
      } else if e == -1 {
        return s, |ranges|;
      } else {
        return s, e + 1;
      }
    }

    method GetBounds() returns (lo: int, hi: int)
      ensures (lo, hi) == RangeBounds(ranges)
      ensures (lo, hi) == if |ranges| == 0 then (0, 0) else (ranges[0].start, ranges[|ranges| - 1].end)
    {
      if |ranges| > 0 {
        lo := ranges[0].start;
        hi := ranges[|ranges| - 1].end;
      } else {
        lo, hi := 0, 0;
      }
    }
  }

  /** What a query selects.  An endpoint that falls between ranges does not cut the selection on its
      side; when both fall between ranges nothing is selected. */
  predicate Selected(rs: seq<DataRange>, start: int, end: int, r: DataRange) {
    && r in rs
    && (Hit(rs, start) || Hit(rs, end))
    && (Hit(rs, start) ==> start <= r.end)
    && (Hit(rs, end) ==> r.start <= end)
  }

  lemma WindowIsSelection(rs: seq<DataRange>, start: int, end: int, s: int, e: int)
    requires Disjoint(rs) && Found(rs, start, s) && Found(rs, end, e)
    ensures var (lo, hi) := Window(s, e, |rs|);
      forall i :: 0 <= i < |rs| ==> (lo <= i < hi <==> Selected(rs, start, end, rs[i]))
  {
  }

  lemma InSlice<T>(s: seq<T>, lo: nat, hi: nat, x: T)
    ensures x in Slice(s, lo, hi) <==> exists i :: lo <= i < hi && i < |s| && s[i] == x
  {
    var part := Slice(s, lo, hi);
    if x in part {
      var k :| 0 <= k < |part| && part[k] == x;
      assert s[lo + k] == x;
    }
    if i :| lo <= i < hi && i < |s| && s[i] == x {
      assert part[i - lo] == x;
    }
  }

  lemma SelectionByWindow(rs: seq<DataRange>, start: int, end: int, s: int, e: int, r: DataRange)
    requires Disjoint(rs) && Found(rs, start, s) && Found(rs, end, e)
    ensures r in Slice(rs, Window(s, e, |rs|).0, Window(s, e, |rs|).1) <==> Selected(rs, start, end, r)
  {
    WindowIsSelection(rs, start, end, s, e);
    InSlice(rs, Window(s, e, |rs|).0, Window(s, e, |rs|).1, r);
  }

  lemma SliceIsSelection(rs: seq<DataRange>, start: int, end: int, s: int, e: int)
    requires Disjoint(rs) && Found(rs, start, s) && Found(rs, end, e)
    ensures Disjoint(Slice(rs, Window(s, e, |rs|).0, Window(s, e, |rs|).1))
    ensures forall r :: r in Slice(rs, Window(s, e, |rs|).0, Window(s, e, |rs|).1) <==> Selected(rs, start, end, r)
  {
    forall r ensures r in Slice(rs, Window(s, e, |rs|).0, Window(s, e, |rs|).1) <==> Selected(rs, start, end, r) {
      SelectionByWindow(rs, start, end, s, e, r);
    }
  }

  /** Both endpoints inside ranges: exactly the ranges meeting the window. */
  lemma SelectionExactWhenBothHit(rs: seq<DataRange>, start: int, end: int, r: DataRange)
    requires Disjoint(rs) && start <= end && Hit(rs, start) && Hit(rs, end)
    ensures Selected(rs, start, end, r) <==> r in rs && Meets(r, start, end)
  {
  }

  /** At least one endpoint inside a range: every range meeting the window is selected. */
  lemma SelectionCovers(rs: seq<DataRange>, start: int, end: int, r: DataRange)
    requires Disjoint(rs) && start <= end && (Hit(rs, start) || Hit(rs, end))
    requires r in rs && Meets(r, start, end)
    ensures Selected(rs, start, end, r)
  {
  }

  /** When the query is exact: a side without a hit has no range beyond it, and when neither endpoint
      hits, no range lies strictly inside the window. */
  predicate ExactWindow(rs: seq<DataRange>, start: int, end: int) {
    if Hit(rs, start) && Hit(rs, end) then true
    else if Hit(rs, end) then start <= rs[0].end
    else if Hit(rs, start) then rs[|rs| - 1].start <= end
    else forall i :: 0 <= i < |rs| ==> !(start < rs[i].start && rs[i].end < end)
  }

  /** The query returns exactly the ranges meeting the window if and only if that condition holds. */
  lemma SelectionExactIff(rs: seq<DataRange>, start: int, end: int)
    requires Disjoint(rs) && start <= end
    ensures (forall i :: 0 <= i < |rs| ==> (Selected(rs, start, end, rs[i]) <==> Meets(rs[i], start, end)))
       <==> ExactWindow(rs, start, end)
  {
    if !Hit(rs, start) && Hit(rs, end) {
      assert rs[0] in rs;
      assert forall i :: 0 < i < |rs| ==> rs[0].end < rs[i].start;
      if start > rs[0].end {
        var e :| 0 <= e < |rs| && Contains(rs[e], end);
        assert rs[0].start <= end;
        assert Selected(rs, start, end, rs[0]) && !Meets(rs[0], start, end);
      }
    } else if Hit(rs, start) && !Hit(rs, end) {
      var n := |rs| - 1;
      assert rs[n] in rs;
      assert forall i :: 0 <= i < n ==> rs[i].end < rs[n].start;
      if rs[n].start > end {
        var s :| 0 <= s < |rs| && Contains(rs[s], start);
        assert start <= rs[n].end;
        assert Selected(rs, start, end, rs[n]) && !Meets(rs[n], start, end);
      }
    } else if !Hit(rs, start) && !Hit(rs, end) {
      forall i | 0 <= i < |rs| ensures Meets(rs[i], start, end) <==> start < rs[i].start && rs[i].end < end {
        assert !Contains(rs[i], start) && !Contains(rs[i], end);
      }
    }
  }

  /** A window strictly around a range selects nothing, although the range lies in it. */
  lemma BothMissLosesRanges()
    ensures Disjoint([DataRange(2, 3)])
    ensures !Selected([DataRange(2, 3)], 1, 4, DataRange(2, 3)) && Meets(DataRange(2, 3), 1, 4)
  {
    var rs := [DataRange(2, 3)];
    assert !Hit(rs, 1) && !Hit(rs, 4);
  }

  // ---------------------------------------------------------------------------------------------
  // Events

  /** No two events at `key`. */
  predicate OnceAt(events: seq<int>, key: int) {
    forall i, j :: 0 <= i < j < |events| ==> !(events[i] == key && events[j] == key)
  }

  /** In order of time, and the two endpoints are not shared by several events. */
  predicate Queryable(events: seq<int>, start: int, end: int) {
    Ascending(events) && OnceAt(events, start) && OnceAt(events, end)
  }

  /** `i` is selected when the event is not before `start` and no earlier event reaches `end`. */
  predicate EventSelected(events: seq<int>, start: int, end: int, i: nat)
    requires i < |events|
  {
    start <= events[i] && forall j :: 0 <= j < i ==> events[j] < end
  }

  /** The same by time: no event strictly before `at` reaches `end`. */
  predicate EventTimeSelected(events: seq<int>, start: int, end: int, at: int) {
    start <= at && forall at' :: at' in events && at' < at ==> at' < end
  }

  lemma SelectedIsTimeSelected(events: seq<int>, start: int, end: int, i: nat)
    requires Ascending(events) && i < |events| && EventSelected(events, start, end, i)
    ensures EventTimeSelected(events, start, end, events[i])
  {
    forall at | at in events && at < events[i] ensures at < end {
      var j :| 0 <= j < |events| && events[j] == at;
    }
  }

  lemma {:induction false} FirstAt(events: seq<int>, at: int) returns (i: nat)
    requires at in events
    ensures i < |events| && events[i] == at && at !in events[..i]
  {
    var n := |events| - 1;
    if at in events[..n] {
      i := FirstAt(events[..n], at);
      assert events[..n][..i] == events[..i];
    } else {
      i := n;
    }
  }

  lemma TimeSelectedIsSelected(events: seq<int>, start: int, end: int, at: int) returns (i: nat)
    requires Ascending(events) && at in events && EventTimeSelected(events, start, end, at)
    ensures i < |events| && events[i] == at && EventSelected(events, start, end, i)
  {
    i := FirstAt(events, at);
    forall j | 0 <= j < i ensures events[j] < end {
      assert events[..i][j] == events[j] && events[j] in events;
    }
  }

  lemma SliceIsTimeSelection(events: seq<int>, start: int, end: int, lo: nat, hi: nat)
    requires Ascending(events)
    requires forall i :: 0 <= i < |events| ==> (lo <= i < hi <==> EventSelected(events, start, end, i))
    ensures forall at :: at in Slice(events, lo, hi) <==> at in events && EventTimeSelected(events, start, end, at)
  {
    forall at ensures at in Slice(events, lo, hi) <==> at in events && EventTimeSelected(events, start, end, at) {
      InSlice(events, lo, hi, at);
      if at in Slice(events, lo, hi) {
        var i :| lo <= i < hi && i < |events| && events[i] == at;
        SelectedIsTimeSelected(events, start, end, i);
      }
      if at in events && EventTimeSelected(events, start, end, at) {
        var i := TimeSelectedIsSelected(events, start, end, at);
      }
    }
  }

  /** Where the search ends up between the indices `l` and `u`, on any list. */
  function PlaceBetween(events: seq<int>, key: int, l: int, u: int): (place: nat)
    requires 0 <= l <= u + 1 <= |events|
    ensures l <= place <= u + 1
    decreases u - l + 1
  {
    if l > u then l
    else
      var i := (l + u) / 2;
      if key == events[i] then i
      else if key < events[i] then PlaceBetween(events, key, l, i - 1)
      else PlaceBetween(events, key, i + 1, u)
  }

  function Place(events: seq<int>, key: int): nat {
    PlaceBetween(events, key, 0, |events| - 1)
  }

  lemma {:induction false} PlaceBetweenOrders(events: seq<int>, key: int, l: int, u: int, i: nat)
    requires Ascending(events) && 0 <= l <= u + 1 <= |events| && i < |events|
    requires i < l ==> events[i] <= key
    requires u < i ==> key <= events[i]
    ensures i < PlaceBetween(events, key, l, u) ==> events[i] <= key
    ensures PlaceBetween(events, key, l, u) <= i ==> key <= events[i]
    decreases u - l + 1
  {
    if l > u {
    } else {
      var m := (l + u) / 2;
      if key == events[m] {
      } else if key < events[m] {
        PlaceBetweenOrders(events, key, l, m - 1, i);
      } else {
        PlaceBetweenOrders(events, key, m + 1, u, i);
      }
    }
  }

  lemma {:induction false} PlaceBetweenHits(events: seq<int>, key: int, l: int, u: int, i: nat)
    requires Ascending(events) && 0 <= l <= u + 1 <= |events| && l <= i <= u && events[i] == key
    ensures l <= PlaceBetween(events, key, l, u) <= u && events[PlaceBetween(events, key, l, u)] == key
    decreases u - l + 1
  {
    var m := (l + u) / 2;
    if key == events[m] {
    } else if key < events[m] {
      PlaceBetweenHits(events, key, l, m - 1, i);
    } else {
      PlaceBetweenHits(events, key, m + 1, u, i);
    }
  }

  /** The place splits the events into those up to `key` and those from `key` on; strictly so when at
      most one event is at `key`. */
  lemma PlaceSplits(events: seq<int>, key: int, i: nat)
    requires Ascending(events) && i < |events|
    ensures if i < Place(events, key) then events[i] <= key else key <= events[i]
    ensures OnceAt(events, key) ==> (events[i] < key <==> i < Place(events, key))
  {
    PlaceBetweenOrders(events, key, 0, |events| - 1, i);
    if events[i] == key {
      PlaceBetweenHits(events, key, 0, |events| - 1, i);
    }
  }

  class TimelineEvent {
    /** The times of the events; their values play no part in the index. */
    var events: seq<int>

    constructor ()
      ensures events == []
    {
      events := [];
    }

    /** An event at `key`, or the place where it would be inserted. */
    method Search(key: int) returns (l: nat)
      ensures l == Place(events, key) <= |events|
      ensures Ascending(events) ==>
        forall i :: 0 <= i < |events| ==> if i < l then events[i] <= key else key <= events[i]
      ensures Ascending(events) && OnceAt(events, key) ==>
        forall i :: 0 <= i < |events| ==> (events[i] < key <==> i < l)
    {
      if Ascending(events) {
        forall i | 0 <= i < |events|
          ensures if i < Place(events, key) then events[i] <= key else key <= events[i]
          ensures OnceAt(events, key) ==> (events[i] < key <==> i < Place(events, key))
        {
          PlaceSplits(events, key, i);
        }
      }
      l := 0;
      var u := |events| - 1;
      while l <= u
        invariant 0 <= l <= u + 1 <= |events|
        invariant PlaceBetween(events, key, l, u) == Place(events, key)
      {
        var i := (l + u) / 2;
        if key == events[i] {
          return i;
        } else if key < events[i] {
          u := i - 1;
        } else {
          l := i + 1;
        }
      }
    }

    /** With several events at an endpoint some of them may be missed, but no event inside the window
        is, and nothing before it and at most one event after it is taken. */
    method GetEventsBounds(start: int, end: int) returns (lo: nat, hi: nat)
      ensures (lo, hi) == (Place(events, start), Place(events, end) + 1)
      ensures Ascending(events) ==> forall i :: 0 <= i < |events| ==>
        && (start < events[i] < end ==> lo <= i < hi)
        && (lo <= i < hi ==> start <= events[i])
        && (lo <= i < hi - 1 ==> events[i] <= end)
      ensures Queryable(events, start, end) ==>
        forall i :: 0 <= i < |events| ==> (lo <= i < hi <==> EventSelected(events, start, end, i))
    {
      var s := Search(start);
      var e := Search(end);
      if Queryable(events, start, end) {
        forall i | 0 <= i < |events| ensures s <= i < e + 1 <==> EventSelected(events, start, end, i) {
          if e < i {
            assert events[e] >= end;
          }
        }
      }
      return s, e + 1;
    }

    method GetEvents(start: int, end: int) returns (es: seq<int>)
      ensures es == Slice(events, Place(events, start), Place(events, end) + 1)
      ensures Ascending(events) ==> Ascending(es)
      ensures Queryable(events, start, end) ==>
        forall at :: at in es <==> at in events && EventTimeSelected(events, start, end, at)
    {
      var lo, hi := GetEventsBounds(start, end);
      es := Slice(events, lo, hi);
      if Queryable(events, start, end) {
        SliceIsTimeSelection(events, start, end, lo, hi);
      }
    }

    method GetBounds() returns (lo: int, hi: int)
      ensures (lo, hi) == EventBounds(events)
      ensures (lo, hi) == if |events| == 0 then (0, 0) else (events[0], events[|events| - 1])
    {
      if |events| > 0 {
        lo := events[0];
        hi := events[|events| - 1];
      } else {
        lo, hi := 0, 0;
      }
    }
  }

  /** An event of the window, or the first later one when no event is exactly at its end. */
  predicate InWindowOrNext(events: seq<int>, start: int, end: int, i: nat)
    requires i < |events|
  {
    || start <= events[i] <= end
    || (start <= events[i] && end < events[i] && end !in events && (i == 0 || events[i - 1] < end))
  }

  lemma SelectedInWindowOrNext(events: seq<int>, start: int, end: int, i: nat)
    requires Ascending(events) && OnceAt(events, end) && i < |events|
    ensures EventSelected(events, start, end, i) <==> InWindowOrNext(events, start, end, i)
  {
    if end < events[i] && end !in events && i > 0 && events[i - 1] < end {
      forall j | 0 <= j < i ensures events[j] < end {
        assert j < i - 1 ==> events[j] <= events[i - 1];
      }
    }
  }

  /** Every event of the window is selected, and at most one other, if and only if no two events are at
      the end of the window. */
  lemma EventSelectionExact(events: seq<int>, start: int, end: int)
    requires Ascending(events) && start <= end
    ensures (forall i :: 0 <= i < |events| ==>
              (EventSelected(events, start, end, i) <==> InWindowOrNext(events, start, end, i)))
       <==> OnceAt(events, end)
  {
    if OnceAt(events, end) {
      forall i | 0 <= i < |events|
        ensures EventSelected(events, start, end, i) <==> InWindowOrNext(events, start, end, i)
      {
        SelectedInWindowOrNext(events, start, end, i);
      }
    } else {
      var i, j :| 0 <= i < j < |events| && events[i] == end && events[j] == end;
      assert InWindowOrNext(events, start, end, j) && !EventSelected(events, start, end, j);
    }
  }

  lemma AtMostOneLaterEvent(events: seq<int>, start: int, end: int, i: nat, j: nat)
    requires i < |events| && j < |events|
    requires EventSelected(events, start, end, i) && EventSelected(events, start, end, j)
    requires end < events[i] && end < events[j]
    ensures i == j
  {
  }

  // ---------------------------------------------------------------------------------------------
  // When an event query is complete

  /** The query for `start`..`end` returns every event of its window. */
  predicate Covers(events: seq<int>, start: int, end: int) {
    forall i :: 0 <= i < |events| && start <= events[i] <= end ==> Place(events, start) <= i <= Place(events, end)
  }

  /** The events at `key` are those at the indices from `a` to `b`. */
  predicate RunAt(events: seq<int>, key: int, a: int, b: int) {
    0 <= a <= b < |events| && forall i :: 0 <= i < |events| ==> (events[i] == key <==> a <= i <= b)
  }

  lemma {:induction false} RunExists(events: seq<int>, key: int) returns (a: nat, b: nat)
    requires Ascending(events) && key in events
    ensures RunAt(events, key, a, b)
  {
    var n := |events| - 1;
    if key in events[..n] {
      a, b := RunExists(events[..n], key);
      assert forall i :: 0 <= i < n ==> events[..n][i] == events[i];
      if events[n] == key {
        b := n;
      }
    } else {
      a, b := n, n;
      forall i | 0 <= i < n ensures events[i] != key {
        assert events[..n][i] == events[i];
      }
    }
  }

  /** The first midpoint of the halving that falls between `a` and `b`.  It depends on positions only. */
  function FirstProbe(l: int, u: int, a: int, b: int): (p: int)
    requires l <= a <= b <= u
    ensures a <= p <= b
    decreases u - l
  {
    var i := (l + u) / 2;
    if i < a then FirstProbe(i + 1, u, a, b)
    else if b < i then FirstProbe(l, i - 1, a, b)
    else i
  }

  /** When events are at `key` the search stops at the first midpoint among them. */
  lemma {:induction false} PlaceIsFirstProbe(events: seq<int>, key: int, l: int, u: int, a: int, b: int)
    requires Ascending(events) && RunAt(events, key, a, b) && 0 <= l <= a && b <= u < |events|
    ensures PlaceBetween(events, key, l, u) == FirstProbe(l, u, a, b)
    decreases u - l
  {
    var i := (l + u) / 2;
    if i < a {
      assert events[i] <= events[a] == key;
      PlaceIsFirstProbe(events, key, i + 1, u, a, b);
    } else if b < i {
      assert key == events[b] <= events[i];
      PlaceIsFirstProbe(events, key, l, i - 1, a, b);
    }
  }

  /** The probes: the middle, rounded down, and then the middle of the half that holds the run. */
  lemma ProbeHalves(l: nat, u: nat, a: nat, b: nat)
    requires l <= a <= b <= u
    ensures var middle := l + (u - l) / 2;
      && (a <= middle <= b ==> FirstProbe(l, u, a, b) == middle)
      && (middle < a ==> FirstProbe(l, u, a, b) == FirstProbe(middle + 1, u, a, b))
      && (b < middle ==> FirstProbe(l, u, a, b) == FirstProbe(l, middle - 1, a, b))
  {
    assert (l + u) / 2 == l + (u - l) / 2;
  }

  /** If there are events at `key`, the halving meets the first of them before the others. */
  ghost predicate ProbesFirst(events: seq<int>, key: int) {
    forall a, b :: RunAt(events, key, a, b) ==> FirstProbe(0, |events| - 1, a, b) == a
  }

  /** If there are events at `key`, the halving meets the last of them before the others. */
  ghost predicate ProbesLast(events: seq<int>, key: int) {
    forall a, b :: RunAt(events, key, a, b) ==> FirstProbe(0, |events| - 1, a, b) == b
  }

  lemma RunUnique(events: seq<int>, key: int, a: int, b: int, a': int, b': int)
    requires RunAt(events, key, a, b) && RunAt(events, key, a', b')
    ensures a == a' && b == b'
  {
    assert events[a] == key && events[b] == key && events[a'] == key && events[b'] == key;
  }

  lemma ProbesByPlace(events: seq<int>, key: int, a: int, b: int)
    requires Ascending(events) && RunAt(events, key, a, b)
    ensures a <= Place(events, key) <= b
    ensures ProbesFirst(events, key) <==> Place(events, key) == a
    ensures ProbesLast(events, key) <==> Place(events, key) == b
  {
    PlaceIsFirstProbe(events, key, 0, |events| - 1, a, b);
    forall a', b' | RunAt(events, key, a', b') ensures a' == a && b' == b {
      RunUnique(events, key, a, b, a', b');
    }
  }

  lemma NoRun(events: seq<int>, key: int)
    requires key !in events
    ensures ProbesFirst(events, key) && ProbesLast(events, key)
  {
    forall a, b ensures !RunAt(events, key, a, b) {
      if 0 <= a <= b < |events| {
        assert events[a] in events;
      }
    }
  }

  /** The place counts the events before `key` if and only if the halving meets the first one at it. */
  lemma PlaceCountsIff(events: seq<int>, key: int)
    requires Ascending(events)
    ensures ProbesFirst(events, key)
       <==> forall i :: 0 <= i < |events| ==> (Place(events, key) <= i <==> key <= events[i])
  {
    forall i | 0 <= i < |events|
      ensures if i < Place(events, key) then events[i] <= key else key <= events[i]
    {
      PlaceSplits(events, key, i);
    }
    if key in events {
      var a, b := RunExists(events, key);
      ProbesByPlace(events, key, a, b);
      assert events[a] == key;
    } else {
      NoRun(events, key);
    }
  }

  /** No event up to `key` is behind the place if and only if the halving meets the last one at it. */
  lemma PlaceReachesIff(events: seq<int>, key: int)
    requires Ascending(events)
    ensures ProbesLast(events, key) <==> forall i :: 0 <= i < |events| && events[i] <= key ==> i <= Place(events, key)
  {
    forall i | 0 <= i < |events|
      ensures if i < Place(events, key) then events[i] <= key else key <= events[i]
    {
      PlaceSplits(events, key, i);
    }
    if key in events {
      var a, b := RunExists(events, key);
      ProbesByPlace(events, key, a, b);
      assert events[b] == key;
    } else {
      NoRun(events, key);
    }
  }

  /** In any case the place is behind the earlier events and not behind the later ones. */
  lemma PlaceOrders(events: seq<int>, key: int)
    requires Ascending(events)
    ensures forall i :: 0 <= i < |events| && events[i] < key ==> i < Place(events, key)
    ensures forall i :: 0 <= i < |events| && key < events[i] ==> Place(events, key) <= i
  {
    forall i | 0 <= i < |events|
      ensures events[i] < key ==> i < Place(events, key)
      ensures key < events[i] ==> Place(events, key) <= i
    {
      PlaceSplits(events, key, i);
    }
  }

  /** A query over a proper window is complete if and only if the halving meets the first of the events
      at its start, and the last of those at its end, before the others. */
  lemma WindowCompleteIff(events: seq<int>, start: int, end: int)
    requires Ascending(events) && start < end
    ensures Covers(events, start, end) <==> ProbesFirst(events, start) && ProbesLast(events, end)
  {
    PlaceOrders(events, start);
    PlaceOrders(events, end);
    PlaceCountsIff(events, start);
    PlaceReachesIff(events, end);
    if Covers(events, start, end) {
      if start in events {
        var a, b := RunExists(events, start);
        ProbesByPlace(events, start, a, b);
        assert events[a] == start;
      } else {
        NoRun(events, start);
      }
      if end in events {
        var a, b := RunExists(events, end);
        ProbesByPlace(events, end, a, b);
        assert events[b] == end;
      } else {
        NoRun(events, end);
      }
    }
  }

  /** A query for a single time is complete if and only if at most one event is at that time. */
  lemma InstantCompleteIff(events: seq<int>, key: int)
    requires Ascending(events)
    ensures Covers(events, key, key) <==> OnceAt(events, key)
  {
    if key in events {
      var a, b := RunExists(events, key);
      ProbesByPlace(events, key, a, b);
      assert events[a] == key && events[b] == key;
    }
  }

  /** All queries are complete if and only if no two events share a time. */
  lemma AllCompleteIff(events: seq<int>)
    requires Ascending(events)
    ensures (forall start, end :: start <= end ==> Covers(events, start, end)) <==> NoDuplicates(events)
  {
    if NoDuplicates(events) {
      forall start, end | start <= end ensures Covers(events, start, end) {
        InstantCompleteIff(events, start);
        InstantCompleteIff(events, end);
        PlaceOrders(events, start);
        PlaceOrders(events, end);
      }
    } else {
      var i, j :| 0 <= i < j < |events| && events[i] == events[j];
      InstantCompleteIff(events, events[i]);
    }
  }

  /** The index window of a query is exactly the selection if and only if the halving meets the first of
      the events at either endpoint before the others. */
  lemma WindowIsSelectionIff(events: seq<int>, start: int, end: int)
    requires Ascending(events) && start <= end
    ensures (forall i :: 0 <= i < |events| ==>
              (Place(events, start) <= i <= Place(events, end) <==> EventSelected(events, start, end, i)))
       <==> ProbesFirst(events, start) && ProbesFirst(events, end)
  {
    PlaceCountsIff(events, start);
    PlaceCountsIff(events, end);
    if ProbesFirst(events, start) && ProbesFirst(events, end) {
      forall i | 0 <= i < |events|
        ensures Place(events, start) <= i <= Place(events, end) <==> EventSelected(events, start, end, i)
      {
        if Place(events, end) < i {
          assert end <= events[Place(events, end)];
        }
      }
    } else {
      SharedEndpointBreaksWindow(events, start, end);
    }
  }

  lemma SharedEndpointBreaksWindow(events: seq<int>, start: int, end: int)
    requires Ascending(events) && start <= end && !(ProbesFirst(events, start) && ProbesFirst(events, end))
    ensures !forall i :: 0 <= i < |events| ==>
              (Place(events, start) <= i <= Place(events, end) <==> EventSelected(events, start, end, i))
  {
    if !ProbesFirst(events, start) {
      if start !in events {
        NoRun(events, start);
      }
      var a, b := RunExists(events, start);
      ProbesByPlace(events, start, a, b);
      assert events[a] == start;
      assert EventSelected(events, start, end, a) by {
        forall j | 0 <= j < a ensures events[j] < end {
          assert events[j] <= events[a] && events[j] != start;
        }
      }
    } else {
      if end !in events {
        NoRun(events, end);
      }
      var a, b := RunExists(events, end);
      ProbesByPlace(events, end, a, b);
      PlaceCountsIff(events, start);
      var p := Place(events, end);
      assert events[a] == end && events[p] == end && !EventSelected(events, start, end, p);
    }
  }

  /** Of three events at one time a query for that time returns one. */
  lemma SharedEndpointLosesEvents()
    ensures Ascending([1, 1, 1]) && Slice([1, 1, 1], Place([1, 1, 1], 1), Place([1, 1, 1], 1) + 1) == [1]
  {
    assert PlaceBetween([1, 1, 1], 1, 0, 2) == 1;
  }

  // ---------------------------------------------------------------------------------------------
  // Bounds over three levels

  function RangeBounds(rs: seq<DataRange>): (int, int) {
    if rs == [] then (0, 0) else (rs[0].start, rs[|rs| - 1].end)
  }

  function EventBounds(events: seq<int>): (int, int) {
    if events == [] then (0, 0) else (events[0], events[|events| - 1])
  }

  /** The instants a list of ranges mentions. */
  function RangePoints(rs: seq<DataRange>): set<int> {
    (set r | r in rs :: r.start) + (set r | r in rs :: r.end)
  }

  function EventPoints(events: seq<int>): set<int> {
    set at | at in events
  }

  /** `lo` and `hi` are the least and the greatest of 0 and `points`. */
  predicate Hull(points: set<int>, lo: int, hi: int) {
    && lo in points + {0} && hi in points + {0}
    && lo <= 0 <= hi
    && forall p :: p in points ==> lo <= p <= hi
  }

  /** Starting from 0 does no harm, so that the bounds are the least and the greatest of the points
      themselves, if and only if the points do not all lie on one side of 0. */
  lemma HullTightIff(points: set<int>, lo: int, hi: int)
    requires Hull(points, lo, hi)
    ensures lo in points && hi in points <==> (exists p :: p in points && p <= 0) && exists p :: p in points && 0 <= p
  {
  }

  /** `lo` is the least of 0 and the lower bounds, `hi` the greatest of 0 and the upper bounds. */
  predicate Extremes(bounds: set<(int, int)>, lo: int, hi: int) {
    && lo <= 0 <= hi
    && (forall b :: b in bounds ==> lo <= b.0 && b.1 <= hi)
    && (lo == 0 || exists b :: b in bounds && b.0 == lo)
    && (hi == 0 || exists b :: b in bounds && b.1 == hi)
  }

  /** One step of the bounds loops. */
  function Widen(lo: int, hi: int, b: (int, int)): (int, int) {
    (if b.0 < lo then b.0 else lo, if b.1 > hi then b.1 else hi)
  }

  lemma WidenExtremes(bounds: set<(int, int)>, lo: int, hi: int, b: (int, int))
    requires Extremes(bounds, lo, hi)
    ensures Extremes(bounds + {b}, Widen(lo, hi, b).0, Widen(lo, hi, b).1)
  {
    assert b in bounds + {b};
    forall b' | b' in bounds ensures b' in bounds + {b} {
    }
  }

  lemma MergeExtremes(bounds: set<(int, int)>, lo: int, hi: int, more: set<(int, int)>, b: (int, int))
    requires Extremes(bounds, lo, hi) && Extremes(more, b.0, b.1)
    ensures Extremes(bounds + more, Widen(lo, hi, b).0, Widen(lo, hi, b).1)
  {
    forall b' | b' in bounds || b' in more ensures b' in bounds + more {
    }
  }

  /** The bounds enclose the points and each of them is a point, or 0 for an empty list. */
  predicate Encloses(b: (int, int), points: set<int>) {
    (forall p :: p in points ==> b.0 <= p <= b.1) && b.0 in points + {0} && b.1 in points + {0}
  }

  lemma RangeBoundsEnclose(rs: seq<DataRange>)
    requires Disjoint(rs)
    ensures Encloses(RangeBounds(rs), RangePoints(rs))
  {
    if rs != [] {
      assert rs[0] in rs && rs[|rs| - 1] in rs;
      forall r | r in rs ensures rs[0].start <= r.start <= r.end <= rs[|rs| - 1].end {
        var i :| 0 <= i < |rs| && rs[i] == r;
      }
    }
  }

  lemma EventBoundsEnclose(events: seq<int>)
    requires Ascending(events)
    ensures Encloses(EventBounds(events), EventPoints(events))
  {
  }

  /** The extremes of enclosing bounds are the hull of what they enclose. */
  lemma ExtremesHull(bounds: set<(int, int)>, points: set<int>, lo: int, hi: int)
    requires Extremes(bounds, lo, hi)
    requires forall p :: p in points ==> exists b :: b in bounds && b.0 <= p <= b.1
    requires forall b :: b in bounds ==> b.0 in points + {0} && b.1 in points + {0}
    ensures Hull(points, lo, hi)
  {
    forall p | p in points ensures lo <= p <= hi {
      var b :| b in bounds && b.0 <= p <= b.1;
    }
  }

  ghost function RangeBoundsOf(children: seq<TimelineDataRange>): set<(int, int)>
    reads children
  {
    set c | c in children :: RangeBounds(c.ranges)
  }

  ghost function EventBoundsOf(children: seq<TimelineEvent>): set<(int, int)>
    reads children
  {
    set c | c in children :: EventBounds(c.events)
  }

  class Timeline {
    var ranges: seq<TimelineDataRange>
    var eventStr: seq<TimelineEvent>
    var eventInt: seq<TimelineEvent>

    /** The first and the last instant of every child enclose its instants, as in sorted lists of
        events and of disjoint ranges (`RangeBoundsEnclose`, `EventBoundsEnclose`). */
    ghost predicate Enclosed()
      reads this, ranges, eventStr, eventInt
    {
      && (forall c :: c in ranges ==> Encloses(RangeBounds(c.ranges), RangePoints(c.ranges)))
      && (forall c :: c in eventStr + eventInt ==> Encloses(EventBounds(c.events), EventPoints(c.events)))
    }

    /** The bounds of the children. */
    ghost function Bounds(): set<(int, int)>
      reads this, ranges, eventStr, eventInt
    {
      RangeBoundsOf(ranges) + EventBoundsOf(eventStr) + EventBoundsOf(eventInt)
    }

    /** The instants of the children. */
    ghost function Points(): set<int>
      reads this, ranges, eventStr, eventInt
    {
      (set c, p | c in ranges && p in RangePoints(c.ranges) :: p)
      + (set c, p | c in eventStr + eventInt && p in EventPoints(c.events) :: p)
    }

    constructor ()
      ensures ranges == [] && eventStr == [] && eventInt == []
    {
      ranges, eventStr, eventInt := [], [], [];
    }

    lemma PointsBounded(p: int)
      requires Enclosed() && p in Points()
      ensures exists b :: b in Bounds() && b.0 <= p <= b.1
    {
      if c :| c in ranges && p in RangePoints(c.ranges) {
        assert RangeBounds(c.ranges) in Bounds();
      } else {
        var c :| c in eventStr + eventInt && p in EventPoints(c.events);
        assert EventBounds(c.events) in Bounds();
      }
    }

    lemma BoundsArePoints(b: (int, int))
      requires Enclosed() && b in Bounds()
      ensures b.0 in Points() + {0} && b.1 in Points() + {0}
    {
      if c :| c in ranges && b == RangeBounds(c.ranges) {
        assert Encloses(b, RangePoints(c.ranges));
        assert forall p :: p in RangePoints(c.ranges) ==> p in Points();
      } else {
        var c :| c in eventStr + eventInt && b == EventBounds(c.events);
        assert Encloses(b, EventPoints(c.events));
        assert forall p :: p in EventPoints(c.events) ==> p in Points();
      }
    }

    lemma BoundsHull(lo: int, hi: int)
      requires Extremes(Bounds(), lo, hi)
      ensures Enclosed() ==> Hull(Points(), lo, hi)
    {
      if Enclosed() {
        EnclosedBoundsHull(lo, hi);
      }
    }

    lemma EnclosedBoundsHull(lo: int, hi: int)
      requires Enclosed() && Extremes(Bounds(), lo, hi)
      ensures Hull(Points(), lo, hi)
    {
      forall p | p in Points() ensures exists b :: b in Bounds() && b.0 <= p <= b.1 {
        PointsBounded(p);
      }
      forall b | b in Bounds() ensures b.0 in Points() + {0} && b.1 in Points() + {0} {
        BoundsArePoints(b);
      }
      ExtremesHull(Bounds(), Points(), lo, hi);
    }

    /** The extremes of the children's bounds and 0; for sorted children the least interval that
        contains 0 and every instant of every child. */
    method GetBounds() returns (lo: int, hi: int)
      ensures Extremes(Bounds(), lo, hi)
      ensures Enclosed() ==> Hull(Points(), lo, hi)
    {
      lo, hi := WidenByChildren();
      BoundsHull(lo, hi);
    }

    /** The three loops. */
    method WidenByChildren() returns (lo: int, hi: int)
      ensures Extremes(Bounds(), lo, hi)
    {
      ghost var bounds := RangeBoundsOf(ranges);
      lo, hi := WidenByRanges();
      lo, hi := WidenByEvents(eventStr, lo, hi, bounds);
      bounds := bounds + EventBoundsOf(eventStr);
      lo, hi := WidenByEvents(eventInt, lo, hi, bounds);
    }

    /** The loop over the ranges. */
    method WidenByRanges() returns (lo: int, hi: int)
      ensures Extremes(RangeBoundsOf(ranges), lo, hi)
    {
      lo, hi := 0, 0;
      for i := 0 to |ranges|
        invariant Extremes(RangeBoundsOf(ranges[..i]), lo, hi)
      {
        var clo, chi := ranges[i].GetBounds();
        WidenExtremes(RangeBoundsOf(ranges[..i]), lo, hi, (clo, chi));
        RangeBoundsStep(ranges, i);
        if clo < lo {
          lo := clo;
        }
        if chi > hi {
          hi := chi;
        }
      }
      assert ranges[..|ranges|] == ranges;
    }

    /** The loop over one list of event children. */
    method WidenByEvents(children: seq<TimelineEvent>, lo0: int, hi0: int, ghost bounds: set<(int, int)>)
      returns (lo: int, hi: int)
      requires Extremes(bounds, lo0, hi0)
      ensures Extremes(bounds + EventBoundsOf(children), lo, hi)
    {
      lo, hi := lo0, hi0;
      assert bounds + EventBoundsOf(children[..0]) == bounds;
      for i := 0 to |children|
        invariant Extremes(bounds + EventBoundsOf(children[..i]), lo, hi)
      {
        var clo, chi := children[i].GetBounds();
        WidenExtremes(bounds + EventBoundsOf(children[..i]), lo, hi, (clo, chi));
        EventBoundsStep(bounds, children, i);
        if clo < lo {
          lo := clo;
        }
        if chi > hi {
          hi := chi;
        }
      }
      assert children[..|children|] == children;
    }
  }

  lemma RangeBoundsStep(children: seq<TimelineDataRange>, i: nat)
    requires i < |children|
    ensures RangeBoundsOf(children[..i + 1]) == RangeBoundsOf(children[..i]) + {RangeBounds(children[i].ranges)}
  {
    assert children[..i + 1] == children[..i] + [children[i]];
  }

  lemma EventBoundsStep(bounds: set<(int, int)>, children: seq<TimelineEvent>, i: nat)
    requires i < |children|
    ensures bounds + EventBoundsOf(children[..i + 1])
         == bounds + EventBoundsOf(children[..i]) + {EventBounds(children[i].events)}
  {
    assert children[..i + 1] == children[..i] + [children[i]];
  }

  class Timelines {
    var timelines: seq<Timeline>

    constructor ()
      ensures timelines == []
    {
      timelines := [];
    }

    /** The same over all timelines. */
    method GetBounds() returns (lo: int, hi: int)
      ensures Extremes(AllBounds(timelines), lo, hi)
      ensures AllEnclosed(timelines) ==> Hull(AllPoints(timelines), lo, hi)
    {
      lo, hi := 0, 0;
      for i := 0 to |timelines|
        invariant Extremes(AllBounds(timelines[..i]), lo, hi)
      {
        var tlo, thi := timelines[i].GetBounds();
        AllBoundsStep(timelines, i, lo, hi, (tlo, thi));
        if tlo < lo {
          lo := tlo;
        }
        if thi > hi {
          hi := thi;
        }
      }
      assert timelines[..|timelines|] == timelines;
      AllBoundsHull(timelines, lo, hi);
    }
  }

  ghost function AllBounds(timelines: seq<Timeline>): set<(int, int)>
    reads *
  {
    set t, b | t in timelines && b in t.Bounds() :: b
  }

  ghost function AllPoints(timelines: seq<Timeline>): set<int>
    reads *
  {
    set t, p | t in timelines && p in t.Points() :: p
  }

  lemma AllBoundsStep(timelines: seq<Timeline>, i: nat, lo: int, hi: int, b: (int, int))
    requires i < |timelines| && Extremes(AllBounds(timelines[..i]), lo, hi) && Extremes(timelines[i].Bounds(), b.0, b.1)
    ensures Extremes(AllBounds(timelines[..i + 1]), Widen(lo, hi, b).0, Widen(lo, hi, b).1)
  {
    MergeExtremes(AllBounds(timelines[..i]), lo, hi, timelines[i].Bounds(), b);
    assert timelines[..i + 1] == timelines[..i] + [timelines[i]];
    assert AllBounds(timelines[..i + 1]) == AllBounds(timelines[..i]) + timelines[i].Bounds();
  }

  ghost predicate AllEnclosed(timelines: seq<Timeline>)
    reads *
  {
    forall t :: t in timelines ==> t.Enclosed()
  }

  lemma AllBoundsHull(timelines: seq<Timeline>, lo: int, hi: int)
    requires Extremes(AllBounds(timelines), lo, hi)
    ensures AllEnclosed(timelines) ==> Hull(AllPoints(timelines), lo, hi)
  {
    if AllEnclosed(timelines) {
      AllEnclosedHull(timelines, lo, hi);
    }
  }

  lemma AllEnclosedHull(timelines: seq<Timeline>, lo: int, hi: int)
    requires Extremes(AllBounds(timelines), lo, hi) && AllEnclosed(timelines)
    ensures Hull(AllPoints(timelines), lo, hi)
  {
    forall p | p in AllPoints(timelines) ensures exists b :: b in AllBounds(timelines) && b.0 <= p <= b.1 {
      var t :| t in timelines && p in t.Points();
      t.PointsBounded(p);
      var b :| b in t.Bounds() && b.0 <= p <= b.1;
      assert b in AllBounds(timelines);
    }
    forall b | b in AllBounds(timelines)
      ensures b.0 in AllPoints(timelines) + {0} && b.1 in AllPoints(timelines) + {0}
    {
      var t :| t in timelines && b in t.Bounds();
      t.BoundsArePoints(b);
    }
    ExtremesHull(AllBounds(timelines), AllPoints(timelines), lo, hi);
  }
}
