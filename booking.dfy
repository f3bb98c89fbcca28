/**
  The allocator `findBestBooking` (client/src/lib/hotel.ts): given a request
  size and the rooms with their booked flags, it returns `numRooms` free
  rooms or nothing.

  Phase 1 groups the free rooms by floor (a JavaScript `Map`, iterated in the
  order its keys were first inserted), sorts every floor with enough rooms by
  position and slides a window of `numRooms` rooms over it, keeping the first
  window of least position span. If some floor has a window, phase 1's
  result is returned. Phase 2 takes every free room as a pivot together with
  the `numRooms - 1` other free rooms nearest to it, and keeps the first
  candidate of least group cost.

  Each phase is a method proved against declarative predicates over the free
  rooms `A`: `BestWindow` for phase 1 and `BestPivot` for phase 2.
*/
module Booking {
  import opened Wrappers
  import opened JsArray
  import opened Hotel

  // ---------------------------------------------------------------------------
  // The free rooms, per floor
  // ---------------------------------------------------------------------------

  predicate IsFree(r: Room) { !r.isBooked }

  /** `allRooms.filter(r => !r.isBooked)`. */
  function Available(rooms: seq<Room>): (r: seq<Room>)
    ensures |r| <= |rooms|
    ensures forall x :: x in r <==> x in rooms && !x.isBooked
  {
    Filter(rooms, IsFree)
  }

  /** The free rooms keep the input's order and multiplicity. */
  lemma AvailableInOrder(rooms: seq<Room>)
    ensures exists idx :: Selects(rooms, Available(rooms), idx, IsFree)
  {
    FilterSelects(rooms, IsFree);
    var idx :| Selects(rooms, Filter(rooms, IsFree), idx, IsFree);
    assert Selects(rooms, Available(rooms), idx, IsFree);
  }

  /** The test `r.floor === f` of the per-floor grouping. */
  function OnFloorTest(f: int): Room -> bool
  {
    (x: Room) => x.floor == f
  }

  /** The rooms of `rooms` on floor `f`, in their order. */
  function OnFloor(rooms: seq<Room>, f: int): (r: seq<Room>)
    ensures |r| <= |rooms|
    ensures forall x :: x in r <==> x in rooms && x.floor == f
  {
    Filter(rooms, OnFloorTest(f))
  }

  /** A floor's rooms keep the input's order and multiplicity. */
  lemma OnFloorInOrder(rooms: seq<Room>, f: int)
    ensures exists idx :: Selects(rooms, OnFloor(rooms, f), idx, OnFloorTest(f))
  {
    FilterSelects(rooms, OnFloorTest(f));
    var idx :| Selects(rooms, Filter(rooms, OnFloorTest(f)), idx, OnFloorTest(f));
    assert Selects(rooms, OnFloor(rooms, f), idx, OnFloorTest(f));
  }

  /** The floors of `rooms`, each once, in order of first appearance: the key
      order of the `Map` that groups rooms by floor. */
  function FloorsInOrder(rooms: seq<Room>): (fs: seq<int>)
    ensures forall r :: r in rooms ==> r.floor in fs
    ensures forall i, j :: 0 <= i < j < |fs| ==> fs[i] != fs[j]
    decreases |rooms|
  {
    if rooms == [] then []
    else
      var init := rooms[..|rooms| - 1];
      var last := rooms[|rooms| - 1];
      assert rooms == init + [last];
      var fs := FloorsInOrder(init);
      if last.floor in fs then fs else fs + [last.floor]
  }

  /** Every floor in the key order has a room of `rooms`. */
  lemma {:induction false} FloorsHaveRooms(rooms: seq<Room>)
    ensures forall f :: f in FloorsInOrder(rooms) ==> |OnFloor(rooms, f)| > 0
    decreases |rooms|
  {
    if rooms != [] {
      var init := rooms[..|rooms| - 1];
      var last := rooms[|rooms| - 1];
      assert rooms == init + [last];
      FloorsHaveRooms(init);
      forall f | f in FloorsInOrder(rooms) ensures |OnFloor(rooms, f)| > 0 {
        FilterSnoc(init, last, OnFloorTest(f));
        assert OnFloor(rooms, f) == OnFloor(init, f) + (if last.floor == f then [last] else []);
        if f != last.floor {
          assert f in FloorsInOrder(init);
        }
      }
    }
  }

  /** Floor `f` first appears in `rooms` before floor `g` does. */
  ghost predicate AppearsBefore(rooms: seq<Room>, f: int, g: int)
  {
    exists k :: 0 <= k < |rooms| && rooms[k].floor == f && forall m :: 0 <= m <= k ==> rooms[m].floor != g
  }

  /** The floors are listed in order of first appearance: the key order of
      the grouping `Map`. */
  lemma {:induction false} FloorsFirstAppearance(rooms: seq<Room>)
    ensures forall i, j :: 0 <= i < j < |FloorsInOrder(rooms)| ==>
              AppearsBefore(rooms, FloorsInOrder(rooms)[i], FloorsInOrder(rooms)[j])
    decreases |rooms|
  {
    if rooms != [] {
      var init, last := rooms[..|rooms| - 1], rooms[|rooms| - 1];
      assert rooms == init + [last];
      var fi, fs := FloorsInOrder(init), FloorsInOrder(rooms);
      FloorsFirstAppearance(init);
      forall i, j | 0 <= i < j < |fs| ensures AppearsBefore(rooms, fs[i], fs[j]) {
        if j < |fi| {
          assert fs[i] == fi[i] && fs[j] == fi[j];
          var k :| 0 <= k < |init| && init[k].floor == fi[i] && forall m :: 0 <= m <= k ==> init[m].floor != fi[j];
          assert forall m :: 0 <= m <= k ==> rooms[m] == init[m];
        } else {
          assert fs[j] == last.floor && last.floor !in fi && fs[i] == fi[i];
          AppearsBeforeNewFloor(init, last, fi[i]);
        }
      }
    }
  }

  /** An old floor appears before a floor that only the last room brings. */
  lemma AppearsBeforeNewFloor(init: seq<Room>, last: Room, f: int)
    requires f in FloorsInOrder(init) && last.floor !in FloorsInOrder(init)
    ensures AppearsBefore(init + [last], f, last.floor)
  {
    var rooms := init + [last];
    FloorsHaveRooms(init);
    var x := OnFloor(init, f)[0];
    assert x in OnFloor(init, f);
    var k :| 0 <= k < |init| && init[k] == x;
    assert rooms[k] == x && x.floor == f;
    forall m | 0 <= m <= k ensures rooms[m].floor != last.floor {
      assert rooms[m] == init[m] && init[m] in init;
    }
  }

  /** A floor none of `s`'s rooms is on has no rooms in `s`. */
  lemma {:induction false} NoRoomOnFloor(s: seq<Room>, f: int)
    requires forall x :: x in s ==> x.floor != f
    ensures OnFloor(s, f) == []
    decreases |s|
  {
    if s != [] {
      var init := s[..|s| - 1];
      assert s == init + [s[|s| - 1]];
      FilterSnoc(init, s[|s| - 1], OnFloorTest(f));
      NoRoomOnFloor(init, f);
    }
  }

  // ---------------------------------------------------------------------------
  // Unique ids survive filtering and sorting
  // ---------------------------------------------------------------------------

  lemma {:induction false} FilterKeepsUniqueIds(s: seq<Room>, p: Room -> bool)
    requires UniqueIds(s)
    ensures UniqueIds(Filter(s, p))
    decreases |s|
  {
    if s != [] {
      var init := s[..|s| - 1];
      var last := s[|s| - 1];
      FilterKeepsUniqueIds(init, p);
      var fi := Filter(init, p);
      if p(last) {
        forall k | 0 <= k < |fi| ensures fi[k].id != last.id {
          assert fi[k] in init;
          var m :| 0 <= m < |init| && init[m] == fi[k];
          assert s[m] == fi[k];
        }
        var r := fi + [last];
        forall i, j | 0 <= i < j < |r| ensures r[i].id != r[j].id {
          if j == |fi| { assert r[i] == fi[i]; }
        }
      }
    }
  }

  lemma {:induction false} InsertKeepsUniqueIds(x: Room, s: seq<Room>, le: (Room, Room) -> bool)
    requires UniqueIds(s)
    requires forall y :: y in s ==> y.id != x.id
    ensures UniqueIds(Insert(x, s, le))
  {
    if s == [] || le(x, s[0]) {
      var r := [x] + s;
      forall i, j | 0 <= i < j < |r| ensures r[i].id != r[j].id {
        if i == 0 { assert r[j] in s; } else { assert r[i] == s[i - 1] && r[j] == s[j - 1]; }
      }
    } else {
      var rest := Insert(x, s[1..], le);
      forall i, j | 0 <= i < j < |s[1..]| ensures s[1..][i].id != s[1..][j].id {
        assert s[1..][i] == s[i + 1] && s[1..][j] == s[j + 1];
      }
      InsertKeepsUniqueIds(x, s[1..], le);
      InsertPermutes(x, s[1..], le);
      forall y | y in rest ensures y.id != s[0].id {
        assert y in multiset(rest);
        if y != x {
          assert y in s[1..];
          var m :| 0 <= m < |s[1..]| && s[1..][m] == y;
          assert s[m + 1] == y;
        }
      }
      var r := [s[0]] + rest;
      forall i, j | 0 <= i < j < |r| ensures r[i].id != r[j].id {
        if i == 0 { assert r[j] in rest; } else { assert r[i] == rest[i - 1] && r[j] == rest[j - 1]; }
      }
    }
  }

  lemma {:induction false} SortKeepsUniqueIds(s: seq<Room>, le: (Room, Room) -> bool)
    requires UniqueIds(s)
    ensures UniqueIds(InsertionSort(s, le))
  {
    if s != [] {
      var tail := s[1..];
      forall i, j | 0 <= i < j < |tail| ensures tail[i].id != tail[j].id {
        assert tail[i] == s[i + 1] && tail[j] == s[j + 1];
      }
      SortKeepsUniqueIds(tail, le);
      var sorted := InsertionSort(tail, le);
      SortPermutes(tail, le);
      forall y | y in sorted ensures y.id != s[0].id {
        assert y in multiset(sorted);
        var m :| 0 <= m < |tail| && tail[m] == y;
        assert s[m + 1] == y;
      }
      InsertKeepsUniqueIds(s[0], sorted, le);
    }
  }

  // ---------------------------------------------------------------------------
  // Phase 1: same-floor windows (hotel.ts:85-121)
  // ---------------------------------------------------------------------------

  /** The comparator of the per-floor sort: by position. */
  predicate ByPosition(a: Room, b: Room) { a.position - b.position <= 0 }

  /** Floor `f`'s free rooms after the per-floor sort by position. */
  function SortedBucket(a: seq<Room>, f: int): seq<Room>
  {
    InsertionSort(OnFloor(a, f), ByPosition)
  }

  lemma SortedBucketIsSorted(a: seq<Room>, f: int)
    ensures SortedBy(SortedBucket(a, f), ByPosition)
  {
    assert TotalPreorder(ByPosition);
    SortSorted(OnFloor(a, f), ByPosition);
  }

  /** The free rooms of every floor, in the key order of the floors, each
      sorted by position: the buckets phase 1 slides its window over. */
  function Buckets(a: seq<Room>): (bs: seq<seq<Room>>)
    ensures |bs| == |FloorsInOrder(a)|
    ensures forall j :: 0 <= j < |bs| ==> bs[j] == SortedBucket(a, FloorsInOrder(a)[j])
  {
    var floors := FloorsInOrder(a);
    seq(|floors|, j requires 0 <= j < |floors| => SortedBucket(a, floors[j]))
  }

  /** Bucket `j` is the position-sorted list of floor `j`'s free rooms. */
  lemma BucketOfFloor(a: seq<Room>, floors: seq<int>, j: int, floorRooms: seq<Room>)
    requires floors == FloorsInOrder(a) && 0 <= j < |floors|
    requires floorRooms == OnFloor(a, floors[j])
    ensures |floorRooms| == |Buckets(a)[j]|
    ensures InsertionSort(floorRooms, ByPosition) == Buckets(a)[j]
  {
  }

  /** Window `i` of bucket `j` exists: the bucket holds at least `n` rooms
      and the window fits. */
  ghost predicate ValidWindow(bs: seq<seq<Room>>, n: int, j: int, i: int)
  {
    1 <= n && 0 <= j < |bs| && 0 <= i && i + n <= |bs[j]|
  }

  /** `floorRooms.slice(i, i + numRooms)` of bucket `j`. */
  function Window(bs: seq<seq<Room>>, n: int, j: int, i: int): seq<Room>
    requires ValidWindow(bs, n, j, i)
  {
    bs[j][i..i + n]
  }

  /** Phase 1's cost of a window: last position minus first position. */
  function Span(w: seq<Room>): int
    requires |w| >= 1
  {
    w[|w| - 1].position - w[0].position
  }

  function WindowSpan(bs: seq<seq<Room>>, n: int, j: int, i: int): int
    requires ValidWindow(bs, n, j, i)
  {
    Span(Window(bs, n, j, i))
  }

  /** Window (j1, i1) is visited before window (j2, i2). */
  predicate Before(j1: int, i1: int, j2: int, i2: int)
  {
    j1 < j2 || (j1 == j2 && i1 < i2)
  }

  /** Of the windows visited before (limJ, limI), window (j, i) has the least
      span, and every window visited before it has a strictly greater one:
      what the update under `cost < minSingleFloorCost` keeps. */
  ghost predicate BestWindowBefore(bs: seq<seq<Room>>, n: int, j: int, i: int, limJ: int, limI: int)
  {
    && ValidWindow(bs, n, j, i)
    && Before(j, i, limJ, limI)
    && (forall j', i' {:trigger ValidWindow(bs, n, j', i')} ::
          ValidWindow(bs, n, j', i') && Before(j', i', limJ, limI) ==>
          WindowSpan(bs, n, j, i) <= WindowSpan(bs, n, j', i'))
    && (forall j', i' {:trigger ValidWindow(bs, n, j', i')} ::
          ValidWindow(bs, n, j', i') && Before(j', i', j, i) ==>
          WindowSpan(bs, n, j, i) < WindowSpan(bs, n, j', i'))
  }

  /** Window (j, i) is phase 1's choice among all windows of all buckets. */
  ghost predicate BestWindow(bs: seq<seq<Room>>, n: int, j: int, i: int)
  {
    BestWindowBefore(bs, n, j, i, |bs|, 0)
  }

  ghost predicate NoWindowBefore(bs: seq<seq<Room>>, n: int, limJ: int, limI: int)
  {
    forall j, i {:trigger ValidWindow(bs, n, j, i)} :: ValidWindow(bs, n, j, i) ==> !Before(j, i, limJ, limI)
  }

  /** Some floor has at least `n` free rooms. */
  ghost predicate SomeFloorQualifies(a: seq<Room>, n: int)
  {
    exists r :: r in a && |OnFloor(a, r.floor)| >= n
  }

  /** A qualifying floor has at least `n` free rooms, so there are that many. */
  lemma QualifyingFloorFits(a: seq<Room>, n: int)
    ensures SomeFloorQualifies(a, n) ==> |a| >= n
  {
    if SomeFloorQualifies(a, n) {
      var r :| r in a && |OnFloor(a, r.floor)| >= n;
    }
  }

  /** Some floor qualifies exactly when some bucket has a first window. */
  lemma QualifyingFloorHasWindow(a: seq<Room>, n: int)
    requires n >= 1
    ensures SomeFloorQualifies(a, n) <==> exists j :: ValidWindow(Buckets(a), n, j, 0)
  {
    var floors, bs := FloorsInOrder(a), Buckets(a);
    if SomeFloorQualifies(a, n) {
      var r :| r in a && |OnFloor(a, r.floor)| >= n;
      var j :| 0 <= j < |floors| && floors[j] == r.floor;
      assert |bs[j]| == |OnFloor(a, r.floor)|;
      assert ValidWindow(bs, n, j, 0);
    }
    if j :| ValidWindow(bs, n, j, 0) {
      assert |bs[j]| == |OnFloor(a, floors[j])|;
      var x := OnFloor(a, floors[j])[0];
      assert x in OnFloor(a, floors[j]);
      assert x in a && |OnFloor(a, x.floor)| >= n;
    }
  }

  /** What phase 1 has found once it has visited the windows before (limJ, limI). */
  ghost predicate Phase1Found(bs: seq<seq<Room>>, n: int, best: Option<seq<Room>>, minCost: int,
                              bj: int, bi: int, limJ: int, limI: int)
  {
    && (best.None? ==> NoWindowBefore(bs, n, limJ, limI))
    && (best.Some? ==> BestWindowBefore(bs, n, bj, bi, limJ, limI)
                       && best.value == Window(bs, n, bj, bi)
                       && minCost == WindowSpan(bs, n, bj, bi))
  }

  /** Visiting window (j, i) under `if (cost < minSingleFloorCost)`. */
  lemma Phase1Step(bs: seq<seq<Room>>, n: int, best: Option<seq<Room>>, minCost: int,
                   bj: int, bi: int, j: int, i: int)
    requires ValidWindow(bs, n, j, i)
    requires Phase1Found(bs, n, best, minCost, bj, bi, j, i)
    ensures best.None? || WindowSpan(bs, n, j, i) < minCost ==>
              Phase1Found(bs, n, Some(Window(bs, n, j, i)), WindowSpan(bs, n, j, i), j, i, j, i + 1)
    ensures !(best.None? || WindowSpan(bs, n, j, i) < minCost) ==>
              Phase1Found(bs, n, best, minCost, bj, bi, j, i + 1)
  {
    var cost := WindowSpan(bs, n, j, i);
    if best.None? || cost < minCost {
      forall j', i' | ValidWindow(bs, n, j', i') && Before(j', i', j, i + 1)
        ensures cost <= WindowSpan(bs, n, j', i')
        ensures Before(j', i', j, i) ==> cost < WindowSpan(bs, n, j', i')
      {
        if Before(j', i', j, i) {
          assert best.Some?;
        }
      }
    } else {
      forall j', i' | ValidWindow(bs, n, j', i') && Before(j', i', j, i + 1)
        ensures minCost <= WindowSpan(bs, n, j', i')
      {
      }
    }
  }

  /** Leaving bucket `j` once no window of it is left. */
  lemma Phase1NextFloor(bs: seq<seq<Room>>, n: int, best: Option<seq<Room>>, minCost: int,
                        bj: int, bi: int, j: int, i: int)
    requires 0 <= j < |bs|
    requires i + n > |bs[j]|
    requires Phase1Found(bs, n, best, minCost, bj, bi, j, i)
    ensures Phase1Found(bs, n, best, minCost, bj, bi, j + 1, 0)
  {
    forall j', i' | ValidWindow(bs, n, j', i') && Before(j', i', j + 1, 0)
      ensures Before(j', i', j, i)
    {
    }
  }

  /** The grouping loop of hotel.ts:87-91 and the entry list of line 97:
      the floors in key insertion order and each floor's rooms in order. */
  method GroupByFloor(available: seq<Room>) returns (floors: seq<int>, byFloor: map<int, seq<Room>>)
    ensures floors == FloorsInOrder(available)
    ensures forall f :: f in byFloor <==> f in floors
    ensures forall f :: f in byFloor ==> byFloor[f] == OnFloor(available, f)
  {
    floors, byFloor := [], map[];
    for k := 0 to |available|
      invariant floors == FloorsInOrder(available[..k])
      invariant forall f :: f in byFloor <==> f in floors
      invariant forall f :: f in byFloor ==> byFloor[f] == OnFloor(available[..k], f)
    {
      var r := available[k];
      assert available[..k + 1] == available[..k] + [r];
      assert available[..k + 1][..k] == available[..k];
      if r.floor !in byFloor {
        NoRoomOnFloor(available[..k], r.floor);
        byFloor := byFloor[r.floor := []];
        floors := floors + [r.floor];
      }
      byFloor := byFloor[r.floor := byFloor[r.floor] + [r]];
      forall f | f in byFloor ensures byFloor[f] == OnFloor(available[..k + 1], f) {
        FilterSnoc(available[..k], r, OnFloorTest(f));
      }
    }
    assert available[..|available|] == available;
  }

  /** One floor of phase 1 (hotel.ts:99-116): a floor with enough free
      rooms is sorted by position and every window of it is visited. */
  method VisitFloor(numRooms: int, ghost bs: seq<seq<Room>>, j: int, floorRooms: seq<Room>,
                    best0: Option<seq<Room>>, minCost0: int, ghost bj0: int, ghost bi0: int)
    returns (best: Option<seq<Room>>, minCost: int, ghost bj: int, ghost bi: int)
    requires numRooms >= 1
    requires 0 <= j < |bs| && |floorRooms| == |bs[j]| && InsertionSort(floorRooms, ByPosition) == bs[j]
    requires Phase1Found(bs, numRooms, best0, minCost0, bj0, bi0, j, 0)
    ensures Phase1Found(bs, numRooms, best, minCost, bj, bi, j + 1, 0)
  {
    best, minCost, bj, bi := best0, minCost0, bj0, bi0;
    if |floorRooms| < numRooms {
      Phase1NextFloor(bs, numRooms, best, minCost, bj, bi, j, 0);
      return;
    }
    var sorted := InsertionSort(floorRooms, ByPosition);
    var i := 0;
    while i <= |sorted| - numRooms
      invariant 0 <= i <= |sorted| - numRooms + 1
      invariant Phase1Found(bs, numRooms, best, minCost, bj, bi, j, i)
    {
      var subset := sorted[i..i + numRooms];
      var cost := subset[|subset| - 1].position - subset[0].position;
      assert ValidWindow(bs, numRooms, j, i) && subset == Window(bs, numRooms, j, i);
      Phase1Step(bs, numRooms, best, minCost, bj, bi, j, i);
      if best.None? || cost < minCost {
        minCost := cost;
        best := Some(subset);
        bj, bi := j, i;
      }
      i := i + 1;
    }
    Phase1NextFloor(bs, numRooms, best, minCost, bj, bi, j, i);
  }

  /** The buckets are the floors' rooms of `byFloor`, in the order of
      `floors`, each sorted by position. */
  ghost predicate BucketsOf(bs: seq<seq<Room>>, floors: seq<int>, byFloor: map<int, seq<Room>>)
  {
    && |floors| == |bs|
    && forall j :: 0 <= j < |floors| ==>
         && floors[j] in byFloor
         && |byFloor[floors[j]]| == |bs[j]|
         && InsertionSort(byFloor[floors[j]], ByPosition) == bs[j]
  }

  /** The loop over the floors of hotel.ts:99-116. */
  method VisitFloors(numRooms: int, ghost bs: seq<seq<Room>>, floors: seq<int>, byFloor: map<int, seq<Room>>)
    returns (best: Option<seq<Room>>)
    requires numRooms >= 1
    requires BucketsOf(bs, floors, byFloor)
    ensures best.None? ==> NoWindowBefore(bs, numRooms, |bs|, 0)
    ensures best.Some? ==> exists j, i :: BestWindow(bs, numRooms, j, i) && best.value == Window(bs, numRooms, j, i)
  {
    best := None;
    var minSingleFloorCost := 0;
    ghost var bj, bi := 0, 0;
    for j := 0 to |floors|
      invariant Phase1Found(bs, numRooms, best, minSingleFloorCost, bj, bi, j, 0)
    {
      best, minSingleFloorCost, bj, bi :=
        VisitFloor(numRooms, bs, j, byFloor[floors[j]], best, minSingleFloorCost, bj, bi);
    }
    if best.Some? {
      assert BestWindow(bs, numRooms, bj, bi);
    }
  }

  /** Phase 1 (hotel.ts:87-117): the best same-floor window, if any floor has
      enough free rooms. */
  method BestSingleFloor(numRooms: int, available: seq<Room>) returns (best: Option<seq<Room>>)
    requires numRooms >= 1
    ensures best.None? <==> !SomeFloorQualifies(available, numRooms)
    ensures best.Some? ==> exists j, i :: BestWindow(Buckets(available), numRooms, j, i)
                                          && best.value == Window(Buckets(available), numRooms, j, i)
  {
    var floors, byFloor := GroupByFloor(available);
    ghost var bs := Buckets(available);
    forall j | 0 <= j < |floors|
      ensures floors[j] in byFloor && |byFloor[floors[j]]| == |bs[j]|
      ensures InsertionSort(byFloor[floors[j]], ByPosition) == bs[j]
    {
      BucketOfFloor(available, floors, j, byFloor[floors[j]]);
    }
    best := VisitFloors(numRooms, bs, floors, byFloor);
    Phase1Done(available, numRooms, best);
  }

  /** Once every bucket is visited, phase 1 has found a window exactly when
      some floor qualifies. */
  lemma Phase1Done(a: seq<Room>, n: int, best: Option<seq<Room>>)
    requires n >= 1
    requires best.None? ==> NoWindowBefore(Buckets(a), n, |Buckets(a)|, 0)
    requires best.Some? ==> exists j, i :: BestWindow(Buckets(a), n, j, i) && best.value == Window(Buckets(a), n, j, i)
    ensures best.None? <==> !SomeFloorQualifies(a, n)
  {
    var bs := Buckets(a);
    QualifyingFloorHasWindow(a, n);
    if best.Some? {
      var j, i :| BestWindow(bs, n, j, i);
      assert ValidWindow(bs, n, j, 0);
    } else {
      assert !exists j :: ValidWindow(bs, n, j, 0);
    }
  }

  // ---------------------------------------------------------------------------
  // Phase 2: pivot and nearest neighbours (hotel.ts:123-158)
  // ---------------------------------------------------------------------------

  /** The test `r.id !== pivot.id`. */
  function NotPivot(pivot: Room): Room -> bool
  {
    (x: Room) => x.id != pivot.id
  }

  /** `availableRooms.filter(r => r.id !== pivot.id)`. */
  function Others(a: seq<Room>, pivot: Room): (r: seq<Room>)
    ensures |r| <= |a|
    ensures forall x :: x in r <==> x in a && x.id != pivot.id
  {
    Filter(a, NotPivot(pivot))
  }

  /** The other rooms keep the free rooms' order and multiplicity. */
  lemma OthersInOrder(a: seq<Room>, pivot: Room)
    ensures exists idx :: Selects(a, Others(a, pivot), idx, NotPivot(pivot))
  {
    FilterSelects(a, NotPivot(pivot));
    var idx :| Selects(a, Filter(a, NotPivot(pivot)), idx, NotPivot(pivot));
    assert Selects(a, Others(a, pivot), idx, NotPivot(pivot));
  }

  /** The comparator `(a, b) => a.dist - b.dist` of distances to `pivot`. */
  function DistanceOrder(pivot: Room): (Room, Room) -> bool
  {
    (x: Room, y: Room) => TravelTime(pivot, x) - TravelTime(pivot, y) <= 0
  }

  /** The other free rooms, nearest to `pivot` first (ties in input order). */
  function Nearest(a: seq<Room>, pivot: Room): seq<Room>
  {
    InsertionSort(Others(a, pivot), DistanceOrder(pivot))
  }

  lemma NearestIsSorted(a: seq<Room>, pivot: Room)
    ensures SortedBy(Nearest(a, pivot), DistanceOrder(pivot))
    ensures forall i, j :: 0 <= i < j < |Nearest(a, pivot)| ==>
              TravelTime(pivot, Nearest(a, pivot)[i]) <= TravelTime(pivot, Nearest(a, pivot)[j])
  {
    assert TotalPreorder(DistanceOrder(pivot));
    SortSorted(Others(a, pivot), DistanceOrder(pivot));
  }

  /** The sort by distance is stable: the rooms exactly as far from the
      pivot as room `x` come out of it in the order of the other rooms, so
      among equally near rooms the earlier one is taken first. */
  lemma NearestKeepsTies(a: seq<Room>, pivot: Room, x: Room)
    ensures Filter(Nearest(a, pivot), TiedWith(DistanceOrder(pivot), x)) ==
            Filter(Others(a, pivot), TiedWith(DistanceOrder(pivot), x))
  {
    assert TotalPreorder(DistanceOrder(pivot));
    SortStable(Others(a, pivot), DistanceOrder(pivot), x);
  }

  /** Free room `p` has enough other free rooms to form a candidate. */
  ghost predicate HasCandidate(a: seq<Room>, n: int, p: int)
  {
    1 <= n && 0 <= p < |a| && |Others(a, a[p])| >= n - 1
  }

  /** `[pivot, ...others.slice(0, numRooms - 1)]` for pivot `a[p]`. */
  function Candidate(a: seq<Room>, n: int, p: int): seq<Room>
    requires HasCandidate(a, n, p)
  {
    [a[p]] + Nearest(a, a[p])[..n - 1]
  }

  /** Per pivot, whether it has a candidate and the candidate's group cost. */
  ghost function PivotCosts(a: seq<Room>, n: int): (cs: seq<Option<int>>)
    ensures |cs| == |a|
    ensures forall p :: 0 <= p < |a| ==>
              cs[p] == if HasCandidate(a, n, p) then Some(SetCost(Candidate(a, n, p))) else None
  {
    seq(|a|, p requires 0 <= p < |a| =>
      if HasCandidate(a, n, p) then Some(SetCost(Candidate(a, n, p))) else None)
  }

  /** Of the pivots before `lim`, `p` has the cheapest candidate, and every
      earlier pivot's candidate costs strictly more. */
  ghost predicate BestPivotBefore(cs: seq<Option<int>>, p: int, lim: int)
  {
    && 0 <= p < lim <= |cs|
    && cs[p].Some?
    && (forall q :: 0 <= q < lim && cs[q].Some? ==> cs[p].value <= cs[q].value)
    && (forall q :: 0 <= q < p && cs[q].Some? ==> cs[p].value < cs[q].value)
  }

  /** Pivot `p`'s candidate is phase 2's choice. */
  ghost predicate BestPivot(a: seq<Room>, n: int, p: int)
  {
    BestPivotBefore(PivotCosts(a, n), p, |a|)
  }

  /** What phase 2 has found once it has tried the pivots before `lim`. */
  ghost predicate Phase2Found(cs: seq<Option<int>>, best: bool, minCost: int, bp: int, lim: int)
  {
    && 0 <= lim <= |cs|
    && (!best ==> forall q :: 0 <= q < lim ==> cs[q].None?)
    && (best ==> BestPivotBefore(cs, bp, lim) && minCost == cs[bp].value)
  }

  /** Trying pivot `p` under `if (cost < minCost)`. */
  lemma Phase2Step(cs: seq<Option<int>>, best: bool, minCost: int, bp: int, p: int)
    requires 0 <= p < |cs|
    requires Phase2Found(cs, best, minCost, bp, p)
    ensures cs[p].Some? && (!best || cs[p].value < minCost) ==>
              Phase2Found(cs, true, cs[p].value, p, p + 1)
    ensures !(cs[p].Some? && (!best || cs[p].value < minCost)) ==>
              Phase2Found(cs, best, minCost, bp, p + 1)
  {
  }

  /** Phase 2 (hotel.ts:130-158): the cheapest pivot candidate, the earliest
      pivot winning ties. */
  method BestAcrossFloors(numRooms: int, available: seq<Room>) returns (bestSet: Option<seq<Room>>)
    requires numRooms >= 1
    ensures bestSet.None? <==> forall p :: 0 <= p < |available| ==> !HasCandidate(available, numRooms, p)
    ensures bestSet.Some? ==> exists p :: BestPivot(available, numRooms, p)
                                          && HasCandidate(available, numRooms, p)
                                          && bestSet.value == Candidate(available, numRooms, p)
  {
    ghost var cs := PivotCosts(available, numRooms);
    bestSet := None;
    var minCost := 0;
    ghost var bp := 0;
    for p := 0 to |available|
      invariant Phase2Found(cs, bestSet.Some?, minCost, bp, p)
      invariant bestSet.Some? ==> HasCandidate(available, numRooms, bp)
                                  && bestSet.value == Candidate(available, numRooms, bp)
    {
      var pivot := available[p];
      var others := Others(available, pivot);
      var sorted := InsertionSort(others, DistanceOrder(pivot));
      Phase2Step(cs, bestSet.Some?, minCost, bp, p);
      if |others| >= numRooms - 1 {
        var candidateSet := [pivot] + sorted[..numRooms - 1];
        var cost := SetCost(candidateSet);
        assert HasCandidate(available, numRooms, p) && candidateSet == Candidate(available, numRooms, p);
        assert cs[p] == Some(cost);
        if bestSet.None? || cost < minCost {
          minCost := cost;
          bestSet := Some(candidateSet);
          bp := p;
        }
      } else {
        assert cs[p].None?;
      }
    }
    if bestSet.None? {
      forall p | 0 <= p < |available| ensures !HasCandidate(available, numRooms, p) {
        assert cs[p].None?;
      }
    } else {
      assert cs[bp].Some?;
    }
  }

  // ---------------------------------------------------------------------------
  // findBestBooking
  // ---------------------------------------------------------------------------

  /** `findBestBooking` (hotel.ts:78-159). */
  method FindBestBooking(numRooms: int, allRooms: seq<Room>) returns (result: Option<seq<Room>>)
    requires numRooms >= 1
    ensures |Available(allRooms)| < numRooms ==> result == None
    ensures UniqueIds(allRooms) && |Available(allRooms)| >= numRooms ==> result.Some?
    ensures result.Some? ==> |result.value| == numRooms
    ensures result.Some? ==> forall r :: r in result.value ==> r in allRooms && !r.isBooked
    ensures result.Some? && UniqueIds(allRooms) ==> UniqueIds(result.value)
    ensures SomeFloorQualifies(Available(allRooms), numRooms) ==>
              && result.Some?
              && (forall x, y :: x in result.value && y in result.value ==> x.floor == y.floor)
              && exists j, i :: BestWindow(Buckets(Available(allRooms)), numRooms, j, i)
                                && result.value == Window(Buckets(Available(allRooms)), numRooms, j, i)
    ensures |Available(allRooms)| >= numRooms && !SomeFloorQualifies(Available(allRooms), numRooms) ==>
              && (result.None? <==> forall p :: 0 <= p < |Available(allRooms)| ==>
                                                  !HasCandidate(Available(allRooms), numRooms, p))
              && (result.Some? ==> exists p :: BestPivot(Available(allRooms), numRooms, p)
                                               && HasCandidate(Available(allRooms), numRooms, p)
                                               && result.value == Candidate(Available(allRooms), numRooms, p))
  {
    var availableRooms := Available(allRooms);
    QualifyingFloorFits(availableRooms, numRooms);
    if |availableRooms| < numRooms {
      return None;
    }
    if UniqueIds(allRooms) {
      FilterKeepsUniqueIds(allRooms, IsFree);
    }
    var bestSingleFloorSet := BestSingleFloor(numRooms, availableRooms);
    if bestSingleFloorSet.Some? {
      ghost var bs := Buckets(availableRooms);
      ghost var j, i :| BestWindow(bs, numRooms, j, i) && bestSingleFloorSet.value == Window(bs, numRooms, j, i);
      WindowShape(availableRooms, numRooms, j, i);
      return bestSingleFloorSet;
    }
    result := BestAcrossFloors(numRooms, availableRooms);
    if UniqueIds(allRooms) {
      FirstPivotHasCandidate(availableRooms, numRooms);
    }
    if result.Some? {
      ghost var p :| BestPivot(availableRooms, numRooms, p) && HasCandidate(availableRooms, numRooms, p)
                     && result.value == Candidate(availableRooms, numRooms, p);
      CandidateShape(availableRooms, numRooms, p);
      if UniqueIds(allRooms) {
        CandidateUniqueIds(availableRooms, numRooms, p);
      }
    }
  }

  // ---------------------------------------------------------------------------
  // Properties of the two phases' choices
  // ---------------------------------------------------------------------------

  /** A same-floor, position-sorted window's span is its group cost. */
  lemma WindowSpanIsSetCost(w: seq<Room>)
    requires |w| >= 1
    requires forall x :: x in w ==> x.floor == w[0].floor
    requires SortedBy(w, ByPosition)
    ensures Span(w) == SetCost(w)
  {
    if |w| >= 2 {
      var lo, hi := w[0], w[|w| - 1];
      SortedExtremes(w, ByPosition);
      assert IsFirst(lo, w) && IsLast(hi, w);
      SetCostOfExtremes(w, lo, hi);
    }
  }

  /** A sorted bucket holds free rooms of its floor only, in position order,
      with unique ids when the free rooms have them. */
  lemma BucketProperties(a: seq<Room>, f: int)
    ensures forall x :: x in SortedBucket(a, f) ==> x in a && x.floor == f
    ensures SortedBy(SortedBucket(a, f), ByPosition)
    ensures UniqueIds(a) ==> UniqueIds(SortedBucket(a, f))
  {
    SortedBucketIsSorted(a, f);
    SortPermutes(OnFloor(a, f), ByPosition);
    PermutationSameElements(SortedBucket(a, f), OnFloor(a, f));
    if UniqueIds(a) {
      FilterKeepsUniqueIds(a, OnFloorTest(f));
      SortKeepsUniqueIds(OnFloor(a, f), ByPosition);
    }
  }

  /** Bucket `j` holds free rooms of floor `j` only, in position order. */
  lemma BucketAt(a: seq<Room>, j: int)
    requires 0 <= j < |Buckets(a)|
    ensures forall x :: x in Buckets(a)[j] ==> x in a && x.floor == FloorsInOrder(a)[j]
    ensures SortedBy(Buckets(a)[j], ByPosition)
    ensures UniqueIds(a) ==> UniqueIds(Buckets(a)[j])
  {
    BucketProperties(a, FloorsInOrder(a)[j]);
  }

  /** A non-empty slice `w` of a position-sorted bucket of floor `f`. */
  lemma SliceOfBucket(a: seq<Room>, f: int, bucket: seq<Room>, i: int, k: int, w: seq<Room>)
    requires forall x :: x in bucket ==> x in a && x.floor == f
    requires SortedBy(bucket, ByPosition)
    requires 0 <= i < k <= |bucket| && w == bucket[i..k]
    ensures forall x :: x in w ==> x in a && x.floor == f
    ensures SortedBy(w, ByPosition)
    ensures Span(w) == SetCost(w)
    ensures UniqueIds(bucket) ==> UniqueIds(w)
  {
    SortedSlice(bucket, ByPosition, i, k);
    if UniqueIds(bucket) {
      UniqueIdsSlice(bucket, i, k);
    }
    assert forall x :: x in w ==> x in bucket;
    assert w[0] in w;
    WindowSpanIsSetCost(w);
  }

  /** A phase 1 window: `n` consecutive free rooms of one floor, with unique
      ids when the free rooms have them. */
  lemma WindowShape(a: seq<Room>, n: int, j: int, i: int)
    requires ValidWindow(Buckets(a), n, j, i)
    ensures |Window(Buckets(a), n, j, i)| == n
    ensures forall x :: x in Window(Buckets(a), n, j, i) ==> x in a && x.floor == FloorsInOrder(a)[j]
    ensures UniqueIds(a) ==> UniqueIds(Window(Buckets(a), n, j, i))
  {
    BucketAt(a, j);
    SliceOfBucket(a, FloorsInOrder(a)[j], Buckets(a)[j], i, i + n, Window(Buckets(a), n, j, i));
  }

  /** A phase 1 window is in position order and its span is its group cost. */
  lemma WindowSpanIsCost(a: seq<Room>, n: int, j: int, i: int)
    requires ValidWindow(Buckets(a), n, j, i)
    ensures SortedBy(Window(Buckets(a), n, j, i), ByPosition)
    ensures WindowSpan(Buckets(a), n, j, i) == SetCost(Window(Buckets(a), n, j, i))
  {
    BucketAt(a, j);
    SliceOfBucket(a, FloorsInOrder(a)[j], Buckets(a)[j], i, i + n, Window(Buckets(a), n, j, i));
  }

  /** Phase 1's window is cheapest by group cost too, among all windows of
      all qualifying floors. */
  lemma BestWindowIsCheapest(a: seq<Room>, n: int, j: int, i: int)
    requires BestWindow(Buckets(a), n, j, i)
    ensures forall j', i' :: ValidWindow(Buckets(a), n, j', i') ==>
              SetCost(Window(Buckets(a), n, j, i)) <= SetCost(Window(Buckets(a), n, j', i'))
  {
    WindowSpanIsCost(a, n, j, i);
    forall j', i' | ValidWindow(Buckets(a), n, j', i')
      ensures SetCost(Window(Buckets(a), n, j, i)) <= SetCost(Window(Buckets(a), n, j', i'))
    {
      WindowSpanIsCost(a, n, j', i');
    }
  }

  /** With unique ids, every free room but the pivot is an "other". */
  lemma {:induction false} OthersOfUnique(a: seq<Room>, pivot: Room)
    requires UniqueIds(a) && pivot in a
    ensures |Others(a, pivot)| == |a| - 1
    decreases |a|
  {
    var init, last := a[..|a| - 1], a[|a| - 1];
    assert a == init + [last];
    FilterSnoc(init, last, NotPivot(pivot));
    if last == pivot {
      forall x | x in init ensures x.id != pivot.id {
        var m :| 0 <= m < |init| && init[m] == x;
        assert a[m] == x;
      }
      FilterAll(init, NotPivot(pivot));
    } else {
      var m :| 0 <= m < |a| && a[m] == pivot;
      assert m < |a| - 1;
      assert pivot in init;
      assert last.id != pivot.id;
      OthersOfUnique(init, pivot);
    }
  }

  /** With unique ids and at least `n` free rooms, the first pivot already
      has a candidate, so phase 2 always finds one. */
  lemma FirstPivotHasCandidate(a: seq<Room>, n: int)
    requires UniqueIds(a) && 1 <= n <= |a|
    ensures HasCandidate(a, n, 0)
  {
    OthersOfUnique(a, a[0]);
  }

  /** Phase 2's pivot has the cheapest candidate of all pivots, and every
      earlier pivot's candidate is strictly dearer. */
  lemma BestPivotIsCheapest(a: seq<Room>, n: int, p: int)
    requires BestPivot(a, n, p)
    ensures HasCandidate(a, n, p)
    ensures forall q :: HasCandidate(a, n, q) ==> SetCost(Candidate(a, n, p)) <= SetCost(Candidate(a, n, q))
    ensures forall q :: HasCandidate(a, n, q) && q < p ==> SetCost(Candidate(a, n, p)) < SetCost(Candidate(a, n, q))
  {
    var cs := PivotCosts(a, n);
    assert cs[p].Some?;
    forall q | HasCandidate(a, n, q) ensures cs[q].Some? {
    }
  }

  /** A phase 2 candidate: the pivot, then `n - 1` other free rooms. */
  lemma CandidateShape(a: seq<Room>, n: int, p: int)
    requires HasCandidate(a, n, p)
    ensures |Candidate(a, n, p)| == n
    ensures Candidate(a, n, p)[0] == a[p]
    ensures forall x :: x in Candidate(a, n, p) ==> x in a
    ensures forall x :: x in Candidate(a, n, p)[1..] ==> x.id != a[p].id
  {
    var near := Nearest(a, a[p]);
    assert Candidate(a, n, p)[1..] == near[..n - 1];
    SortPermutes(Others(a, a[p]), DistanceOrder(a[p]));
    forall x | x in near ensures x in a && x.id != a[p].id {
      assert x in multiset(Others(a, a[p]));
    }
  }

  /** The `n - 1` rooms taken after the pivot are the nearest ones: together
      with the rooms left out they are exactly the other free rooms, and none
      is farther from the pivot than a room left out. */
  lemma CandidateIsNearest(a: seq<Room>, n: int, p: int)
    requires HasCandidate(a, n, p)
    ensures multiset(Candidate(a, n, p)[1..]) + multiset(Nearest(a, a[p])[n - 1..]) == multiset(Others(a, a[p]))
    ensures forall x, y :: x in Candidate(a, n, p)[1..] && y in Nearest(a, a[p])[n - 1..] ==>
              TravelTime(a[p], x) <= TravelTime(a[p], y)
  {
    var pivot := a[p];
    var near := Nearest(a, pivot);
    assert Candidate(a, n, p)[1..] == near[..n - 1];
    assert near == near[..n - 1] + near[n - 1..];
    NearestIsSorted(a, pivot);
    SortPermutes(Others(a, pivot), DistanceOrder(pivot));
    SortedSplit(near, DistanceOrder(pivot), n - 1);
  }

  /** With unique ids in the free rooms, a candidate has unique ids. */
  lemma CandidateUniqueIds(a: seq<Room>, n: int, p: int)
    requires HasCandidate(a, n, p) && UniqueIds(a)
    ensures UniqueIds(Candidate(a, n, p))
  {
    var pivot := a[p];
    var near := Nearest(a, pivot);
    var c := Candidate(a, n, p);
    FilterKeepsUniqueIds(a, NotPivot(pivot));
    SortKeepsUniqueIds(Others(a, pivot), DistanceOrder(pivot));
    CandidateShape(a, n, p);
    forall i, j | 0 <= i < j < |c| ensures c[i].id != c[j].id {
      if i == 0 {
        assert c[j] in c[1..];
      } else {
        assert c[i] == near[i - 1] && c[j] == near[j - 1];
      }
    }
  }
}
