/**
  The hotel topology: the room record, the fixed inventory of 97 rooms, the
  travel time between two rooms and the cost of a group of rooms
  (client/src/lib/hotel.ts).

  Room identifiers and numbers are decimal strings in the source
  (`roomNum.toString()`); here they are the integer the string spells, which
  preserves their equality because the decimal rendering of a natural number
  is injective.
*/
module Hotel {
  import opened JsArray

  /** A room: its id and number, its floor, its position (distance from the
      lift, 1-based) and whether it is booked. */
  datatype Room = Room(id: int, number: int, floor: int, position: int, isBooked: bool)

  // ---------------------------------------------------------------------------
  // Inventory
  // ---------------------------------------------------------------------------

  /** The unbooked room at `floor`, `position`, numbered `floor * 100 + position`. */
  function SlotRoom(floor: int, position: int): Room
  {
    var roomNum := floor * 100 + position;
    Room(roomNum, roomNum, floor, position, false)
  }

  /** The slots the hotel has: floors 1 to 9 with positions 1 to 10, and the
      top floor 10 with positions 1 to 7 only. */
  predicate IsSlot(floor: int, position: int)
  {
    || (1 <= floor <= 9 && 1 <= position <= 10)
    || (floor == 10 && 1 <= position <= 7)
  }

  /** The inventory in closed form: the k-th room is on floor k / 10 + 1 at
      position k % 10 + 1, floor by floor, position by position. */
  function Inventory(): seq<Room>
  {
    seq(97, k => SlotRoom(k / 10 + 1, k % 10 + 1))
  }

  /** `generateHotel`: pushes floors 1..9 with ten rooms each, then floor 10
      with seven rooms. */
  method GenerateHotel() returns (rooms: seq<Room>)
    ensures rooms == Inventory()
  {
    rooms := [];
    for floor := 1 to 10
      invariant |rooms| == (floor - 1) * 10
      invariant forall k :: 0 <= k < |rooms| ==> rooms[k] == SlotRoom(k / 10 + 1, k % 10 + 1)
    {
      for pos := 1 to 11
        invariant |rooms| == (floor - 1) * 10 + (pos - 1)
        invariant forall k :: 0 <= k < |rooms| ==> rooms[k] == SlotRoom(k / 10 + 1, k % 10 + 1)
      {
        var roomNum := floor * 100 + pos;
        assert ((floor - 1) * 10 + (pos - 1)) / 10 == floor - 1;
        assert ((floor - 1) * 10 + (pos - 1)) % 10 == pos - 1;
        rooms := rooms + [Room(roomNum, roomNum, floor, pos, false)];
      }
    }
    for pos := 1 to 8
      invariant |rooms| == 90 + (pos - 1)
      invariant forall k :: 0 <= k < |rooms| ==> rooms[k] == SlotRoom(k / 10 + 1, k % 10 + 1)
    {
      var roomNum := 1000 + pos;
      assert (90 + (pos - 1)) / 10 == 9;
      assert (90 + (pos - 1)) % 10 == pos - 1;
      rooms := rooms + [Room(roomNum, roomNum, 10, pos, false)];
    }
  }

  /** The inventory holds 97 unbooked rooms, each on a slot of the hotel and
      numbered floor * 100 + position, and every slot of the hotel has its room. */
  lemma InventoryShape()
    ensures |Inventory()| == 97
    ensures forall r :: r in Inventory() ==>
              && !r.isBooked
              && r.id == r.number == r.floor * 100 + r.position
              && IsSlot(r.floor, r.position)
    ensures forall f, p :: IsSlot(f, p) ==> SlotRoom(f, p) in Inventory()
  {
    var inv := Inventory();
    forall f, p | IsSlot(f, p) ensures SlotRoom(f, p) in inv {
      var k := (f - 1) * 10 + (p - 1);
      assert k / 10 == f - 1 && k % 10 == p - 1;
      assert inv[k] == SlotRoom(f, p);
    }
  }

  /** No two rooms of `rooms` share an id. */
  predicate UniqueIds(rooms: seq<Room>)
  {
    forall i, j :: 0 <= i < j < |rooms| ==> rooms[i].id != rooms[j].id
  }

  /** A slice of rooms with unique ids has unique ids. */
  lemma UniqueIdsSlice(rooms: seq<Room>, i: int, k: int)
    requires UniqueIds(rooms) && 0 <= i <= k <= |rooms|
    ensures UniqueIds(rooms[i..k])
  {
    forall x, y | 0 <= x < y < k - i ensures rooms[i..k][x].id != rooms[i..k][y].id {
      assert rooms[i..k][x] == rooms[i + x] && rooms[i..k][y] == rooms[i + y];
    }
  }

  /** Ids, and (floor, position) pairs, are unique across the inventory. */
  lemma InventoryUnique()
    ensures UniqueIds(Inventory())
    ensures forall i, j :: 0 <= i < j < |Inventory()| ==>
              (Inventory()[i].floor, Inventory()[i].position) != (Inventory()[j].floor, Inventory()[j].position)
  {
    var inv := Inventory();
    forall i, j | 0 <= i < j < |inv|
      ensures inv[i].id != inv[j].id
      ensures (inv[i].floor, inv[i].position) != (inv[j].floor, inv[j].position)
    {
      var a, b, c, d := i / 10, i % 10, j / 10, j % 10;
      assert i == 10 * a + b && j == 10 * c + d;
      assert inv[i].id == 100 * a + b + 101;
      assert inv[j].id == 100 * c + d + 101;
    }
  }

  // ---------------------------------------------------------------------------
  // Travel time and group cost
  // ---------------------------------------------------------------------------

  function Abs(x: int): int { if x < 0 then -x else x }

  /** `getTravelTime`: on one floor, the distance between the positions;
      across floors, walk to the lift at position 0, two units per floor,
      walk out to the other room. */
  function TravelTime(r1: Room, r2: Room): (t: int)
    ensures r1.position >= 0 && r2.position >= 0 ==>
              && t >= 0
              && (t == 0 <==> r1.floor == r2.floor && r1.position == r2.position)
  {
    if r1.floor == r2.floor then Abs(r1.position - r2.position)
    else
      var floorDiff := Abs(r1.floor - r2.floor);
      r1.position + floorDiff * 2 + r2.position
  }

  /** Travel time is symmetric. */
  lemma TravelTimeSymmetric(r1: Room, r2: Room)
    ensures TravelTime(r1, r2) == TravelTime(r2, r1)
  {
  }

  /** The comparator of `calculateSetCost`'s sort: floor first, then position
      (`a` may precede `b` when the comparator is not positive). */
  predicate FloorPositionOrder(a: Room, b: Room)
  {
    if a.floor != b.floor then a.floor - b.floor <= 0 else a.position - b.position <= 0
  }

  /** The sorted copy of `calculateSetCost` is in (floor, position) order. */
  lemma SortedByFloorPosition(rooms: seq<Room>)
    ensures SortedBy(InsertionSort(rooms, FloorPositionOrder), FloorPositionOrder)
  {
    assert TotalPreorder(FloorPositionOrder);
    SortSorted(rooms, FloorPositionOrder);
  }

  /** `calculateSetCost`: 0 for fewer than two rooms, otherwise the travel
      time between the first and the last room of a (floor, position) sorted
      copy. */
  function SetCost(rooms: seq<Room>): (c: int)
    ensures |rooms| <= 1 ==> c == 0
    ensures (forall r :: r in rooms ==> r.position >= 0) ==> c >= 0
  {
    if |rooms| <= 1 then 0
    else
      var sorted := InsertionSort(rooms, FloorPositionOrder);
      SortPermutes(rooms, FloorPositionOrder);
      assert sorted[0] in multiset(rooms) && sorted[|sorted| - 1] in multiset(rooms);
      TravelTime(sorted[0], sorted[|sorted| - 1])
  }

  /** `lo` comes first in (floor, position) order among `rooms`. */
  ghost predicate IsFirst(lo: Room, rooms: seq<Room>)
  {
    lo in rooms && forall x :: x in rooms ==> FloorPositionOrder(lo, x)
  }

  /** `hi` comes last in (floor, position) order among `rooms`. */
  ghost predicate IsLast(hi: Room, rooms: seq<Room>)
  {
    hi in rooms && forall x :: x in rooms ==> FloorPositionOrder(x, hi)
  }

  /** The first and last room of the sorted copy are (floor, position) extremes. */
  lemma SortedEnds(rooms: seq<Room>)
    requires |rooms| >= 1
    ensures IsFirst(InsertionSort(rooms, FloorPositionOrder)[0], rooms)
    ensures IsLast(InsertionSort(rooms, FloorPositionOrder)[|rooms| - 1], rooms)
  {
    var sorted := InsertionSort(rooms, FloorPositionOrder);
    SortedByFloorPosition(rooms);
    SortedExtremes(sorted, FloorPositionOrder);
    SortPermutes(rooms, FloorPositionOrder);
    PermutationSameElements(rooms, sorted);
    assert sorted[0] in sorted && sorted[|rooms| - 1] in sorted;
    assert forall x :: x in rooms ==> FloorPositionOrder(sorted[0], x) && FloorPositionOrder(x, sorted[|rooms| - 1]);
  }

  /** The group cost is the travel time between ANY (floor, position) first
      and last room of the group: it does not depend on which sort or which
      tie order produced them. */
  lemma SetCostOfExtremes(rooms: seq<Room>, lo: Room, hi: Room)
    requires |rooms| >= 2
    requires IsFirst(lo, rooms) && IsLast(hi, rooms)
    ensures SetCost(rooms) == TravelTime(lo, hi)
  {
    SortedEnds(rooms);
    var sorted := InsertionSort(rooms, FloorPositionOrder);
    var first, last := sorted[0], sorted[|rooms| - 1];
    assert FloorPositionOrder(first, lo) && FloorPositionOrder(lo, first);
    assert FloorPositionOrder(last, hi) && FloorPositionOrder(hi, last);
    assert first.floor == lo.floor && first.position == lo.position;
    assert last.floor == hi.floor && last.position == hi.position;
  }

  /** The group cost is invariant under any permutation of the group. */
  lemma SetCostPermutationInvariant(a: seq<Room>, b: seq<Room>)
    requires multiset(a) == multiset(b)
    ensures SetCost(a) == SetCost(b)
  {
    assert |a| == |multiset(a)| == |multiset(b)| == |b|;
    if |a| >= 2 {
      SortedEnds(a);
      var sorted := InsertionSort(a, FloorPositionOrder);
      var lo, hi := sorted[0], sorted[|a| - 1];
      PermutationSameElements(a, b);
      assert IsFirst(lo, b) && IsLast(hi, b);
      SetCostOfExtremes(a, lo, hi);
      SetCostOfExtremes(b, lo, hi);
    }
  }
}
