/**
  The contract between the booking page (client/src/pages/HotelApp.tsx) and
  the allocator: the booked flags the page hands over are recomputed from the
  ids of the rooms in its bookings, and a request asks for 1 to 5 rooms.
*/
module HotelApp {
  import opened Wrappers
  import opened Hotel
  import opened Booking

  /** `rooms.map(r => ({ ...r, isBooked: bookedRoomIds.has(r.id) }))`. */
  function WithBookingStatus(rooms: seq<Room>, bookedIds: set<int>): (r: seq<Room>)
    ensures |r| == |rooms|
    ensures forall k :: 0 <= k < |r| ==>
              r[k] == rooms[k].(isBooked := rooms[k].id in bookedIds)
  {
    seq(|rooms|, k requires 0 <= k < |rooms| => rooms[k].(isBooked := rooms[k].id in bookedIds))
  }

  /** The free rooms handed to the allocator are exactly the rooms whose id
      is not booked, and recomputing the flags keeps the ids unique. */
  lemma BookingStatusFree(rooms: seq<Room>, bookedIds: set<int>)
    ensures forall x :: x in Available(WithBookingStatus(rooms, bookedIds)) <==>
              x in WithBookingStatus(rooms, bookedIds) && x.id !in bookedIds
    ensures UniqueIds(rooms) ==> UniqueIds(WithBookingStatus(rooms, bookedIds))
  {
    var r := WithBookingStatus(rooms, bookedIds);
    forall x | x in r ensures x.isBooked <==> x.id in bookedIds {
      var k :| 0 <= k < |r| && r[k] == x;
    }
  }

  /** The page's room list: the inventory, each room with some booked flag
      (the reset installs the inventory as built, the random occupancy
      changes the flags only). */
  ghost predicate InventoryLayout(rooms: seq<Room>)
  {
    && |rooms| == |Inventory()|
    && forall k :: 0 <= k < |rooms| ==> rooms[k].(isBooked := false) == Inventory()[k]
  }

  /** The page's room list has unique ids. */
  lemma LayoutUniqueIds(rooms: seq<Room>)
    requires InventoryLayout(rooms)
    ensures UniqueIds(rooms)
  {
    InventoryUnique();
    forall i, j | 0 <= i < j < |rooms| ensures rooms[i].id != rooms[j].id {
      assert rooms[i].id == Inventory()[i].id && rooms[j].id == Inventory()[j].id;
    }
  }

  /** The request sizes the page accepts. */
  predicate ValidRequest(n: int)
  {
    1 <= n <= 5
  }

  /** `handleBookClick` after validation: an accepted request over the
      inventory with the booked flags recomputed finds rooms exactly when
      enough rooms are unbooked, and never hands out a booked room. */
  method BookRooms(n: int, rooms: seq<Room>, bookedIds: set<int>) returns (booking: Option<seq<Room>>)
    requires ValidRequest(n)
    requires InventoryLayout(rooms)
    ensures booking.Some? <==> |Available(WithBookingStatus(rooms, bookedIds))| >= n
    ensures booking.Some? ==> |booking.value| == n && UniqueIds(booking.value)
    ensures booking.Some? ==> forall x :: x in booking.value ==> x.id !in bookedIds
  {
    var roomsWithBookingStatus := WithBookingStatus(rooms, bookedIds);
    LayoutUniqueIds(rooms);
    BookingStatusFree(rooms, bookedIds);
    booking := FindBestBooking(n, roomsWithBookingStatus);
  }
}
