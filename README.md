# Hotel room allocator

A model of the room allocator of the hotel booking application
(`client/src/lib/hotel.ts`), with the page that calls it reduced to its
contract (`client/src/pages/HotelApp.tsx`).

The hotel has 97 rooms: floors 1 to 9 with ten rooms each, and floor 10
with seven. A room is known by its floor and its position, which is its
distance from the lift. Travel between two rooms on one floor costs the
difference of their positions. Between floors, the traveller walks to the
lift at position 0, spends two units per floor, and walks out to the other
room. A group of rooms costs the travel time between its first and last
room in (floor, position) order.

`findBestBooking(n, rooms)` returns `n` free rooms, or nothing. It works in
two phases:

- **Phase 1.** Every floor with at least `n` free rooms has its rooms sorted
  by position, and a window of `n` consecutive rooms is slid over them. The
  window with the least position span wins. When several windows tie, the
  first one visited wins.
- **Phase 2.** This runs only when no floor qualifies. Every free room is
  tried as a pivot, together with the `n - 1` other free rooms nearest to it.
  The cheapest such group wins, and the earliest pivot wins ties.

Modules:

- `Wrappers`: `Option`, which stands for the source's `null` and for its
  `Infinity` "nothing found yet" sentinels.
- `JsArray`: `Array.prototype.filter`, and `Array.prototype.sort` with a
  comparator. The sort is stable, so it is modelled as an insertion sort
  that keeps ties in input order. It is proved to be a sorted permutation
  that is stable: elements that tie under the comparator keep their input
  order. The filter is proved to keep the input's order and multiplicity.
- `Hotel`:
  - the `Room` record;
  - `generateHotel`, as a method with nested loops;
  - `getTravelTime` and `calculateSetCost`, as functions.
- `Booking`: `findBestBooking`.
  - Phase 1 is a grouping loop (`GroupByFloor`), a loop over the floors
    (`VisitFloors`) and a sliding-window loop (`VisitFloor`).
  - Phase 2 is the pivot loop (`BestAcrossFloors`).
  - The loops are proved against declarative choices over the free rooms:
    `BestWindow` over the per-floor sorted buckets for phase 1, and
    `BestPivot` over the per-pivot candidates for phase 2.
- `HotelApp`: the flags the page hands to the allocator, and the accepted
  request sizes 1 to 5.

Room ids and numbers are decimal strings in the source. Here they are the
integer the string spells. The decimal rendering of a number is injective,
so `===` on ids behaves the same in both.

The result is `null` exactly when fewer than `n` rooms are free, but only
when ids are unique, as they are in the inventory. With duplicate ids, the
filter `r.id !== pivot.id` drops every room that shares the pivot's id.
Phase 2 can then find no candidate, even though `n` rooms are free.
`FindBestBooking` therefore states the "enough free rooms gives a result"
direction under `UniqueIds`. `HotelApp.BookRooms` discharges that condition
for the page's room list.

## Model

| member | source | states |
|---|---|---|
| Hotel.GenerateHotel | client/src/lib/hotel.ts:15-45 | the built list is the closed-form inventory: room k is on floor k/10+1 at position k%10+1 |
| Hotel.InventoryShape | client/src/lib/hotel.ts:15-45 | 97 rooms, all unbooked, each with id = number = floor*100+position on a slot of floors 1-9 x positions 1-10 or floor 10 x positions 1-7, and every such slot has its room |
| Hotel.InventoryUnique | client/src/lib/hotel.ts:15-45 | ids are pairwise distinct across the inventory, and so are (floor, position) pairs |
| Hotel.TravelTime | client/src/lib/hotel.ts:48-58 | with non-negative positions the travel time is non-negative, and it is 0 exactly when floor and position coincide |
| Hotel.TravelTimeSymmetric | client/src/lib/hotel.ts:48-58 | travel time from r1 to r2 equals travel time from r2 to r1 |
| Hotel.SetCost | client/src/lib/hotel.ts:62-76 | 0 for fewer than two rooms; never negative when positions are not |
| Hotel.SortedEnds | client/src/lib/hotel.ts:65-73 | the first and last element of the sorted copy are a (floor, position) minimum and maximum of the group |
| Hotel.SetCostOfExtremes | client/src/lib/hotel.ts:62-76 | for two or more rooms the cost is the travel time between any lexicographic (floor, position) minimum and maximum of the group |
| Hotel.SetCostPermutationInvariant | client/src/lib/hotel.ts:62-76 | any two permutations of a group have the same cost |
| JsArray.Filter | client/src/lib/hotel.ts:82 | the filtered list is no longer than the input and holds exactly the input elements that pass the test |
| JsArray.FilterAppend | client/src/lib/hotel.ts:82 | filtering a concatenation is the concatenation of the filtered parts, so the filter keeps the input order |
| JsArray.FilterSelects | client/src/lib/hotel.ts:82 | the filtered list is the input's passing elements picked at strictly increasing positions, every passing position picked once |
| JsArray.SortStable | client/src/lib/hotel.ts:144 | with a comparator that is a total preorder, the elements tied with any given element come out of the sort in their input order |
| JsArray.SortPermutes | client/src/lib/hotel.ts:104 | the sorted list is a permutation of the list sorted |
| JsArray.SortSorted | client/src/lib/hotel.ts:67-70 | with a comparator that is a total preorder, the sorted list is in comparator order |
| JsArray.SortedSplit | client/src/lib/hotel.ts:143-148 | cutting a sorted list in two, everything before the cut may precede everything after it |
| Booking.Available | client/src/lib/hotel.ts:82 | the free rooms are exactly the unbooked members of the input |
| Booking.AvailableInOrder | client/src/lib/hotel.ts:82 | the free rooms are the unbooked rooms of the input in input order, each occurrence kept once |
| Booking.FloorsInOrder | client/src/lib/hotel.ts:87-97 | the floor keys: every free room's floor occurs, and no floor occurs twice |
| Booking.FloorsFirstAppearance | client/src/lib/hotel.ts:87-97 | the floor keys are in Map insertion order: a key listed before another has a room that comes before every room of the other's floor |
| Booking.OnFloorInOrder | client/src/lib/hotel.ts:87-91 | a floor's bucket holds that floor's free rooms in input order, each occurrence kept once |
| Booking.FloorsHaveRooms | client/src/lib/hotel.ts:87-91 | every floor key has at least one free room, so no bucket is empty |
| Booking.GroupByFloor | client/src/lib/hotel.ts:87-97 | the grouping loop yields the floors in first-appearance order, and a map from each of them to exactly that floor's free rooms in input order |
| Booking.BucketOfFloor | client/src/lib/hotel.ts:99-104 | sorting a floor's bucket by position yields that floor's sorted bucket |
| Booking.QualifyingFloorFits | client/src/lib/hotel.ts:83-100 | when some floor has n free rooms, at least n rooms are free, so the early return cannot pre-empt phase 1 |
| Booking.QualifyingFloorHasWindow | client/src/lib/hotel.ts:100-107 | some floor has at least n free rooms exactly when some sorted bucket has a first window of n rooms |
| Booking.Phase1Step | client/src/lib/hotel.ts:111-114 | taking a window under the strict `cost < min` keeps it the least-span window so far, with every earlier window strictly dearer; skipping one keeps the previous choice |
| Booking.VisitFloor | client/src/lib/hotel.ts:99-116 | after one floor, the choice is the least-span window among all windows of that floor and the floors before it, with the first such window kept on ties |
| Booking.VisitFloors | client/src/lib/hotel.ts:99-117 | after all floors, no set means no bucket has a window; a set is the least-span window over all buckets, and every window visited before it has a strictly greater span |
| Booking.Phase1Done | client/src/lib/hotel.ts:117-121 | once every floor is visited, phase 1 has a set exactly when some floor has n free rooms |
| Booking.BestSingleFloor | client/src/lib/hotel.ts:85-121 | no set exactly when no floor has n free rooms; otherwise the set is the first least-span window of n consecutive position-sorted rooms of one floor |
| Booking.WindowShape | client/src/lib/hotel.ts:107-108 | a window holds n free rooms, all on its bucket's floor, with unique ids when the free rooms have them |
| Booking.WindowSpanIsCost | client/src/lib/hotel.ts:107-109 | a window is in position order, and its span last.position - first.position equals its group cost |
| Booking.WindowSpanIsSetCost | client/src/lib/hotel.ts:109 | for any same-floor, position-sorted group, the span is its group cost |
| Booking.BestWindowIsCheapest | client/src/lib/hotel.ts:99-117 | the phase 1 window's group cost is at most that of every window of every qualifying floor |
| Booking.Others | client/src/lib/hotel.ts:136-137 | the other rooms are exactly the free rooms whose id differs from the pivot's |
| Booking.OthersInOrder | client/src/lib/hotel.ts:136-137 | the other rooms are the free rooms whose id differs from the pivot's, in input order, each occurrence kept once |
| Booking.OthersOfUnique | client/src/lib/hotel.ts:136-137 | with unique ids, every free room except the pivot is an "other" |
| Booking.NearestIsSorted | client/src/lib/hotel.ts:143-144 | the other rooms sorted by distance are in non-decreasing travel time from the pivot |
| Booking.NearestKeepsTies | client/src/lib/hotel.ts:143-144 | the stable sort keeps rooms equally far from the pivot in the order of the other rooms, so the earlier of two equally near rooms is taken first |
| Booking.CandidateShape | client/src/lib/hotel.ts:147-148 | a candidate has n rooms: the pivot first, then n-1 free rooms whose id differs from the pivot's |
| Booking.CandidateIsNearest | client/src/lib/hotel.ts:143-148 | the n-1 rooms taken and the rooms left out partition the other rooms, and no room taken is farther from the pivot than a room left out |
| Booking.CandidateUniqueIds | client/src/lib/hotel.ts:136-148 | with unique ids among the free rooms, a candidate has unique ids |
| Booking.Phase2Step | client/src/lib/hotel.ts:147-155 | taking a candidate under the strict `cost < minCost` keeps it the cheapest so far, with every earlier candidate strictly dearer; skipping a pivot keeps the previous choice |
| Booking.BestAcrossFloors | client/src/lib/hotel.ts:130-158 | no set exactly when no pivot has n-1 other rooms; otherwise the set is the candidate of the earliest pivot of least cost |
| Booking.FirstPivotHasCandidate | client/src/lib/hotel.ts:134-147 | with unique ids and at least n free rooms, the first pivot has a candidate |
| Booking.BestPivotIsCheapest | client/src/lib/hotel.ts:149-154 | the chosen candidate costs at most every pivot's candidate, and strictly less than every earlier pivot's |
| Booking.FindBestBooking | client/src/lib/hotel.ts:78-159 | null when fewer than n rooms are free, and a set whenever n rooms are free and ids are unique; a set has n unbooked rooms of the input, with unique ids when the input's ids are unique; when a floor qualifies, the set is phase 1's best window on a single floor; otherwise, it is phase 2's best candidate |
| HotelApp.BookingStatusFree | client/src/pages/HotelApp.tsx:160-161 | after the flags are recomputed, the free rooms are exactly the rooms whose id is in no booking, and unique ids stay unique |
| HotelApp.LayoutUniqueIds | client/src/pages/HotelApp.tsx:148-154 | the page's room list, the inventory with any flags, has unique ids |
| HotelApp.BookRooms | client/src/pages/HotelApp.tsx:67-79 | for a request of 1 to 5 rooms, a set is found exactly when enough rooms are unbooked, and it holds n rooms with unique ids, none of them already booked |

## Left out

- The user interface of `client/src/pages/HotelApp.tsx` is not part of this model:
  - React state setters, timers and toasts;
  - `Date.now()` booking ids;
  - the asynchronous confirm delay;
  - `formatDuration`, which works on fractional seconds.
- Only its contract with the allocator is kept: the recomputed booked flags and the request size 1 to 5.
- The random occupancy drawn from `Math.random()` in `HotelApp.tsx` (line 148) never reaches the allocator. Line 161 replaces every flag with one recomputed from the bookings, so the model keeps that recomputation (`HotelApp.WithBookingStatus`) and nothing of the random draw.
- `client/src/components/HotelGrid.tsx` (rendering), `client/src/lib/export.ts` (CSV download through the DOM), `server/static.ts` (static file serving) and `script/build-client.ts` (build) are not part of this model. None of them is allocation logic.
- The `travelTime` field of `BookingResult` is not part of this model, because `findBestBooking` never builds a `BookingResult`.
- Booking.VisitFloor: the per-floor sort at `hotel.ts:104` sorts the Map's bucket array in place. Here it sorts a local value instead. The bucket is never read again, so nothing observable differs, but the mutation of the shared array is not modelled.
- Phase 2's pairs `{ room, dist }` (`hotel.ts:138-141`) are not built. The rooms are sorted directly by their distance to the pivot, which gives the same order because `map` keeps the order.
- JsArray.InsertionSort: the engine's own sort algorithm is not modelled. The model uses the ordering that a stable sort must produce, namely ties in input order. A comparator that is not a total preorder (none occurs here) would leave the engine's order unspecified.
- Hotel.TravelTime and Hotel.SetCost compute on unbounded integers. JavaScript numbers are doubles, but floors and positions are small integers, so no rounding can occur.
- Booking.FindBestBooking: "n free rooms give a result" is stated only when ids are unique. With duplicate ids the source itself returns `null` in phase 2 (see above).
- `numRooms` below 1 is excluded by the precondition. The page never passes it, and at 0 the phase 1 window would read an empty slice.
