# Hotel room booking backend — Dafny model

This project models the booking controller of a small hotel room booking
service. It also models the loop that seeds the room collection.

The hotel has 97 rooms:
- floors 1 to 9 have ten rooms each, numbered `floor * 100 + 1` to `floor * 100 + 10`;
- floor 10 has rooms 1001 to 1007.

A guest asks for 1 to 5 rooms. The controller then:
1. lists the unbooked rooms floor by floor, each floor sorted by room number;
2. scores every run of consecutive rooms on one floor with a travel-time
   estimate: per room, the last two digits of its number plus two per floor
   above the first;
3. books the first cheapest run.

The controller also lists the booked rooms, clears every booking, and books
a random subset of the free rooms for demos.

Modules:

- `Rooms` covers the room record, the "free" and "booked" filters, and the
  room store. The store is a class holding the collection. It has the two
  primitives the controller uses: list every room, and set `isBooked` on the
  listed ids in one batch.
- `TravelCost` covers the per-room cost with JavaScript's truncating `%`,
  the total cost, and `calculateTravelTime` as a loop.
- `Availability` covers `getAvailableRooms`. The floor map is a JavaScript
  `Map`, and its keys iterate in insertion order, so the map is a sequence of
  `(floor, rooms)` buckets in first-appearance order. It is built by the same
  two loops as the source: group, then sort each bucket.
- `Selection` covers `findBestRooms` as the source's nested loops. Its
  result is tied to `IsBestWindow`: no block on any floor is cheaper, and every
  block visited earlier is strictly dearer. `null` becomes `None`, and the
  `Infinity` start value becomes "nothing chosen yet".
- `Booking` covers the request handlers `bookRooms`, `getBookings`,
  `resetBookings` and `generateRandomOccupancy`. A reply is a result value.
  The handler's writes are the store's new contents.
- `Seeding` covers the seeding script's nested loops, which build the
  97-record room list.

Two behaviours of the code are worth stating:
- `bookRooms` does not re-check the chosen rooms before writing them. There
  is no conflict reply: a block that was free when read is written as booked.
- `generateRandomOccupancy` does not clear existing bookings first. It books
  a random subset of the rooms that are currently free. The size `k` is drawn
  from 1 to `min(97, free)`.

## Model

| member | source | states |
|---|---|---|
| Rooms.MatchingMultiset | controller/bookingController.js:101 | the booked/unbooked filter keeps every room with the wanted flag, with its multiplicity, and drops all others |
| Rooms.MatchingMembers | controller/bookingController.js:8 | a room is in the filtered list iff it is in the store list and has the wanted flag |
| Rooms.MatchingKeepsDistinctIds | controller/bookingController.js:58 | filtering a list with unique ids leaves unique ids |
| Rooms.WithStatusFrame | models/roomModel.js:12-19 | a status batch keeps length, ids, numbers and floors; sets `isBooked` to the status exactly on listed ids; keeps ids unique |
| Rooms.RoomStore.constructor | models/roomModel.js:6-9 | the store holds the given rooms with unique ids |
| Rooms.RoomStore.GetAllRooms | models/roomModel.js:6-9 | returns every room document of the store, unchanged |
| Rooms.RoomStore.UpdateRoomStatus | models/roomModel.js:12-19 | the new contents are the old ones with `isBooked` set to the status on exactly the listed ids; ids stay unique |
| TravelCost.JsRem | controller/bookingController.js:27 | JavaScript `%`: the remainder lies strictly between `-d` and `d`, has the sign of the dividend, and satisfies `a == d * trunc(a / d) + r` |
| TravelCost.CalculateTravelTime | controller/bookingController.js:24-32 | the loop's running total equals the sum over the rooms of `roomNumber % 100 + (floorNumber - 1) * 2` |
| TravelCost.TravelTimeAppend | controller/bookingController.js:24-32 | the cost of the empty list is 0, and the cost of a concatenation is the sum of the costs |
| TravelCost.TravelTimeSingle | controller/bookingController.js:27-29 | the cost of one room is its horizontal plus vertical time |
| TravelCost.TravelTimeNonNegative | controller/bookingController.js:24-32 | with non-negative room numbers and floors from 1 up, the cost is never negative |
| TravelCost.TravelTimeRemove | controller/bookingController.js:24-32 | removing one room takes exactly its own time off the total |
| TravelCost.TravelTimePermutation | controller/bookingController.js:24-32 | two lists holding the same rooms cost the same, whatever their order |
| Availability.Insert | controller/bookingController.js:17 | inserting into a sorted list gives a sorted list with one more copy of the room |
| Availability.SortByNumber | controller/bookingController.js:16-18 | the sorted bucket is ascending by room number and a permutation of the bucket |
| Availability.InsertStable | controller/bookingController.js:17 | insertion puts the room ahead of every room with its number and reorders no other rooms with equal numbers |
| Availability.SortStable | controller/bookingController.js:16-18 | the sort is stable: for every room number, the rooms with that number appear in the same order as before |
| Availability.OnFloorMultiset | controller/bookingController.js:8-13 | a bucket built by pushing holds every room of its floor, with multiplicity, and no other |
| Availability.FloorKeysSpec | controller/bookingController.js:9-11 | map keys are distinct, and are exactly the floors some listed room is on |
| Availability.FloorKeysOrder | controller/bookingController.js:8-13 | every key's floor has a room in the list, and when key `a` precedes key `b`, the first room of floor `a` precedes the first room of floor `b` (`Map` insertion order) |
| Availability.IndexOfFloor | controller/bookingController.js:9 | `floorMap.has(f)`: returns the first entry keyed `f`, or the map's length when there is none |
| Availability.GetAvailableRooms | controller/bookingController.js:4-21 | the group-then-sort loops return exactly `Grouping` of the store's rooms |
| Availability.GroupingSortsCollect | controller/bookingController.js:16-18 | sorting every bucket of the grouped free rooms in place yields `Grouping` |
| Availability.GroupingMembers | controller/bookingController.js:8-13 | every room in a bucket is a free room of the store on that bucket's floor |
| Availability.GroupingSpec | controller/bookingController.js:4-21 | distinct keys; a floor is a key iff some free room is on it; each bucket holds exactly that floor's free rooms, with multiplicity; no bucket is empty; every bucket is sorted |
| Selection.KeepMinimum | controller/bookingController.js:46 | a block costing at least the minimum leaves the minimum unbeaten so far |
| Selection.NewMinimum | controller/bookingController.js:46-49 | a block cheaper than every earlier block becomes the minimum |
| Selection.NothingBefore | controller/bookingController.js:40 | floors skipped as too short hold no block |
| Selection.NextFloor | controller/bookingController.js:42 | after a floor's last offset, the next block in order is the next floor's first |
| Selection.FindBestRooms | controller/bookingController.js:35-53 | returns `null` iff every floor has fewer than `numRooms` rooms; otherwise returns a block of `numRooms` consecutive rooms of one floor that no block undercuts, and that every earlier block costs strictly more than (first seen wins ties) |
| Selection.BestWindowUnique | controller/bookingController.js:46 | with strict `<`, at most one position can be the selected one |
| Selection.ThreeRoomCost | controller/bookingController.js:24-32 | a three-room block costs the sum of its three rooms' times |
| Selection.LowestBlockOnOneFloor | controller/bookingController.js:35-53 | floor 3 with rooms 301..310 and 3 requested: the block 301–303 is selected, at cost 18 |
| Booking.BookRooms | controller/bookingController.js:81-96 | a count outside 1..5 gives the validation error; a valid count gives "No suitable rooms available" when no floor has enough free rooms, and success otherwise; both errors leave the store alone; success returns `numRooms` free rooms forming the selected best block and books exactly their ids |
| Booking.GetBookings | controller/bookingController.js:99-102 | returns the booked rooms in store order |
| Booking.ResetBookings | controller/bookingController.js:105-108 | writes every room unbooked and answers "All bookings cleared!" |
| Booking.GenerateRandomOccupancy | controller/bookingController.js:56-78 | no free room: the message and no write; otherwise books exactly `k = draw + 1` rooms, `1 <= k <= min(97, free)`, taken from the front of a permutation of the free rooms; they were free and have distinct ids, and exactly their ids are written booked |
| Booking.ChosenRoomsWereFree | controller/bookingController.js:87-94 | every room of a selectable block was free in the store, on the bucket's floor |
| Booking.BookingAddsOnlyFreeRooms | controller/bookingController.js:94 | booking free rooms adds exactly their ids to the booked set, and none was booked before |
| Booking.ResetClearsEveryRoom | controller/bookingController.js:105-108 | after reset no room is booked, and every other field is unchanged |
| Booking.ResetIdempotent | controller/bookingController.js:105-108 | resetting twice gives the same store as resetting once |
| Booking.FullyBookedHasNoBuckets | controller/bookingController.js:8 | with every room booked, nothing is free and the floor map is empty |
| Booking.RandomSelectionIsFreeAndDistinct | controller/bookingController.js:58-69 | the first `k` rooms of a shuffled free list were free, and no two share an id |
| Seeding.BuildRooms | initialiseRooms.js:16-24 | the nested loops build exactly the seed list: floors 1–9 with ten rooms each, then floor 10 with seven |
| Seeding.LowerFloorsAt | initialiseRooms.js:17-21 | the first `10n` records are floors 1..n, and record `k` has the closed form `SeedAt(k)` |
| Seeding.SeedRoomsAt | initialiseRooms.js:16-24 | the seed list has 97 records, and record `k` is `SeedAt(k)` |
| Seeding.SeedNumbering | initialiseRooms.js:19-23 | every record is unbooked, on floor 1..10, with `roomNumber = floor * 100 + unit`, unit 1..10 (1..7 on floor 10) |
| Seeding.SeedNumbersIncrease | initialiseRooms.js:16-24 | room numbers strictly increase in push order, so they are unique |
| Seeding.CountAppend | initialiseRooms.js:16-24 | per-floor counts add over concatenation |
| Seeding.CountFloorBlock | initialiseRooms.js:18-20 | one floor's block contributes its length to that floor and nothing elsewhere |
| Seeding.CountLowerFloors | initialiseRooms.js:17-21 | the first loop puts ten records on each floor 1..n |
| Seeding.SeedRoomsPerFloor | initialiseRooms.js:16-24 | floors 1–9 get ten rooms, floor 10 gets seven, every other floor none |

## Left out

- Store I/O, Firestore, Express routing and `async` scheduling are not modelled. The store is a class whose contents the handlers read and replace. Logging with `console` is dropped.
- The 500 reply of the `generateRandomOccupancy` route (its `try`/`catch`, controller/bookingController.js:110-118) is left out, because store failures are not modelled.
- Booking.GenerateRandomOccupancy: `Math.random` is not modelled. The count draw and the shuffle are parameters: `draw < min(97, free)` and an index permutation. Uniformity is not modelled. The random-comparator `sort` is assumed to yield some permutation.
- Concurrency is not modelled. Every handler runs alone against the store, so the race between reading free rooms and writing them booked is not modelled.
- Booking.BookRooms: `numRooms` is an integer. JavaScript's coercion of strings, and of non-integer numbers that pass the range test, is not modelled.
- Selection.FindBestRooms: `numRooms` is a natural number. The only caller passes 1..5, and negative counts are not modelled.
- Seeding.BuildRooms: the deletion of existing documents and the write batch of the seeding script (initialiseRooms.js:3-15, 26-40) are not modelled. Document ids are assigned by the store, so seed records carry none.
- Rooms.RoomStore.UpdateRoomStatus: a batch `update` on an id that is not in the collection fails in the store. The model ignores such ids instead. The handlers only pass ids they just read.
- server.js and firebase.js, which wire the routes and the database client, are not part of this model.
