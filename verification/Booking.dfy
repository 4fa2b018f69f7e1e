/** The booking controller's request handlers, over the room store. An HTTP
    reply becomes a result value; what the handler writes to the store is the
    store's new contents. */
module Booking {
  import opened Rooms
  import opened Availability
  import opened Selection

  const InvalidCountError := "Invalid number of rooms. Must be between 1 and 5."
  const NoRoomsError := "No suitable rooms available"
  const BookedMessage := "Rooms booked successfully"
  const ResetMessage := "All bookings cleared!"
  const NothingFreeMessage := "No available rooms to book."

  /** The reply of `bookRooms`: status 400 with `{ error }`, or `{ message, rooms }`. */
  datatype BookingResponse =
    | BadRequest(error: string)
    | Success(message: string, rooms: seq<Room>)

  /** The reply of `generateRandomOccupancy`; `RandomlyBooked(k, rs)` carries the
      message "Randomly booked k rooms." and the booked rooms `rs`. */
  datatype OccupancyResult =
    | NothingToBook(message: string)
    | RandomlyBooked(count: nat, bookedRooms: seq<Room>)

  /** Every bucket of the map is shorter than `n`: the selector has nothing to offer. */
  ghost predicate AllFloorsShort(fm: FloorMap, n: int) {
    forall j :: 0 <= j < |fm| ==> |fm[j].rooms| < n
  }

  /** `bookRooms`: validate the count, group the free rooms, pick the best
      block and book it. Nothing re-checks the block between the read and the write. */
  method BookRooms(store: RoomStore, numRooms: int) returns (response: BookingResponse)
    requires store.Valid()
    modifies store
    ensures store.Valid()
    ensures (numRooms < 1 || numRooms > 5) ==> response == BadRequest(InvalidCountError)
    ensures 1 <= numRooms <= 5 && AllFloorsShort(Grouping(old(store.rooms)), numRooms) ==>
      response == BadRequest(NoRoomsError)
    ensures 1 <= numRooms <= 5 && !AllFloorsShort(Grouping(old(store.rooms)), numRooms) ==>
      response.Success?
    ensures response.BadRequest? ==> store.rooms == old(store.rooms)
    ensures response.Success? ==>
      && 1 <= numRooms <= 5
      && response.message == BookedMessage
      && |response.rooms| == numRooms
      && (exists j, i :: IsBestWindow(Grouping(old(store.rooms)), numRooms, j, i) &&
            response.rooms == Window(Grouping(old(store.rooms)), numRooms, j, i))
      && (forall r :: r in response.rooms ==> r in old(store.rooms) && !r.isBooked)
      && store.rooms == WithStatus(old(store.rooms), Ids(response.rooms), true)
  {
    if numRooms < 1 || numRooms > 5 {
      return BadRequest(InvalidCountError);
    }
    var floorMap := GetAvailableRooms(store);
    var bestRooms, floor, offset := FindBestRooms(floorMap, numRooms);
    if bestRooms.None? {
      return BadRequest(NoRoomsError);
    }
    ChosenRoomsWereFree(store.rooms, numRooms, floor, offset);
    store.UpdateRoomStatus(Ids(bestRooms.value), true);
    response := Success(BookedMessage, bestRooms.value);
  }

  /** `getBookings`: the booked rooms, in store order. */
  method GetBookings(store: RoomStore) returns (booked: seq<Room>)
    ensures booked == Booked(store.rooms)
  {
    var rooms := store.GetAllRooms();
    booked := Booked(rooms);
  }

  /** The store after `resetBookings`: every listed id is written unbooked. */
  function Reset(rooms: seq<Room>): seq<Room> {
    WithStatus(rooms, Ids(rooms), false)
  }

  /** `resetBookings`: one batch clearing the flag on every room. */
  method ResetBookings(store: RoomStore) returns (message: string)
    requires store.Valid()
    modifies store
    ensures store.Valid()
    ensures message == ResetMessage
    ensures store.rooms == Reset(old(store.rooms))
  {
    var rooms := store.GetAllRooms();
    store.UpdateRoomStatus(Ids(rooms), false);
    message := ResetMessage;
  }

  /** `p` lists each of `0 .. n - 1` exactly once. */
  ghost predicate IsPermutation(p: seq<nat>, n: nat) {
    && |p| == n
    && (forall t :: 0 <= t < n ==> p[t] < n)
    && (forall a, b :: 0 <= a < b < n ==> p[a] != p[b])
  }

  function Min(a: int, b: int): int {
    if a <= b then a else b
  }

  /** `generateRandomOccupancy`, with its randomness as parameters: `draw` is
      `Math.floor(Math.random() * Math.min(97, free))`, and the shuffled list
      puts the free room at position `shuffle[t]` in place `t`. */
  method GenerateRandomOccupancy(store: RoomStore, draw: nat, shuffle: seq<nat>)
    returns (result: OccupancyResult)
    requires store.Valid()
    requires Free(store.rooms) != [] ==> draw < Min(97, |Free(store.rooms)|)
    requires IsPermutation(shuffle, |Free(store.rooms)|)
    modifies store
    ensures store.Valid()
    ensures Free(old(store.rooms)) == [] ==>
      result == NothingToBook(NothingFreeMessage) && store.rooms == old(store.rooms)
    ensures Free(old(store.rooms)) != [] ==>
      && result.RandomlyBooked?
      && result.count == draw + 1
      && 1 <= result.count <= Min(97, |Free(old(store.rooms))|)
      && |result.bookedRooms| == result.count
      && (forall t :: 0 <= t < result.count ==>
            result.bookedRooms[t] == Free(old(store.rooms))[shuffle[t]])
      && (forall r :: r in result.bookedRooms ==> r in old(store.rooms) && !r.isBooked)
      && DistinctIds(result.bookedRooms)
      && store.rooms == WithStatus(old(store.rooms), Ids(result.bookedRooms), true)
  {
    var all := store.GetAllRooms();
    var availableRooms := Free(all);
    if |availableRooms| == 0 {
      return NothingToBook(NothingFreeMessage);
    }
    var numRoomsToBook := draw + 1;
    var shuffledRooms := seq(|availableRooms|, t requires 0 <= t < |availableRooms| => availableRooms[shuffle[t]]);
    var selectedRooms := shuffledRooms[..numRoomsToBook];
    RandomSelectionIsFreeAndDistinct(all, shuffle, numRoomsToBook);
    assert selectedRooms == seq(numRoomsToBook, t requires 0 <= t < numRoomsToBook => availableRooms[shuffle[t]]);
    store.UpdateRoomStatus(Ids(selectedRooms), true);
    result := RandomlyBooked(numRoomsToBook, selectedRooms);
  }

  // ---------------------------------------------------------------------------
  // Properties of the handlers' effects

  /** Ids of the booked rooms. */
  ghost function BookedIds(rooms: seq<Room>): set<RoomId> {
    set r | r in rooms && r.isBooked :: r.id
  }

  /** Every room of a block the selector can return was free in the store,
      and lies on the floor of its bucket. */
  lemma ChosenRoomsWereFree(rooms: seq<Room>, n: nat, j: int, i: int)
    requires IsWindow(Grouping(rooms), n, j, i)
    ensures forall r :: r in Window(Grouping(rooms), n, j, i) ==>
      r in rooms && !r.isBooked && r.floorNumber == Grouping(rooms)[j].floor
  {
    var g := Grouping(rooms);
    GroupingMembers(rooms, j);
    assert forall r :: r in Window(g, n, j, i) ==> r in g[j].rooms;
  }

  /** Booking free rooms of a store with unique ids adds exactly their ids to
      the booked set, and none of them was booked before: no room is booked twice. */
  lemma BookingAddsOnlyFreeRooms(rooms: seq<Room>, chosen: seq<Room>)
    requires DistinctIds(rooms)
    requires forall r :: r in chosen ==> r in rooms && !r.isBooked
    ensures BookedIds(WithStatus(rooms, Ids(chosen), true)) == BookedIds(rooms) + set r | r in chosen :: r.id
    ensures BookedIds(rooms) !! set r | r in chosen :: r.id
  {
    var after := WithStatus(rooms, Ids(chosen), true);
    WithStatusFrame(rooms, Ids(chosen), true);
    var added := set r | r in chosen :: r.id;
    forall id | id in added ensures id in BookedIds(after) && id !in BookedIds(rooms) {
      var r :| r in chosen && r.id == id;
      var k :| 0 <= k < |rooms| && rooms[k] == r;
      assert id in Ids(chosen);
      assert after[k].isBooked && after[k].id == id;
      assert after[k] in after;
      forall b | b in rooms && b.id == id ensures !b.isBooked {
        var kb :| 0 <= kb < |rooms| && rooms[kb] == b;
        assert kb == k;
      }
    }
    forall id | id in BookedIds(after) ensures id in BookedIds(rooms) + added {
      var a :| a in after && a.isBooked && a.id == id;
      var k :| 0 <= k < |after| && after[k] == a;
      if rooms[k].id !in Ids(chosen) {
        assert rooms[k] in rooms && rooms[k].isBooked;
      } else {
        var t :| 0 <= t < |chosen| && Ids(chosen)[t] == id;
        assert chosen[t] in chosen;
      }
    }
    forall id | id in BookedIds(rooms) ensures id in BookedIds(after) {
      var b :| b in rooms && b.isBooked && b.id == id;
      var k :| 0 <= k < |rooms| && rooms[k] == b;
      assert after[k] in after;
    }
  }

  /** After `resetBookings` no room is booked, and ids, numbers and floors are as before. */
  lemma ResetClearsEveryRoom(rooms: seq<Room>)
    ensures |Reset(rooms)| == |rooms|
    ensures forall k :: 0 <= k < |rooms| ==>
      Reset(rooms)[k] == rooms[k].(isBooked := false)
    ensures Booked(Reset(rooms)) == []
  {
    WithStatusFrame(rooms, Ids(rooms), false);
    var r := Reset(rooms);
    forall k | 0 <= k < |rooms| ensures r[k] == rooms[k].(isBooked := false) {
      assert rooms[k].id == Ids(rooms)[k];
    }
    MatchingMultiset(r, true);
    assert multiset(Booked(r)) == multiset{};
  }

  /** `resetBookings` twice leaves the store as once does. */
  lemma ResetIdempotent(rooms: seq<Room>)
    ensures Reset(Reset(rooms)) == Reset(rooms)
  {
    ResetClearsEveryRoom(rooms);
    ResetClearsEveryRoom(Reset(rooms));
  }

  /** With every room booked there is no bucket, so `bookRooms` answers
      "No suitable rooms available" for every valid count. */
  lemma {:induction false} FullyBookedHasNoBuckets(rooms: seq<Room>)
    requires forall r :: r in rooms ==> r.isBooked
    ensures Free(rooms) == []
    ensures Grouping(rooms) == []
  {
    if rooms != [] {
      var init := rooms[..|rooms| - 1];
      assert forall r :: r in init ==> r in rooms;
      FullyBookedHasNoBuckets(init);
    }
  }

  /** The rooms `generateRandomOccupancy` books were free, and no two share an id. */
  lemma RandomSelectionIsFreeAndDistinct(rooms: seq<Room>, shuffle: seq<nat>, k: nat)
    requires DistinctIds(rooms)
    requires IsPermutation(shuffle, |Free(rooms)|)
    requires k <= |Free(rooms)|
    ensures var picked := seq(k, t requires 0 <= t < k => Free(rooms)[shuffle[t]]);
      && (forall r :: r in picked ==> r in rooms && !r.isBooked)
      && DistinctIds(picked)
  {
    var free := Free(rooms);
    MatchingKeepsDistinctIds(rooms, false);
    MatchingMembers(rooms, false);
    var picked := seq(k, t requires 0 <= t < k => free[shuffle[t]]);
    forall r | r in picked ensures r in rooms && !r.isBooked {
      var t :| 0 <= t < k && picked[t] == r;
      assert free[shuffle[t]] in free;
    }
  }
}
