/** Room records as the store hands them out, the filters the controller
    applies to them, and the store itself: a collection of room documents
    with two primitives, "list every room" and "set isBooked on these ids". */
module Rooms {

  datatype Option<T> = None | Some(value: T)

  /** A document id assigned by the store. */
  type RoomId = string

  datatype Room = Room(id: RoomId, roomNumber: int, floorNumber: int, isBooked: bool)

  /** The rooms of `rooms` whose booking flag equals `booked`, in store order. */
  function Matching(rooms: seq<Room>, booked: bool): seq<Room> {
    if rooms == [] then []
    else
      var last := rooms[|rooms| - 1];
      Matching(rooms[..|rooms| - 1], booked) + (if last.isBooked == booked then [last] else [])
  }

  /** The filter keeps every room with the wanted flag, as often as it occurs,
      and drops every other room. */
  lemma {:induction false} MatchingMultiset(rooms: seq<Room>, booked: bool)
    ensures forall x ::
      multiset(Matching(rooms, booked))[x] == (if x.isBooked == booked then multiset(rooms)[x] else 0)
  {
    if rooms != [] {
      var init, last := rooms[..|rooms| - 1], rooms[|rooms| - 1];
      assert rooms == init + [last];
      MatchingMultiset(init, booked);
    }
  }

  /** Membership form of `MatchingMultiset`. */
  lemma MatchingMembers(rooms: seq<Room>, booked: bool)
    ensures forall x :: x in Matching(rooms, booked) <==> x in rooms && x.isBooked == booked
  {
    MatchingMultiset(rooms, booked);
    forall x ensures x in Matching(rooms, booked) <==> x in rooms && x.isBooked == booked {
      assert x in Matching(rooms, booked) <==> x in multiset(Matching(rooms, booked));
    }
  }

  /** The unbooked rooms: `rooms.filter(room => !room.isBooked)`. */
  function Free(rooms: seq<Room>): seq<Room> {
    Matching(rooms, false)
  }

  /** The booked rooms: `rooms.filter(room => room.isBooked)`. */
  function Booked(rooms: seq<Room>): seq<Room> {
    Matching(rooms, true)
  }

  /** `rooms.map(r => r.id)` */
  function Ids(rooms: seq<Room>): (ids: seq<RoomId>)
    ensures |ids| == |rooms|
    ensures forall k :: 0 <= k < |rooms| ==> ids[k] == rooms[k].id
  {
    seq(|rooms|, k requires 0 <= k < |rooms| => rooms[k].id)
  }

  /** The store after a batch that writes `isBooked: status` to every document in `ids`. */
  function WithStatus(rooms: seq<Room>, ids: seq<RoomId>, status: bool): seq<Room> {
    seq(|rooms|, k requires 0 <= k < |rooms| =>
      if rooms[k].id in ids then rooms[k].(isBooked := status) else rooms[k])
  }

  /** Document ids are unique within the collection. */
  ghost predicate DistinctIds(rooms: seq<Room>) {
    forall a, b :: 0 <= a < b < |rooms| ==> rooms[a].id != rooms[b].id
  }

  /** Filtering keeps every id unique. */
  lemma {:induction false} MatchingKeepsDistinctIds(rooms: seq<Room>, booked: bool)
    requires DistinctIds(rooms)
    ensures DistinctIds(Matching(rooms, booked))
  {
    if rooms != [] {
      var init, last := rooms[..|rooms| - 1], rooms[|rooms| - 1];
      MatchingKeepsDistinctIds(init, booked);
      MatchingMembers(init, booked);
    }
  }

  /** A status batch changes only `isBooked`, and only on the rooms it names:
      ids, numbers and floors stay where they were, and so does uniqueness of ids. */
  lemma WithStatusFrame(rooms: seq<Room>, ids: seq<RoomId>, status: bool)
    ensures |WithStatus(rooms, ids, status)| == |rooms|
    ensures Ids(WithStatus(rooms, ids, status)) == Ids(rooms)
    ensures forall k :: 0 <= k < |rooms| ==>
      var r := WithStatus(rooms, ids, status)[k];
      r.id == rooms[k].id && r.roomNumber == rooms[k].roomNumber &&
      r.floorNumber == rooms[k].floorNumber &&
      r.isBooked == (if rooms[k].id in ids then status else rooms[k].isBooked)
    ensures DistinctIds(rooms) ==> DistinctIds(WithStatus(rooms, ids, status))
  {
  }

  /** The room collection. Its contents are the only state the controller touches. */
  class RoomStore {
    var rooms: seq<Room>

    ghost predicate Valid()
      reads this
    {
      DistinctIds(rooms)
    }

    constructor (initial: seq<Room>)
      requires DistinctIds(initial)
      ensures Valid() && rooms == initial
    {
      rooms := initial;
    }

    /** Every room document, with its id. */
    method GetAllRooms() returns (all: seq<Room>)
      ensures all == rooms
    {
      all := rooms;
    }

    /** One batch writing `isBooked: status` to each listed document. */
    method UpdateRoomStatus(ids: seq<RoomId>, status: bool)
      requires Valid()
      modifies this
      ensures Valid()
      ensures rooms == WithStatus(old(rooms), ids, status)
    {
      WithStatusFrame(rooms, ids, status);
      rooms := WithStatus(rooms, ids, status);
    }
  }
}
