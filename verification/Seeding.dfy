/** The room list the seeding script writes to the store: floors 1 to 9 with
    ten rooms each, numbered `floor * 100 + 1` to `floor * 100 + 10`, then
    floor 10 with rooms 1001 to 1007, all unbooked. */
module Seeding {

  /** A room record as the script builds it; the store assigns its id on write. */
  datatype RoomData = RoomData(roomNumber: int, floorNumber: int, isBooked: bool)

  /** `count` unbooked rooms of floor `floor`, numbered `base + 1`, `base + 2`, ... */
  function FloorBlock(floor: int, base: int, count: nat): seq<RoomData> {
    seq(count, i requires 0 <= i < count => RoomData(base + i + 1, floor, false))
  }

  /** The records of floors 1 to `n`, ten per floor. */
  function LowerFloors(n: nat): seq<RoomData> {
    if n == 0 then [] else LowerFloors(n - 1) + FloorBlock(n, n * 100, 10)
  }

  /** The whole seed list, in push order. */
  function SeedRooms(): seq<RoomData> {
    LowerFloors(9) + FloorBlock(10, 1000, 7)
  }

  /** The room list built by `resetAndInitializeRooms` before it is written out. */
  method BuildRooms() returns (rooms: seq<RoomData>)
    ensures rooms == SeedRooms()
  {
    rooms := [];
    var floor := 1;
    while floor <= 9
      invariant 1 <= floor <= 10
      invariant rooms == LowerFloors(floor - 1)
    {
      var i := 1;
      while i <= 10
        invariant 1 <= i <= 11
        invariant rooms == LowerFloors(floor - 1) + FloorBlock(floor, floor * 100, i - 1)
      {
        rooms := rooms + [RoomData(floor * 100 + i, floor, false)];
        i := i + 1;
      }
      floor := floor + 1;
    }
    var i := 1;
    while i <= 7
      invariant 1 <= i <= 8
      invariant rooms == LowerFloors(9) + FloorBlock(10, 1000, i - 1)
    {
      rooms := rooms + [RoomData(1000 + i, 10, false)];
      i := i + 1;
    }
  }

  /** The `k`-th record of the seed list in closed form. */
  function SeedAt(k: nat): RoomData {
    if k < 90 then RoomData((k / 10 + 1) * 100 + k % 10 + 1, k / 10 + 1, false)
    else RoomData(1000 + k - 89, 10, false)
  }

  lemma {:induction false} LowerFloorsAt(n: nat)
    requires n <= 9
    ensures |LowerFloors(n)| == 10 * n
    ensures forall k :: 0 <= k < 10 * n ==> LowerFloors(n)[k] == SeedAt(k)
  {
    if n > 0 {
      LowerFloorsAt(n - 1);
      var prev, block := LowerFloors(n - 1), FloorBlock(n, n * 100, 10);
      forall k | 10 * (n - 1) <= k < 10 * n ensures LowerFloors(n)[k] == SeedAt(k) {
        assert k / 10 == n - 1 && k % 10 == k - 10 * (n - 1);
        assert LowerFloors(n)[k] == block[k - 10 * (n - 1)];
        assert SeedAt(k) == RoomData(n * 100 + k % 10 + 1, n, false);
      }
    }
  }

  /** The seed list has 97 records, and record `k` is `SeedAt(k)`. */
  lemma SeedRoomsAt()
    ensures |SeedRooms()| == 97
    ensures forall k :: 0 <= k < 97 ==> SeedRooms()[k] == SeedAt(k)
  {
    LowerFloorsAt(9);
  }

  /** Every record is unbooked, on a floor from 1 to 10, numbered
      `floor * 100 + u` with unit `u` from 1 to 10 (1 to 7 on floor 10), so
      that `roomNumber / 100 == floorNumber` and `roomNumber % 100` is the unit. */
  lemma SeedNumbering()
    ensures forall r :: r in SeedRooms() ==>
      && !r.isBooked
      && 1 <= r.floorNumber <= 10
      && r.roomNumber / 100 == r.floorNumber
      && 1 <= r.roomNumber % 100 <= (if r.floorNumber == 10 then 7 else 10)
      && r.roomNumber == r.floorNumber * 100 + r.roomNumber % 100
  {
    SeedRoomsAt();
    forall r | r in SeedRooms()
      ensures && !r.isBooked
              && 1 <= r.floorNumber <= 10
              && r.roomNumber / 100 == r.floorNumber
              && 1 <= r.roomNumber % 100 <= (if r.floorNumber == 10 then 7 else 10)
              && r.roomNumber == r.floorNumber * 100 + r.roomNumber % 100
    {
      var k :| 0 <= k < 97 && SeedRooms()[k] == r;
      if k < 90 {
        var f, u := k / 10 + 1, k % 10 + 1;
        assert r == RoomData(f * 100 + u, f, false);
        assert (f * 100 + u) / 100 == f && (f * 100 + u) % 100 == u;
      } else {
        assert r == RoomData(1000 + k - 89, 10, false);
      }
    }
  }

  /** Room numbers strictly increase in push order, so no two records share one. */
  lemma SeedNumbersIncrease()
    ensures forall a, b :: 0 <= a < b < |SeedRooms()| ==>
      SeedRooms()[a].roomNumber < SeedRooms()[b].roomNumber
  {
    SeedRoomsAt();
    forall a, b | 0 <= a < b < 97 ensures SeedAt(a).roomNumber < SeedAt(b).roomNumber {
      if b < 90 {
        assert a / 10 < b / 10 || (a / 10 == b / 10 && a % 10 < b % 10);
      }
    }
  }

  /** How many records lie on floor `f`. */
  function CountOnFloor(rooms: seq<RoomData>, f: int): nat {
    if rooms == [] then 0
    else CountOnFloor(rooms[..|rooms| - 1], f) + (if rooms[|rooms| - 1].floorNumber == f then 1 else 0)
  }

  lemma {:induction false} CountAppend(a: seq<RoomData>, b: seq<RoomData>, f: int)
    ensures CountOnFloor(a + b, f) == CountOnFloor(a, f) + CountOnFloor(b, f)
  {
    if b == [] {
      assert a + b == a;
    } else {
      CountAppend(a, b[..|b| - 1], f);
      assert (a + b)[..|a + b| - 1] == a + b[..|b| - 1];
    }
  }

  lemma {:induction false} CountFloorBlock(floor: int, base: int, count: nat, f: int)
    ensures CountOnFloor(FloorBlock(floor, base, count), f) == if floor == f then count else 0
  {
    if count > 0 {
      CountFloorBlock(floor, base, count - 1, f);
      assert FloorBlock(floor, base, count)[..count - 1] == FloorBlock(floor, base, count - 1);
    }
  }

  lemma {:induction false} CountLowerFloors(n: nat, f: int)
    ensures CountOnFloor(LowerFloors(n), f) == if 1 <= f <= n then 10 else 0
  {
    if n > 0 {
      CountLowerFloors(n - 1, f);
      CountAppend(LowerFloors(n - 1), FloorBlock(n, n * 100, 10), f);
      CountFloorBlock(n, n * 100, 10, f);
    }
  }

  /** Ten rooms on each of floors 1 to 9, seven on floor 10, none elsewhere. */
  lemma SeedRoomsPerFloor(f: int)
    ensures CountOnFloor(SeedRooms(), f) ==
      if 1 <= f <= 9 then 10 else if f == 10 then 7 else 0
  {
    CountLowerFloors(9, f);
    CountAppend(LowerFloors(9), FloorBlock(10, 1000, 7), f);
    CountFloorBlock(10, 1000, 7, f);
  }
}
