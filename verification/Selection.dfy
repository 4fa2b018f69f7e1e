/** `findBestRooms`: over every floor of the map, in iteration order, every
    block of `numRooms` consecutive rooms of that floor's sorted list is
    scored, and the first block of least travel time is kept. */
module Selection {
  import opened Rooms
  import opened TravelCost
  import opened Availability

  /** Offset `i` of the `j`-th bucket starts a block of `n` rooms. */
  predicate IsWindow(fm: FloorMap, n: nat, j: int, i: int) {
    0 <= j < |fm| && 0 <= i && i + n <= |fm[j].rooms|
  }

  /** `rooms.slice(i, i + n)` of the `j`-th bucket. */
  function Window(fm: FloorMap, n: nat, j: int, i: int): seq<Room>
    requires IsWindow(fm, n, j, i)
  {
    fm[j].rooms[i..i + n]
  }

  /** The search visits block (j1, i1) before block (j2, i2). */
  predicate Earlier(j1: int, i1: int, j2: int, i2: int) {
    j1 < j2 || (j1 == j2 && i1 < i2)
  }

  /** The block at (j, i) is the one the search keeps: no block costs less,
      and every block visited before it costs strictly more. */
  ghost predicate IsBestWindow(fm: FloorMap, n: nat, j: int, i: int) {
    && IsWindow(fm, n, j, i)
    && (forall j', i' :: IsWindow(fm, n, j', i') ==>
          TravelTime(Window(fm, n, j, i)) <= TravelTime(Window(fm, n, j', i')))
    && (forall j', i' :: IsWindow(fm, n, j', i') && Earlier(j', i', j, i) ==>
          TravelTime(Window(fm, n, j, i)) < TravelTime(Window(fm, n, j', i')))
  }

  /** No block visited before (j, i) costs less than `m`. */
  ghost predicate NoneCheaperBefore(fm: FloorMap, n: nat, j: int, i: int, m: int) {
    forall j', i' :: IsWindow(fm, n, j', i') && Earlier(j', i', j, i) ==> m <= TravelTime(Window(fm, n, j', i'))
  }

  /** Every block visited before (j, i) costs more than `m`. */
  ghost predicate AllDearerBefore(fm: FloorMap, n: nat, j: int, i: int, m: int) {
    forall j', i' :: IsWindow(fm, n, j', i') && Earlier(j', i', j, i) ==> m < TravelTime(Window(fm, n, j', i'))
  }

  /** A block that costs no less than `m` keeps `m` the least cost seen. */
  lemma KeepMinimum(fm: FloorMap, n: nat, j: nat, i: nat, m: int)
    requires IsWindow(fm, n, j, i) && m <= TravelTime(Window(fm, n, j, i))
    requires NoneCheaperBefore(fm, n, j, i, m)
    ensures NoneCheaperBefore(fm, n, j, i + 1, m)
  {
  }

  /** A block cheaper than everything seen before becomes the new minimum. */
  lemma NewMinimum(fm: FloorMap, n: nat, j: nat, i: nat)
    requires IsWindow(fm, n, j, i)
    requires AllDearerBefore(fm, n, j, i, TravelTime(Window(fm, n, j, i)))
    ensures NoneCheaperBefore(fm, n, j, i + 1, TravelTime(Window(fm, n, j, i)))
  {
  }

  /** Before the first block of the first floor that has enough rooms there is no block at all. */
  lemma NothingBefore(fm: FloorMap, n: nat, j: nat, m: int)
    requires j <= |fm| && forall j' :: 0 <= j' < j ==> |fm[j'].rooms| < n
    ensures AllDearerBefore(fm, n, j, 0, m)
  {
  }

  /** Past the last offset of bucket `j`, the next block in order is the first of bucket `j + 1`. */
  lemma NextFloor(fm: FloorMap, n: nat, j: nat, i: nat, m: int)
    requires j < |fm| && |fm[j].rooms| < n + i
    requires NoneCheaperBefore(fm, n, j, i, m)
    ensures NoneCheaperBefore(fm, n, j + 1, 0, m)
  {
  }

  /** `findBestRooms(floorMap, numRooms)`. `None` stands for `null`; the ghost
      outputs say which bucket and offset the returned block was sliced from. */
  method FindBestRooms(floorMap: FloorMap, numRooms: nat)
    returns (bestChoice: Option<seq<Room>>, ghost floor: nat, ghost offset: nat)
    ensures bestChoice.None? <==> forall j :: 0 <= j < |floorMap| ==> |floorMap[j].rooms| < numRooms
    ensures bestChoice.Some? ==>
      IsBestWindow(floorMap, numRooms, floor, offset) &&
      bestChoice.value == Window(floorMap, numRooms, floor, offset)
  {
    bestChoice := None;
    // The running minimum; while `bestChoice` is `None` it plays the part of `Infinity`.
    var minTravelTime := 0;
    floor, offset := 0, 0;
    for j := 0 to |floorMap|
      invariant bestChoice.None? ==> forall j' :: 0 <= j' < j ==> |floorMap[j'].rooms| < numRooms
      invariant bestChoice.Some? ==>
        Earlier(floor, offset, j, 0) && IsWindow(floorMap, numRooms, floor, offset) &&
        bestChoice.value == Window(floorMap, numRooms, floor, offset) &&
        minTravelTime == TravelTime(bestChoice.value) &&
        NoneCheaperBefore(floorMap, numRooms, j, 0, minTravelTime) &&
        AllDearerBefore(floorMap, numRooms, floor, offset, minTravelTime)
    {
      var rooms := floorMap[j].rooms;
      if |rooms| < numRooms {
        if bestChoice.Some? {
          NextFloor(floorMap, numRooms, j, 0, minTravelTime);
        }
        continue;
      }
      for i := 0 to |rooms| - numRooms + 1
        invariant bestChoice.None? ==> i == 0 && forall j' :: 0 <= j' < j ==> |floorMap[j'].rooms| < numRooms
        invariant bestChoice.Some? ==>
          Earlier(floor, offset, j, i) && IsWindow(floorMap, numRooms, floor, offset) &&
          bestChoice.value == Window(floorMap, numRooms, floor, offset) &&
          minTravelTime == TravelTime(bestChoice.value) &&
          NoneCheaperBefore(floorMap, numRooms, j, i, minTravelTime) &&
          AllDearerBefore(floorMap, numRooms, floor, offset, minTravelTime)
      {
        var selectedRooms := rooms[i..i + numRooms];
        assert selectedRooms == Window(floorMap, numRooms, j, i);
        var travelTime := CalculateTravelTime(selectedRooms);
        if bestChoice.None? || travelTime < minTravelTime {
          if bestChoice.None? {
            NothingBefore(floorMap, numRooms, j, travelTime);
          }
          NewMinimum(floorMap, numRooms, j, i);
          minTravelTime := travelTime;
          bestChoice := Some(selectedRooms);
          floor, offset := j, i;
        } else {
          KeepMinimum(floorMap, numRooms, j, i, minTravelTime);
        }
      }
      if bestChoice.Some? {
        NextFloor(floorMap, numRooms, j, |rooms| - numRooms + 1, minTravelTime);
      }
    }
  }

  /** The two conditions of `IsBestWindow` pin the block down: at most one
      position of a map satisfies them. */
  lemma BestWindowUnique(fm: FloorMap, n: nat, j1: int, i1: int, j2: int, i2: int)
    requires IsBestWindow(fm, n, j1, i1) && IsBestWindow(fm, n, j2, i2)
    ensures j1 == j2 && i1 == i2
  {
  }

  /** The cost of a three-room block, room by room. */
  lemma ThreeRoomCost(w: seq<Room>)
    requires |w| == 3
    ensures TravelTime(w) == RoomTime(w[0]) + RoomTime(w[1]) + RoomTime(w[2])
  {
    assert w == [w[0], w[1]] + [w[2]] && [w[0], w[1]] == [w[0]] + [w[1]];
    TravelTimeAppend([w[0], w[1]], [w[2]]);
    TravelTimeAppend([w[0]], [w[1]]);
    TravelTimeSingle(w[0]);
    TravelTimeSingle(w[1]);
    TravelTimeSingle(w[2]);
  }

  /** Floor 3 with rooms 301 to 310 free and three rooms asked for: the block
      at offset `i` costs `18 + 3 * i`, so the block 301, 302, 303 is chosen,
      at travel time (1 + 4) + (2 + 4) + (3 + 4) = 18. */
  lemma LowestBlockOnOneFloor(ids: seq<RoomId>)
    requires |ids| == 10
    ensures var fm := [Bucket(3, seq(10, k requires 0 <= k < 10 => Room(ids[k], 301 + k, 3, false)))];
      && IsBestWindow(fm, 3, 0, 0)
      && Window(fm, 3, 0, 0) == fm[0].rooms[..3]
      && TravelTime(Window(fm, 3, 0, 0)) == 18
  {
    var fm := [Bucket(3, seq(10, k requires 0 <= k < 10 => Room(ids[k], 301 + k, 3, false)))];
    forall j, i | IsWindow(fm, 3, j, i) ensures TravelTime(Window(fm, 3, j, i)) == 18 + 3 * i {
      var w := Window(fm, 3, j, i);
      ThreeRoomCost(w);
      forall t | 0 <= t < 3 ensures RoomTime(w[t]) == 1 + i + t + 4 {
        assert w[t] == Room(ids[i + t], 301 + i + t, 3, false);
        assert 301 + i + t == 100 * 3 + (1 + i + t);
      }
    }
  }
}
