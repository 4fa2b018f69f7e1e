/** The travel-time estimate of a set of rooms: per room, the unit position on
    its floor (the last two digits of the room number) plus two time units for
    every floor above the first. */
module TravelCost {
  import opened Rooms

  /** JavaScript's `%` on integers: truncating division, so the remainder has
      the sign of the dividend (Dafny's own `%` never goes negative). */
  function JsRem(a: int, d: int): (r: int)
    requires d > 0
    ensures -d < r < d
    ensures a >= 0 ==> r >= 0
    ensures a <= 0 ==> r <= 0
    ensures a == d * TruncDiv(a, d) + r
  {
    if a >= 0 then a % d
    else
      assert -a == d * ((-a) / d) + (-a) % d;
      -((-a) % d)
  }

  /** Division rounded toward zero, the quotient that goes with `JsRem`. */
  function TruncDiv(a: int, d: int): int
    requires d > 0
  {
    if a >= 0 then a / d else -((-a) / d)
  }

  /** Cost of one room: horizontal time plus vertical time. */
  function RoomTime(room: Room): int {
    JsRem(room.roomNumber, 100) + (room.floorNumber - 1) * 2
  }

  /** Total cost of `rooms`, accumulated front to back. */
  function TravelTime(rooms: seq<Room>): int {
    if rooms == [] then 0
    else TravelTime(rooms[..|rooms| - 1]) + RoomTime(rooms[|rooms| - 1])
  }

  /** `calculateTravelTime`: the running total over the rooms. */
  method CalculateTravelTime(rooms: seq<Room>) returns (totalTime: int)
    ensures totalTime == TravelTime(rooms)
  {
    totalTime := 0;
    for i := 0 to |rooms|
      invariant totalTime == TravelTime(rooms[..i])
    {
      var room := rooms[i];
      var horizontalTime := JsRem(room.roomNumber, 100);
      var verticalTime := (room.floorNumber - 1) * 2;
      totalTime := totalTime + horizontalTime + verticalTime;
      assert rooms[..i + 1][..i] == rooms[..i];
    }
    assert rooms[..|rooms|] == rooms;
  }

  /** The cost is additive: no rooms cost nothing, and a concatenation costs
      the sum of its parts. */
  lemma {:induction false} TravelTimeAppend(a: seq<Room>, b: seq<Room>)
    ensures TravelTime([]) == 0
    ensures TravelTime(a + b) == TravelTime(a) + TravelTime(b)
  {
    if b != [] {
      var init := b[..|b| - 1];
      TravelTimeAppend(a, init);
      assert (a + b)[..|a + b| - 1] == a + init;
    } else {
      assert a + b == a;
    }
  }

  /** The cost of a single room is that room's time. */
  lemma TravelTimeSingle(room: Room)
    ensures TravelTime([room]) == RoomTime(room)
  {
    assert [room][..0] == [];
  }

  /** With non-negative room numbers and floors from 1 up, the cost is never negative. */
  lemma {:induction false} TravelTimeNonNegative(rooms: seq<Room>)
    requires forall r :: r in rooms ==> r.roomNumber >= 0 && r.floorNumber >= 1
    ensures TravelTime(rooms) >= 0
  {
    if rooms != [] {
      var init := rooms[..|rooms| - 1];
      assert forall r :: r in init ==> r in rooms;
      TravelTimeNonNegative(init);
    }
  }

  /** Taking one room out of a list takes its time off the total. */
  lemma TravelTimeRemove(b: seq<Room>, k: nat)
    requires k < |b|
    ensures TravelTime(b) == TravelTime(b[..k] + b[k + 1..]) + RoomTime(b[k])
  {
    assert b == b[..k] + [b[k]] + b[k + 1..];
    TravelTimeAppend(b[..k], b[k + 1..]);
    TravelTimeAppend(b[..k], [b[k]]);
    TravelTimeAppend(b[..k] + [b[k]], b[k + 1..]);
    TravelTimeSingle(b[k]);
  }

  /** The cost does not depend on the order of the rooms. */
  lemma {:induction false} TravelTimePermutation(a: seq<Room>, b: seq<Room>)
    requires multiset(a) == multiset(b)
    ensures TravelTime(a) == TravelTime(b)
  {
    if a == [] {
      assert |b| == |multiset(b)| == 0;
    } else {
      var init, last := a[..|a| - 1], a[|a| - 1];
      assert last in multiset(b) by {
        assert a == init + [last];
      }
      var k :| 0 <= k < |b| && b[k] == last;
      var rest := b[..k] + b[k + 1..];
      assert multiset(init) == multiset(rest) by {
        assert a == init + [last];
        assert b == b[..k] + [last] + b[k + 1..];
        assert multiset(init) + multiset{last} == multiset(rest) + multiset{last};
        assert multiset(init) == multiset(init) + multiset{last} - multiset{last};
        assert multiset(rest) == multiset(rest) + multiset{last} - multiset{last};
      }
      TravelTimePermutation(init, rest);
      TravelTimeRemove(b, k);
    }
  }
}
