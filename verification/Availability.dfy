/** `getAvailableRooms`: the unbooked rooms, bucketed by floor number. The
    JavaScript `Map` it builds iterates its keys in insertion order, so it is
    modelled as a sequence of (floor, rooms) buckets in that order. */
module Availability {
  import opened Rooms

  datatype Bucket = Bucket(floor: int, rooms: seq<Room>)

  type FloorMap = seq<Bucket>

  predicate SortedByNumber(s: seq<Room>) {
    forall a, b :: 0 <= a < b < |s| ==> s[a].roomNumber <= s[b].roomNumber
  }

  /** Inserts `x` into sorted `s` ahead of every room whose number is not smaller. */
  function Insert(x: Room, s: seq<Room>): (r: seq<Room>)
    requires SortedByNumber(s)
    ensures SortedByNumber(r)
    ensures multiset(r) == multiset(s) + multiset{x}
    ensures r[0] == if s == [] || x.roomNumber <= s[0].roomNumber then x else s[0]
  {
    if s == [] || x.roomNumber <= s[0].roomNumber then [x] + s
    else
      assert s == [s[0]] + s[1..];
      [s[0]] + Insert(x, s[1..])
  }

  /** The bucket order after `rooms.sort((a, b) => a.roomNumber - b.roomNumber)`. */
  function SortByNumber(s: seq<Room>): (r: seq<Room>)
    ensures SortedByNumber(r)
    ensures multiset(r) == multiset(s)
  {
    if s == [] then []
    else
      assert s == [s[0]] + s[1..];
      Insert(s[0], SortByNumber(s[1..]))
  }

  /** The rooms of `s` numbered `v`, in the order given. */
  function WithNumber(s: seq<Room>, v: int): seq<Room> {
    if s == [] then []
    else (if s[0].roomNumber == v then [s[0]] else []) + WithNumber(s[1..], v)
  }

  /** `Insert` puts `x` ahead of every room with its number, and moves no other room
      past one with the same number. */
  lemma {:induction false} InsertStable(x: Room, s: seq<Room>, v: int)
    requires SortedByNumber(s)
    ensures WithNumber(Insert(x, s), v) == (if x.roomNumber == v then [x] else []) + WithNumber(s, v)
  {
    var r := Insert(x, s);
    if s == [] || x.roomNumber <= s[0].roomNumber {
      assert r[1..] == s;
    } else {
      assert r[1..] == Insert(x, s[1..]);
      InsertStable(x, s[1..], v);
    }
  }

  /** The sort is stable, as the comparator sort is: rooms with equal numbers keep
      their relative order. */
  lemma {:induction false} SortStable(s: seq<Room>, v: int)
    ensures WithNumber(SortByNumber(s), v) == WithNumber(s, v)
  {
    if s != [] {
      SortStable(s[1..], v);
      InsertStable(s[0], SortByNumber(s[1..]), v);
    }
  }

  /** The rooms of `rooms` on floor `f`, in the order given. */
  function OnFloor(rooms: seq<Room>, f: int): seq<Room> {
    if rooms == [] then []
    else OnFloor(rooms[..|rooms| - 1], f) + (if rooms[|rooms| - 1].floorNumber == f then [rooms[|rooms| - 1]] else [])
  }

  /** `OnFloor` keeps every room of floor `f`, as often as it occurs, and no other. */
  lemma {:induction false} OnFloorMultiset(rooms: seq<Room>, f: int)
    ensures forall x :: multiset(OnFloor(rooms, f))[x] == if x.floorNumber == f then multiset(rooms)[x] else 0
  {
    if rooms != [] {
      var init, last := rooms[..|rooms| - 1], rooms[|rooms| - 1];
      assert rooms == init + [last];
      OnFloorMultiset(init, f);
    }
  }

  /** The floor numbers of `rooms`, each once, in order of first appearance. */
  function FloorKeys(rooms: seq<Room>): seq<int> {
    if rooms == [] then []
    else
      var keys := FloorKeys(rooms[..|rooms| - 1]);
      var f := rooms[|rooms| - 1].floorNumber;
      if f in keys then keys else keys + [f]
  }

  /** The keys are distinct, and are exactly the floors that some room is on. */
  lemma {:induction false} FloorKeysSpec(rooms: seq<Room>)
    ensures forall f :: f in FloorKeys(rooms) <==> exists x :: x in rooms && x.floorNumber == f
    ensures forall a, b :: 0 <= a < b < |FloorKeys(rooms)| ==> FloorKeys(rooms)[a] != FloorKeys(rooms)[b]
  {
    if rooms != [] {
      var init, last := rooms[..|rooms| - 1], rooms[|rooms| - 1];
      assert rooms == init + [last];
      FloorKeysSpec(init);
    }
  }

  /** Position of the first room of `s` on floor `f`, or `|s|` when there is none. */
  function FirstOnFloor(s: seq<Room>, f: int): (t: nat)
    ensures t <= |s|
    ensures t < |s| ==> s[t].floorNumber == f
    ensures forall u :: 0 <= u < t ==> s[u].floorNumber != f
  {
    if s == [] then 0
    else if s[0].floorNumber == f then 0
    else 1 + FirstOnFloor(s[1..], f)
  }

  lemma FirstOnFloorUnique(s: seq<Room>, f: int, t: nat)
    requires t <= |s| && (t < |s| ==> s[t].floorNumber == f)
    requires forall u :: 0 <= u < t ==> s[u].floorNumber != f
    ensures FirstOnFloor(s, f) == t
  {
  }

  /** Keys come in the order in which their floors first appear: key `a` before
      key `b` means a room of floor `a` comes before every room of floor `b`. */
  lemma {:induction false} FloorKeysOrder(s: seq<Room>)
    ensures forall a :: 0 <= a < |FloorKeys(s)| ==> FirstOnFloor(s, FloorKeys(s)[a]) < |s|
    ensures forall a, b :: 0 <= a < b < |FloorKeys(s)| ==>
      FirstOnFloor(s, FloorKeys(s)[a]) < FirstOnFloor(s, FloorKeys(s)[b])
  {
    if s != [] {
      var init, last := s[..|s| - 1], s[|s| - 1];
      assert s == init + [last];
      FloorKeysOrder(init);
      FloorKeysSnoc(init, last);
      var keys0, keys := FloorKeys(init), FloorKeys(s);
      forall a | 0 <= a < |keys0| ensures FirstOnFloor(s, keys0[a]) == FirstOnFloor(init, keys0[a]) {
        FirstOnFloorUnique(s, keys0[a], FirstOnFloor(init, keys0[a]));
      }
      if last.floorNumber !in keys0 {
        FloorKeysSpec(init);
        forall u | 0 <= u < |init| ensures init[u].floorNumber != last.floorNumber {
          assert init[u] in init;
        }
        FirstOnFloorUnique(s, last.floorNumber, |init|);
      }
    }
  }

  /** The keys of a floor map, in iteration order. */
  function Floors(fm: FloorMap): (floors: seq<int>)
    ensures |floors| == |fm|
    ensures forall t :: 0 <= t < |fm| ==> floors[t] == fm[t].floor
  {
    seq(|fm|, t requires 0 <= t < |fm| => fm[t].floor)
  }

  /** The map `free.forEach` builds before sorting: one bucket per floor, rooms in list order. */
  function Collect(free: seq<Room>): (fm: FloorMap)
    ensures Floors(fm) == FloorKeys(free)
  {
    var keys := FloorKeys(free);
    seq(|keys|, t requires 0 <= t < |keys| => Bucket(keys[t], OnFloor(free, keys[t])))
  }

  /** What `getAvailableRooms` returns when the store holds `rooms`. */
  function Grouping(rooms: seq<Room>): (fm: FloorMap)
    ensures Floors(fm) == FloorKeys(Free(rooms))
  {
    var free := Free(rooms);
    var keys := FloorKeys(free);
    seq(|keys|, t requires 0 <= t < |keys| => Bucket(keys[t], SortByNumber(OnFloor(free, keys[t]))))
  }

  /** `floorMap.has(f)` and the position of its entry: the first bucket keyed `f`, or `|fm|`. */
  function IndexOfFloor(fm: FloorMap, f: int): (t: nat)
    ensures t <= |fm|
    ensures t < |fm| ==> fm[t].floor == f
    ensures forall u :: 0 <= u < t ==> fm[u].floor != f
  {
    if fm == [] then 0
    else if fm[0].floor == f then 0
    else 1 + IndexOfFloor(fm[1..], f)
  }

  lemma OnFloorSnoc(s: seq<Room>, room: Room, f: int)
    ensures OnFloor(s + [room], f) == OnFloor(s, f) + (if room.floorNumber == f then [room] else [])
  {
    assert (s + [room])[..|s|] == s;
  }

  lemma FloorKeysSnoc(s: seq<Room>, room: Room)
    ensures FloorKeys(s + [room]) ==
      if room.floorNumber in FloorKeys(s) then FloorKeys(s) else FloorKeys(s) + [room.floorNumber]
  {
    assert (s + [room])[..|s|] == s;
  }

  /** Buckets of floors other than the new room's are unchanged by it. */
  lemma CollectOtherFloors(free: seq<Room>, room: Room)
    requires FloorKeys(free + [room]) == FloorKeys(free) || FloorKeys(free + [room]) == FloorKeys(free) + [room.floorNumber]
    ensures forall u :: 0 <= u < |Collect(free)| && Collect(free)[u].floor != room.floorNumber ==>
      Collect(free + [room])[u] == Collect(free)[u]
  {
    var fm, fm' := Collect(free), Collect(free + [room]);
    forall u | 0 <= u < |fm| && fm[u].floor != room.floorNumber ensures fm'[u] == fm[u] {
      assert Floors(fm)[u] == FloorKeys(free)[u];
      OnFloorSnoc(free, room, fm[u].floor);
    }
  }

  /** A room on a floor not seen before opens a new bucket at the end. */
  lemma CollectNewFloor(free: seq<Room>, room: Room)
    requires IndexOfFloor(Collect(free), room.floorNumber) == |Collect(free)|
    ensures Collect(free + [room]) == Collect(free) + [Bucket(room.floorNumber, [room])]
  {
    var f := room.floorNumber;
    var fm, fm' := Collect(free), Collect(free + [room]);
    var keys := FloorKeys(free);
    assert f !in keys by {
      forall u | 0 <= u < |keys| ensures keys[u] != f {
        assert Floors(fm)[u] == keys[u];
      }
    }
    assert OnFloor(free, f) == [] by {
      FloorKeysSpec(free);
      OnFloorMultiset(free, f);
      assert multiset(OnFloor(free, f)) == multiset{};
    }
    assert |fm'| == |fm| + 1 && fm'[|fm|] == Bucket(f, [room]) by {
      FloorKeysSnoc(free, room);
      OnFloorSnoc(free, room, f);
    }
    FloorKeysSnoc(free, room);
    CollectOtherFloors(free, room);
    var grown := fm + [Bucket(f, [room])];
    forall u | 0 <= u < |fm'| ensures fm'[u] == grown[u] {
      if u < |fm| {
        assert Floors(fm)[u] == keys[u] != f;
      }
    }
    assert |fm'| == |grown|;
  }

  /** A room on a floor already seen is appended to that floor's bucket. */
  lemma CollectKnownFloor(free: seq<Room>, room: Room, t: nat)
    requires t == IndexOfFloor(Collect(free), room.floorNumber) < |Collect(free)|
    ensures Collect(free + [room]) == Collect(free)[t := Bucket(room.floorNumber, Collect(free)[t].rooms + [room])]
  {
    var f := room.floorNumber;
    var fm, fm' := Collect(free), Collect(free + [room]);
    assert Floors(fm)[t] == f;
    FloorKeysSpec(free);
    FloorKeysSnoc(free, room);
    CollectOtherFloors(free, room);
    OnFloorSnoc(free, room, f);
    assert fm'[t] == Bucket(f, fm[t].rooms + [room]);
  }

  /** `getAvailableRooms`: group the free rooms by floor, then sort every bucket. */
  method GetAvailableRooms(store: RoomStore) returns (floorMap: FloorMap)
    ensures floorMap == Grouping(store.rooms)
  {
    var all := store.GetAllRooms();
    var free := Free(all);
    floorMap := [];
    for i := 0 to |free|
      invariant floorMap == Collect(free[..i])
    {
      var room := free[i];
      var t := IndexOfFloor(floorMap, room.floorNumber);
      if t == |floorMap| {
        CollectNewFloor(free[..i], room);
        floorMap := floorMap + [Bucket(room.floorNumber, [])];
      } else {
        CollectKnownFloor(free[..i], room, t);
      }
      floorMap := floorMap[t := Bucket(room.floorNumber, floorMap[t].rooms + [room])];
      assert free[..i + 1] == free[..i] + [room];
    }
    assert free[..|free|] == free;
    ghost var collected := floorMap;
    for t := 0 to |floorMap|
      invariant |floorMap| == |collected|
      invariant forall u :: 0 <= u < t ==>
        floorMap[u] == Bucket(collected[u].floor, SortByNumber(collected[u].rooms))
      invariant forall u :: t <= u < |floorMap| ==> floorMap[u] == collected[u]
    {
      floorMap := floorMap[t := Bucket(floorMap[t].floor, SortByNumber(floorMap[t].rooms))];
    }
    GroupingSortsCollect(all, floorMap);
  }

  /** Sorting every bucket of `Collect(Free(rooms))` gives `Grouping(rooms)`. */
  lemma GroupingSortsCollect(rooms: seq<Room>, fm: FloorMap)
    requires var c := Collect(Free(rooms));
      |fm| == |c| && forall u :: 0 <= u < |c| ==> fm[u] == Bucket(c[u].floor, SortByNumber(c[u].rooms))
    ensures fm == Grouping(rooms)
  {
    var c, g := Collect(Free(rooms)), Grouping(rooms);
    assert Floors(c) == Floors(g);
    forall u | 0 <= u < |g| ensures fm[u] == g[u] {
      assert Floors(c)[u] == Floors(g)[u];
    }
  }

  /** Every room in the bucket at position `t` is a free room of the store on that bucket's floor. */
  lemma GroupingMembers(rooms: seq<Room>, t: int)
    requires 0 <= t < |Grouping(rooms)|
    ensures forall x :: x in Grouping(rooms)[t].rooms ==>
      x in rooms && !x.isBooked && x.floorNumber == Grouping(rooms)[t].floor
  {
    var g, free := Grouping(rooms), Free(rooms);
    var f := g[t].floor;
    assert Floors(g)[t] == f;
    MatchingMembers(rooms, false);
    OnFloorMultiset(free, f);
    forall x | x in g[t].rooms ensures x in free && x.floorNumber == f {
      assert multiset(g[t].rooms)[x] > 0;
    }
  }

  /** The grouping holds exactly the unbooked rooms: keys are distinct and are
      the floors that have a free room; the bucket under key `f` holds every
      free room on floor `f`, as often as the store lists it, and nothing else;
      no bucket is empty; every bucket is sorted by room number. */
  lemma GroupingSpec(rooms: seq<Room>)
    ensures var g := Grouping(rooms);
      && (forall a, b :: 0 <= a < b < |g| ==> g[a].floor != g[b].floor)
      && (forall f :: f in Floors(g) <==> exists x :: x in rooms && !x.isBooked && x.floorNumber == f)
      && (forall t, x :: 0 <= t < |g| ==>
            multiset(g[t].rooms)[x] ==
              if x.floorNumber == g[t].floor && !x.isBooked then multiset(rooms)[x] else 0)
      && (forall t :: 0 <= t < |g| ==> g[t].rooms != [] && SortedByNumber(g[t].rooms))
  {
    var g := Grouping(rooms);
    var free := Free(rooms);
    MatchingMultiset(rooms, false);
    MatchingMembers(rooms, false);
    FloorKeysSpec(free);
    forall f ensures forall x :: multiset(OnFloor(free, f))[x] == if x.floorNumber == f then multiset(free)[x] else 0 {
      OnFloorMultiset(free, f);
    }
    forall t | 0 <= t < |g| ensures g[t].rooms != [] {
      var f := g[t].floor;
      assert f in FloorKeys(free);
      var x :| x in free && x.floorNumber == f;
      assert multiset(OnFloor(free, f))[x] > 0;
      assert multiset(g[t].rooms)[x] > 0;
    }
  }
}
