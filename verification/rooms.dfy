/**
 The room registry lookup: which match room, if any, a LINE user is playing in.
 Only the player ids matter to the lookup, so a room is modelled by its two seats.
 The id looked up may be `undefined` (`None`); an empty seat's id reads as
 `undefined` too, so such a lookup matches the first room with an empty seat.
 */
module Rooms {
  import opened Wrappers
  import opened JsObject

  datatype Player = Player(id: string)

  /** The red and blue seats; a seat may still be empty. */
  datatype Seats = Seats(red: Option<Player>, blue: Option<Player>)

  datatype Room = Room(players: Seats)

  /** The id read through an optional seat: `None` (undefined) when the seat is empty. */
  function SeatId(seat: Option<Player>): (id: Option<string>)
    ensures id.None? <==> seat.None?
  {
    if seat.Some? then Some(seat.value.id) else None
  }

  /** The red or the blue seat's id is strictly equal to `userId`. */
  predicate Seated(room: Room, userId: Option<string>) {
    SeatId(room.players.red) == userId || SeatId(room.players.blue) == userId
  }

  /** `rooms[i]` holds `userId` and no earlier room does. */
  ghost predicate FirstSeatedAt(rooms: seq<Room>, userId: Option<string>, i: int) {
    && 0 <= i < |rooms|
    && Seated(rooms[i], userId)
    && forall j :: 0 <= j < i ==> !Seated(rooms[j], userId)
  }

  /** The room under the `i`-th key of `gameRooms` holds `userId` and no room under an earlier key does. */
  ghost predicate FirstSeatedKey(gameRooms: Obj<string, Room>, userId: Option<string>, i: int)
    requires gameRooms.Valid()
  {
    && 0 <= i < |gameRooms.order|
    && Seated(gameRooms.entries[gameRooms.order[i]], userId)
    && forall j :: 0 <= j < i ==> !Seated(gameRooms.entries[gameRooms.order[j]], userId)
  }

  /** `Array.prototype.find` over `rooms` with the `Seated` test: the first room holding `userId`. */
  function FindSeated(rooms: seq<Room>, userId: Option<string>): (r: Option<Room>)
    ensures r.None? <==> forall i :: 0 <= i < |rooms| ==> !Seated(rooms[i], userId)
    ensures r.Some? ==> exists i :: FirstSeatedAt(rooms, userId, i) && rooms[i] == r.value
  {
    if |rooms| == 0 then None
    else if Seated(rooms[0], userId) then
      assert FirstSeatedAt(rooms, userId, 0);
      Some(rooms[0])
    else
      var r := FindSeated(rooms[1..], userId);
      assert r.Some? ==> exists i :: FirstSeatedAt(rooms, userId, i) && rooms[i] == r.value by {
        if r.Some? {
          var i :| FirstSeatedAt(rooms[1..], userId, i) && rooms[1..][i] == r.value;
          assert FirstSeatedAt(rooms, userId, i + 1) by {
            forall j | 0 <= j < i + 1 ensures !Seated(rooms[j], userId) {
              if j > 0 { assert rooms[j] == rooms[1..][j - 1]; }
            }
          }
        }
      }
      assert r.None? ==> forall i :: 0 <= i < |rooms| ==> !Seated(rooms[i], userId) by {
        if r.None? {
          forall i | 0 <= i < |rooms| ensures !Seated(rooms[i], userId) {
            if i > 0 { assert rooms[i] == rooms[1..][i - 1]; }
          }
        }
      }
      r
  }

  /**
   `findUserRoom(userId)`: the first room of `gameRooms`, in key order, with
   `userId` in either seat; `None` (for `undefined`) exactly when no room holds the user.
   */
  function FindUserRoom(gameRooms: Obj<string, Room>, userId: Option<string>): (r: Option<Room>)
    requires gameRooms.Valid()
    ensures r.None? <==> forall code :: code in gameRooms.entries ==> !Seated(gameRooms.entries[code], userId)
    ensures r.Some? ==> exists i :: FirstSeatedKey(gameRooms, userId, i) && gameRooms.entries[gameRooms.order[i]] == r.value
  {
    var rooms := Values(gameRooms);
    var r := FindSeated(rooms, userId);
    assert r.None? ==> forall code :: code in gameRooms.entries ==> !Seated(gameRooms.entries[code], userId) by {
      if r.None? {
        forall code | code in gameRooms.entries ensures !Seated(gameRooms.entries[code], userId) {
          var i :| 0 <= i < |rooms| && rooms[i] == gameRooms.entries[code];
        }
      }
    }
    assert r.Some? ==> exists i :: FirstSeatedKey(gameRooms, userId, i) && gameRooms.entries[gameRooms.order[i]] == r.value by {
      if r.Some? {
        var i :| FirstSeatedAt(rooms, userId, i) && rooms[i] == r.value;
        ValuesInOrder(gameRooms, i);
        forall j | 0 <= j < i ensures !Seated(gameRooms.entries[gameRooms.order[j]], userId) {
          ValuesInOrder(gameRooms, j);
        }
        assert FirstSeatedKey(gameRooms, userId, i);
      }
    }
    r
  }
}
