/** The room and user repositories as one in-memory store.

    The store holds the rooms by id; a user lives in the user list of its room,
    so the user lookups (by id, by access code) search the rooms. Reads
    materialise a fresh `Room` entity; UpdateAsync writes a room's state back.
 */
module Repository {
  import opened Errors
  import opened Rooms

  /** True if `u` is a user of the room it names. */
  ghost predicate Stored(rooms: map<nat, RoomRecord>, u: User)
  {
    u.roomId in rooms && u in rooms[u.roomId].users
  }

  /** The constraints the stored rooms always satisfy. */
  ghost predicate Consistent(rooms: map<nat, RoomRecord>)
  {
    && (forall k :: k in rooms ==> rooms[k].id == k)
    && (forall k, u :: k in rooms && u in rooms[k].users ==> u.roomId == k)
    && (forall k :: k in rooms ==> NoDuplicateIds(rooms[k].users))
    && (forall u, v :: Stored(rooms, u) && Stored(rooms, v) && u.id == v.id ==> u == v)
    && (forall u, v :: Stored(rooms, u) && Stored(rooms, v) && u.authCode == v.authCode ==> u == v)
    && (forall k, l :: k in rooms && l in rooms && rooms[k].invitationCode == rooms[l].invitationCode ==> k == l)
  }

  /** The user with id `id`. */
  ghost function FindUserById(rooms: map<nat, RoomRecord>, id: nat): (r: Result<User>)
    ensures r.Success? <==> exists u :: Stored(rooms, u) && u.id == id
    ensures r.Success? ==> Stored(rooms, r.value) && r.value.id == id
    ensures r.Failure? ==> r.error == Error(NotFound, UserIdNotFound)
  {
    if exists u :: Stored(rooms, u) && u.id == id then
      var u :| Stored(rooms, u) && u.id == id; Success(u)
    else
      Failure(Error(NotFound, UserIdNotFound))
  }

  /** The user whose access code is `code`. */
  ghost function FindUserByCode(rooms: map<nat, RoomRecord>, code: string): (r: Result<User>)
    ensures r.Success? <==> exists u :: Stored(rooms, u) && u.authCode == code
    ensures r.Success? ==> Stored(rooms, r.value) && r.value.authCode == code
    ensures r.Failure? ==> r.error == Error(NotFound, UserCodeNotFound)
  {
    if exists u :: Stored(rooms, u) && u.authCode == code then
      var u :| Stored(rooms, u) && u.authCode == code; Success(u)
    else
      Failure(Error(NotFound, UserCodeNotFound))
  }

  /** The room of the user whose access code is `code`. */
  ghost function FindRoomByUserCode(rooms: map<nat, RoomRecord>, code: string): (r: Result<RoomRecord>)
    ensures r.Success? <==> exists u :: Stored(rooms, u) && u.authCode == code
    ensures r.Success? ==> r.value in rooms.Values
    ensures r.Success? ==> exists u :: u in r.value.users && u.authCode == code
    ensures r.Failure? ==> r.error == Error(NotFound, RoomNotFound)
  {
    match FindUserByCode(rooms, code)
    case Success(u) => Success(rooms[u.roomId])
    case Failure(_) => Failure(Error(NotFound, RoomNotFound))
  }

  /** The room whose invitation code is `code`. */
  ghost function FindRoomByInvitation(rooms: map<nat, RoomRecord>, code: string): (r: Result<RoomRecord>)
    ensures r.Success? <==> exists k :: k in rooms && rooms[k].invitationCode == code
    ensures r.Success? ==> r.value in rooms.Values && r.value.invitationCode == code
    ensures r.Failure? ==> r.error == Error(NotFound, RoomNotFound)
  {
    if exists k :: k in rooms && rooms[k].invitationCode == code then
      var k :| k in rooms && rooms[k].invitationCode == code; Success(rooms[k])
    else
      Failure(Error(NotFound, RoomNotFound))
  }

  /** In a consistent store, a room found by invitation code is the one stored under that code. */
  lemma FindRoomByInvitationUnique(rooms: map<nat, RoomRecord>, k: nat)
    requires Consistent(rooms) && k in rooms
    ensures FindRoomByInvitation(rooms, rooms[k].invitationCode) == Success(rooms[k])
  {
    var r := FindRoomByInvitation(rooms, rooms[k].invitationCode);
    var l :| l in rooms && rooms[l] == r.value;
  }

  /** Writing back a stored room with users deleted keeps the store consistent
      and drops the deleted users from it. */
  lemma {:induction false} DeleteKeepsConsistent(rooms: map<nat, RoomRecord>, k: nat, userId: nat)
    requires Consistent(rooms) && k in rooms && rooms[k].closedOn.None?
    ensures var w := rooms[k].DeleteUser(userId).value;
      && Consistent(rooms[k := w])
      && (forall u :: Stored(rooms[k := w], u) <==> Stored(rooms, u) && (u.roomId == k ==> u.id != userId))
  {
    var w := rooms[k].DeleteUser(userId).value;
    var rooms' := rooms[k := w];
    WithoutUserKeepsDistinct(rooms[k].users, userId);
    forall u ensures Stored(rooms', u) <==> Stored(rooms, u) && (u.roomId == k ==> u.id != userId) {
    }
  }

  class Store {
    /** The stored rooms, by id. */
    var rooms: map<nat, RoomRecord>
    /** Every room state UpdateAsync was called with, in call order. */
    ghost var updateLog: seq<RoomRecord>

    ghost predicate Valid()
      reads this
    {
      Consistent(rooms)
    }

    constructor (initial: map<nat, RoomRecord>)
      requires Consistent(initial)
      ensures Valid() && rooms == initial && updateLog == []
    {
      rooms := initial;
      updateLog := [];
    }

    /** Looks up a user by id. */
    method GetByIdAsync(id: nat) returns (r: Result<User>)
      requires Valid()
      ensures r == FindUserById(rooms, id)
    {
      if exists k, u :: k in rooms && u in rooms[k].users && u.id == id {
        var k, u :| k in rooms && u in rooms[k].users && u.id == id;
        assert Stored(rooms, u);
        r := Success(u);
      } else {
        r := Failure(Error(NotFound, UserIdNotFound));
      }
    }

    /** Looks up a user by access code. */
    method GetByCodeAsync(code: string) returns (r: Result<User>)
      requires Valid()
      ensures r == FindUserByCode(rooms, code)
    {
      if exists k, u :: k in rooms && u in rooms[k].users && u.authCode == code {
        var k, u :| k in rooms && u in rooms[k].users && u.authCode == code;
        assert Stored(rooms, u);
        r := Success(u);
      } else {
        r := Failure(Error(NotFound, UserCodeNotFound));
      }
    }

    /** Loads the room of the user whose access code is `code`. */
    method GetByUserCodeAsync(code: string) returns (r: Result<Room>)
      requires Valid()
      ensures FindRoomByUserCode(rooms, code).Failure? ==> r == Failure(FindRoomByUserCode(rooms, code).error)
      ensures FindRoomByUserCode(rooms, code).Success? ==>
        r.Success? && fresh(r.value) && r.value.Snapshot() == FindRoomByUserCode(rooms, code).value
    {
      var user := GetByCodeAsync(code);
      if user.Failure? {
        return Failure(Error(NotFound, RoomNotFound));
      }
      var room := new Room.FromRecord(rooms[user.value.roomId]);
      r := Success(room);
    }

    /** Loads the room whose invitation code is `code`. */
    method GetByRoomCodeAsync(code: string) returns (r: Result<Room>)
      requires Valid()
      ensures FindRoomByInvitation(rooms, code).Failure? ==> r == Failure(FindRoomByInvitation(rooms, code).error)
      ensures FindRoomByInvitation(rooms, code).Success? ==>
        r.Success? && fresh(r.value) && r.value.Snapshot() == FindRoomByInvitation(rooms, code).value
    {
      if exists k :: k in rooms && rooms[k].invitationCode == code {
        var k :| k in rooms && rooms[k].invitationCode == code;
        FindRoomByInvitationUnique(rooms, k);
        var room := new Room.FromRecord(rooms[k]);
        r := Success(room);
      } else {
        r := Failure(Error(NotFound, RoomNotFound));
      }
    }

    /** Writes the state of `room` back, all or nothing: when the database
        answers with `dbFailure`, nothing is written and its message is returned. */
    method UpdateAsync(room: Room, dbFailure: Option<string>) returns (r: Outcome<string>)
      requires Valid() && Consistent(rooms[room.id := room.Snapshot()])
      modifies this
      ensures Valid()
      ensures updateLog == old(updateLog) + [room.Snapshot()]
      ensures dbFailure.Some? ==> r == Fail(dbFailure.value) && rooms == old(rooms)
      ensures dbFailure.None? ==> r == Pass && rooms == old(rooms)[room.id := room.Snapshot()]
    {
      updateLog := updateLog + [room.Snapshot()];
      if dbFailure.Some? {
        return Fail(dbFailure.value);
      }
      rooms := rooms[room.id := room.Snapshot()];
      r := Pass;
    }
  }
}
