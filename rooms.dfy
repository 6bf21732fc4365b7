/** Participants and rooms.

    A user is a room member with an id, a per-user access code, an admin flag
    and the id of its room. A room has an id, an invitation code, its list of
    users and an optional closing time. `RoomRecord` is a room as stored;
    `Room` is the entity a repository materialises, whose user list
    DeleteUser changes in place.
 */
module Rooms {
  import opened Errors

  datatype User = User(id: nat, authCode: string, isAdmin: bool, roomId: nat)

  /** A room; `closedOn` is the closing time in ticks, `None` while open. */
  datatype RoomRecord = RoomRecord(id: nat, invitationCode: string, users: seq<User>, closedOn: Option<int>)
  {
    /** The room with the user `userId` deleted, unless the room is closed. */
    function DeleteUser(userId: nat): (r: Result<RoomRecord>)
      ensures closedOn.Some? ==> r == Failure(Error(BadRequest, RoomClosed))
      ensures closedOn.None? ==> r.Success?
      ensures r.Success? ==>
        && r.value.id == id
        && r.value.invitationCode == invitationCode
        && r.value.closedOn == closedOn
        && (forall u :: u in r.value.users <==> u in users && u.id != userId)
    {
      if closedOn.Some? then Failure(Error(BadRequest, RoomClosed))
      else Success(this.(users := WithoutUser(users, userId)))
    }
  }

  /** True if no two entries of `users` share an id. */
  ghost predicate NoDuplicateIds(users: seq<User>)
  {
    forall i, j :: 0 <= i < j < |users| ==> users[i].id != users[j].id
  }

  /** `users` in their order, without the entries whose id is `id`. */
  function WithoutUser(users: seq<User>, id: nat): (r: seq<User>)
    ensures forall u :: u in r <==> u in users && u.id != id
    ensures |r| <= |users|
  {
    if users == [] then []
    else if users[0].id == id then WithoutUser(users[1..], id)
    else [users[0]] + WithoutUser(users[1..], id)
  }

  /** Deleting an id nobody has changes nothing. */
  lemma {:induction false} WithoutAbsentUser(users: seq<User>, id: nat)
    requires forall u :: u in users ==> u.id != id
    ensures WithoutUser(users, id) == users
  {
    if users != [] {
      assert users[0] in users;
      WithoutAbsentUser(users[1..], id);
      assert users == [users[0]] + users[1..];
    }
  }

  /** Deleting keeps the ids of a room distinct. */
  lemma {:induction false} WithoutUserKeepsDistinct(users: seq<User>, id: nat)
    requires NoDuplicateIds(users)
    ensures NoDuplicateIds(WithoutUser(users, id))
  {
    if users != [] {
      var tail := users[1..];
      assert NoDuplicateIds(tail) by {
        forall i, j | 0 <= i < j < |tail| ensures tail[i].id != tail[j].id {
          assert tail[i] == users[i + 1] && tail[j] == users[j + 1];
        }
      }
      WithoutUserKeepsDistinct(tail, id);
      if users[0].id != id {
        var rest := WithoutUser(tail, id);
        var r := [users[0]] + rest;
        forall i, j | 0 <= i < j < |r| ensures r[i].id != r[j].id {
          if i == 0 {
            assert r[j] == rest[j - 1] && rest[j - 1] in tail;
            var m :| 0 <= m < |tail| && tail[m] == rest[j - 1];
            assert tail[m] == users[m + 1];
          } else {
            assert r[i] == rest[i - 1] && r[j] == rest[j - 1];
          }
        }
      }
    }
  }

  /** In a room whose ids are distinct, deleting a present id removes exactly one entry. */
  lemma {:induction false} WithoutUserRemovesOne(users: seq<User>, id: nat)
    requires NoDuplicateIds(users)
    requires exists u :: u in users && u.id == id
    ensures |WithoutUser(users, id)| == |users| - 1
  {
    var tail := users[1..];
    assert NoDuplicateIds(tail) by {
      forall i, j | 0 <= i < j < |tail| ensures tail[i].id != tail[j].id {
        assert tail[i] == users[i + 1] && tail[j] == users[j + 1];
      }
    }
    if users[0].id == id {
      forall u | u in tail ensures u.id != id {
        var m :| 0 <= m < |tail| && tail[m] == u;
        assert tail[m] == users[m + 1];
      }
      WithoutAbsentUser(tail, id);
    } else {
      var u :| u in users && u.id == id;
      assert u in tail by { assert users == [users[0]] + tail; }
      WithoutUserRemovesOne(tail, id);
    }
  }

  /** A room entity loaded from the store; DeleteUser changes its users in place. */
  class Room {
    const id: nat
    const invitationCode: string
    var users: seq<User>
    var closedOn: Option<int>

    /** The room's current state as a stored row. */
    function Snapshot(): (s: RoomRecord)
      reads this
      ensures s.id == id && s.invitationCode == invitationCode
    {
      RoomRecord(id, invitationCode, users, closedOn)
    }

    /** Materialises the stored row `rec`. */
    constructor FromRecord(rec: RoomRecord)
      ensures Snapshot() == rec
    {
      id := rec.id;
      invitationCode := rec.invitationCode;
      users := rec.users;
      closedOn := rec.closedOn;
    }

    /** Deletes the user `userId`; a closed room refuses and stays as it was. */
    method DeleteUser(userId: nat) returns (r: Result<Room>)
      modifies this
      ensures old(Snapshot()).DeleteUser(userId).Failure? ==>
        r == Failure(old(Snapshot()).DeleteUser(userId).error) && Snapshot() == old(Snapshot())
      ensures old(Snapshot()).DeleteUser(userId).Success? ==>
        r == Success(this) && Snapshot() == old(Snapshot()).DeleteUser(userId).value
    {
      if closedOn.Some? {
        return Failure(Error(BadRequest, RoomClosed));
      }
      users := WithoutUser(users, userId);
      r := Success(this);
    }
  }
}
