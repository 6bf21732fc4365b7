/** The two scenarios of the handler's unit tests that reach the room: a
    non-admin user 1 and an admin user 2 share room 10. */
module DeleteUserScenarios {
  import opened Errors
  import opened Rooms
  import opened Repository
  import opened DeleteUserHandlers

  const Target := User(1, "target-code", false, 10)
  const Admin := User(2, "admin-code", true, 10)
  const Invitation := "d275c851c4624f11b7252ffd8b0e1dab"

  function RoomWith(users: seq<User>, closedOn: Option<int>): RoomRecord
  {
    RoomRecord(10, Invitation, users, closedOn)
  }

  lemma ScenarioConsistent(closedOn: Option<int>)
    ensures Consistent(map[10 := RoomWith([Target, Admin], closedOn)])
  {
    var rooms := map[10 := RoomWith([Target, Admin], closedOn)];
    forall u | Stored(rooms, u) ensures u == Target || u == Admin {
    }
  }

  /** The open room: the admin deletes user 1, UpdateAsync sees a room without
      user 1, and the room re-read holds the admin alone. */
  lemma {:induction false} AdminDeletesParticipant()
    ensures var rooms := map[10 := RoomWith([Target, Admin], None)];
      var after := RoomWith([Admin], None);
      HandleSpec(rooms, DeleteUserRequest("admin-code", 1), None) == Trace(Success(after), map[10 := after], [after])
  {
    var rooms := map[10 := RoomWith([Target, Admin], None)];
    ScenarioConsistent(None);
    assert Stored(rooms, Target) && Stored(rooms, Admin);
    assert FindUserById(rooms, 1).value == Target;
    assert FindUserByCode(rooms, "admin-code").value == Admin;
    assert WithoutUser([Target, Admin], 1) == [Admin] by {
      assert [Target, Admin][1..] == [Admin];
      assert WithoutUser([Admin], 1) == [Admin] by { WithoutAbsentUser([Admin], 1); }
    }
    FindRoomByInvitationUnique(map[10 := RoomWith([Admin], None)], 10) by {
      var after := map[10 := RoomWith([Admin], None)];
      forall u | Stored(after, u) ensures u == Admin {
      }
    }
  }

  /** The closed room: the same request fails with RoomClosed and nothing is written. */
  lemma ClosedRoomScenario(closedOn: int)
    ensures var rooms := map[10 := RoomWith([Target, Admin], Some(closedOn))];
      HandleSpec(rooms, DeleteUserRequest("admin-code", 1), None) ==
        Trace(Failure(Error(BadRequest, RoomClosed)), rooms, [])
  {
    var rooms := map[10 := RoomWith([Target, Admin], Some(closedOn))];
    ScenarioConsistent(Some(closedOn));
    assert Stored(rooms, Target) && Stored(rooms, Admin);
    assert FindUserById(rooms, 1).value == Target;
    assert FindUserByCode(rooms, "admin-code").value == Admin;
  }
}
