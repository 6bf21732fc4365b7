/** The delete-participant command handler.

    An acting user, identified by access code, asks to delete the user
    `userId` from their room. The handler looks both users up, checks that
    the actor is an admin, is not the target and shares the target's room,
    then loads the room, deletes the target from it, writes the room back
    once and returns the room re-read by its invitation code. Every check
    returns early with its own error.
 */
module DeleteUserHandlers {
  import opened Errors
  import opened Rooms
  import opened Repository

  /** A delete request: the actor's access code and the id of the user to delete. */
  datatype DeleteUserRequest = DeleteUserRequest(userCode: string, userId: nat)

  /** The authorisation checks on the target and the actor, in the order the
      handler makes them; `None` when all of them pass. */
  function CheckUsers(target: User, actor: User): (r: Option<Error>)
    ensures r.None? <==> actor.isAdmin && actor.id != target.id && actor.roomId == target.roomId
    ensures !actor.isAdmin ==> r == Some(Error(Forbidden, NotAdmin))
    ensures actor.isAdmin && actor.id == target.id ==> r == Some(Error(BadRequest, SameUser))
    ensures actor.isAdmin && actor.id != target.id && actor.roomId != target.roomId ==>
      r == Some(Error(BadRequest, NotSameRoom))
  {
    if !actor.isAdmin then Some(Error(Forbidden, NotAdmin))
    else if target.id == actor.id then Some(Error(BadRequest, SameUser))
    else if target.roomId != actor.roomId then Some(Error(BadRequest, NotSameRoom))
    else None
  }

  /** What one request does: the result, the stored rooms afterwards and the
      room states passed to UpdateAsync. */
  datatype Trace = Trace(result: Result<RoomRecord>, rooms: map<nat, RoomRecord>, updates: seq<RoomRecord>)

  /** Reference definition of the handler on the stored rooms, check by check
      in the handler's order; `dbFailure` is the database's answer to the update.
      At most one room is written, never one holding the target, and the rooms
      change only by that successful write. */
  ghost function HandleSpec(rooms: map<nat, RoomRecord>, request: DeleteUserRequest, dbFailure: Option<string>): (t: Trace)
    ensures |t.updates| <= 1
    ensures forall w, u :: w in t.updates && u in w.users ==> u.id != request.userId
    ensures t.rooms == rooms || (dbFailure.None? && |t.updates| == 1 && t.rooms == rooms[t.updates[0].id := t.updates[0]])
    ensures t.updates == [] ==> t.rooms == rooms && t.result.Failure?
    ensures dbFailure.Some? && t.updates != [] ==> t.result == Failure(Error(BadRequest, UpdateFailed(dbFailure.value)))
  {
    match FindUserById(rooms, request.userId)
    case Failure(e) => Trace(Failure(e), rooms, [])
    case Success(target) =>
      match FindUserByCode(rooms, request.userCode)
      case Failure(e) => Trace(Failure(e), rooms, [])
      case Success(actor) =>
        match CheckUsers(target, actor)
        case Some(e) => Trace(Failure(e), rooms, [])
        case None =>
          match FindRoomByUserCode(rooms, request.userCode)
          case Failure(e) => Trace(Failure(e), rooms, [])
          case Success(room) =>
            match room.DeleteUser(request.userId)
            case Failure(e) => Trace(Failure(e), rooms, [])
            case Success(deleted) =>
              match dbFailure
              case Some(message) =>
                Trace(Failure(Error(BadRequest, UpdateFailed(message))), rooms, [deleted])
              case None =>
                var rooms' := rooms[deleted.id := deleted];
                Trace(FindRoomByInvitation(rooms', deleted.invitationCode), rooms', [deleted])
  }

  /** The request passes every user check: both users exist, and the actor is
      an admin other than the target in the target's room. */
  ghost predicate Authorised(rooms: map<nat, RoomRecord>, request: DeleteUserRequest)
  {
    && FindUserById(rooms, request.userId).Success?
    && FindUserByCode(rooms, request.userCode).Success?
    && CheckUsers(FindUserById(rooms, request.userId).value, FindUserByCode(rooms, request.userCode).value).None?
  }

  class DeleteUserHandler {
    /** The room and user repositories. */
    const store: Store

    constructor (store: Store)
      ensures this.store == store
    {
      this.store := store;
    }

    /** Handles a delete request; `dbFailure` is the database's answer to the update. */
    method Handle(request: DeleteUserRequest, dbFailure: Option<string>) returns (result: Result<Room>)
      requires store.Valid()
      modifies store
      ensures store.Valid()
      ensures var t := HandleSpec(old(store.rooms), request, dbFailure);
        && store.rooms == t.rooms
        && store.updateLog == old(store.updateLog) + t.updates
        && (t.result.Failure? ==> result == Failure(t.result.error))
        && (t.result.Success? ==> result.Success? && fresh(result.value) && result.value.Snapshot() == t.result.value)
    {
      var userByIdResult := store.GetByIdAsync(request.userId);
      if userByIdResult.Failure? {
        return Failure(userByIdResult.error);
      }

      var userByCodeResult := store.GetByCodeAsync(request.userCode);
      if userByCodeResult.Failure? {
        return Failure(userByCodeResult.error);
      }

      var check := CheckUsers(userByIdResult.value, userByCodeResult.value);
      if check.Some? {
        return Failure(check.value);
      }

      var roomResult := store.GetByUserCodeAsync(request.userCode);
      if roomResult.Failure? {
        return roomResult;
      }
      var room := roomResult.value;
      ghost var loaded := room.Snapshot();

      var deleteResult := room.DeleteUser(request.userId);
      if deleteResult.Failure? {
        return deleteResult;
      }

      DeleteKeepsConsistent(store.rooms, loaded.id, request.userId);
      var updatedResult := store.UpdateAsync(room, dbFailure);
      if updatedResult.Fail? {
        return Failure(Error(BadRequest, UpdateFailed(updatedResult.error)));
      }

      result := store.GetByRoomCodeAsync(room.invitationCode);
    }
  }

  // Properties of the handler, stated on its reference definition.

  /** An unknown target id fails with the id lookup's NotFound; nothing is loaded or written. */
  lemma TargetNotFound(rooms: map<nat, RoomRecord>, request: DeleteUserRequest, dbFailure: Option<string>)
    requires !exists u :: Stored(rooms, u) && u.id == request.userId
    ensures HandleSpec(rooms, request, dbFailure) == Trace(Failure(Error(NotFound, UserIdNotFound)), rooms, [])
  {
  }

  /** A known target with an unknown actor code fails with the code lookup's NotFound. */
  lemma ActorNotFound(rooms: map<nat, RoomRecord>, request: DeleteUserRequest, dbFailure: Option<string>)
    requires exists u :: Stored(rooms, u) && u.id == request.userId
    requires !exists u :: Stored(rooms, u) && u.authCode == request.userCode
    ensures HandleSpec(rooms, request, dbFailure) == Trace(Failure(Error(NotFound, UserCodeNotFound)), rooms, [])
  {
  }

  /** A stored actor who is not an admin is forbidden, whoever the (existing) target is. */
  lemma NonAdminForbidden(rooms: map<nat, RoomRecord>, request: DeleteUserRequest, dbFailure: Option<string>, actor: User)
    requires Consistent(rooms)
    requires exists u :: Stored(rooms, u) && u.id == request.userId
    requires Stored(rooms, actor) && actor.authCode == request.userCode && !actor.isAdmin
    ensures HandleSpec(rooms, request, dbFailure) == Trace(Failure(Error(Forbidden, NotAdmin)), rooms, [])
  {
    assert FindUserByCode(rooms, request.userCode).value == actor;
  }

  /** An admin can never delete themself: naming one's own id fails with SameUser. */
  lemma SelfDeletionRefused(rooms: map<nat, RoomRecord>, request: DeleteUserRequest, dbFailure: Option<string>, admin: User)
    requires Consistent(rooms)
    requires Stored(rooms, admin) && admin.authCode == request.userCode && admin.isAdmin
    requires request.userId == admin.id
    ensures HandleSpec(rooms, request, dbFailure) == Trace(Failure(Error(BadRequest, SameUser)), rooms, [])
  {
    assert FindUserById(rooms, request.userId).value == admin;
    assert FindUserByCode(rooms, request.userCode).value == admin;
  }

  /** An admin of another room cannot delete the target: NotSameRoom. */
  lemma CrossRoomRefused(rooms: map<nat, RoomRecord>, request: DeleteUserRequest, dbFailure: Option<string>,
                         target: User, admin: User)
    requires Consistent(rooms)
    requires Stored(rooms, target) && target.id == request.userId
    requires Stored(rooms, admin) && admin.authCode == request.userCode && admin.isAdmin
    requires admin.id != target.id && admin.roomId != target.roomId
    ensures HandleSpec(rooms, request, dbFailure) == Trace(Failure(Error(BadRequest, NotSameRoom)), rooms, [])
  {
    assert FindUserById(rooms, request.userId).value == target;
    assert FindUserByCode(rooms, request.userCode).value == admin;
  }

  /** When every user check passes, the room loaded is the target's own room. */
  lemma AuthorisedLoadsTargetRoom(rooms: map<nat, RoomRecord>, request: DeleteUserRequest)
    requires Consistent(rooms) && Authorised(rooms, request)
    ensures var target := FindUserById(rooms, request.userId).value;
      FindRoomByUserCode(rooms, request.userCode) == Success(rooms[target.roomId])
  {
  }

  /** A closed room refuses the deletion with RoomClosed and is never written. */
  lemma ClosedRoomRefused(rooms: map<nat, RoomRecord>, request: DeleteUserRequest, dbFailure: Option<string>)
    requires Consistent(rooms) && Authorised(rooms, request)
    requires rooms[FindUserById(rooms, request.userId).value.roomId].closedOn.Some?
    ensures HandleSpec(rooms, request, dbFailure) == Trace(Failure(Error(BadRequest, RoomClosed)), rooms, [])
  {
    AuthorisedLoadsTargetRoom(rooms, request);
  }

  /** A failed update surfaces as BadRequest with the update's message and leaves the rooms as they were. */
  lemma UpdateFailureSurfaced(rooms: map<nat, RoomRecord>, request: DeleteUserRequest, message: string)
    requires Consistent(rooms) && Authorised(rooms, request)
    requires rooms[FindUserById(rooms, request.userId).value.roomId].closedOn.None?
    ensures var t := HandleSpec(rooms, request, Some(message));
      t.result == Failure(Error(BadRequest, UpdateFailed(message))) && t.rooms == rooms && |t.updates| == 1
  {
    AuthorisedLoadsTargetRoom(rooms, request);
  }

  /** The handler succeeds exactly when every check passes, the room is open and
      the update goes through. */
  lemma {:induction false} SuccessIff(rooms: map<nat, RoomRecord>, request: DeleteUserRequest, dbFailure: Option<string>)
    requires Consistent(rooms)
    ensures HandleSpec(rooms, request, dbFailure).result.Success? <==>
      && Authorised(rooms, request)
      && rooms[FindUserById(rooms, request.userId).value.roomId].closedOn.None?
      && dbFailure.None?
  {
    if Authorised(rooms, request) {
      AuthorisedLoadsTargetRoom(rooms, request);
      var k := FindUserById(rooms, request.userId).value.roomId;
      if rooms[k].closedOn.None? && dbFailure.None? {
        var w := rooms[k].DeleteUser(request.userId).value;
        DeleteKeepsConsistent(rooms, k, request.userId);
        FindRoomByInvitationUnique(rooms[k := w], k);
      }
    }
  }

  /** Atomicity: a failing request leaves the stored rooms unchanged, and only a
      request that passed every check and found the room open reached UpdateAsync. */
  lemma {:induction false} FailureLeavesRoomsUnchanged(rooms: map<nat, RoomRecord>, request: DeleteUserRequest,
                                                     dbFailure: Option<string>)
    requires Consistent(rooms)
    ensures var t := HandleSpec(rooms, request, dbFailure);
      && (t.result.Failure? ==> t.rooms == rooms)
      && (t.updates != [] <==>
            Authorised(rooms, request) && rooms[FindUserById(rooms, request.userId).value.roomId].closedOn.None?)
  {
    SuccessIff(rooms, request, dbFailure);
    if Authorised(rooms, request) {
      AuthorisedLoadsTargetRoom(rooms, request);
    }
  }

  /** On success UpdateAsync was called exactly once, with the target's room
      minus the target (exactly one user fewer); the result is that room as
      re-read, and the target is no longer in the store. */
  lemma {:induction false} SuccessDeletesTarget(rooms: map<nat, RoomRecord>, request: DeleteUserRequest,
                                              dbFailure: Option<string>)
    requires Consistent(rooms)
    requires HandleSpec(rooms, request, dbFailure).result.Success?
    ensures var t := HandleSpec(rooms, request, dbFailure);
      var target := FindUserById(rooms, request.userId).value;
      && |t.updates| == 1
      && t.result.value == t.updates[0]
      && t.rooms == rooms[target.roomId := t.updates[0]]
      && t.updates[0].id == target.roomId
      && t.updates[0].invitationCode == rooms[target.roomId].invitationCode
      && (forall u :: u in t.updates[0].users ==> u.id != request.userId)
      && (forall u :: u in t.updates[0].users <==> u in rooms[target.roomId].users && u != target)
      && |t.updates[0].users| == |rooms[target.roomId].users| - 1
      && !(exists u :: Stored(t.rooms, u) && u.id == request.userId)
      && Consistent(t.rooms)
  {
    SuccessIff(rooms, request, dbFailure);
    AuthorisedLoadsTargetRoom(rooms, request);
    var target := FindUserById(rooms, request.userId).value;
    var k := target.roomId;
    var w := rooms[k].DeleteUser(request.userId).value;
    DeleteKeepsConsistent(rooms, k, request.userId);
    FindRoomByInvitationUnique(rooms[k := w], k);
    WithoutUserRemovesOne(rooms[k].users, request.userId);
  }

  /** Every request keeps the store consistent. */
  lemma {:induction false} HandleKeepsConsistent(rooms: map<nat, RoomRecord>, request: DeleteUserRequest,
                                               dbFailure: Option<string>)
    requires Consistent(rooms)
    ensures Consistent(HandleSpec(rooms, request, dbFailure).rooms)
  {
    var t := HandleSpec(rooms, request, dbFailure);
    if t.result.Success? {
      SuccessDeletesTarget(rooms, request, dbFailure);
    } else {
      FailureLeavesRoomsUnchanged(rooms, request, dbFailure);
    }
  }
}
