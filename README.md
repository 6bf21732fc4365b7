# Delete-participant handler of a gift-exchange room service

This project models the command handler that deletes a participant from a
gift-exchange ("Secret Santa") room, and proves what it does.
The acting participant is identified by an access code. The target
participant is identified by id. The handler makes five checks, each with
an early return and its own error:

1. the target exists;
2. the actor exists;
3. the actor is an admin (`Forbidden` otherwise);
4. the actor is not the target (`BadRequest`);
5. both are in the same room (`BadRequest`).

Then it loads the actor's room and asks the room to delete the target. A
closed room refuses with `BadRequest` "Room is already closed.". The
handler then writes the room back once. A failed write becomes
`BadRequest` with the write's message. Finally it returns the room re-read
by its invitation code.

Files:

- `errors.dfy` (module `Errors`): `Option`, `Result` and `Outcome`. An
  error is a kind (`NotFound`, `Forbidden`, `BadRequest`) plus a reason
  tag, one per message.
- `rooms.dfy` (module `Rooms`): users, stored rooms (`RoomRecord`), the
  room's delete contract (`RoomRecord.DeleteUser`) and the `Room` entity.
  The entity's `DeleteUser` changes its user list in place.
- `store.dfy` (module `Repository`): the room and user repositories as one
  in-memory store, `Store`. It holds `rooms: map<nat, RoomRecord>`; a user
  lives in the user list of its room. `Consistent` states the store's
  constraints:
  - each room is stored under its own id;
  - each user's room id is the room that lists it;
  - user ids and access codes are unique across the store;
  - invitation codes are unique;
  - no id appears twice in one room.

  The ghost functions `Find…` are the reference definitions of the lookups.
  The store's methods are proved equal to them. A ghost `updateLog`
  records every room passed to `UpdateAsync`.
- `handler.dfy` (module `DeleteUserHandlers`):
  - `CheckUsers`, the check chain;
  - `HandleSpec`, the handler's reference definition on the stored rooms;
  - the class `DeleteUserHandler`, whose method `Handle` is proved to
    follow `HandleSpec`;
  - one lemma per property of the handler.
- `scenarios.dfy` (module `DeleteUserScenarios`): the two unit-test
  scenarios that reach the room (success, closed room), proved on
  concrete data.

## Model

| member | source | states |
|---|---|---|
| `Rooms.RoomRecord.DeleteUser` | backend/ApiService/Tests/Application.Tests/UserCases/Commands/DeleteUserHandlerTests.cs:203-243 | a closed room fails with BadRequest RoomClosed; an open room succeeds, keeps its id, invitation code and closing time, and keeps exactly the users whose id differs from the deleted one |
| `Rooms.WithoutUser` | backend/ApiService/Tests/Application.Tests/UserCases/Commands/DeleteUserHandlerTests.cs:296-299 | the result holds exactly the users of the input whose id is not the deleted id, and is no longer than the input |
| `Rooms.WithoutAbsentUser` | backend/ApiService/Tests/Application.Tests/UserCases/Commands/DeleteUserHandlerTests.cs:296-299 | deleting an id that no user has leaves the user list unchanged |
| `Rooms.WithoutUserKeepsDistinct` | backend/ApiService/Tests/Application.Tests/UserCases/Commands/DeleteUserHandlerTests.cs:296-299 | deleting keeps the ids of a room pairwise distinct |
| `Rooms.WithoutUserRemovesOne` | backend/ApiService/Tests/Application.Tests/UserCases/Commands/DeleteUserHandlerTests.cs:262-270 | in a room with distinct ids, deleting an id that is present removes exactly one user |
| `Rooms.Room.DeleteUser` | backend/ApiService/Source/Application/UseCases/User/Handlers/DeleteUserHandler.cs:69-73 | in place: the entity's new state is the room contract's result, or on failure the error is returned and the entity is unchanged |
| `Repository.FindUserById` | backend/ApiService/Source/Application/UseCases/User/Handlers/DeleteUserHandler.cs:25-29 | succeeds exactly when a stored user has the id, with that user; otherwise NotFound UserIdNotFound |
| `Repository.FindUserByCode` | backend/ApiService/Source/Application/UseCases/User/Handlers/DeleteUserHandler.cs:31-36 | succeeds exactly when a stored user has the access code, with that user; otherwise NotFound UserCodeNotFound |
| `Repository.FindRoomByUserCode` | backend/ApiService/Source/Application/UseCases/User/Handlers/DeleteUserHandler.cs:61-65 | succeeds exactly when a stored user has the code, with a stored room that lists a user with that code; otherwise NotFound RoomNotFound |
| `Repository.FindRoomByInvitation` | backend/ApiService/Source/Application/UseCases/User/Handlers/DeleteUserHandler.cs:83-84 | succeeds exactly when a stored room has the invitation code, with such a room; otherwise NotFound RoomNotFound |
| `Repository.FindRoomByInvitationUnique` | backend/ApiService/Source/Application/UseCases/User/Handlers/DeleteUserHandler.cs:83-84 | in a consistent store, looking up a stored room's invitation code finds that very room |
| `Repository.DeleteKeepsConsistent` | backend/ApiService/Source/Application/UseCases/User/Handlers/DeleteUserHandler.cs:69-75 | writing back an open stored room with a user deleted keeps the store consistent; afterwards a user is stored exactly when it was before and is not the deleted id of that room |
| `Repository.Store.GetByIdAsync` | backend/ApiService/Source/Application/UseCases/User/Handlers/DeleteUserHandler.cs:25 | the search over the rooms returns what `FindUserById` defines |
| `Repository.Store.GetByCodeAsync` | backend/ApiService/Source/Application/UseCases/User/Handlers/DeleteUserHandler.cs:31-32 | the search over the rooms returns what `FindUserByCode` defines |
| `Repository.Store.GetByUserCodeAsync` | backend/ApiService/Source/Application/UseCases/User/Handlers/DeleteUserHandler.cs:61 | returns the lookup's error, or a fresh room entity whose state is the room `FindRoomByUserCode` defines |
| `Repository.Store.GetByRoomCodeAsync` | backend/ApiService/Source/Application/UseCases/User/Handlers/DeleteUserHandler.cs:83 | returns the lookup's error, or a fresh room entity whose state is the room `FindRoomByInvitation` defines |
| `Repository.Store.UpdateAsync` | backend/ApiService/Source/Application/UseCases/User/Handlers/DeleteUserHandler.cs:75-81 | records the call; a database failure returns its message and writes nothing; otherwise the room's state replaces the stored row under its id; the store stays consistent |
| `DeleteUserHandlers.CheckUsers` | backend/ApiService/Source/Application/UseCases/User/Handlers/DeleteUserHandler.cs:38-59 | passes exactly when the actor is an admin, is not the target and shares the target's room; a non-admin gets Forbidden NotAdmin whatever the target; an admin targeting themself gets BadRequest SameUser; an admin of another room gets BadRequest NotSameRoom |
| `DeleteUserHandlers.HandleSpec` | backend/ApiService/Source/Application/UseCases/User/Handlers/DeleteUserHandler.cs:22-85 | reference definition: branch by branch, in the handler's order of checks (target by id, actor by code, admin, same user, same room, room by code, room delete, update, re-read), it defines the result, the stored rooms afterwards and the rooms passed to UpdateAsync; its contract states that at most one room is written, that no written room holds a user with the target id, that the rooms change only by that one write when the database accepts it, that without a write the result is a failure and the rooms are unchanged, and that a refused write gives BadRequest with the database's message |
| `DeleteUserHandlers.DeleteUserHandler.Handle` | backend/ApiService/Source/Application/UseCases/User/Handlers/DeleteUserHandler.cs:22-85 | the result, the new stored rooms and the rooms passed to UpdateAsync are those of `HandleSpec`; the store stays consistent; a success returns a fresh entity holding the re-read room |
| `DeleteUserHandlers.TargetNotFound` | backend/ApiService/Source/Application/UseCases/User/Handlers/DeleteUserHandler.cs:25-29 | with no user of the requested id, the result is NotFound UserIdNotFound, the rooms are unchanged and no update is made |
| `DeleteUserHandlers.ActorNotFound` | backend/ApiService/Source/Application/UseCases/User/Handlers/DeleteUserHandler.cs:31-36 | with the target present but no user of the requested code, the result is NotFound UserCodeNotFound, nothing changes and no update is made |
| `DeleteUserHandlers.NonAdminForbidden` | backend/ApiService/Source/Application/UseCases/User/Handlers/DeleteUserHandler.cs:38-44 | an existing non-admin actor gets Forbidden NotAdmin for any existing target, before the same-user and same-room checks; nothing changes |
| `DeleteUserHandlers.SelfDeletionRefused` | backend/ApiService/Source/Application/UseCases/User/Handlers/DeleteUserHandler.cs:46-52 | an admin naming their own id gets BadRequest SameUser; nothing changes, so an admin never deletes themself |
| `DeleteUserHandlers.CrossRoomRefused` | backend/ApiService/Source/Application/UseCases/User/Handlers/DeleteUserHandler.cs:54-59 | an admin of a different room than the target gets BadRequest NotSameRoom; nothing changes |
| `DeleteUserHandlers.AuthorisedLoadsTargetRoom` | backend/ApiService/Source/Application/UseCases/User/Handlers/DeleteUserHandler.cs:61-67 | once the user checks pass, the room loaded by the actor's code is the target's own stored room |
| `DeleteUserHandlers.ClosedRoomRefused` | backend/ApiService/Source/Application/UseCases/User/Handlers/DeleteUserHandler.cs:69-73 | once the user checks pass, a closed room gives BadRequest RoomClosed and UpdateAsync is never called |
| `DeleteUserHandlers.UpdateFailureSurfaced` | backend/ApiService/Source/Application/UseCases/User/Handlers/DeleteUserHandler.cs:75-81 | a failed update gives BadRequest carrying the update's message, after exactly one update call, with the rooms unchanged |
| `DeleteUserHandlers.SuccessIff` | backend/ApiService/Source/Application/UseCases/User/Handlers/DeleteUserHandler.cs:25-84 | the handler succeeds if and only if both users exist, every user check passes, the room is open and the update goes through |
| `DeleteUserHandlers.FailureLeavesRoomsUnchanged` | backend/ApiService/Source/Application/UseCases/User/Handlers/DeleteUserHandler.cs:26-81 | every failure leaves the stored rooms unchanged; UpdateAsync is reached if and only if the user checks passed and the room is open |
| `DeleteUserHandlers.SuccessDeletesTarget` | backend/ApiService/Source/Application/UseCases/User/Handlers/DeleteUserHandler.cs:61-84 | on success UpdateAsync was called exactly once, with the target's room minus the target (one user fewer, same id and invitation code, no user with the target id); the result is that room as re-read; the target is no longer in the store, which stays consistent |
| `DeleteUserHandlers.HandleKeepsConsistent` | backend/ApiService/Source/Application/UseCases/User/Handlers/DeleteUserHandler.cs:61-84 | every request leaves a consistent store consistent |
| `DeleteUserScenarios.ScenarioConsistent` | backend/ApiService/Tests/Application.Tests/UserCases/Commands/DeleteUserHandlerTests.cs:216-218 | the store with room 10 holding users 1 and 2 is consistent |
| `DeleteUserScenarios.AdminDeletesParticipant` | backend/ApiService/Tests/Application.Tests/UserCases/Commands/DeleteUserHandlerTests.cs:249-300 | admin 2 deleting user 1 from open room 10 succeeds; UpdateAsync is called once, with the room holding only the admin; the result is that room as re-read |
| `DeleteUserScenarios.ClosedRoomScenario` | backend/ApiService/Tests/Application.Tests/UserCases/Commands/DeleteUserHandlerTests.cs:203-243 | the same request on the closed room fails with BadRequest RoomClosed and makes no update |

## Left out

- Asynchrony, `CancellationToken` and the MediatR request pipeline: `Handle` is a synchronous method.
- The real database behind the repositories: the repositories are one in-memory store. Reads always answer from it. A read that fails for a database reason is not modelled.
- Database failure of `UpdateAsync`: its cause is outside the handler. It is the parameter `dbFailure` of `Handle`, and `UpdateAsync` is all or nothing.
- Repository.Store.UpdateAsync: requires that the written room keeps the store's constraints. The handler's write always does (`DeleteKeepsConsistent`). A write the database would reject for breaking them is not modelled.
- Optimistic concurrency between requests: requests run one after another on the store.
- The internals of `Room.DeleteUser`: their source is not part of this model. Only the behaviour the handler's tests pin down is modelled: a closed room refuses, an open room drops the user with the id.
- The room's draw and its other operations: their code is not part of this model.
- Any room state other than a set or unset closing time is unknown here: the handler only passes the room's refusal through, and its tests show a closed room refusing and an open room accepting; the model refuses only a closed room.
- A store in which two users share an access code: the lookup by code returns one user, so the model takes the code to identify that user across the whole store. The lookup of the actor and the load of the room by the same code then agree on the actor's room.
- Message texts: each failure is a kind plus a reason tag. The repository errors' texts are not part of this model. A `ValidationResult` holding several failures is one error.
- Identifier width: ids are unbounded `nat`s where the source has 64-bit unsigned integers. They are only compared for equality.
- The closing time is an integer tick count. Only whether it is set matters.
- The `includeRoom` flag of the lookup by code: it only controls eager loading.
- The gift-idea handler, its endpoint and DTOs: they only forward a request to an external text-generation service.
- Web application wiring, browser test hooks and the React/Angular participant card and delete modal: they are rendering and plumbing. The card hides the delete button for admins, but the handler never checks the target's admin flag, and neither does the model.
