# Tennis club reservations, modelled in Dafny

This project models the core of a tennis-club booking service. Members book
courts for half-open time intervals `[start, end)`. Each court has a surface
type whose per-minute rate prices the booking. Members and courts are looked up
in soft-delete stores, and sessions are kept alive with refresh tokens.

The model is made of these parts:

- **Tables.** Each repository (`SurfaceTypeRepository`, `CourtRepository`,
  `UserRepository`, `ReservationRepository`, `RefreshTokenRepository`) is a
  class whose table is a `seq` field, plus the next identity value. `save`,
  `update`, `softDelete` and the bulk deletes are `modifies this` methods. The
  `find*` queries are functions that read the table.
- **Soft deletion.** A row stays in its table for good. Deletion only sets its
  `deleted` flag, and the default lookups skip flagged rows. The one exception
  is the username lookup on users, which does not filter them.
- **Services.** Each service is a class holding references to the
  repositories and services it uses. A call that throws in the source returns
  `Err` with the exception as a value: `ResponseStatusException(status,
  reason)`, `AccessDeniedException(message)`, or a unique-column violation
  from the database. A call that returns normally gives `Ok`.
- **Caller and environment as parameters.** The caller (`Authentication`), the
  current instant, the password encoder, freshly minted token strings, the
  doubles multiplier and the refresh-token lifetime are all passed in. The
  source reads these from the security context, the clock, JJWT and the
  configuration.
- **Values and references.** Entities are datatypes. A court refers to its
  surface type by id, and a reservation refers to its court by id, as their
  `@ManyToOne` foreign keys do. Each read joins them to the row the table holds
  now, so a new rate reaches every court on that surface and every later
  price. A reservation holds its user as a value, because no modelled
  operation changes a saved user. Times are integer seconds. Prices are
  `real`.

The headline property is this. On every court, the non-deleted reservations
are pairwise non-overlapping, written `Reservations.NonOverlapping`. It is part
of `Booking.ReservationService.Valid()`. `create`, `createForUser`, `update`
and `softDelete` are each proved to keep it.

Points where the code says something other than one might expect, modelled as
the code has it:

- `update` of a reservation never checks that start precedes end
  (`ReservationService.java` lines 143-175). `create` and `createForUser` do
  (lines 117-121 and 242-245). A stored `start < end` is therefore not an
  invariant; non-overlap still is.
- There is no "past reservation" guard on update or delete, even though the
  tests expect one (`ReservationServiceTest.java` lines 540-559, 596-613).
- Ownership is by username equality. An administrator is not exempt.
- The service calls `courtService.findCourtEntityByIdOrThrow`, which is
  modelled as `CourtService.findByIdOrThrow`.
- `userWithUsernameExist` and `userWithPhoneNumberExist` are not declared in
  `UserService.java`. They are modelled as predicates over the whole user
  table, deleted rows included: `Users.UserService.UserWith*Exists`.
- The request record's `phoneNumber` component is never used by the service
  and is not carried.
- `ReservationResponseDto` does not declare that it implements
  `ReservationView`. It is modelled as the view's full shape, as the mappers
  use it.
- `TokenResponseDto.java` is not part of this model. Its two components are
  taken from the constructor calls in `AuthService.java`.

Files:

- `common.dfy`: `Option` and the unsaved id.
- `errors.dfy`: HTTP statuses, the error values, `Result`, and the id as
  string concatenation renders it.
- `entity_finder.dfy`: EntityFinder.
- `surface_types.dfy`, `courts.dfy`, `users.dfy`: the catalog and user stores
  with their services.
- `reservations.dfy`: the reservation entity, its queries, the non-overlap
  invariant and the repository.
- `reservation_validator.dfy`: ReservationValidator.
- `booking.dfy`: ReservationService.
- `refresh_tokens.dfy`: the token table and RefreshTokenService.
- `auth.dfy`: AuthService without login.

## Model

Source paths are relative to the repository root.

| member | source | states |
|---|---|---|
| EntityFinder.FindByIdOrThrow | src/main/java/com/example/tennisclub/exception/EntityFinder.java:12-16 | a present value comes back unchanged, without inspection, iff the option is present; an absent one fails NOT_FOUND "<entityName> with ID <id> not found" |
| SurfaceTypes.CountActiveIsActiveLength | src/main/java/com/example/tennisclub/surfaceType/SurfaceTypeRepository.java:44-47 | the `COUNT ... WHERE deleted = false` tally equals the length of the non-deleted listing |
| SurfaceTypes.MarkDeletedKeepsRows | src/main/java/com/example/tennisclub/surfaceType/SurfaceTypeRepository.java:36-42 | soft deletion keeps every row and id in place, flags the target, and only removes it from the live listing |
| SurfaceTypes.FindsTheRow | src/main/java/com/example/tennisclub/surfaceType/SurfaceTypeRepository.java:22-25 | with unique ids, looking up a row's id returns that very row |
| SurfaceTypes.SameIdsKeepIds | src/main/java/com/example/tennisclub/surfaceType/SurfaceTypeRepository.java:27-42 | a write that keeps every row's id in place, appending or not, leaves every old id resolving |
| SurfaceTypes.SurfaceTypeRepository.FindAll | src/main/java/com/example/tennisclub/surfaceType/SurfaceTypeRepository.java:17-20 | exactly the non-deleted surface types |
| SurfaceTypes.SurfaceTypeRepository.FindById | src/main/java/com/example/tennisclub/surfaceType/SurfaceTypeRepository.java:22-25 | present iff a row with the id exists and is not deleted, and then it is that row |
| SurfaceTypes.SurfaceTypeRepository.Count | src/main/java/com/example/tennisclub/surfaceType/SurfaceTypeRepository.java:44-47 | the number of non-deleted surface types |
| SurfaceTypes.SurfaceTypeRepository.Save | src/main/java/com/example/tennisclub/surfaceType/SurfaceTypeRepository.java:27-30 | the argument is appended under a fresh id and returned |
| SurfaceTypes.SurfaceTypeRepository.Update | src/main/java/com/example/tennisclub/surfaceType/SurfaceTypeRepository.java:32-34 | the row with the same id is replaced; the argument is returned |
| SurfaceTypes.SurfaceTypeRepository.SoftDelete | src/main/java/com/example/tennisclub/surfaceType/SurfaceTypeRepository.java:36-42 | false with nothing changed when the row is absent or already deleted; otherwise only that row is flagged deleted and true is returned |
| SurfaceTypes.SurfaceTypeService.FindByIdOrThrow | src/main/java/com/example/tennisclub/surfaceType/SurfaceTypeService.java:23-26 | the non-deleted surface type, or NOT_FOUND "SurfaceType with ID <id> not found" |
| SurfaceTypes.SurfaceTypeService.GetAll | src/main/java/com/example/tennisclub/surfaceType/SurfaceTypeService.java:36-38 | the projection of every row of findAll, same length and order |
| SurfaceTypes.SurfaceTypeService.Save | src/main/java/com/example/tennisclub/surfaceType/SurfaceTypeService.java:47-50 | what the repository saved |
| SurfaceTypes.SurfaceTypeService.Create | src/main/java/com/example/tennisclub/surfaceType/SurfaceTypeService.java:40-45 | a live surface type with the dto's name and price is saved under a fresh id and returned projected |
| SurfaceTypes.SurfaceTypeService.Update | src/main/java/com/example/tennisclub/surfaceType/SurfaceTypeService.java:52-62 | a missing or deleted id fails NOT_FOUND with no write; otherwise name and price are set, id and deleted kept, the row replaced and its projection returned; every id still resolves, so courts on it read the new rate |
| SurfaceTypes.SurfaceTypeService.SoftDelete | src/main/java/com/example/tennisclub/surfaceType/SurfaceTypeService.java:64-69 | NOT_FOUND "SurfaceType with id <id> not found." iff the repository reports nothing to delete |
| SurfaceTypes.SurfaceTypeService.Count | src/main/java/com/example/tennisclub/surfaceType/SurfaceTypeService.java:71-73 | equals the repository's count of non-deleted rows |
| SurfaceTypes.SurfaceTypeService.MapToEntity | src/main/java/com/example/tennisclub/surfaceType/SurfaceTypeService.java:75-81 | an unsaved, live surface type with the dto's name and price |
| SurfaceTypes.SurfaceTypeService.MapToResponseDto | src/main/java/com/example/tennisclub/surfaceType/SurfaceTypeService.java:83-87 | id, name and price copied verbatim |
| Courts.MarkDeletedHidesCourt | src/main/java/com/example/tennisclub/court/CourtRepository.java:38-43 | soft deletion keeps ids unique and every row in place, flags the target, and only removes it from the live listing |
| Courts.SurfaceTypeOf | src/main/java/com/example/tennisclub/court/entity/Court.java:23-25 | the row of the surface-type table whose id the court's `surface_type_id` holds |
| Courts.RateChangeReachesCourts | src/main/java/com/example/tennisclub/surfaceType/SurfaceTypeService.java:52-62 | after a surface type's row is replaced, every court naming it reads the new row, rate included |
| Courts.SurfaceTypeWritesKeepReferences | src/main/java/com/example/tennisclub/court/entity/Court.java:23-25 | writes to the surface-type table that keep its ids keep every court's foreign key resolving |
| Courts.SameIdsKeepIds | src/main/java/com/example/tennisclub/court/CourtRepository.java:29-43 | a write that keeps every row's id in place, appending or not, leaves every old id resolving |
| Courts.CourtRepository.FindAll | src/main/java/com/example/tennisclub/court/CourtRepository.java:19-22 | exactly the non-deleted courts |
| Courts.CourtRepository.FindById | src/main/java/com/example/tennisclub/court/CourtRepository.java:24-27 | present iff a row with the id exists and is not deleted |
| Courts.CourtRepository.Save | src/main/java/com/example/tennisclub/court/CourtRepository.java:29-32 | the court is appended under a fresh id and returned |
| Courts.CourtRepository.Update | src/main/java/com/example/tennisclub/court/CourtRepository.java:34-36 | the row with the same id is replaced |
| Courts.CourtRepository.SoftDelete | src/main/java/com/example/tennisclub/court/CourtRepository.java:38-43 | false with no change when absent or deleted; otherwise that row is flagged and true is returned |
| Courts.CourtService.FindAll | src/main/java/com/example/tennisclub/court/CourtService.java:30-34 | one response per live court, in the repository's order, with its id and name and the projection of the surface-type row it names now |
| Courts.CourtService.FindByIdOrThrow | src/main/java/com/example/tennisclub/court/CourtService.java:36-38 | the non-deleted court row, present iff one has the id, or NOT_FOUND "Court with ID <id> not found" |
| Courts.CourtService.Save | src/main/java/com/example/tennisclub/court/CourtService.java:44-47 | what the repository saved |
| Courts.CourtService.Create | src/main/java/com/example/tennisclub/court/CourtService.java:49-54 | a missing surface type fails NOT_FOUND with nothing saved; otherwise a live court with the dto's name, naming that surface type, is saved under a fresh id and returned with that surface type's projection |
| Courts.CourtService.Update | src/main/java/com/example/tennisclub/court/CourtService.java:56-69 | the surface type is checked before the court, each failing NOT_FOUND with no write; on success the name and the surface-type reference are set, id and deleted kept, and the response carries the new surface type's projection |
| Courts.CourtService.SoftDelete | src/main/java/com/example/tennisclub/court/CourtService.java:71-77 | NOT_FOUND "Court with ID <id> not found" iff the repository's softDelete returns false |
| Courts.CourtService.MapToEntity | src/main/java/com/example/tennisclub/court/CourtService.java:79-85 | an unsaved live court with the dto's name naming the dto's surface type, present iff that surface type is live, else NOT_FOUND for it |
| Courts.CourtService.MapToResponseDto | src/main/java/com/example/tennisclub/court/CourtService.java:87-93 | the court's id and name, and the projection of the surface-type row its foreign key names now |
| Users.FindLivePhone | src/main/java/com/example/tennisclub/user/UserRepository.java:21-34 | present iff some non-deleted user has the number; empty, not an error, otherwise |
| Users.FindUsername | src/main/java/com/example/tennisclub/user/UserRepository.java:36-49 | present iff some user, deleted or not, has the username |
| Users.DeletedUserFoundOnlyByUsername | src/main/java/com/example/tennisclub/user/UserRepository.java:21-49 | a soft-deleted user is still found by username but no longer by phone number |
| Users.UserRepository.Save | src/main/java/com/example/tennisclub/user/UserRepository.java:16-19 | the user is appended under a fresh id and returned; an insert that repeats a username or phone number is refused and changes nothing (the columns are unique, User.java:22-26) |
| Users.UserRepository.FindByPhoneNumber | src/main/java/com/example/tennisclub/user/UserRepository.java:21-34 | the live user with that number, if any |
| Users.UserRepository.FindByUsername | src/main/java/com/example/tennisclub/user/UserRepository.java:36-49 | the user with that username, deleted or not, if any |
| Users.UserService.Save | src/main/java/com/example/tennisclub/user/UserService.java:16-19 | what the repository saved, or its refusal |
| Users.UserService.FindByPhoneNumberOrThrow | src/main/java/com/example/tennisclub/user/UserService.java:21-25 | the live user with the number, or NOT_FOUND "User with phone number <p> not found" |
| Users.UserService.FindByUsernameOrThrow | src/main/java/com/example/tennisclub/user/UserService.java:27-31 | the user with the username, possibly soft-deleted, or NOT_FOUND "User not found with username: <u>" |
| Reservations.Select | src/main/java/com/example/tennisclub/reservation/ReservationRepository.java:24-64 | the rows meeting a WHERE clause, each exactly as often as it occurs in the table |
| Reservations.SortByStart | src/main/java/com/example/tennisclub/reservation/ReservationRepository.java:28 | `ORDER BY startTime ASC`: sorted by start and a permutation of its input |
| Reservations.SavePreservesNonOverlap | src/main/java/com/example/tennisclub/reservation/ReservationService.java:120-121 | appending a reservation that meets no live reservation of its court keeps every court free of overlaps |
| Reservations.NoClashWithUpdated | src/main/java/com/example/tennisclub/reservation/ReservationService.java:158-162 | a row other than the updated one that the id-filtered overlap set left out cannot clash with it |
| Reservations.UpdatePreservesNonOverlap | src/main/java/com/example/tennisclub/reservation/ReservationService.java:156-173 | replacing a row, when the overlap set minus its own id is empty, keeps ids unique and every court free of overlaps |
| Reservations.SoftDeletePreservesNonOverlap | src/main/java/com/example/tennisclub/reservation/ReservationRepository.java:75-81 | soft deletion keeps ids unique and every court free of overlaps |
| Reservations.SelfOverlapIgnored | src/main/java/com/example/tennisclub/reservation/ReservationService.java:160-162 | an overlap set holding only the reservation itself is empty once its id is removed, so moving a booking over its own old slot succeeds |
| Reservations.BackToBackIsNoConflict | src/main/java/com/example/tennisclub/reservation/ReservationRepository.java:45-55 | intervals that only touch an existing booking's endpoints find no overlap |
| Reservations.MarkDeletedHidesRow | src/main/java/com/example/tennisclub/reservation/ReservationRepository.java:75-81 | soft deletion never removes a row or changes an id, and the deleted row drops out of every listing |
| Reservations.ReservationRepository.FindById | src/main/java/com/example/tennisclub/reservation/ReservationRepository.java:19-22 | present iff a row with the id exists and is not deleted |
| Reservations.ReservationRepository.FindAllByCourtId | src/main/java/com/example/tennisclub/reservation/ReservationRepository.java:24-32 | exactly the court's live reservations, sorted by start |
| Reservations.ReservationRepository.FindByPhoneNumber | src/main/java/com/example/tennisclub/reservation/ReservationRepository.java:34-43 | exactly the live reservations of that phone number, sorted by start; with futureOnly also `startTime > now`, strictly, else no time filter |
| Reservations.ReservationRepository.FindOverlappingReservations | src/main/java/com/example/tennisclub/reservation/ReservationRepository.java:45-55 | exactly the live reservations of the court with `startTime < to` and `endTime > from` |
| Reservations.ReservationRepository.FindAll | src/main/java/com/example/tennisclub/reservation/ReservationRepository.java:57-64 | exactly the live reservations, sorted by start |
| Reservations.ReservationRepository.Save | src/main/java/com/example/tennisclub/reservation/ReservationRepository.java:66-69 | the reservation is appended under a fresh id and returned |
| Reservations.ReservationRepository.Update | src/main/java/com/example/tennisclub/reservation/ReservationRepository.java:71-73 | the row with the same id is replaced, the argument returned |
| Reservations.ReservationRepository.SoftDelete | src/main/java/com/example/tennisclub/reservation/ReservationRepository.java:75-81 | false with no change when absent or deleted, so a second call returns false; otherwise only that row is flagged and true is returned |
| Reservations.ReservationRepository.FindByUsername | src/main/java/com/example/tennisclub/reservation/ReservationRepository.java:83-92 | exactly the live reservations of that username, sorted by start, with the same futureOnly filter |
| ReservationValidator.ValidateStartBeforeEnd | src/main/java/com/example/tennisclub/reservation/validator/ReservationValidator.java:11-18 | succeeds iff start is strictly before end; otherwise BAD_REQUEST (400) "Start time must be before end time" |
| ReservationValidator.ThrowIfOverlapsExist | src/main/java/com/example/tennisclub/reservation/validator/ReservationValidator.java:20-27 | succeeds iff the list is empty; otherwise CONFLICT (409) "Court is already reserved during the selected time period" |
| Booking.AnyMatch | src/main/java/com/example/tennisclub/reservation/ReservationService.java:235-236 | true iff some authority equals the one sought |
| Booking.ToMinutes | src/main/java/com/example/tennisclub/reservation/ReservationService.java:229 | whole minutes of a duration, truncated toward zero for either sign |
| Booking.CalculatePrice | src/main/java/com/example/tennisclub/reservation/ReservationService.java:228-231 | singles cost rate times whole minutes; doubles cost the singles price times the multiplier |
| Booking.PartialMinuteIsFree | src/main/java/com/example/tennisclub/reservation/ReservationService.java:229-230 | extra seconds short of a minute do not change the price |
| Booking.PriceExamples | src/test/java/com/example/tennisclub/reservationTests/ReservationServiceTest.java:663-710 | 60 minutes at 10.0 cost 600.0 singles and 900.0 doubles at 1.5; 90 minutes of doubles cost 1350.0 |
| Booking.RateChangeExample | src/main/java/com/example/tennisclub/reservation/ReservationService.java:165 | after surface type 1 goes from 10.0 to 20.0 per minute, 60 minutes of singles on a court naming it cost 1200.0 |
| Booking.CourtOf | src/main/java/com/example/tennisclub/reservation/entity/Reservation.java:23-25 | the row of the court table whose id the reservation's `court_id` holds |
| Booking.ReplacedKeepsReferences | src/main/java/com/example/tennisclub/reservation/ReservationService.java:170-173 | merging a reservation whose court exists keeps every reservation's court reference resolving |
| Booking.CourtWritesKeepReferences | src/main/java/com/example/tennisclub/reservation/entity/Reservation.java:23-25 | writes to the court table that keep its ids keep every reservation's court reference resolving |
| Booking.ReservationService.IsCurrentUserAdmin | src/main/java/com/example/tennisclub/reservation/ReservationService.java:233-237 | true iff the caller holds ROLE_ADMIN |
| Booking.ReservationService.MapToFullResponseDto | src/main/java/com/example/tennisclub/reservation/ReservationService.java:190-208 | the full shape: the six shared fields copied, the court projected, and the owner's id, phone and username |
| Booking.ReservationService.MapToSlimResponseDto | src/main/java/com/example/tennisclub/reservation/ReservationService.java:210-226 | the slim shape: the same shared fields and nothing about the owner |
| Booking.ReservationService.MapByRole | src/main/java/com/example/tennisclub/reservation/ReservationService.java:45-49 | full view iff the caller is an admin, otherwise slim |
| Booking.ReservationService.FindReservationEntityByIdOrThrow | src/main/java/com/example/tennisclub/reservation/ReservationService.java:52-55 | the live reservation, or NOT_FOUND "Reservation with ID <id> not found" |
| Booking.ReservationService.GetReservation | src/main/java/com/example/tennisclub/reservation/ReservationService.java:40-50 | NOT_FOUND for a missing reservation; otherwise its full view iff the caller has ROLE_ADMIN, else slim |
| Booking.ReservationService.FindAllReservationEntities | src/main/java/com/example/tennisclub/reservation/ReservationService.java:57-59 | all live reservations, sorted by start |
| Booking.ReservationService.FindAllReservationEntitiesByCourtId | src/main/java/com/example/tennisclub/reservation/ReservationService.java:61-64 | NOT_FOUND for a missing or deleted court, whatever the reservations; else the court's live reservations by start |
| Booking.ReservationService.FindReservationsByPhoneNumber | src/main/java/com/example/tennisclub/reservation/ReservationService.java:66-69 | NOT_FOUND when no live user has the number; else that number's listing with its futureOnly filter |
| Booking.ReservationService.Project | src/main/java/com/example/tennisclub/reservation/ReservationService.java:78-84 | each reservation mapped in order to the chosen shape |
| Booking.ReservationService.GetAllReservations | src/main/java/com/example/tennisclub/reservation/ReservationService.java:71-86 | every live reservation in order, as full views iff the caller is an admin |
| Booking.ReservationService.GetReservationsByCourt | src/main/java/com/example/tennisclub/reservation/ReservationService.java:88-103 | NOT_FOUND for a missing court; else the court's listing, full views iff admin |
| Booking.ReservationService.GetReservationsByPhoneNumber | src/main/java/com/example/tennisclub/reservation/ReservationService.java:105-109 | NOT_FOUND for an unknown number; else the listing, always as full views |
| Booking.ReservationService.FindConflicts | src/main/java/com/example/tennisclub/reservation/ReservationService.java:139-141 | exactly the live reservations of the court meeting the interval; empty iff none does |
| Booking.ReservationService.CheckSlot | src/main/java/com/example/tennisclub/reservation/ReservationService.java:117-121 | the checks in order: court lookup (NOT_FOUND), start before end (BAD_REQUEST), empty overlap set (CONFLICT) |
| Booking.ReservationService.NewReservation | src/main/java/com/example/tennisclub/reservation/ReservationService.java:127-136 | an unsaved, live reservation of the dto's slot naming the court, for the user, priced at the current rate of the row the court's surface-type key names |
| Booking.ReservationService.PrepareNewReservation | src/main/java/com/example/tennisclub/reservation/ReservationService.java:116-137 | the slot checks, then the owner found by the caller's name (NOT_FOUND otherwise); a prepared reservation is `NewReservation` of that court and owner, so priced at the court's current rate, with start before end and meeting no live reservation of its court |
| Booking.ReservationService.Create | src/main/java/com/example/tennisclub/reservation/ReservationService.java:111-115 | a failed preparation changes nothing; otherwise the prepared reservation is saved under a fresh id and returned as a full view; non-overlap and every court reference are preserved |
| Booking.ReservationService.CreateForUser | src/main/java/com/example/tennisclub/reservation/ReservationService.java:240-260 | the same checks in the same order; failure changes nothing; otherwise `NewReservation` for the given user, priced at the court's current rate, is saved under a fresh id; non-overlap and every court reference are preserved |
| Booking.ReservationService.Update | src/main/java/com/example/tennisclub/reservation/ReservationService.java:143-175 | NOT_FOUND, then AccessDenied for a non-owner, then NOT_FOUND for the court, then CONFLICT for overlaps other than itself, each with no change; on success the row becomes `Rescheduled` at the court's current rate via merge and its full view is returned; non-overlap and every court reference are preserved |
| Booking.ReservationService.Rescheduled | src/main/java/com/example/tennisclub/reservation/ReservationService.java:164-171 | the new start, end, doubles flag and court, and the price at the given rate; id, owner and deleted flag kept |
| Booking.ReservationService.Reschedule | src/main/java/com/example/tennisclub/reservation/ReservationService.java:164-174 | with no other overlap, the row is replaced by `Rescheduled` at the court's current rate, the invariant kept, and the full view of the new row returned |
| Booking.ReservationService.Store | src/main/java/com/example/tennisclub/reservation/ReservationService.java:173-174 | the merge replaces the row with the same id, keeps the service's invariant, and the full view of the merged row is returned |
| Booking.ReservationService.SoftDelete | src/main/java/com/example/tennisclub/reservation/ReservationService.java:177-188 | NOT_FOUND, then AccessDenied for a non-owner, with no change; the owner's call flags the row deleted |
| RefreshTokens.FirstWithToken | src/main/java/com/example/tennisclub/auth/refreshToken/RefreshTokenRepository.java:18-27 | the first row with the value, or empty iff there is none |
| RefreshTokens.WithoutUser | src/main/java/com/example/tennisclub/auth/refreshToken/RefreshTokenRepository.java:28-35 | exactly the rows owned by other users |
| RefreshTokens.WithoutToken | src/main/java/com/example/tennisclub/auth/refreshToken/RefreshTokenRepository.java:36-43 | exactly the rows with another value |
| RefreshTokens.TokensOfAppend | src/main/java/com/example/tennisclub/auth/refreshToken/RefreshTokenRepository.java:45-48 | a user's tokens in a concatenation are their tokens in each part, in order |
| RefreshTokens.WithoutUserTokens | src/main/java/com/example/tennisclub/auth/refreshToken/RefreshTokenRepository.java:28-35 | after deleteByUser the user holds no token and every other user's tokens are unchanged |
| RefreshTokens.ReissueLeavesOneToken | src/main/java/com/example/tennisclub/auth/refreshToken/RefreshTokenService.java:23-34 | delete-by-user then append leaves the user exactly the new token and others untouched |
| RefreshTokens.WithoutAbsentToken | src/main/java/com/example/tennisclub/auth/refreshToken/RefreshTokenRepository.java:36-43 | deleting a value no row has changes nothing |
| RefreshTokens.RefreshTokenRepository.FindByToken | src/main/java/com/example/tennisclub/auth/refreshToken/RefreshTokenRepository.java:18-27 | present iff some row has the value, and then it is the first such row of the table |
| RefreshTokens.RefreshTokenRepository.DeleteByUser | src/main/java/com/example/tennisclub/auth/refreshToken/RefreshTokenRepository.java:28-35 | the table becomes the rows of other users |
| RefreshTokens.RefreshTokenRepository.DeleteByToken | src/main/java/com/example/tennisclub/auth/refreshToken/RefreshTokenRepository.java:36-43 | the table becomes the rows with another value |
| RefreshTokens.RefreshTokenRepository.Save | src/main/java/com/example/tennisclub/auth/refreshToken/RefreshTokenRepository.java:45-48 | the token is appended under a fresh id and returned |
| RefreshTokens.RefreshTokenService.CreateRefreshToken | src/main/java/com/example/tennisclub/auth/refreshToken/RefreshTokenService.java:22-34 | the user's old tokens are deleted and one token with the value, expiring at now plus the configured lifetime, is saved; the user holds exactly it; other users' tokens are untouched |
| RefreshTokens.RefreshTokenService.FindByToken | src/main/java/com/example/tennisclub/auth/refreshToken/RefreshTokenService.java:36-38 | the repository's lookup: present iff some row has the value, and then the first such row |
| RefreshTokens.RefreshTokenService.VerifyExpiration | src/main/java/com/example/tennisclub/auth/refreshToken/RefreshTokenService.java:40-47 | not expired (`!(now > expiryDate)`, RefreshToken.java:32-34): returned with the table unchanged; expired: every row with its value deleted, then FORBIDDEN "Refresh accessToken expired. Please sign in again." |
| RefreshTokens.RefreshTokenService.DeleteByToken | src/main/java/com/example/tennisclub/auth/refreshToken/RefreshTokenService.java:49-52 | every row with the value goes; no match is no change and no error |
| Auth.NewMember | src/main/java/com/example/tennisclub/auth/AuthService.java:48-53 | a live user with the request's username and phone, the encoded password, and roles {MEMBER} |
| Auth.AuthService.Register | src/main/java/com/example/tennisclub/auth/AuthService.java:38-56 | a taken username fails CONFLICT "Username <u> already taken" before the phone is checked; a taken phone fails CONFLICT "Phone number <p> already taken"; both leave the table unchanged; otherwise exactly one new member is saved |
| Auth.AuthService.Refresh | src/main/java/com/example/tennisclub/auth/AuthService.java:78-93 | unknown token: FORBIDDEN "Invalid refresh accessToken", no change; expired: deleted, then FORBIDDEN; valid: the old value is gone, the same user holds exactly the new token, and both new tokens are returned |
| Auth.AuthService.Reissue | src/main/java/com/example/tennisclub/auth/AuthService.java:83-91 | delete by the old value, then issue the new token to the user; the old value is gone when it differs from the new one |
| Auth.RotationDropsOldToken | src/main/java/com/example/tennisclub/auth/AuthService.java:87-88 | after delete-by-value, delete-by-user and an append with another value, no row has the old value |
| Auth.AuthService.Logout | src/main/java/com/example/tennisclub/auth/AuthService.java:95-99 | unknown token: BAD_REQUEST "Invalid refresh accessToken", no change; known: every row with the value deleted |

## Left out

- Concurrency and transactions: the model does not cover them. Each operation
  is one atomic step, so races between the overlap check and the insert are
  not modelled. Rollback is not modelled either. Under Spring's default rule,
  the delete inside `verifyExpiration` would be undone when its
  `ResponseStatusException` ends the transaction. The model follows the code
  text, in which the delete happens.
- The HTTP layer: controllers, `@PreAuthorize` role gating, bean-validation
  annotations (including `@Future` on the request times) and the mapping from
  exceptions to responses.
- `AuthService.login`, JwtUtil, `AuthenticationManager` and the password
  encoder are foreign code. The encoder is the parameter `encode`. Access and
  refresh token strings are parameters.
- `CustomUserDetailsService.loadUserByUsername` in `refresh` is not part of
  this model. It is assumed to succeed, and its result only feeds the access
  token, which is a parameter.
- Floating point: prices and the multiplier are exact `real`. IEEE rounding
  of `calculatePrice` and the `long`-to-`double` conversion are not modelled.
- DataInitializer (seed data) and the configuration classes. The doubles
  multiplier and the refresh-token lifetime are plain values.
- Persistence identity for users: a reservation and a refresh token hold the
  user value they were written with. No modelled operation updates a saved
  user, so no change could be missed. `deleteByUser` compares users by id.
  Courts and surface types are reached through their ids.
- `EntityManager.merge` of an id not in the table: the model leaves the table
  unchanged, while JPA would insert the row. Every caller merges a row it has
  just found.
- The unique constraint on the refresh-token value is not enforced. Token
  values come from random UUIDs.
- The nullable user of a refresh token is not modelled: every token has a
  user, as `createRefreshToken` always sets one.
- UserRepository's `getSingleResult` throwing on several matches is not
  modelled. The unique columns of the user table keep matches at most one;
  the model returns the first.
- Time is integer seconds on one clock. `LocalDateTime`, `Instant` and
  `CURRENT_TIMESTAMP` are all that clock, with `now` as a parameter.
  Sub-second parts are not modelled.
- `CourtService.findById`, `SurfaceTypeService.getSurfaceTypeById` and
  `SurfaceTypeService.findAll` only compose modelled members, so they have no
  member of their own.
- The "cannot update or delete a past reservation" guard exists only in the
  tests. The code has no such guard and neither does the model.
- Reservations.ReservationRepository.FindOverlappingReservations: its query
  has no `ORDER BY`, so the model returns rows in table order. Only emptiness
  and membership are used.
