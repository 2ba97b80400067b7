/**
 * Booking: ReservationService, the engine that creates, moves and cancels
 * court reservations and projects them into views by the caller's role.
 */
module Booking {
  import opened Common
  import opened Errors
  import EntityFinder
  import SurfaceTypes
  import Courts
  import Users
  import opened Reservations
  import ReservationValidator

  /** The request body of create and update; the unused phone number is not carried. */
  datatype ReservationRequestDto = ReservationRequestDto(courtId: int, isDoubles: bool, start: int, end: int)

  /**
   * The two shapes a reservation is shown in: the full one names the
   * owner, the slim one does not. Both share the other six fields.
   */
  datatype ReservationView =
    | ReservationResponseDto(id: int, court: Courts.CourtResponseDto, user: Users.UserResponseDto,
                             startTime: int, endTime: int, isDoubles: bool, totalPrice: real)
    | ReservationSlimResponseDto(id: int, court: Courts.CourtResponseDto,
                                 startTime: int, endTime: int, isDoubles: bool, totalPrice: real)

  /** The authenticated caller: its name and its granted authorities, in order. */
  datatype Authentication = Authentication(name: string, authorities: seq<string>)

  /** The `pricing.*` configuration: the multiplier applied to doubles. */
  datatype PricingProperties = PricingProperties(doubles: real)

  const AdminAuthority: string := "ROLE_ADMIN"
  const NotAllowedMessage: string := "You are not allowed to modify this reservation"

  /** `authorities.stream().anyMatch(a -> a.equals(authority))`. */
  function AnyMatch(authorities: seq<string>, authority: string): (b: bool)
    ensures b <==> exists i :: 0 <= i < |authorities| && authorities[i] == authority
  {
    if authorities == [] then false
    else authorities[0] == authority || AnyMatch(authorities[1..], authority)
  }

  /**
   * `Duration.between(start, end).toMinutes()` for a duration in seconds:
   * whole minutes, the partial minute dropped toward zero.
   */
  function ToMinutes(seconds: int): (m: int)
    ensures seconds >= 0 ==> 0 <= m && m * 60 <= seconds < m * 60 + 60
    ensures seconds < 0 ==> m <= 0 && m * 60 - 60 < seconds <= m * 60
  {
    if seconds >= 0 then seconds / 60 else -((-seconds) / 60)
  }

  /**
   * calculatePrice: the court's rate per minute times the whole minutes
   * booked, times the doubles multiplier for a doubles match.
   */
  function CalculatePrice(pricing: PricingProperties, isDouble: bool, start: int, end: int,
                          pricePerSurfaceType: real): (p: real)
    ensures !isDouble ==> p == pricePerSurfaceType * (ToMinutes(end - start) as real)
    ensures isDouble ==> p == CalculatePrice(pricing, false, start, end, pricePerSurfaceType) * pricing.doubles
  {
    pricePerSurfaceType * (ToMinutes(end - start) as real) * (if isDouble then pricing.doubles else 1.0)
  }

  /** A partial minute at the end of a booking is not charged. */
  lemma PartialMinuteIsFree(pricing: PricingProperties, isDouble: bool, start: int, minutes: nat, extra: int,
                            pricePerSurfaceType: real)
    requires 0 <= extra < 60
    ensures CalculatePrice(pricing, isDouble, start, start + minutes * 60 + extra, pricePerSurfaceType)
         == CalculatePrice(pricing, isDouble, start, start + minutes * 60, pricePerSurfaceType)
  {
    assert ToMinutes(minutes * 60 + extra) == minutes;
    assert ToMinutes(minutes * 60) == minutes;
  }

  /**
   * An hour at 10.0 per minute costs 600.0 as singles and 900.0 as doubles
   * with a 1.5 multiplier; ninety minutes of doubles cost 1350.0.
   */
  lemma PriceExamples(start: int)
    ensures CalculatePrice(PricingProperties(1.5), false, start, start + 3600, 10.0) == 600.0
    ensures CalculatePrice(PricingProperties(1.5), true, start, start + 3600, 10.0) == 900.0
    ensures CalculatePrice(PricingProperties(1.5), true, start, start + 5400, 10.0) == 1350.0
  {
    assert ToMinutes(3600) == 60;
    assert ToMinutes(5400) == 90;
  }

  /**
   * A new rate reaches the next booking: court A is on surface type 1 at
   * 10.0 per minute; once the rate is updated to 20.0, an hour of singles
   * on court A costs 1200.0.
   */
  lemma RateChangeExample(start: int)
    ensures var types := SurfaceTypes.Replaced([SurfaceTypes.SurfaceType(1, "clay", 10.0, false)],
                                               SurfaceTypes.SurfaceType(1, "clay", 20.0, false));
      var court := Courts.Court(7, "A", 1, false);
      && SurfaceTypes.Find(types, court.surfaceTypeId).Some?
      && CalculatePrice(PricingProperties(1.5), false, start, start + 3600,
                        Courts.SurfaceTypeOf(types, court).pricePerMinute) == 1200.0
  {
    var before := [SurfaceTypes.SurfaceType(1, "clay", 10.0, false)];
    var changed := SurfaceTypes.SurfaceType(1, "clay", 20.0, false);
    assert SurfaceTypes.Find(before, 1).Some?;
    Courts.RateChangeReachesCourts(before, changed, Courts.Court(7, "A", 1, false));
    assert ToMinutes(3600) == 60;
  }

  /** The `court_id` foreign key: every reservation names a row of the court table. */
  ghost predicate CourtsResolve(rows: seq<Reservation>, courts: seq<Courts.Court>)
  {
    forall x :: x in rows ==> Courts.Find(courts, x.courtId).Some?
  }

  /** `reservation.getCourt()`: the court row the foreign key names now, deleted or not. */
  function CourtOf(courts: seq<Courts.Court>, r: Reservation): (c: Courts.Court)
    requires Courts.Find(courts, r.courtId).Some?
    ensures c in courts && c.id == r.courtId
  {
    Courts.Find(courts, r.courtId).value
  }

  /** Merging a reservation whose court exists keeps every reservation's court resolving. */
  lemma ReplacedKeepsReferences(rows: seq<Reservation>, courts: seq<Courts.Court>, r: Reservation)
    requires CourtsResolve(rows, courts) && Courts.Find(courts, r.courtId).Some?
    ensures CourtsResolve(Replaced(rows, r), courts)
  {
    var after := Replaced(rows, r);
    forall x | x in after ensures Courts.Find(courts, x.courtId).Some? {
      var k :| 0 <= k < |after| && after[k] == x;
      if rows[k].id != r.id {
        assert rows[k] in rows;
      }
    }
  }

  /**
   * Writes to the court table that keep its ids (save, update, soft
   * delete) keep every reservation's foreign key resolving.
   */
  lemma CourtWritesKeepReferences(rows: seq<Reservation>, before: seq<Courts.Court>, after: seq<Courts.Court>)
    requires CourtsResolve(rows, before) && Courts.KeepsIds(before, after)
    ensures CourtsResolve(rows, after)
  {
    forall x | x in rows ensures Courts.Find(after, x.courtId).Some? {
      assert Courts.Find(before, x.courtId).value in before;
    }
  }

  class ReservationService {
    const reservationRepo: ReservationRepository
    const courtService: Courts.CourtService
    const userService: Users.UserService
    const pricing: PricingProperties

    constructor (reservationRepo: ReservationRepository, courtService: Courts.CourtService,
                 userService: Users.UserService, pricing: PricingProperties)
      requires reservationRepo.Valid() && NonOverlapping(reservationRepo.rows)
      requires courtService.Valid() && userService.Valid()
      requires CourtsResolve(reservationRepo.rows, courtService.courtRepository.rows)
      ensures this.reservationRepo == reservationRepo && this.courtService == courtService
      ensures this.userService == userService && this.pricing == pricing
      ensures Valid()
    {
      this.reservationRepo := reservationRepo;
      this.courtService := courtService;
      this.userService := userService;
      this.pricing := pricing;
    }

    /**
     * The stores are well formed, every reservation's court exists, and no
     * two live reservations of a court overlap.
     */
    ghost predicate Valid()
      reads reservationRepo, courtService.courtRepository,
            courtService.surfaceTypeService.surfaceTypeRepository, userService.userRepository
    {
      reservationRepo.Valid() && NonOverlapping(reservationRepo.rows) &&
      courtService.Valid() && userService.Valid() &&
      CourtsResolve(reservationRepo.rows, courtService.courtRepository.rows)
    }

    /** The court of `r` and that court's surface type can be read. */
    ghost predicate Resolves(r: Reservation)
      reads courtService.courtRepository, courtService.surfaceTypeService.surfaceTypeRepository
    {
      courtService.Valid() && Courts.Find(courtService.courtRepository.rows, r.courtId).Some?
    }

    /** The six fields every view of `r` copies from it, with its court as CourtService shows it now. */
    predicate Shows(v: ReservationView, r: Reservation)
      reads courtService.courtRepository, courtService.surfaceTypeService.surfaceTypeRepository
      requires Resolves(r)
    {
      v.id == r.id && v.court == courtService.MapToResponseDto(CourtOf(courtService.courtRepository.rows, r)) &&
      v.startTime == r.startTime && v.endTime == r.endTime &&
      v.isDoubles == r.isDoubles && v.totalPrice == r.totalPrice
    }

    /** The view of `r` an admin (full == true) or a member (full == false) is given. */
    predicate ShownAs(v: ReservationView, r: Reservation, full: bool)
      reads courtService.courtRepository, courtService.surfaceTypeService.surfaceTypeRepository
      requires Resolves(r)
    {
      Shows(v, r) && (v.ReservationResponseDto? <==> full) &&
      (full ==> v.user == Users.UserResponseDto(r.user.id, r.user.phoneNumber, r.user.username))
    }

    /** isCurrentUserAdmin: whether the caller holds ROLE_ADMIN. */
    static function IsCurrentUserAdmin(auth: Authentication): (b: bool)
      ensures b <==> AdminAuthority in auth.authorities
    {
      AnyMatch(auth.authorities, AdminAuthority)
    }

    /**
     * mapToFullResponseDto: every shared field, the court and its surface
     * type as they are now, and the owner's id, phone number and username.
     */
    function MapToFullResponseDto(r: Reservation): (v: ReservationView)
      reads courtService.courtRepository, courtService.surfaceTypeService.surfaceTypeRepository
      requires Resolves(r)
      ensures ShownAs(v, r, true)
    {
      var court := CourtOf(courtService.courtRepository.rows, r);
      var st := Courts.SurfaceTypeOf(courtService.surfaceTypeService.surfaceTypeRepository.rows, court);
      var stDto := SurfaceTypes.SurfaceTypeResponseDto(st.id, st.name, st.pricePerMinute);
      var courtDto := Courts.CourtResponseDto(court.id, court.name, stDto);
      var userDto := Users.UserResponseDto(r.user.id, r.user.phoneNumber, r.user.username);
      ReservationResponseDto(r.id, courtDto, userDto, r.startTime, r.endTime, r.isDoubles, r.totalPrice)
    }

    /** mapToSlimResponseDto: the shared fields only; nothing about the owner. */
    function MapToSlimResponseDto(r: Reservation): (v: ReservationView)
      reads courtService.courtRepository, courtService.surfaceTypeService.surfaceTypeRepository
      requires Resolves(r)
      ensures ShownAs(v, r, false)
    {
      var court := CourtOf(courtService.courtRepository.rows, r);
      var st := Courts.SurfaceTypeOf(courtService.surfaceTypeService.surfaceTypeRepository.rows, court);
      var stDto := SurfaceTypes.SurfaceTypeResponseDto(st.id, st.name, st.pricePerMinute);
      var courtDto := Courts.CourtResponseDto(court.id, court.name, stDto);
      ReservationSlimResponseDto(r.id, courtDto, r.startTime, r.endTime, r.isDoubles, r.totalPrice)
    }

    /** The view chosen by role: full for an admin, slim otherwise. */
    function MapByRole(r: Reservation, auth: Authentication): (v: ReservationView)
      reads courtService.courtRepository, courtService.surfaceTypeService.surfaceTypeRepository
      requires Resolves(r)
      ensures ShownAs(v, r, IsCurrentUserAdmin(auth))
    {
      if IsCurrentUserAdmin(auth) then MapToFullResponseDto(r) else MapToSlimResponseDto(r)
    }

    /** findReservationEntityByIdOrThrow: the live reservation, or NOT_FOUND "Reservation with ID <id> not found". */
    function FindReservationEntityByIdOrThrow(id: int): (r: Result<Reservation>)
      reads reservationRepo
      requires reservationRepo.Valid()
      ensures r.Ok? <==> exists x :: x in reservationRepo.rows && x.id == id && !x.deleted
      ensures r.Ok? ==> r.value in reservationRepo.rows && r.value.id == id && !r.value.deleted
      ensures r.Err? ==> r.error == EntityFinder.MissingEntity("Reservation", id)
    {
      EntityFinder.FindByIdOrThrow(reservationRepo.FindById(id), id, "Reservation")
    }

    /** getReservation: the live reservation, full for an admin and slim for anyone else. */
    function GetReservation(id: int, auth: Authentication): (r: Result<ReservationView>)
      reads reservationRepo, courtService.courtRepository,
            courtService.surfaceTypeService.surfaceTypeRepository, userService.userRepository
      requires Valid()
      ensures r.Ok? <==> exists x :: x in reservationRepo.rows && x.id == id && !x.deleted
      ensures r.Ok? ==> ShownAs(r.value, reservationRepo.FindById(id).value, AdminAuthority in auth.authorities)
      ensures r.Err? ==> r.error == EntityFinder.MissingEntity("Reservation", id)
    {
      var reservation :- FindReservationEntityByIdOrThrow(id);
      assert reservation in reservationRepo.rows;
      Ok(MapByRole(reservation, auth))
    }

    /** findAllReservationEntities: every live reservation, by start time. */
    function FindAllReservationEntities(): (r: seq<Reservation>)
      reads reservationRepo
      ensures SortedByStart(r)
      ensures forall x :: x in r <==> x in reservationRepo.rows && !x.deleted
    {
      reservationRepo.FindAll()
    }

    /**
     * findAllReservationEntitiesByCourtId: NOT_FOUND for a missing or
     * deleted court; otherwise the court's live reservations by start time.
     */
    function FindAllReservationEntitiesByCourtId(courtId: int): (r: Result<seq<Reservation>>)
      reads reservationRepo, courtService.courtRepository
      requires courtService.courtRepository.Valid()
      ensures r.Ok? <==> courtService.courtRepository.FindById(courtId).Some?
      ensures r.Err? ==> r.error == EntityFinder.MissingEntity("Court", courtId)
      ensures r.Ok? ==> SortedByStart(r.value)
      ensures r.Ok? ==> forall x :: x in r.value <==>
        (x in reservationRepo.rows && !x.deleted && x.courtId == courtId)
    {
      var _ :- courtService.FindByIdOrThrow(courtId);
      Ok(reservationRepo.FindAllByCourtId(courtId))
    }

    /**
     * findReservationsByPhoneNumber: NOT_FOUND when no live user has the
     * number; otherwise that number's live reservations by start time,
     * with futureOnly only those starting after now.
     */
    function FindReservationsByPhoneNumber(phoneNumber: string, futureOnly: bool, now: int): (r: Result<seq<Reservation>>)
      reads reservationRepo, userService.userRepository
      ensures r.Ok? <==> userService.userRepository.FindByPhoneNumber(phoneNumber).Some?
      ensures r.Err? ==> r.error == ResponseStatus(NotFound, "User with phone number " + phoneNumber + " not found")
      ensures r.Ok? ==> SortedByStart(r.value)
      ensures r.Ok? ==> forall x :: x in r.value <==>
          (x in reservationRepo.rows && !x.deleted && x.user.phoneNumber == phoneNumber &&
           (futureOnly ==> x.startTime > now))
    {
      var _ :- userService.FindByPhoneNumberOrThrow(phoneNumber);
      Ok(reservationRepo.FindByPhoneNumber(phoneNumber, futureOnly, now))
    }

    /** The views of `rs` in the same order, full or slim as chosen. */
    function Project(rs: seq<Reservation>, full: bool): (vs: seq<ReservationView>)
      reads courtService.courtRepository, courtService.surfaceTypeService.surfaceTypeRepository
      requires courtService.Valid() && CourtsResolve(rs, courtService.courtRepository.rows)
      ensures |vs| == |rs|
      ensures forall i :: 0 <= i < |rs| ==> ShownAs(vs[i], rs[i], full)
    {
      if rs == [] then []
      else
        assert rs[0] in rs && forall x :: x in rs[1..] ==> x in rs;
        var rest := Project(rs[1..], full);
        assert forall i :: 1 <= i < |rs| ==> ShownAs(rest[i - 1], rs[i], full) by {
          forall i | 1 <= i < |rs| ensures ShownAs(rest[i - 1], rs[i], full) {
            assert rs[1..][i - 1] == rs[i];
          }
        }
        [if full then MapToFullResponseDto(rs[0]) else MapToSlimResponseDto(rs[0])] + rest
    }

    /** getAllReservations: all live reservations, full views iff the caller is an admin. */
    function GetAllReservations(auth: Authentication): (vs: seq<ReservationView>)
      reads reservationRepo, courtService.courtRepository,
            courtService.surfaceTypeService.surfaceTypeRepository, userService.userRepository
      requires Valid()
      ensures var all := FindAllReservationEntities();
        |vs| == |all| &&
        forall i :: 0 <= i < |all| ==> ShownAs(vs[i], all[i], AdminAuthority in auth.authorities)
    {
      Project(FindAllReservationEntities(), IsCurrentUserAdmin(auth))
    }

    /**
     * getReservationsByCourt: NOT_FOUND for a missing court; otherwise the
     * court's listing, full views iff the caller is an admin.
     */
    function GetReservationsByCourt(courtId: int, auth: Authentication): (r: Result<seq<ReservationView>>)
      reads reservationRepo, courtService.courtRepository,
            courtService.surfaceTypeService.surfaceTypeRepository, userService.userRepository
      requires Valid()
      ensures r.Ok? <==> courtService.courtRepository.FindById(courtId).Some?
      ensures r.Err? ==> r.error == EntityFinder.MissingEntity("Court", courtId)
      ensures r.Ok? ==> var listed := reservationRepo.FindAllByCourtId(courtId);
        |r.value| == |listed| &&
        forall i :: 0 <= i < |listed| ==> ShownAs(r.value[i], listed[i], AdminAuthority in auth.authorities)
    {
      var reservations :- FindAllReservationEntitiesByCourtId(courtId);
      Ok(Project(reservations, IsCurrentUserAdmin(auth)))
    }

    /** getReservationsByPhoneNumber: the phone listing, always as full views. */
    function GetReservationsByPhoneNumber(phoneNumber: string, futureOnly: bool, now: int): (r: Result<seq<ReservationView>>)
      reads reservationRepo, courtService.courtRepository,
            courtService.surfaceTypeService.surfaceTypeRepository, userService.userRepository
      requires Valid()
      ensures r.Ok? <==> userService.userRepository.FindByPhoneNumber(phoneNumber).Some?
      ensures r.Err? ==> r.error == ResponseStatus(NotFound, "User with phone number " + phoneNumber + " not found")
      ensures r.Ok? ==> var listed := reservationRepo.FindByPhoneNumber(phoneNumber, futureOnly, now);
        |r.value| == |listed| && forall i :: 0 <= i < |listed| ==> ShownAs(r.value[i], listed[i], true)
    {
      var reservations :- FindReservationsByPhoneNumber(phoneNumber, futureOnly, now);
      Ok(Project(reservations, true))
    }

    /** findConflicts: the live reservations of the court meeting [from, to). */
    function FindConflicts(courtId: int, from: int, to: int): (r: seq<Reservation>)
      reads reservationRepo
      ensures forall x :: x in r <==>
        (x in reservationRepo.rows && !x.deleted && x.courtId == courtId && Overlaps(x, from, to))
      ensures r == [] <==> NoLiveOverlap(reservationRepo.rows, courtId, from, to)
    {
      var r := reservationRepo.FindOverlappingReservations(courtId, from, to);
      assert r != [] ==> r[0] in r;
      r
    }

    /**
     * The checks create and createForUser share, in their order: the court
     * must be live (NOT_FOUND), start must precede end (BAD_REQUEST), and
     * no live reservation of the court may meet the interval (CONFLICT).
     */
    function CheckSlot(dto: ReservationRequestDto): (r: Result<Courts.Court>)
      reads reservationRepo, courtService.courtRepository
      requires courtService.courtRepository.Valid()
      ensures var court := courtService.courtRepository.FindById(dto.courtId);
        && (court.None? ==> r == Err(EntityFinder.MissingEntity("Court", dto.courtId)))
        && (court.Some? && !(dto.start < dto.end) ==>
              r == Err(ResponseStatus(BadRequest, ReservationValidator.StartBeforeEndReason)))
        && (court.Some? && dto.start < dto.end && !NoLiveOverlap(reservationRepo.rows, dto.courtId, dto.start, dto.end) ==>
              r == Err(ResponseStatus(Conflict, ReservationValidator.OverlapReason)))
        && (court.Some? && dto.start < dto.end && NoLiveOverlap(reservationRepo.rows, dto.courtId, dto.start, dto.end) ==>
              r == Ok(court.value))
      ensures r.Ok? ==> r.value.id == dto.courtId && !r.value.deleted
    {
      var court :- courtService.FindByIdOrThrow(dto.courtId);
      var _ :- ReservationValidator.ValidateStartBeforeEnd(dto.start, dto.end);
      var overlaps := FindConflicts(court.id, dto.start, dto.end);
      var _ :- ReservationValidator.ThrowIfOverlapsExist(overlaps);
      Ok(court)
    }

    /**
     * The unsaved reservation the builder makes: the dto's slot on the
     * court, priced at the rate its surface type has now.
     */
    function NewReservation(court: Courts.Court, user: Users.User, dto: ReservationRequestDto): (r: Reservation)
      reads courtService.surfaceTypeService.surfaceTypeRepository
      requires SurfaceTypes.Find(courtService.surfaceTypeService.surfaceTypeRepository.rows, court.surfaceTypeId).Some?
      ensures r.id == UnsavedId && !r.deleted && r.courtId == court.id && r.user == user
      ensures r.startTime == dto.start && r.endTime == dto.end && r.isDoubles == dto.isDoubles
      ensures r.totalPrice == CalculatePrice(pricing, dto.isDoubles, dto.start, dto.end,
        Courts.SurfaceTypeOf(courtService.surfaceTypeService.surfaceTypeRepository.rows, court).pricePerMinute)
    {
      var st := Courts.SurfaceTypeOf(courtService.surfaceTypeService.surfaceTypeRepository.rows, court);
      var totalPrice := CalculatePrice(pricing, dto.isDoubles, dto.start, dto.end, st.pricePerMinute);
      Reservation(UnsavedId, court.id, user, dto.start, dto.end, dto.isDoubles, totalPrice, false)
    }

    /**
     * prepareNewReservation: after the slot checks, the owner is the user
     * with the caller's name (NOT_FOUND if there is none). A prepared
     * reservation always has start before end and meets no live
     * reservation of its court.
     */
    function PrepareNewReservation(dto: ReservationRequestDto, auth: Authentication): (r: Result<Reservation>)
      reads reservationRepo, courtService.courtRepository,
            courtService.surfaceTypeService.surfaceTypeRepository, userService.userRepository
      requires courtService.Valid()
      ensures CheckSlot(dto).Err? ==> r == Err(CheckSlot(dto).error)
      ensures CheckSlot(dto).Ok? && userService.userRepository.FindByUsername(auth.name).None? ==>
        r == Err(ResponseStatus(NotFound, "User not found with username: " + auth.name))
      ensures r.Ok? <==> CheckSlot(dto).Ok? && userService.userRepository.FindByUsername(auth.name).Some?
      ensures r.Ok? ==>
        r.value == NewReservation(CheckSlot(dto).value, userService.userRepository.FindByUsername(auth.name).value, dto) &&
        r.value.user.username == auth.name && r.value.courtId == dto.courtId &&
        r.value.startTime < r.value.endTime &&
        NoLiveOverlap(reservationRepo.rows, r.value.courtId, r.value.startTime, r.value.endTime)
    {
      var court :- CheckSlot(dto);
      assert court in courtService.courtRepository.rows;
      var user :- userService.FindByUsernameOrThrow(auth.name);
      Ok(NewReservation(court, user, dto))
    }

    /**
     * create: the prepared reservation is saved under a fresh id and
     * returned as a full view; any failed check leaves the store as it was.
     */
    method Create(dto: ReservationRequestDto, auth: Authentication) returns (res: Result<ReservationView>)
      requires Valid()
      modifies reservationRepo
      ensures Valid()
      ensures match old(PrepareNewReservation(dto, auth))
        case Err(e) =>
          res == Err(e) && reservationRepo.rows == old(reservationRepo.rows) &&
          reservationRepo.nextId == old(reservationRepo.nextId)
        case Ok(prepared) =>
          var saved := prepared.(id := old(reservationRepo.nextId));
          reservationRepo.rows == old(reservationRepo.rows) + [saved] &&
          res == Ok(MapToFullResponseDto(saved))
    {
      var reservation := PrepareNewReservation(dto, auth);
      if reservation.Err? {
        return Err(reservation.error);
      }
      var before := reservationRepo.rows;
      var saved := reservationRepo.Save(reservation.value);
      SavePreservesNonOverlap(before, saved);
      res := Ok(MapToFullResponseDto(saved));
    }

    /**
     * createForUser: the same slot checks as create, then the reservation
     * is built for the given user and saved; any failed check leaves the
     * store as it was.
     */
    method CreateForUser(dto: ReservationRequestDto, user: Users.User) returns (res: Result<Reservation>)
      requires Valid()
      modifies reservationRepo
      ensures Valid()
      ensures match old(CheckSlot(dto))
        case Err(e) =>
          res == Err(e) && reservationRepo.rows == old(reservationRepo.rows) &&
          reservationRepo.nextId == old(reservationRepo.nextId)
        case Ok(court) =>
          var saved := NewReservation(court, user, dto).(id := old(reservationRepo.nextId));
          reservationRepo.rows == old(reservationRepo.rows) + [saved] && res == Ok(saved)
    {
      var court := CheckSlot(dto);
      if court.Err? {
        return Err(court.error);
      }
      var reservation := NewReservation(court.value, user, dto);
      var before := reservationRepo.rows;
      var saved := reservationRepo.Save(reservation);
      SavePreservesNonOverlap(before, saved);
      res := Ok(saved);
    }

    /**
     * update: only the owner may move a reservation. The target court must
     * be live, and the live reservations it meets there, other than itself
     * (by id), must be none. Then the reservation is rescheduled and merged.
     * The new interval is not checked for start before end.
     */
    method Update(reservationId: int, updated: ReservationRequestDto, auth: Authentication)
      returns (res: Result<ReservationView>)
      requires Valid()
      modifies reservationRepo
      ensures Valid()
      ensures reservationRepo.nextId == old(reservationRepo.nextId)
      ensures res.Err? ==> reservationRepo.rows == old(reservationRepo.rows)
      ensures var found := old(reservationRepo.FindById(reservationId));
        var court := old(courtService.courtRepository.FindById(updated.courtId));
        var others := Select(old(FindConflicts(updated.courtId, updated.start, updated.end)), OtherThan(reservationId));
        && (found.None? ==> res == Err(EntityFinder.MissingEntity("Reservation", reservationId)))
        && (found.Some? && found.value.user.username != auth.name ==> res == Err(AccessDenied(NotAllowedMessage)))
        && (found.Some? && found.value.user.username == auth.name && court.None? ==>
              res == Err(EntityFinder.MissingEntity("Court", updated.courtId)))
        && (found.Some? && found.value.user.username == auth.name && court.Some? && others != [] ==>
              res == Err(ResponseStatus(Conflict, ReservationValidator.OverlapReason)))
        && (found.Some? && found.value.user.username == auth.name && court.Some? && others == [] ==>
              var changed := Rescheduled(found.value, court.value,
                Courts.SurfaceTypeOf(courtService.surfaceTypeService.surfaceTypeRepository.rows, court.value).pricePerMinute, updated);
              reservationRepo.rows == Replaced(old(reservationRepo.rows), changed) &&
              res == Ok(MapToFullResponseDto(changed)))
    {
      var existing := FindReservationEntityByIdOrThrow(reservationId);
      if existing.Err? {
        return Err(existing.error);
      }
      if existing.value.user.username != auth.name {
        return Err(AccessDenied(NotAllowedMessage));
      }
      var court := courtService.FindByIdOrThrow(updated.courtId);
      if court.Err? {
        return Err(court.error);
      }
      var overlaps := FindConflicts(court.value.id, updated.start, updated.end);
      overlaps := Select(overlaps, OtherThan(existing.value.id));
      var noOverlap := ReservationValidator.ThrowIfOverlapsExist(overlaps);
      if noOverlap.Err? {
        return Err(noOverlap.error);
      }
      res := Reschedule(existing.value, court.value, updated);
    }

    /**
     * The setters update applies: the new slot, doubles flag and court, and
     * the price at `rate`, the per-minute rate of that court's surface type;
     * id, owner and deleted flag are kept.
     */
    function Rescheduled(existing: Reservation, court: Courts.Court, rate: real, dto: ReservationRequestDto): (r: Reservation)
      ensures r.id == existing.id && r.user == existing.user && r.deleted == existing.deleted
      ensures r.startTime == dto.start && r.endTime == dto.end && r.isDoubles == dto.isDoubles
      ensures r.courtId == court.id
      ensures r.totalPrice == CalculatePrice(pricing, dto.isDoubles, dto.start, dto.end, rate)
    {
      var totalPrice := CalculatePrice(pricing, dto.isDoubles, dto.start, dto.end, rate);
      existing.(startTime := dto.start, endTime := dto.end, isDoubles := dto.isDoubles,
                courtId := court.id, totalPrice := totalPrice)
    }

    method Reschedule(existing: Reservation, court: Courts.Court, dto: ReservationRequestDto)
      returns (res: Result<ReservationView>)
      requires Valid()
      requires existing in reservationRepo.rows && court in courtService.courtRepository.rows
      requires Select(FindConflicts(court.id, dto.start, dto.end), OtherThan(existing.id)) == []
      modifies reservationRepo
      ensures Valid()
      ensures reservationRepo.nextId == old(reservationRepo.nextId)
      ensures var rate := Courts.SurfaceTypeOf(courtService.surfaceTypeService.surfaceTypeRepository.rows, court).pricePerMinute;
        var changed := Rescheduled(existing, court, rate, dto);
        reservationRepo.rows == Replaced(old(reservationRepo.rows), changed) &&
        Resolves(changed) && res == Ok(MapToFullResponseDto(changed))
    {
      var rate := Courts.SurfaceTypeOf(courtService.surfaceTypeService.surfaceTypeRepository.rows, court).pricePerMinute;
      var changed := Rescheduled(existing, court, rate, dto);
      assert FindConflicts(court.id, dto.start, dto.end) ==
             Select(reservationRepo.rows, Overlapping(changed.courtId, changed.startTime, changed.endTime));
      UpdatePreservesNonOverlap(reservationRepo.rows, changed);
      ReplacedKeepsReferences(reservationRepo.rows, courtService.courtRepository.rows, changed);
      assert reservationRepo as object != courtService.surfaceTypeService.surfaceTypeRepository as object;
      assert reservationRepo as object != courtService.courtRepository as object;
      res := Store(changed);
    }

    /**
     * reservationRepository.update followed by mapToFullResponseDto, once
     * the new row is known to keep the service's invariant.
     */
    method Store(changed: Reservation) returns (res: Result<ReservationView>)
      requires Valid() && Resolves(changed)
      requires NonOverlapping(Replaced(reservationRepo.rows, changed))
      requires CourtsResolve(Replaced(reservationRepo.rows, changed), courtService.courtRepository.rows)
      modifies reservationRepo
      ensures Valid()
      ensures reservationRepo.rows == Replaced(old(reservationRepo.rows), changed)
      ensures reservationRepo.nextId == old(reservationRepo.nextId)
      ensures Resolves(changed) && res == Ok(MapToFullResponseDto(changed))
    {
      var view := MapToFullResponseDto(changed);
      var merged := reservationRepo.Update(changed);
      res := Ok(view);
    }

    /** softDelete: only the owner may cancel; the row is then flagged deleted. */
    method SoftDelete(id: int, auth: Authentication) returns (res: Result<()>)
      requires Valid()
      modifies reservationRepo
      ensures Valid()
      ensures reservationRepo.nextId == old(reservationRepo.nextId)
      ensures var found := old(reservationRepo.FindById(id));
        && (found.None? ==> res == Err(EntityFinder.MissingEntity("Reservation", id)))
        && (found.Some? && found.value.user.username != auth.name ==> res == Err(AccessDenied(NotAllowedMessage)))
        && (found.Some? && found.value.user.username == auth.name ==> res == Ok(()))
      ensures res.Err? ==> reservationRepo.rows == old(reservationRepo.rows)
      ensures res.Ok? ==> reservationRepo.rows == MarkDeleted(old(reservationRepo.rows), id)
    {
      var existing := FindReservationEntityByIdOrThrow(id);
      if existing.Err? {
        return Err(existing.error);
      }
      if existing.value.user.username != auth.name {
        return Err(AccessDenied(NotAllowedMessage));
      }
      SoftDeletePreservesNonOverlap(reservationRepo.rows, id);
      var _ := reservationRepo.SoftDelete(id);
      res := Ok(());
    }
  }
}
