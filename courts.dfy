/** Courts: the entity, its soft-delete table (CourtRepository) and CourtService. */
module Courts {
  import opened Common
  import opened Errors
  import EntityFinder
  import SurfaceTypes

  /**
   * A court; `surfaceTypeId` is the `surface_type_id` column, so the court
   * always reads the current row of its surface type. `deleted` marks a
   * soft-deleted row.
   */
  datatype Court = Court(id: int, name: string, surfaceTypeId: int, deleted: bool)

  datatype CourtRequestDto = CourtRequestDto(name: string, surfaceTypeId: int)

  datatype CourtResponseDto = CourtResponseDto(id: int, name: string, surfaceType: SurfaceTypes.SurfaceTypeResponseDto)

  // As in SurfaceTypes, the table helpers are this table's own copies.

  ghost predicate UniqueIds(rows: seq<Court>)
  {
    forall i, j :: 0 <= i < j < |rows| ==> rows[i].id != rows[j].id
  }

  /** The `surface_type_id` foreign key: every court names a row of the surface-type table. */
  ghost predicate SurfaceTypesResolve(courts: seq<Court>, types: seq<SurfaceTypes.SurfaceType>)
  {
    forall c :: c in courts ==> SurfaceTypes.Find(types, c.surfaceTypeId).Some?
  }

  /**
   * `court.getSurfaceType()`: the row the court's foreign key names in
   * the table as it is now, deleted or not.
   */
  function SurfaceTypeOf(types: seq<SurfaceTypes.SurfaceType>, court: Court): (st: SurfaceTypes.SurfaceType)
    requires SurfaceTypes.Find(types, court.surfaceTypeId).Some?
    ensures st in types && st.id == court.surfaceTypeId
  {
    SurfaceTypes.Find(types, court.surfaceTypeId).value
  }

  /**
   * A new name or rate of a surface type reaches every court on it: after
   * the row is replaced, the court reads the replaced row.
   */
  lemma RateChangeReachesCourts(types: seq<SurfaceTypes.SurfaceType>, changed: SurfaceTypes.SurfaceType, court: Court)
    requires SurfaceTypes.UniqueIds(types)
    requires SurfaceTypes.Find(types, changed.id).Some? && court.surfaceTypeId == changed.id
    ensures SurfaceTypes.Find(SurfaceTypes.Replaced(types, changed), court.surfaceTypeId).Some?
    ensures SurfaceTypeOf(SurfaceTypes.Replaced(types, changed), court) == changed
  {
    var after := SurfaceTypes.Replaced(types, changed);
    var i :| 0 <= i < |types| && types[i] == SurfaceTypes.Find(types, changed.id).value;
    assert after[i] == changed;
    assert SurfaceTypes.UniqueIds(after) by {
      forall a, b | 0 <= a < b < |after| ensures after[a].id != after[b].id {
        assert after[a].id == types[a].id && after[b].id == types[b].id;
      }
    }
    SurfaceTypes.FindsTheRow(after, changed);
  }

  /**
   * Writes to the surface-type table that keep its ids (save, update,
   * soft delete) keep every court's foreign key resolving.
   */
  lemma SurfaceTypeWritesKeepReferences(courts: seq<Court>, before: seq<SurfaceTypes.SurfaceType>,
                                        after: seq<SurfaceTypes.SurfaceType>)
    requires SurfaceTypesResolve(courts, before) && SurfaceTypes.KeepsIds(before, after)
    ensures SurfaceTypesResolve(courts, after)
  {
    forall c | c in courts ensures SurfaceTypes.Find(after, c.surfaceTypeId).Some? {
      assert SurfaceTypes.Find(before, c.surfaceTypeId).value in before;
    }
  }

  /** Every id of `before` still names a row of `after`. */
  ghost predicate KeepsIds(before: seq<Court>, after: seq<Court>)
  {
    forall c :: c in before ==> Find(after, c.id).Some?
  }

  /** A write that leaves every row's id at its place, and may append, keeps every id. */
  lemma SameIdsKeepIds(before: seq<Court>, after: seq<Court>)
    requires |before| <= |after|
    requires forall i :: 0 <= i < |before| ==> after[i].id == before[i].id
    ensures KeepsIds(before, after)
  {
    forall c | c in before ensures Find(after, c.id).Some? {
      var i :| 0 <= i < |before| && before[i] == c;
      assert after[i] in after;
    }
  }

  /** The row with this id, deleted or not, as EntityManager.find gives it. */
  function Find(rows: seq<Court>, id: int): (r: Option<Court>)
    ensures r.Some? ==> r.value in rows && r.value.id == id
    ensures r.None? ==> forall c :: c in rows ==> c.id != id
  {
    if rows == [] then None
    else if rows[0].id == id then Some(rows[0])
    else Find(rows[1..], id)
  }

  /** The non-deleted rows, in table order. */
  function Active(rows: seq<Court>): (r: seq<Court>)
    ensures forall c :: c in r <==> c in rows && !c.deleted
    ensures |r| <= |rows|
  {
    if rows == [] then []
    else (if rows[0].deleted then [] else [rows[0]]) + Active(rows[1..])
  }

  /** The table after every row with this id was given `deleted = true`. */
  function MarkDeleted(rows: seq<Court>, id: int): seq<Court>
  {
    seq(|rows|, i requires 0 <= i < |rows| =>
      if rows[i].id == id then rows[i].(deleted := true) else rows[i])
  }

  /** The table after the row with `c.id` was replaced by `c` (EntityManager.merge). */
  function Replaced(rows: seq<Court>, c: Court): seq<Court>
  {
    seq(|rows|, i requires 0 <= i < |rows| => if rows[i].id == c.id then c else rows[i])
  }

  /**
   * Soft-deleting a court hides it from both lookups, and a second soft
   * delete of the same id finds nothing left to delete.
   */
  lemma MarkDeletedHidesCourt(rows: seq<Court>, id: int)
    requires UniqueIds(rows)
    ensures UniqueIds(MarkDeleted(rows, id)) && |MarkDeleted(rows, id)| == |rows|
    ensures forall c :: c in MarkDeleted(rows, id) && c.id == id ==> c.deleted
    ensures forall c :: c in Active(MarkDeleted(rows, id)) ==> c in Active(rows) && c.id != id
  {
    var r := MarkDeleted(rows, id);
    forall c | c in Active(r) ensures c in Active(rows) && c.id != id {
      var i :| 0 <= i < |r| && r[i] == c;
      assert rows[i] == c;
    }
  }

  class CourtRepository {
    var rows: seq<Court>
    var nextId: int

    ghost predicate Valid()
      reads this
    {
      UniqueIds(rows) && UnsavedId < nextId &&
      forall c :: c in rows ==> UnsavedId < c.id < nextId
    }

    constructor ()
      ensures Valid() && rows == []
    {
      rows := [];
      nextId := UnsavedId + 1;
    }

    /** findAll: exactly the non-deleted courts. */
    function FindAll(): (r: seq<Court>)
      reads this
      ensures forall c :: c in r <==> c in rows && !c.deleted
    {
      Active(rows)
    }

    /** findById: the row with this id, unless it is absent or soft-deleted. */
    function FindById(id: int): (r: Option<Court>)
      reads this
      requires Valid()
      ensures r.Some? <==> exists c :: c in rows && c.id == id && !c.deleted
      ensures r.Some? ==> r.value in rows && r.value.id == id && !r.value.deleted
    {
      match Find(rows, id)
      case Some(court) => if !court.deleted then Some(court) else None
      case None => None
    }

    /** save (persist): the court is added under a fresh id and returned. */
    method Save(court: Court) returns (saved: Court)
      requires Valid()
      modifies this
      ensures Valid()
      ensures saved == court.(id := old(nextId))
      ensures rows == old(rows) + [saved] && nextId == old(nextId) + 1
      ensures KeepsIds(old(rows), rows)
    {
      saved := court.(id := nextId);
      SameIdsKeepIds(rows, rows + [saved]);
      rows := rows + [saved];
      nextId := nextId + 1;
    }

    /** update (merge): the stored court with the same id is replaced. */
    method Update(court: Court) returns (merged: Court)
      requires Valid()
      modifies this
      ensures Valid()
      ensures merged == court
      ensures rows == Replaced(old(rows), court) && nextId == old(nextId)
      ensures KeepsIds(old(rows), rows)
    {
      SameIdsKeepIds(rows, Replaced(rows, court));
      rows := Replaced(rows, court);
      merged := court;
    }

    /**
     * softDelete: false, with nothing changed, when the court is absent or
     * already deleted; otherwise it is flagged deleted and true is returned.
     */
    method SoftDelete(id: int) returns (ok: bool)
      requires Valid()
      modifies this
      ensures Valid()
      ensures ok <==> old(FindById(id)).Some?
      ensures rows == (if ok then MarkDeleted(old(rows), id) else old(rows))
      ensures nextId == old(nextId)
      ensures KeepsIds(old(rows), rows)
    {
      SameIdsKeepIds(rows, rows);
      var court := Find(rows, id);
      if court.None? || court.value.deleted {
        return false;
      }
      MarkDeletedHidesCourt(rows, id);
      SameIdsKeepIds(rows, MarkDeleted(rows, id));
      rows := MarkDeleted(rows, id);
      ok := true;
    }
  }

  class CourtService {
    const courtRepository: CourtRepository
    const surfaceTypeService: SurfaceTypes.SurfaceTypeService

    constructor (courtRepository: CourtRepository, surfaceTypeService: SurfaceTypes.SurfaceTypeService)
      requires courtRepository.Valid() && surfaceTypeService.Valid()
      requires SurfaceTypesResolve(courtRepository.rows, surfaceTypeService.surfaceTypeRepository.rows)
      ensures this.courtRepository == courtRepository
      ensures this.surfaceTypeService == surfaceTypeService
      ensures Valid()
    {
      this.courtRepository := courtRepository;
      this.surfaceTypeService := surfaceTypeService;
    }

    /** Both tables are well formed and every court's surface type exists. */
    ghost predicate Valid()
      reads courtRepository, surfaceTypeService.surfaceTypeRepository
    {
      courtRepository.Valid() && surfaceTypeService.Valid() &&
      SurfaceTypesResolve(courtRepository.rows, surfaceTypeService.surfaceTypeRepository.rows)
    }

    /**
     * findAll: every non-deleted court in the order the repository lists
     * them, each with the current row of its surface type.
     */
    function FindAll(): (r: seq<CourtResponseDto>)
      reads courtRepository, surfaceTypeService.surfaceTypeRepository
      requires Valid()
      ensures |r| == |courtRepository.FindAll()|
      ensures forall i :: 0 <= i < |r| ==>
        var c := courtRepository.FindAll()[i];
        && r[i].id == c.id && r[i].name == c.name
        && r[i].surfaceType == SurfaceTypes.SurfaceTypeService.MapToResponseDto(
             SurfaceTypeOf(surfaceTypeService.surfaceTypeRepository.rows, c))
    {
      var all := courtRepository.FindAll();
      var types := surfaceTypeService.surfaceTypeRepository.rows;
      assert forall i :: 0 <= i < |all| ==> all[i] in courtRepository.rows;
      seq(|all|, i requires 0 <= i < |all| => CourtResponseDto(all[i].id, all[i].name,
        SurfaceTypes.SurfaceTypeService.MapToResponseDto(SurfaceTypeOf(types, all[i]))))
    }

    /** findByIdOrThrow: the non-deleted court, or NOT_FOUND "Court with ID <id> not found". */
    function FindByIdOrThrow(id: int): (r: Result<Court>)
      reads courtRepository
      requires courtRepository.Valid()
      ensures r.Ok? <==> exists c :: c in courtRepository.rows && c.id == id && !c.deleted
      ensures r.Ok? ==> r.value in courtRepository.rows && r.value.id == id && !r.value.deleted
      ensures r.Err? ==> r.error == EntityFinder.MissingEntity("Court", id)
    {
      EntityFinder.FindByIdOrThrow(courtRepository.FindById(id), id, "Court")
    }

    /** save: whatever the repository saved. */
    method Save(court: Court) returns (saved: Court)
      requires Valid()
      requires SurfaceTypes.Find(surfaceTypeService.surfaceTypeRepository.rows, court.surfaceTypeId).Some?
      modifies courtRepository
      ensures Valid()
      ensures saved == court.(id := old(courtRepository.nextId))
      ensures courtRepository.rows == old(courtRepository.rows) + [saved]
      ensures KeepsIds(old(courtRepository.rows), courtRepository.rows)
    {
      saved := courtRepository.Save(court);
    }

    /**
     * create: the court is built from the dto and the live surface type it
     * names, saved, and returned with that surface type; a missing surface
     * type fails NOT_FOUND and nothing is saved.
     */
    method Create(dto: CourtRequestDto) returns (res: Result<CourtResponseDto>)
      requires Valid()
      modifies courtRepository
      ensures Valid()
      ensures KeepsIds(old(courtRepository.rows), courtRepository.rows)
      ensures match old(surfaceTypeService.surfaceTypeRepository.FindById(dto.surfaceTypeId))
        case None =>
          res == Err(EntityFinder.MissingEntity("SurfaceType", dto.surfaceTypeId)) &&
          courtRepository.rows == old(courtRepository.rows)
        case Some(st) =>
          var saved := Court(old(courtRepository.nextId), dto.name, st.id, false);
          courtRepository.rows == old(courtRepository.rows) + [saved] &&
          res == Ok(CourtResponseDto(saved.id, dto.name, SurfaceTypes.SurfaceTypeService.MapToResponseDto(st)))
    {
      var court := MapToEntity(dto);
      if court.Err? {
        return Err(court.error);
      }
      var st := surfaceTypeService.surfaceTypeRepository.FindById(dto.surfaceTypeId).value;
      SurfaceTypes.FindsTheRow(surfaceTypeService.surfaceTypeRepository.rows, st);
      var saved := Save(court.value);
      res := Ok(MapToResponseDto(saved));
    }

    /**
     * update: the surface type is looked up first, then the court; either
     * missing fails NOT_FOUND with no write. Otherwise name and surface
     * type are set, the court keeps its id and deleted flag, and it is
     * returned with its new surface type.
     */
    method Update(updatedCourtId: int, dto: CourtRequestDto) returns (res: Result<CourtResponseDto>)
      requires Valid()
      modifies courtRepository
      ensures Valid()
      ensures courtRepository.nextId == old(courtRepository.nextId)
      ensures KeepsIds(old(courtRepository.rows), courtRepository.rows)
      ensures res.Err? ==> courtRepository.rows == old(courtRepository.rows)
      ensures var st := old(surfaceTypeService.surfaceTypeRepository.FindById(dto.surfaceTypeId));
        var found := old(courtRepository.FindById(updatedCourtId));
        && (st.None? ==> res == Err(EntityFinder.MissingEntity("SurfaceType", dto.surfaceTypeId)))
        && (st.Some? && found.None? ==> res == Err(EntityFinder.MissingEntity("Court", updatedCourtId)))
        && (st.Some? && found.Some? ==>
              var changed := found.value.(name := dto.name, surfaceTypeId := st.value.id);
              changed.id == updatedCourtId && !changed.deleted &&
              courtRepository.rows == Replaced(old(courtRepository.rows), changed) &&
              res == Ok(CourtResponseDto(updatedCourtId, dto.name, SurfaceTypes.SurfaceTypeService.MapToResponseDto(st.value))))
    {
      var surfaceType := surfaceTypeService.FindByIdOrThrow(dto.surfaceTypeId);
      if surfaceType.Err? {
        return Err(surfaceType.error);
      }
      var court := FindByIdOrThrow(updatedCourtId);
      if court.Err? {
        return Err(court.error);
      }
      SurfaceTypes.FindsTheRow(surfaceTypeService.surfaceTypeRepository.rows, surfaceType.value);
      var changed := court.value;
      changed := changed.(name := dto.name);
      changed := changed.(surfaceTypeId := surfaceType.value.id);
      var updated := courtRepository.Update(changed);
      res := Ok(MapToResponseDto(updated));
    }

    /** softDelete: NOT_FOUND exactly when the repository reports nothing to delete. */
    method SoftDelete(id: int) returns (res: Result<()>)
      requires Valid()
      modifies courtRepository
      ensures Valid()
      ensures KeepsIds(old(courtRepository.rows), courtRepository.rows)
      ensures res.Ok? <==> old(courtRepository.FindById(id)).Some?
      ensures res.Err? ==>
        res.error == ResponseStatus(NotFound, "Court with ID " + IdString(id) + " not found") &&
        courtRepository.rows == old(courtRepository.rows)
      ensures res.Ok? ==> courtRepository.rows == MarkDeleted(old(courtRepository.rows), id)
    {
      var ok := courtRepository.SoftDelete(id);
      if !ok {
        return Err(ResponseStatus(NotFound, "Court with ID " + IdString(id) + " not found"));
      }
      res := Ok(());
    }

    /**
     * mapToEntity: an unsaved live court with the dto's name on the live
     * surface type the dto names, or NOT_FOUND for that surface type.
     */
    function MapToEntity(dto: CourtRequestDto): (r: Result<Court>)
      reads surfaceTypeService.surfaceTypeRepository
      requires surfaceTypeService.Valid()
      ensures r.Ok? <==> surfaceTypeService.surfaceTypeRepository.FindById(dto.surfaceTypeId).Some?
      ensures r.Ok? ==> r.value == Court(UnsavedId, dto.name, dto.surfaceTypeId, false)
      ensures r.Err? ==> r.error == EntityFinder.MissingEntity("SurfaceType", dto.surfaceTypeId)
    {
      var surfaceType :- surfaceTypeService.FindByIdOrThrow(dto.surfaceTypeId);
      Ok(Court(UnsavedId, dto.name, surfaceType.id, false))
    }

    /**
     * mapToResponseDto: the court's id and name with the id, name and
     * price of the surface-type row it names now.
     */
    function MapToResponseDto(court: Court): (d: CourtResponseDto)
      reads surfaceTypeService.surfaceTypeRepository
      requires SurfaceTypes.Find(surfaceTypeService.surfaceTypeRepository.rows, court.surfaceTypeId).Some?
      ensures d.id == court.id && d.name == court.name
      ensures d.surfaceType.id == court.surfaceTypeId
      ensures d.surfaceType == SurfaceTypes.SurfaceTypeService.MapToResponseDto(
                SurfaceTypeOf(surfaceTypeService.surfaceTypeRepository.rows, court))
    {
      var st := SurfaceTypeOf(surfaceTypeService.surfaceTypeRepository.rows, court);
      var stDto := SurfaceTypes.SurfaceTypeResponseDto(st.id, st.name, st.pricePerMinute);
      CourtResponseDto(court.id, court.name, stDto)
    }
  }
}
