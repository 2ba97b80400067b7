/**
 * Surface types of the courts: the entity, its soft-delete table
 * (SurfaceTypeRepository) and SurfaceTypeService.
 */
module SurfaceTypes {
  import opened Common
  import opened Errors
  import EntityFinder

  /** A court surface with its price per minute; `deleted` marks a soft-deleted row. */
  datatype SurfaceType = SurfaceType(id: int, name: string, pricePerMinute: real, deleted: bool)

  datatype SurfaceTypeRequestDto = SurfaceTypeRequestDto(name: string, pricePerMinute: real)

  datatype SurfaceTypeResponseDto = SurfaceTypeResponseDto(id: int, name: string, pricePerMinute: real)

  // The table helpers below (UniqueIds, Find, Active, MarkDeleted, Replaced,
  // KeepsIds) exist once per entity on purpose: each module owns its table,
  // as each repository class owns its own queries in the source.

  ghost predicate UniqueIds(rows: seq<SurfaceType>)
  {
    forall i, j :: 0 <= i < j < |rows| ==> rows[i].id != rows[j].id
  }

  /** The row with this id, deleted or not, as EntityManager.find gives it. */
  function Find(rows: seq<SurfaceType>, id: int): (r: Option<SurfaceType>)
    ensures r.Some? ==> r.value in rows && r.value.id == id
    ensures r.None? ==> forall s :: s in rows ==> s.id != id
  {
    if rows == [] then None
    else if rows[0].id == id then Some(rows[0])
    else Find(rows[1..], id)
  }

  /** With unique ids, looking up a row's id gives that very row. */
  lemma {:induction false} FindsTheRow(rows: seq<SurfaceType>, s: SurfaceType)
    requires UniqueIds(rows) && s in rows
    ensures Find(rows, s.id) == Some(s)
  {
    if rows[0] != s {
      var j :| 0 <= j < |rows| && rows[j] == s;
      assert rows[0].id != rows[j].id;
      assert UniqueIds(rows[1..]) by {
        forall i, k | 0 <= i < k < |rows[1..]| ensures rows[1..][i].id != rows[1..][k].id {
          assert rows[1..][i] == rows[i + 1] && rows[1..][k] == rows[k + 1];
        }
      }
      assert rows[1..][j - 1] == s;
      FindsTheRow(rows[1..], s);
    }
  }

  /**
   * Every id of `before` still names a row of `after`: a foreign key that
   * pointed into the table still resolves after the write.
   */
  ghost predicate KeepsIds(before: seq<SurfaceType>, after: seq<SurfaceType>)
  {
    forall s :: s in before ==> Find(after, s.id).Some?
  }

  /** A write that leaves every row's id at its place, and may append, keeps every id. */
  lemma SameIdsKeepIds(before: seq<SurfaceType>, after: seq<SurfaceType>)
    requires |before| <= |after|
    requires forall i :: 0 <= i < |before| ==> after[i].id == before[i].id
    ensures KeepsIds(before, after)
  {
    forall s | s in before ensures Find(after, s.id).Some? {
      var i :| 0 <= i < |before| && before[i] == s;
      assert after[i] in after;
    }
  }

  /** The non-deleted rows, in table order. */
  function Active(rows: seq<SurfaceType>): (r: seq<SurfaceType>)
    ensures forall s :: s in r <==> s in rows && !s.deleted
    ensures |r| <= |rows|
  {
    if rows == [] then []
    else (if rows[0].deleted then [] else [rows[0]]) + Active(rows[1..])
  }

  /** `SELECT COUNT(s) ... WHERE s.deleted = false`. */
  function CountActive(rows: seq<SurfaceType>): nat
  {
    if rows == [] then 0
    else (if rows[0].deleted then 0 else 1) + CountActive(rows[1..])
  }

  /** The count query and the listing query agree. */
  lemma {:induction false} CountActiveIsActiveLength(rows: seq<SurfaceType>)
    ensures CountActive(rows) == |Active(rows)|
  {
    if rows != [] {
      CountActiveIsActiveLength(rows[1..]);
    }
  }

  /** The table after every row with this id was given `deleted = true`. */
  function MarkDeleted(rows: seq<SurfaceType>, id: int): seq<SurfaceType>
  {
    seq(|rows|, i requires 0 <= i < |rows| =>
      if rows[i].id == id then rows[i].(deleted := true) else rows[i])
  }

  /** The table after the row with `s.id` was replaced by `s` (EntityManager.merge). */
  function Replaced(rows: seq<SurfaceType>, s: SurfaceType): seq<SurfaceType>
  {
    seq(|rows|, i requires 0 <= i < |rows| => if rows[i].id == s.id then s else rows[i])
  }

  /**
   * Soft deletion keeps every row, with its id, in place; afterwards no
   * live row has that id, so it drops out of the listing.
   */
  lemma MarkDeletedKeepsRows(rows: seq<SurfaceType>, id: int)
    ensures |MarkDeleted(rows, id)| == |rows|
    ensures forall i :: 0 <= i < |rows| ==> MarkDeleted(rows, id)[i].id == rows[i].id
    ensures forall s :: s in MarkDeleted(rows, id) && s.id == id ==> s.deleted
    ensures forall s :: s in Active(MarkDeleted(rows, id)) ==> s in Active(rows) && s.id != id
  {
    var r := MarkDeleted(rows, id);
    forall s | s in Active(r) ensures s in Active(rows) && s.id != id {
      var i :| 0 <= i < |r| && r[i] == s;
      assert rows[i] == s;
    }
  }

  class SurfaceTypeRepository {
    var rows: seq<SurfaceType>
    var nextId: int

    ghost predicate Valid()
      reads this
    {
      UniqueIds(rows) && UnsavedId < nextId &&
      forall s :: s in rows ==> UnsavedId < s.id < nextId
    }

    constructor ()
      ensures Valid() && rows == []
    {
      rows := [];
      nextId := UnsavedId + 1;
    }

    /** findAll: exactly the non-deleted surface types. */
    function FindAll(): (r: seq<SurfaceType>)
      reads this
      ensures forall s :: s in r <==> s in rows && !s.deleted
    {
      Active(rows)
    }

    /** findById: the row with this id, unless it is absent or soft-deleted. */
    function FindById(id: int): (r: Option<SurfaceType>)
      reads this
      requires Valid()
      ensures r.Some? <==> exists s :: s in rows && s.id == id && !s.deleted
      ensures r.Some? ==> r.value in rows && r.value.id == id && !r.value.deleted
    {
      match Find(rows, id)
      case Some(st) => if !st.deleted then Some(st) else None
      case None => None
    }

    /** count: the number of non-deleted surface types. */
    function Count(): (n: nat)
      reads this
      ensures n == |FindAll()|
    {
      CountActiveIsActiveLength(rows);
      CountActive(rows)
    }

    /** save (persist): the row is added under a fresh id and returned. */
    method Save(surfaceType: SurfaceType) returns (saved: SurfaceType)
      requires Valid()
      modifies this
      ensures Valid()
      ensures saved == surfaceType.(id := old(nextId))
      ensures rows == old(rows) + [saved] && nextId == old(nextId) + 1
      ensures KeepsIds(old(rows), rows)
    {
      saved := surfaceType.(id := nextId);
      SameIdsKeepIds(rows, rows + [saved]);
      rows := rows + [saved];
      nextId := nextId + 1;
    }

    /** update (merge): the stored row with the same id is replaced. */
    method Update(surfaceType: SurfaceType) returns (merged: SurfaceType)
      requires Valid()
      modifies this
      ensures Valid()
      ensures merged == surfaceType
      ensures rows == Replaced(old(rows), surfaceType) && nextId == old(nextId)
      ensures KeepsIds(old(rows), rows)
    {
      SameIdsKeepIds(rows, Replaced(rows, surfaceType));
      rows := Replaced(rows, surfaceType);
      merged := surfaceType;
    }

    /**
     * softDelete: false, with nothing changed, when the row is absent or
     * already deleted; otherwise the row is flagged deleted and true is returned.
     */
    method SoftDelete(id: int) returns (ok: bool)
      requires Valid()
      modifies this
      ensures Valid()
      ensures ok <==> old(FindById(id)).Some?
      ensures rows == (if ok then MarkDeleted(old(rows), id) else old(rows))
      ensures nextId == old(nextId)
      ensures KeepsIds(old(rows), rows)
    {
      SameIdsKeepIds(rows, rows);
      var st := Find(rows, id);
      if st.None? || st.value.deleted {
        return false;
      }
      SameIdsKeepIds(rows, MarkDeleted(rows, id));
      rows := MarkDeleted(rows, id);
      ok := true;
    }
  }

  class SurfaceTypeService {
    const surfaceTypeRepository: SurfaceTypeRepository

    constructor (surfaceTypeRepository: SurfaceTypeRepository)
      requires surfaceTypeRepository.Valid()
      ensures this.surfaceTypeRepository == surfaceTypeRepository
      ensures Valid()
    {
      this.surfaceTypeRepository := surfaceTypeRepository;
    }

    ghost predicate Valid()
      reads surfaceTypeRepository
    {
      surfaceTypeRepository.Valid()
    }

    /** findByIdOrThrow: the non-deleted surface type, or NOT_FOUND. */
    function FindByIdOrThrow(id: int): (r: Result<SurfaceType>)
      reads surfaceTypeRepository
      requires Valid()
      ensures r.Ok? <==> exists s :: s in surfaceTypeRepository.rows && s.id == id && !s.deleted
      ensures r.Ok? ==> r.value in surfaceTypeRepository.rows && r.value.id == id && !r.value.deleted
      ensures r.Err? ==> r.error == EntityFinder.MissingEntity("SurfaceType", id)
    {
      EntityFinder.FindByIdOrThrow(surfaceTypeRepository.FindById(id), id, "SurfaceType")
    }

    /** getAll: every non-deleted row projected, in the order findAll lists them. */
    function GetAll(): (r: seq<SurfaceTypeResponseDto>)
      reads surfaceTypeRepository
      ensures |r| == |surfaceTypeRepository.FindAll()|
      ensures forall i :: 0 <= i < |r| ==>
        r[i] == MapToResponseDto(surfaceTypeRepository.FindAll()[i])
    {
      var all := surfaceTypeRepository.FindAll();
      seq(|all|, i requires 0 <= i < |all| => MapToResponseDto(all[i]))
    }

    /** save: whatever the repository saved. */
    method Save(surfaceType: SurfaceType) returns (saved: SurfaceType)
      requires Valid()
      modifies surfaceTypeRepository
      ensures Valid()
      ensures KeepsIds(old(surfaceTypeRepository.rows), surfaceTypeRepository.rows)
      ensures saved == surfaceType.(id := old(surfaceTypeRepository.nextId))
      ensures surfaceTypeRepository.rows == old(surfaceTypeRepository.rows) + [saved]
    {
      saved := surfaceTypeRepository.Save(surfaceType);
    }

    /** create: a new live row carrying the dto's name and price, returned projected. */
    method Create(dto: SurfaceTypeRequestDto) returns (response: SurfaceTypeResponseDto)
      requires Valid()
      modifies surfaceTypeRepository
      ensures Valid()
      ensures KeepsIds(old(surfaceTypeRepository.rows), surfaceTypeRepository.rows)
      ensures var saved := SurfaceType(old(surfaceTypeRepository.nextId), dto.name, dto.pricePerMinute, false);
        surfaceTypeRepository.rows == old(surfaceTypeRepository.rows) + [saved] &&
        response == SurfaceTypeResponseDto(saved.id, dto.name, dto.pricePerMinute)
    {
      var surfaceType := MapToEntity(dto);
      var saved := Save(surfaceType);
      response := MapToResponseDto(saved);
    }

    /**
     * update: name and price are set on the existing live row, which keeps
     * its id and deleted flag; a missing id fails NOT_FOUND with no write.
     */
    method Update(id: int, updated: SurfaceTypeRequestDto) returns (res: Result<SurfaceTypeResponseDto>)
      requires Valid()
      modifies surfaceTypeRepository
      ensures Valid()
      ensures KeepsIds(old(surfaceTypeRepository.rows), surfaceTypeRepository.rows)
      ensures var found := old(surfaceTypeRepository.FindById(id));
        match found
        case None =>
          res == Err(EntityFinder.MissingEntity("SurfaceType", id)) &&
          surfaceTypeRepository.rows == old(surfaceTypeRepository.rows)
        case Some(existing) =>
          var changed := existing.(name := updated.name, pricePerMinute := updated.pricePerMinute);
          surfaceTypeRepository.rows == Replaced(old(surfaceTypeRepository.rows), changed) &&
          res == Ok(SurfaceTypeResponseDto(id, updated.name, updated.pricePerMinute))
      ensures surfaceTypeRepository.nextId == old(surfaceTypeRepository.nextId)
    {
      var found := FindByIdOrThrow(id);
      if found.Err? {
        return Err(found.error);
      }
      var existing := found.value;
      existing := existing.(name := updated.name);
      existing := existing.(pricePerMinute := updated.pricePerMinute);
      var _ := surfaceTypeRepository.Update(existing);
      res := Ok(MapToResponseDto(existing));
    }

    /** softDelete: NOT_FOUND exactly when the repository reports nothing to delete. */
    method SoftDelete(id: int) returns (res: Result<()>)
      requires Valid()
      modifies surfaceTypeRepository
      ensures Valid()
      ensures KeepsIds(old(surfaceTypeRepository.rows), surfaceTypeRepository.rows)
      ensures res.Ok? <==> old(surfaceTypeRepository.FindById(id)).Some?
      ensures res.Err? ==>
        res.error == ResponseStatus(NotFound, "SurfaceType with id " + IdString(id) + " not found.") &&
        surfaceTypeRepository.rows == old(surfaceTypeRepository.rows)
      ensures res.Ok? ==> surfaceTypeRepository.rows == MarkDeleted(old(surfaceTypeRepository.rows), id)
    {
      var ok := surfaceTypeRepository.SoftDelete(id);
      if !ok {
        return Err(ResponseStatus(NotFound, "SurfaceType with id " + IdString(id) + " not found."));
      }
      res := Ok(());
    }

    /** count: the repository's count of non-deleted rows. */
    function Count(): (n: nat)
      reads surfaceTypeRepository
      ensures n == |surfaceTypeRepository.FindAll()|
    {
      surfaceTypeRepository.Count()
    }

    /** mapToEntity: a new, unsaved, live row with the dto's name and price. */
    static function MapToEntity(dto: SurfaceTypeRequestDto): (s: SurfaceType)
      ensures s.name == dto.name && s.pricePerMinute == dto.pricePerMinute
      ensures s.id == UnsavedId && !s.deleted
    {
      SurfaceType(UnsavedId, dto.name, dto.pricePerMinute, false)
    }

    /** mapToResponseDto: id, name and price copied from the row. */
    static function MapToResponseDto(st: SurfaceType): (d: SurfaceTypeResponseDto)
      ensures d.id == st.id && d.name == st.name && d.pricePerMinute == st.pricePerMinute
    {
      SurfaceTypeResponseDto(st.id, st.name, st.pricePerMinute)
    }
  }
}
