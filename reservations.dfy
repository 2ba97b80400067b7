/**
 * Reservations: the entity, the queries ReservationRepository runs over
 * its table, the per-court non-overlap invariant, and the repository.
 */
module Reservations {
  import opened Common
  import Users

  /**
   * A booking of one court by one user for the half-open interval
   * [startTime, endTime); times are seconds on one clock. `courtId` is the
   * `court_id` column, so the reservation always reads the current court
   * row. The user is held as a value: no modelled operation changes a
   * saved user, so the value is always the user's row.
   */
  datatype Reservation = Reservation(
    id: int,
    courtId: int,
    user: Users.User,
    startTime: int,
    endTime: int,
    isDoubles: bool,
    totalPrice: real,
    deleted: bool)

  /** `r.startTime < :to AND r.endTime > :from`: the row meets [from, to). */
  predicate Overlaps(r: Reservation, from: int, to: int)
  {
    r.startTime < to && r.endTime > from
  }

  /** The WHERE clauses of the repository's queries, and the id filter the service applies. */
  datatype Criteria =
    | All                                                   // findAll
    | OnCourt(courtId: int)                                 // findAllByCourtId
    | ByPhoneNumber(phoneNumber: string, futureOnly: bool, now: int)
    | ByUsername(username: string, futureOnly: bool, now: int)
    | Overlapping(courtId: int, from: int, to: int)         // findOverlappingReservations
    | OtherThan(id: int)                                    // removeIf(r -> r.id == id) keeps these

  predicate Matches(c: Criteria, r: Reservation)
  {
    match c
    case All => !r.deleted
    case OnCourt(courtId) => !r.deleted && r.courtId == courtId
    case ByPhoneNumber(phone, futureOnly, now) =>
      !r.deleted && r.user.phoneNumber == phone && (futureOnly ==> r.startTime > now)
    case ByUsername(username, futureOnly, now) =>
      !r.deleted && r.user.username == username && (futureOnly ==> r.startTime > now)
    case Overlapping(courtId, from, to) => !r.deleted && r.courtId == courtId && Overlaps(r, from, to)
    case OtherThan(id) => r.id != id
  }

  /** The rows that satisfy `c`, in table order, each as often as it occurs. */
  function Select(rows: seq<Reservation>, c: Criteria): (r: seq<Reservation>)
    ensures forall x :: x in r <==> x in rows && Matches(c, x)
    ensures forall x :: multiset(r)[x] == if Matches(c, x) then multiset(rows)[x] else 0
    ensures |r| <= |rows|
  {
    if rows == [] then []
    else
      assert rows == [rows[0]] + rows[1..];
      (if Matches(c, rows[0]) then [rows[0]] else []) + Select(rows[1..], c)
  }

  ghost predicate SortedByStart(s: seq<Reservation>)
  {
    forall i, j :: 0 <= i < j < |s| ==> s[i].startTime <= s[j].startTime
  }

  function Insert(x: Reservation, s: seq<Reservation>): (r: seq<Reservation>)
    requires SortedByStart(s)
    ensures SortedByStart(r)
    ensures multiset(r) == multiset(s) + multiset{x}
    ensures |r| == |s| + 1
    ensures r[0] == x || (s != [] && r[0] == s[0])
  {
    if s == [] then [x]
    else if x.startTime <= s[0].startTime then [x] + s
    else
      assert s == [s[0]] + s[1..];
      var rest := Insert(x, s[1..]);
      SortedCons(s[0], rest);
      [s[0]] + rest
  }

  /** A sorted sequence stays sorted under a head no later than its first element. */
  lemma SortedCons(a: Reservation, s: seq<Reservation>)
    requires SortedByStart(s) && (s != [] ==> a.startTime <= s[0].startTime)
    ensures SortedByStart([a] + s)
  {
    var r := [a] + s;
    forall i, j | 0 <= i < j < |r| ensures r[i].startTime <= r[j].startTime {
      if i > 0 {
        assert r[i] == s[i - 1] && r[j] == s[j - 1];
      } else {
        assert r[j] == s[j - 1];
      }
    }
  }

  /** `ORDER BY r.startTime ASC`. */
  function SortByStart(s: seq<Reservation>): (r: seq<Reservation>)
    ensures SortedByStart(r)
    ensures multiset(r) == multiset(s)
  {
    if s == [] then []
    else
      assert s == [s[0]] + s[1..];
      Insert(s[0], SortByStart(s[1..]))
  }

  /** `r` lists exactly the rows satisfying `c`, each once per occurrence, by start time. */
  ghost predicate Lists(r: seq<Reservation>, rows: seq<Reservation>, c: Criteria)
  {
    SortedByStart(r) &&
    forall x :: multiset(r)[x] == if Matches(c, x) then multiset(rows)[x] else 0
  }

  /** The listing queries: the selected rows, sorted by start time. */
  function Listing(rows: seq<Reservation>, c: Criteria): (r: seq<Reservation>)
    ensures Lists(r, rows, c)
    ensures forall x :: x in r <==> x in rows && Matches(c, x)
  {
    var r := SortByStart(Select(rows, c));
    assert forall x :: x in r <==> x in multiset(r);
    r
  }

  // Find, MarkDeleted and Replaced are this table's own copies of the helpers
  // SurfaceTypes and Courts define for theirs.

  ghost predicate UniqueIds(rows: seq<Reservation>)
  {
    forall i, j :: 0 <= i < j < |rows| ==> rows[i].id != rows[j].id
  }

  /** Two live reservations of the same court whose intervals meet. */
  predicate Clash(a: Reservation, b: Reservation)
  {
    !a.deleted && !b.deleted && a.courtId == b.courtId && Overlaps(a, b.startTime, b.endTime)
  }

  /**
   * The headline invariant: on every court the live reservations are
   * pairwise disjoint as half-open intervals.
   */
  ghost predicate NonOverlapping(rows: seq<Reservation>)
  {
    forall i, j :: 0 <= i < j < |rows| ==> !Clash(rows[i], rows[j])
  }

  /** The row with this id, deleted or not, as EntityManager.find gives it. */
  function Find(rows: seq<Reservation>, id: int): (r: Option<Reservation>)
    ensures r.Some? ==> r.value in rows && r.value.id == id
    ensures r.None? ==> forall x :: x in rows ==> x.id != id
  {
    if rows == [] then None
    else if rows[0].id == id then Some(rows[0])
    else Find(rows[1..], id)
  }

  /** The table after every row with this id was given `deleted = true`. */
  function MarkDeleted(rows: seq<Reservation>, id: int): seq<Reservation>
  {
    seq(|rows|, i requires 0 <= i < |rows| =>
      if rows[i].id == id then rows[i].(deleted := true) else rows[i])
  }

  /** The table after the row with `r.id` was replaced by `r` (EntityManager.merge). */
  function Replaced(rows: seq<Reservation>, r: Reservation): seq<Reservation>
  {
    seq(|rows|, i requires 0 <= i < |rows| => if rows[i].id == r.id then r else rows[i])
  }

  /** No live reservation of the court meets [from, to). */
  ghost predicate NoLiveOverlap(rows: seq<Reservation>, courtId: int, from: int, to: int)
  {
    forall x :: x in rows && !x.deleted && x.courtId == courtId ==> !Overlaps(x, from, to)
  }

  /**
   * Appending a reservation that meets no live reservation of its court keeps every court free of overlaps.
   */
  lemma {:induction false} SavePreservesNonOverlap(rows: seq<Reservation>, r: Reservation)
    requires NonOverlapping(rows)
    requires NoLiveOverlap(rows, r.courtId, r.startTime, r.endTime)
    ensures NonOverlapping(rows + [r])
  {
    var after := rows + [r];
    forall i, j | 0 <= i < j < |after| ensures !Clash(after[i], after[j]) {
      if j == |rows| {
        assert after[i] in rows;
      } else {
        assert after[i] == rows[i] && after[j] == rows[j];
      }
    }
  }

  /** A row other than `r` that the id-filtered overlap query did not return cannot clash with `r`. */
  lemma NoClashWithUpdated(rows: seq<Reservation>, r: Reservation, y: Reservation)
    requires y in rows && y.id != r.id
    requires Select(Select(rows, Overlapping(r.courtId, r.startTime, r.endTime)), OtherThan(r.id)) == []
    ensures !Clash(r, y) && !Clash(y, r)
  {
    var c := Overlapping(r.courtId, r.startTime, r.endTime);
    assert y !in Select(Select(rows, c), OtherThan(r.id));
    assert y !in Select(rows, c);
  }

  /**
   * Replacing the row with `r.id` by `r` keeps every court free of overlaps
   * when the overlap query on r's court and interval, with r's own id
   * removed, came back empty.
   */
  lemma {:induction false} UpdatePreservesNonOverlap(rows: seq<Reservation>, r: Reservation)
    requires UniqueIds(rows) && NonOverlapping(rows)
    requires Select(Select(rows, Overlapping(r.courtId, r.startTime, r.endTime)), OtherThan(r.id)) == []
    ensures NonOverlapping(Replaced(rows, r))
    ensures UniqueIds(Replaced(rows, r))
  {
    var after := Replaced(rows, r);
    forall i, j | 0 <= i < j < |after| ensures !Clash(after[i], after[j]) {
      if rows[i].id == r.id {
        assert rows[j] in rows;
        NoClashWithUpdated(rows, r, rows[j]);
      } else if rows[j].id == r.id {
        assert rows[i] in rows;
        NoClashWithUpdated(rows, r, rows[i]);
      } else {
        assert !Clash(rows[i], rows[j]);
      }
    }
  }

  /** Soft deletion only takes rows out of the live set, so no overlap can appear. */
  lemma SoftDeletePreservesNonOverlap(rows: seq<Reservation>, id: int)
    requires UniqueIds(rows) && NonOverlapping(rows)
    ensures NonOverlapping(MarkDeleted(rows, id)) && UniqueIds(MarkDeleted(rows, id))
  {
    var after := MarkDeleted(rows, id);
    forall i, j | 0 <= i < j < |after| ensures !Clash(after[i], after[j]) {
      assert !Clash(rows[i], rows[j]);
    }
  }

  /**
   * An overlap set that holds nothing but the reservation itself is empty
   * once that reservation's id is filtered out.
   */
  lemma SelfOverlapIgnored(rows: seq<Reservation>, c: Criteria, id: int)
    requires forall x :: x in Select(rows, c) ==> x.id == id
    ensures Select(Select(rows, c), OtherThan(id)) == []
  {
    var s := Select(Select(rows, c), OtherThan(id));
    assert forall x :: x in s ==> false;
    if s != [] {
      assert false;
    }
  }

  /**
   * Back-to-back bookings are accepted: when every live reservation of the
   * court ends by `from` or starts at `to` or later, the overlap query
   * finds nothing. Touching endpoints do not conflict.
   */
  lemma BackToBackIsNoConflict(rows: seq<Reservation>, courtId: int, from: int, to: int)
    requires forall x :: x in rows && !x.deleted && x.courtId == courtId ==>
      x.endTime <= from || x.startTime >= to
    ensures Select(rows, Overlapping(courtId, from, to)) == []
  {
    var s := Select(rows, Overlapping(courtId, from, to));
    assert forall x :: x in s ==> false;
    if s != [] {
      assert false;
    }
  }

  /** Soft deletion keeps every row and id in place; the row drops out of every listing. */
  lemma {:induction false} MarkDeletedHidesRow(rows: seq<Reservation>, id: int, c: Criteria)
    requires !c.OtherThan?
    ensures |MarkDeleted(rows, id)| == |rows|
    ensures forall i :: 0 <= i < |rows| ==> MarkDeleted(rows, id)[i].id == rows[i].id
    ensures forall x :: x in Select(MarkDeleted(rows, id), c) ==> x.id != id && x in rows
  {
    var after := MarkDeleted(rows, id);
    forall x | x in Select(after, c) ensures x.id != id && x in rows {
      var i :| 0 <= i < |after| && after[i] == x;
      assert rows[i] == x;
    }
  }

  class ReservationRepository {
    var rows: seq<Reservation>
    var nextId: int

    ghost predicate Valid()
      reads this
    {
      UniqueIds(rows) && UnsavedId < nextId &&
      forall x :: x in rows ==> UnsavedId < x.id < nextId
    }

    constructor ()
      ensures Valid() && rows == []
    {
      rows := [];
      nextId := UnsavedId + 1;
    }

    /** findById: the reservation with this id, unless it is absent or soft-deleted. */
    function FindById(id: int): (r: Option<Reservation>)
      reads this
      requires Valid()
      ensures r.Some? <==> exists x :: x in rows && x.id == id && !x.deleted
      ensures r.Some? ==> r.value in rows && r.value.id == id && !r.value.deleted
    {
      match Find(rows, id)
      case Some(x) => if !x.deleted then Some(x) else None
      case None => None
    }

    /** findAllByCourtId: the live reservations of the court, by start time. */
    function FindAllByCourtId(courtId: int): (r: seq<Reservation>)
      reads this
      ensures SortedByStart(r)
      ensures forall x :: x in r <==> x in rows && !x.deleted && x.courtId == courtId
      ensures Lists(r, rows, OnCourt(courtId))
    {
      Listing(rows, OnCourt(courtId))
    }

    /**
     * findByPhoneNumber: the live reservations of the user with this phone
     * number, by start time; with futureOnly, only those starting after now.
     */
    function FindByPhoneNumber(phoneNumber: string, futureOnly: bool, now: int): (r: seq<Reservation>)
      reads this
      ensures SortedByStart(r)
      ensures forall x :: x in r <==>
        (x in rows && !x.deleted && x.user.phoneNumber == phoneNumber && (futureOnly ==> x.startTime > now))
      ensures Lists(r, rows, ByPhoneNumber(phoneNumber, futureOnly, now))
    {
      Listing(rows, ByPhoneNumber(phoneNumber, futureOnly, now))
    }

    /**
     * findOverlappingReservations: the live reservations of the court whose
     * interval meets [from, to), in table order.
     */
    function FindOverlappingReservations(courtId: int, from: int, to: int): (r: seq<Reservation>)
      reads this
      ensures forall x :: x in r <==>
        (x in rows && !x.deleted && x.courtId == courtId && x.startTime < to && x.endTime > from)
    {
      Select(rows, Overlapping(courtId, from, to))
    }

    /** findAll: every live reservation, by start time. */
    function FindAll(): (r: seq<Reservation>)
      reads this
      ensures SortedByStart(r)
      ensures forall x :: x in r <==> x in rows && !x.deleted
      ensures Lists(r, rows, All)
    {
      Listing(rows, All)
    }

    /**
     * findByUsername: the live reservations of the user with this username,
     * by start time; with futureOnly, only those starting after now.
     */
    function FindByUsername(username: string, futureOnly: bool, now: int): (r: seq<Reservation>)
      reads this
      ensures SortedByStart(r)
      ensures forall x :: x in r <==>
        (x in rows && !x.deleted && x.user.username == username && (futureOnly ==> x.startTime > now))
      ensures Lists(r, rows, ByUsername(username, futureOnly, now))
    {
      Listing(rows, ByUsername(username, futureOnly, now))
    }

    /** save (persist): the reservation is added under a fresh id and returned. */
    method Save(reservation: Reservation) returns (saved: Reservation)
      requires Valid()
      modifies this
      ensures Valid()
      ensures saved == reservation.(id := old(nextId))
      ensures rows == old(rows) + [saved] && nextId == old(nextId) + 1
    {
      saved := reservation.(id := nextId);
      rows := rows + [saved];
      nextId := nextId + 1;
    }

    /** update (merge): the stored row with the same id is replaced and returned. */
    method Update(reservation: Reservation) returns (merged: Reservation)
      requires Valid()
      modifies this
      ensures Valid()
      ensures merged == reservation
      ensures rows == Replaced(old(rows), reservation) && nextId == old(nextId)
    {
      rows := Replaced(rows, reservation);
      merged := reservation;
    }

    /**
     * softDelete: false, with nothing changed, when the row is absent or
     * already deleted; otherwise the row stays in the table flagged
     * deleted, and true is returned.
     */
    method SoftDelete(id: int) returns (ok: bool)
      requires Valid()
      modifies this
      ensures Valid()
      ensures ok <==> old(FindById(id)).Some?
      ensures rows == (if ok then MarkDeleted(old(rows), id) else old(rows))
      ensures nextId == old(nextId)
    {
      var r := Find(rows, id);
      if r.None? || r.value.deleted {
        return false;
      }
      rows := MarkDeleted(rows, id);
      ok := true;
    }
  }
}
