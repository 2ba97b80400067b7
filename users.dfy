/** Users: the entity, the user table (UserRepository) and UserService. */
module Users {
  import opened Common
  import opened Errors

  datatype Role = MEMBER | ADMIN

  /**
   * A club member. The database keeps `phoneNumber` and `username`
   * unique across the whole table, deleted rows included.
   */
  datatype User = User(id: int, phoneNumber: string, username: string, password: string,
                       deleted: bool, roles: set<Role>)

  datatype UserResponseDto = UserResponseDto(id: int, phoneNumber: string, username: string)

  ghost predicate UniqueColumns(rows: seq<User>)
  {
    forall i, j :: 0 <= i < j < |rows| ==>
      rows[i].id != rows[j].id && rows[i].username != rows[j].username &&
      rows[i].phoneNumber != rows[j].phoneNumber
  }

  /** Whether some row, deleted or not, already has this user's username or phone number. */
  predicate Clashes(rows: seq<User>, user: User)
  {
    exists u :: u in rows && (u.username == user.username || u.phoneNumber == user.phoneNumber)
  }

  /** `WHERE u.phoneNumber = :phone AND u.deleted = false`, first match. */
  function FindLivePhone(rows: seq<User>, phoneNumber: string): (r: Option<User>)
    ensures r.Some? <==> exists u :: u in rows && u.phoneNumber == phoneNumber && !u.deleted
    ensures r.Some? ==> r.value in rows && r.value.phoneNumber == phoneNumber && !r.value.deleted
  {
    if rows == [] then None
    else if rows[0].phoneNumber == phoneNumber && !rows[0].deleted then Some(rows[0])
    else FindLivePhone(rows[1..], phoneNumber)
  }

  /** `WHERE u.username = :username`, first match; the deleted flag is not consulted. */
  function FindUsername(rows: seq<User>, username: string): (r: Option<User>)
    ensures r.Some? <==> exists u :: u in rows && u.username == username
    ensures r.Some? ==> r.value in rows && r.value.username == username
  {
    if rows == [] then None
    else if rows[0].username == username then Some(rows[0])
    else FindUsername(rows[1..], username)
  }

  class UserRepository {
    var rows: seq<User>
    var nextId: int

    ghost predicate Valid()
      reads this
    {
      UniqueColumns(rows) && UnsavedId < nextId &&
      forall u :: u in rows ==> UnsavedId < u.id < nextId
    }

    constructor ()
      ensures Valid() && rows == []
    {
      rows := [];
      nextId := UnsavedId + 1;
    }

    /**
     * save (persist): the user is inserted under a fresh id and returned.
     * An insert that repeats a username or phone number already in the
     * table, deleted rows included, is refused by the database and changes
     * nothing.
     */
    method Save(user: User) returns (res: Result<User>)
      requires Valid()
      modifies this
      ensures Valid()
      ensures var clash := Clashes(old(rows), user);
        && (clash ==> res == Err(DataIntegrityViolation) && rows == old(rows) && nextId == old(nextId))
        && (!clash ==> res == Ok(user.(id := old(nextId))) &&
                       rows == old(rows) + [res.value] && nextId == old(nextId) + 1)
    {
      if FindUsername(rows, user.username).Some? {
        return Err(DataIntegrityViolation);
      }
      if exists u :: u in rows && u.phoneNumber == user.phoneNumber {
        return Err(DataIntegrityViolation);
      }
      var saved := user.(id := nextId);
      rows := rows + [saved];
      nextId := nextId + 1;
      res := Ok(saved);
    }

    /** findByPhoneNumber: the live user with this phone number, if any. */
    function FindByPhoneNumber(phoneNumber: string): (r: Option<User>)
      reads this
      ensures r.Some? <==> exists u :: u in rows && u.phoneNumber == phoneNumber && !u.deleted
      ensures r.Some? ==> r.value in rows && r.value.phoneNumber == phoneNumber && !r.value.deleted
    {
      FindLivePhone(rows, phoneNumber)
    }

    /** findByUsername: the user with this username, even a soft-deleted one. */
    function FindByUsername(username: string): (r: Option<User>)
      reads this
      ensures r.Some? <==> exists u :: u in rows && u.username == username
      ensures r.Some? ==> r.value in rows && r.value.username == username
    {
      FindUsername(rows, username)
    }
  }

  class UserService {
    const userRepository: UserRepository

    constructor (userRepository: UserRepository)
      requires userRepository.Valid()
      ensures this.userRepository == userRepository
      ensures Valid()
    {
      this.userRepository := userRepository;
    }

    ghost predicate Valid()
      reads userRepository
    {
      userRepository.Valid()
    }

    /** save: what the repository saved, or its refusal. */
    method Save(user: User) returns (res: Result<User>)
      requires Valid()
      modifies userRepository
      ensures Valid()
      ensures var clash := Clashes(old(userRepository.rows), user);
        && (clash ==> res == Err(DataIntegrityViolation) && userRepository.rows == old(userRepository.rows))
        && (!clash ==> res == Ok(user.(id := old(userRepository.nextId))) &&
                       userRepository.rows == old(userRepository.rows) + [res.value])
      ensures res.Err? ==> userRepository.nextId == old(userRepository.nextId)
    {
      res := userRepository.Save(user);
    }

    /** findByPhoneNumberOrThrow: the live user with this phone, or NOT_FOUND. */
    function FindByPhoneNumberOrThrow(phoneNumber: string): (r: Result<User>)
      reads userRepository
      ensures r.Ok? <==> exists u :: u in userRepository.rows && u.phoneNumber == phoneNumber && !u.deleted
      ensures r.Ok? ==> r.value in userRepository.rows && r.value.phoneNumber == phoneNumber && !r.value.deleted
      ensures r.Err? ==> r.error == ResponseStatus(NotFound, "User with phone number " + phoneNumber + " not found")
    {
      match userRepository.FindByPhoneNumber(phoneNumber)
      case Some(user) => Ok(user)
      case None => Err(ResponseStatus(NotFound, "User with phone number " + phoneNumber + " not found"))
    }

    /**
     * findByUsernameOrThrow: the user with this username, or NOT_FOUND.
     * A soft-deleted user is returned too.
     */
    function FindByUsernameOrThrow(username: string): (r: Result<User>)
      reads userRepository
      ensures r.Ok? <==> exists u :: u in userRepository.rows && u.username == username
      ensures r.Ok? ==> r.value in userRepository.rows && r.value.username == username
      ensures r.Err? ==> r.error == ResponseStatus(NotFound, "User not found with username: " + username)
    {
      match userRepository.FindByUsername(username)
      case Some(user) => Ok(user)
      case None => Err(ResponseStatus(NotFound, "User not found with username: " + username))
    }

    /** Whether any row, deleted or not, has this username. */
    predicate UserWithUsernameExists(username: string)
      reads userRepository
    {
      exists u :: u in userRepository.rows && u.username == username
    }

    /** Whether any row, deleted or not, has this phone number. */
    predicate UserWithPhoneNumberExists(phoneNumber: string)
      reads userRepository
    {
      exists u :: u in userRepository.rows && u.phoneNumber == phoneNumber
    }
  }

  /** A soft-deleted user is still found by username, but no longer by phone number. */
  lemma {:induction false} DeletedUserFoundOnlyByUsername(rows: seq<User>, i: nat)
    requires UniqueColumns(rows)
    requires i < |rows| && rows[i].deleted
    ensures FindUsername(rows, rows[i].username) == Some(rows[i])
    ensures FindLivePhone(rows, rows[i].phoneNumber).None?
  {
    var u := FindUsername(rows, rows[i].username).value;
    var j :| 0 <= j < |rows| && rows[j] == u;
    assert j == i;
  }
}
