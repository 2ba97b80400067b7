/**
 * RefreshTokens: the refresh-token table (RefreshTokenRepository) and
 * RefreshTokenService, which keeps one token per user and rejects
 * expired ones.
 */
module RefreshTokens {
  import opened Common
  import opened Errors
  import Users

  /** A refresh token row; `expiryDate` is an instant in seconds on the same clock as `now`. */
  datatype RefreshToken = RefreshToken(id: int, token: string, expiryDate: int, user: Users.User)

  const ExpiredReason: string := "Refresh accessToken expired. Please sign in again."

  /** isExpired: strictly after the expiry instant; at the instant itself the token still holds. */
  predicate IsExpired(t: RefreshToken, now: int)
  {
    now > t.expiryDate
  }

  /** `WHERE r.token = :token`, first result. */
  function FirstWithToken(rows: seq<RefreshToken>, tokenValue: string): (r: Option<RefreshToken>)
    ensures r.Some? <==> exists t :: t in rows && t.token == tokenValue
    ensures r.Some? ==> exists i :: 0 <= i < |rows| && rows[i] == r.value && r.value.token == tokenValue &&
                                    forall j :: 0 <= j < i ==> rows[j].token != tokenValue
  {
    if rows == [] then None
    else if rows[0].token == tokenValue then Some(rows[0])
    else
      var r := FirstWithToken(rows[1..], tokenValue);
      assert r.Some? ==> exists i :: 0 <= i < |rows[1..]| && rows[1..][i] == r.value &&
                                     forall j :: 0 <= j < i ==> rows[1..][j].token != tokenValue;
      assert r.Some? ==> exists i :: 1 <= i < |rows| && rows[i] == r.value &&
                                     forall j :: 1 <= j < i ==> rows[j].token != tokenValue;
      r
  }

  /** `DELETE … WHERE r.user = :user`: the rows of other users, in order. Users are compared by id. */
  function WithoutUser(rows: seq<RefreshToken>, userId: int): (r: seq<RefreshToken>)
    ensures forall t :: t in r <==> t in rows && t.user.id != userId
    ensures |r| <= |rows|
  {
    if rows == [] then []
    else (if rows[0].user.id != userId then [rows[0]] else []) + WithoutUser(rows[1..], userId)
  }

  /** `DELETE … WHERE r.token = :token`: the rows with another value, in order. */
  function WithoutToken(rows: seq<RefreshToken>, tokenValue: string): (r: seq<RefreshToken>)
    ensures forall t :: t in r <==> t in rows && t.token != tokenValue
    ensures |r| <= |rows|
  {
    if rows == [] then []
    else (if rows[0].token != tokenValue then [rows[0]] else []) + WithoutToken(rows[1..], tokenValue)
  }

  /** The tokens a user holds, in table order. */
  function TokensOf(rows: seq<RefreshToken>, userId: int): (r: seq<RefreshToken>)
    ensures forall t :: t in r <==> t in rows && t.user.id == userId
  {
    if rows == [] then []
    else (if rows[0].user.id == userId then [rows[0]] else []) + TokensOf(rows[1..], userId)
  }

  lemma {:induction false} TokensOfAppend(a: seq<RefreshToken>, b: seq<RefreshToken>, userId: int)
    ensures TokensOf(a + b, userId) == TokensOf(a, userId) + TokensOf(b, userId)
  {
    if a == [] {
      assert a + b == b;
    } else {
      assert (a + b)[1..] == a[1..] + b;
      TokensOfAppend(a[1..], b, userId);
    }
  }

  /** After deleting a user's tokens, that user holds none and every other user keeps all of theirs, in order. */
  lemma {:induction false} WithoutUserTokens(rows: seq<RefreshToken>, userId: int, other: int)
    ensures TokensOf(WithoutUser(rows, userId), userId) == []
    ensures other != userId ==> TokensOf(WithoutUser(rows, userId), other) == TokensOf(rows, other)
  {
    if rows != [] {
      var head := if rows[0].user.id != userId then [rows[0]] else [];
      WithoutUserTokens(rows[1..], userId, other);
      TokensOfAppend(head, WithoutUser(rows[1..], userId), userId);
      TokensOfAppend(head, WithoutUser(rows[1..], userId), other);
    }
  }

  /**
   * Deleting a user's tokens and appending one new token for them leaves
   * that user holding exactly the new token and every other user's tokens
   * as they were.
   */
  lemma ReissueLeavesOneToken(rows: seq<RefreshToken>, t: RefreshToken, other: int)
    ensures TokensOf(WithoutUser(rows, t.user.id) + [t], t.user.id) == [t]
    ensures other != t.user.id ==> TokensOf(WithoutUser(rows, t.user.id) + [t], other) == TokensOf(rows, other)
  {
    WithoutUserTokens(rows, t.user.id, other);
    TokensOfAppend(WithoutUser(rows, t.user.id), [t], t.user.id);
    TokensOfAppend(WithoutUser(rows, t.user.id), [t], other);
  }

  class RefreshTokenRepository {
    var rows: seq<RefreshToken>
    var nextId: int

    ghost predicate Valid()
      reads this
    {
      UnsavedId < nextId && forall t :: t in rows ==> UnsavedId < t.id < nextId
    }

    constructor ()
      ensures Valid() && rows == []
    {
      rows := [];
      nextId := UnsavedId + 1;
    }

    /** findByToken: the first row with this value, or empty. */
    function FindByToken(tokenValue: string): (r: Option<RefreshToken>)
      reads this
      ensures r.Some? <==> exists t :: t in rows && t.token == tokenValue
      ensures r.Some? ==> r.value in rows && r.value.token == tokenValue
      ensures r.Some? ==> exists i :: 0 <= i < |rows| && rows[i] == r.value &&
                                      forall j :: 0 <= j < i ==> rows[j].token != tokenValue
    {
      FirstWithToken(rows, tokenValue)
    }

    /** deleteByUser: every row of this user goes, every other row stays. */
    method DeleteByUser(user: Users.User)
      requires Valid()
      modifies this
      ensures Valid()
      ensures rows == WithoutUser(old(rows), user.id) && nextId == old(nextId)
    {
      rows := WithoutUser(rows, user.id);
    }

    /** deleteByToken: every row with this value goes, every other row stays; no match is no change. */
    method DeleteByToken(tokenValue: string)
      requires Valid()
      modifies this
      ensures Valid()
      ensures rows == WithoutToken(old(rows), tokenValue) && nextId == old(nextId)
    {
      rows := WithoutToken(rows, tokenValue);
    }

    /** save (persist): the token is appended under a fresh id and returned. */
    method Save(refreshToken: RefreshToken) returns (saved: RefreshToken)
      requires Valid()
      modifies this
      ensures Valid()
      ensures saved == refreshToken.(id := old(nextId))
      ensures rows == old(rows) + [saved] && nextId == old(nextId) + 1
    {
      saved := refreshToken.(id := nextId);
      rows := rows + [saved];
      nextId := nextId + 1;
    }
  }

  class RefreshTokenService {
    const refreshTokenRepository: RefreshTokenRepository
    /** `jwt.refreshTokenDuration`, in seconds. */
    const refreshTokenDuration: int

    constructor (refreshTokenRepository: RefreshTokenRepository, refreshTokenDuration: int)
      requires refreshTokenRepository.Valid()
      ensures this.refreshTokenRepository == refreshTokenRepository
      ensures this.refreshTokenDuration == refreshTokenDuration
      ensures Valid()
    {
      this.refreshTokenRepository := refreshTokenRepository;
      this.refreshTokenDuration := refreshTokenDuration;
    }

    ghost predicate Valid()
      reads refreshTokenRepository
    {
      refreshTokenRepository.Valid()
    }

    /**
     * createRefreshToken: the user's old tokens are deleted, then one token
     * with the given value, expiring at now + refreshTokenDuration, is
     * saved. The user then holds exactly that token; other users' tokens
     * are untouched.
     */
    method CreateRefreshToken(user: Users.User, tokenValue: string, now: int)
      requires Valid()
      modifies refreshTokenRepository
      ensures Valid()
      ensures var issued := RefreshToken(old(refreshTokenRepository.nextId), tokenValue, now + refreshTokenDuration, user);
        && refreshTokenRepository.rows == WithoutUser(old(refreshTokenRepository.rows), user.id) + [issued]
        && TokensOf(refreshTokenRepository.rows, user.id) == [issued]
      ensures forall other :: other != user.id ==>
        TokensOf(refreshTokenRepository.rows, other) == TokensOf(old(refreshTokenRepository.rows), other)
    {
      var before := refreshTokenRepository.rows;
      refreshTokenRepository.DeleteByUser(user);
      var refreshToken := RefreshToken(UnsavedId, tokenValue, now + refreshTokenDuration, user);
      var saved := refreshTokenRepository.Save(refreshToken);
      forall other | true
        ensures TokensOf(WithoutUser(before, user.id) + [saved], user.id) == [saved]
        ensures other != user.id ==> TokensOf(WithoutUser(before, user.id) + [saved], other) == TokensOf(before, other)
      {
        ReissueLeavesOneToken(before, saved, other);
      }
    }

    /** findByToken: the first row with this value, or empty. */
    function FindByToken(tokenValue: string): (r: Option<RefreshToken>)
      reads refreshTokenRepository
      ensures r.Some? <==> exists t :: t in refreshTokenRepository.rows && t.token == tokenValue
      ensures r.Some? ==> r.value in refreshTokenRepository.rows && r.value.token == tokenValue
      ensures var rows := refreshTokenRepository.rows;
        r.Some? ==> exists i :: 0 <= i < |rows| && rows[i] == r.value &&
                                forall j :: 0 <= j < i ==> rows[j].token != tokenValue
    {
      refreshTokenRepository.FindByToken(tokenValue)
    }

    /**
     * verifyExpiration: a token that has not expired comes back and the
     * table is untouched; an expired one has every row with its value
     * deleted and fails FORBIDDEN.
     */
    method VerifyExpiration(token: RefreshToken, now: int) returns (res: Result<RefreshToken>)
      requires Valid()
      modifies refreshTokenRepository
      ensures Valid()
      ensures refreshTokenRepository.nextId == old(refreshTokenRepository.nextId)
      ensures IsExpired(token, now) ==>
        res == Err(ResponseStatus(Forbidden, ExpiredReason)) &&
        refreshTokenRepository.rows == WithoutToken(old(refreshTokenRepository.rows), token.token)
      ensures !IsExpired(token, now) ==>
        res == Ok(token) && refreshTokenRepository.rows == old(refreshTokenRepository.rows)
    {
      if IsExpired(token, now) {
        DeleteByToken(token.token);
        return Err(ResponseStatus(Forbidden, ExpiredReason));
      }
      res := Ok(token);
    }

    /** deleteByToken: every row with this value goes; no match is no change and no error. */
    method DeleteByToken(tokenValue: string)
      requires Valid()
      modifies refreshTokenRepository
      ensures Valid()
      ensures refreshTokenRepository.rows == WithoutToken(old(refreshTokenRepository.rows), tokenValue)
      ensures refreshTokenRepository.nextId == old(refreshTokenRepository.nextId)
    {
      refreshTokenRepository.DeleteByToken(tokenValue);
    }
  }

  /** Deleting a value nobody holds changes nothing. */
  lemma {:induction false} WithoutAbsentToken(rows: seq<RefreshToken>, tokenValue: string)
    requires forall t :: t in rows ==> t.token != tokenValue
    ensures WithoutToken(rows, tokenValue) == rows
  {
    if rows != [] {
      assert rows[0] in rows;
      assert forall t :: t in rows[1..] ==> t in rows;
      WithoutAbsentToken(rows[1..], tokenValue);
      assert rows == [rows[0]] + rows[1..];
    }
  }
}
