/**
 * Auth: AuthService's registration, refresh-token rotation and logout.
 * Password hashing and token minting are parameters: `encode` stands for
 * the password encoder, and the new token strings are passed in.
 */
module Auth {
  import opened Common
  import opened Errors
  import Users
  import opened RefreshTokens

  datatype RegistRequestDto = RegistRequestDto(username: string, phoneNumber: string, password: string)

  datatype TokenResponseDto = TokenResponseDto(accessToken: string, refreshToken: string)

  const InvalidTokenReason: string := "Invalid refresh accessToken"

  /** The user register builds: a live member with the request's names and the encoded password. */
  function NewMember(request: RegistRequestDto, encode: string -> string): (u: Users.User)
    ensures u.id == UnsavedId && !u.deleted && u.roles == {Users.MEMBER}
    ensures u.username == request.username && u.phoneNumber == request.phoneNumber
    ensures u.password == encode(request.password)
  {
    Users.User(UnsavedId, request.phoneNumber, request.username, encode(request.password), false, {Users.MEMBER})
  }

  class AuthService {
    const refreshTokenService: RefreshTokenService
    const userService: Users.UserService

    constructor (refreshTokenService: RefreshTokenService, userService: Users.UserService)
      requires refreshTokenService.Valid() && userService.Valid()
      ensures this.refreshTokenService == refreshTokenService && this.userService == userService
      ensures Valid()
    {
      this.refreshTokenService := refreshTokenService;
      this.userService := userService;
    }

    ghost predicate Valid()
      reads refreshTokenService.refreshTokenRepository, userService.userRepository
    {
      refreshTokenService.Valid() && userService.Valid()
    }

    /**
     * register: a username already in the table, deleted rows included,
     * fails CONFLICT before the phone number is looked at; a phone number
     * already in the table then fails CONFLICT. Either way nothing is
     * saved. Otherwise exactly one new member is saved.
     */
    method Register(request: RegistRequestDto, encode: string -> string) returns (res: Result<()>)
      requires Valid()
      modifies userService.userRepository
      ensures Valid()
      ensures var usernameTaken := old(userService.UserWithUsernameExists(request.username));
        var phoneTaken := old(userService.UserWithPhoneNumberExists(request.phoneNumber));
        && (usernameTaken ==>
              res == Err(ResponseStatus(Conflict, "Username " + request.username + " already taken")))
        && (!usernameTaken && phoneTaken ==>
              res == Err(ResponseStatus(Conflict, "Phone number " + request.phoneNumber + " already taken")))
        && (!usernameTaken && !phoneTaken ==>
              res == Ok(()) &&
              userService.userRepository.rows ==
                old(userService.userRepository.rows) + [NewMember(request, encode).(id := old(userService.userRepository.nextId))])
      ensures res.Err? ==> userService.userRepository.rows == old(userService.userRepository.rows)
    {
      if userService.UserWithUsernameExists(request.username) {
        return Err(ResponseStatus(Conflict, "Username " + request.username + " already taken"));
      }
      if userService.UserWithPhoneNumberExists(request.phoneNumber) {
        return Err(ResponseStatus(Conflict, "Phone number " + request.phoneNumber + " already taken"));
      }
      var user := NewMember(request, encode);
      var _ := userService.Save(user);
      res := Ok(());
    }

    /**
     * refresh: an unknown token fails FORBIDDEN with no change; an expired
     * one is deleted and fails FORBIDDEN. Otherwise the old token is
     * deleted and the token's user is issued the new refresh token, which
     * comes back with the new access token.
     */
    method Refresh(refreshToken: string, now: int, newAccessToken: string, newRefreshToken: string)
      returns (res: Result<TokenResponseDto>)
      requires Valid()
      modifies refreshTokenService.refreshTokenRepository
      ensures Valid()
      ensures old(refreshTokenService.FindByToken(refreshToken)).None? ==>
        res == Err(ResponseStatus(Forbidden, InvalidTokenReason)) &&
        refreshTokenService.refreshTokenRepository.rows == old(refreshTokenService.refreshTokenRepository.rows)
      ensures var found := old(refreshTokenService.FindByToken(refreshToken));
        found.Some? && IsExpired(found.value, now) ==>
          res == Err(ResponseStatus(Forbidden, ExpiredReason)) &&
          refreshTokenService.refreshTokenRepository.rows ==
            WithoutToken(old(refreshTokenService.refreshTokenRepository.rows), refreshToken)
      ensures var found := old(refreshTokenService.FindByToken(refreshToken));
        found.Some? && !IsExpired(found.value, now) ==>
          var issued := RefreshToken(old(refreshTokenService.refreshTokenRepository.nextId), newRefreshToken,
                                     now + refreshTokenService.refreshTokenDuration, found.value.user);
          && res == Ok(TokenResponseDto(newAccessToken, newRefreshToken))
          && refreshTokenService.refreshTokenRepository.rows ==
               WithoutUser(WithoutToken(old(refreshTokenService.refreshTokenRepository.rows), refreshToken),
                           found.value.user.id) + [issued]
          && TokensOf(refreshTokenService.refreshTokenRepository.rows, found.value.user.id) == [issued]
          && (refreshToken != newRefreshToken ==>
                forall t :: t in refreshTokenService.refreshTokenRepository.rows ==> t.token != refreshToken)
    {
      var tokens := refreshTokenService;
      var found := tokens.FindByToken(refreshToken);
      if found.None? {
        return Err(ResponseStatus(Forbidden, InvalidTokenReason));
      }
      var verified := tokens.VerifyExpiration(found.value, now);
      if verified.Err? {
        return Err(verified.error);
      }
      res := Reissue(verified.value.user, refreshToken, now, newAccessToken, newRefreshToken);
    }

    /**
     * The step refresh takes for a valid token: the old value is deleted,
     * the user is issued the new refresh token, and both new tokens are
     * returned.
     */
    method Reissue(user: Users.User, refreshToken: string, now: int, newAccessToken: string, newRefreshToken: string)
      returns (res: Result<TokenResponseDto>)
      requires Valid()
      modifies refreshTokenService.refreshTokenRepository
      ensures Valid()
      ensures var issued := RefreshToken(old(refreshTokenService.refreshTokenRepository.nextId), newRefreshToken,
                                         now + refreshTokenService.refreshTokenDuration, user);
        && res == Ok(TokenResponseDto(newAccessToken, newRefreshToken))
        && refreshTokenService.refreshTokenRepository.rows ==
             WithoutUser(WithoutToken(old(refreshTokenService.refreshTokenRepository.rows), refreshToken), user.id) + [issued]
        && TokensOf(refreshTokenService.refreshTokenRepository.rows, user.id) == [issued]
      ensures refreshToken != newRefreshToken ==>
        forall t :: t in refreshTokenService.refreshTokenRepository.rows ==> t.token != refreshToken
    {
      var tokens := refreshTokenService;
      tokens.DeleteByToken(refreshToken);
      ghost var afterDelete := tokens.refreshTokenRepository.rows;
      tokens.CreateRefreshToken(user, newRefreshToken, now);
      RotationDropsOldToken(afterDelete, refreshToken, user.id, tokens.refreshTokenRepository.rows);
      res := Ok(TokenResponseDto(newAccessToken, newRefreshToken));
    }

    /** logout: an unknown token fails BAD_REQUEST with no change; a known one is deleted. */
    method Logout(refreshToken: string) returns (res: Result<()>)
      requires Valid()
      modifies refreshTokenService.refreshTokenRepository
      ensures Valid()
      ensures var before := old(refreshTokenService.refreshTokenRepository.rows);
        && (old(refreshTokenService.FindByToken(refreshToken)).None? ==>
              res == Err(ResponseStatus(BadRequest, InvalidTokenReason)) &&
              refreshTokenService.refreshTokenRepository.rows == before)
        && (old(refreshTokenService.FindByToken(refreshToken)).Some? ==>
              res == Ok(()) && refreshTokenService.refreshTokenRepository.rows == WithoutToken(before, refreshToken))
    {
      var found := refreshTokenService.FindByToken(refreshToken);
      if found.None? {
        return Err(ResponseStatus(BadRequest, InvalidTokenReason));
      }
      refreshTokenService.DeleteByToken(refreshToken);
      res := Ok(());
    }
  }

  /**
   * After the rotation's delete-by-value, delete-by-user and append of a
   * different value, no row carries the old value.
   */
  lemma RotationDropsOldToken(afterDelete: seq<RefreshToken>, oldValue: string, userId: int, rows: seq<RefreshToken>)
    requires forall t :: t in afterDelete ==> t.token != oldValue
    requires |rows| > 0 && rows[..|rows| - 1] == WithoutUser(afterDelete, userId)
    ensures rows[|rows| - 1].token != oldValue ==> forall t :: t in rows ==> t.token != oldValue
  {
    assert rows == rows[..|rows| - 1] + [rows[|rows| - 1]];
  }
}
