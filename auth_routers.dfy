/**
 * The account endpoints (src/auth/routers.py). Each handler takes what its FastAPI
 * dependencies resolve to: the form, the refresh guard's claims, or the current user
 * (which is `None` when the token's subject no longer exists).
 */
module AuthRouters {
  import opened Wrappers
  import opened Errors
  import opened AuthUtils
  import opened Store
  import opened UserService
  import opened AuthDependencies

  /** The OAuth2 password-grant form. */
  datatype LoginForm = LoginForm(username: string, password: string)

  /** The JSON body of a successful login. */
  datatype LoginResponse = LoginResponse(accessToken: Token, refreshToken: Token, tokenType: string)

  /** The body of a change-password request. */
  datatype UserChangePasswordRequest = UserChangePasswordRequest(
    oldPassword: string,
    newPassword: string,
    confirmNewPassword: string)

  const INCORRECT_CREDENTIALS := HttpException(HTTP_401_UNAUTHORIZED, "Incorrect username or password")
  const USER_ALREADY_EXISTS := HttpException(HTTP_404_NOT_FOUND, "User with this email and username already exists")
  const REFRESH_EXPIRED := HttpException(HTTP_400_BAD_REQUEST, "Token is invalid or expired")
  const PASSWORD_INCORRECT := HttpException(HTTP_400_BAD_REQUEST, "password incorrect")
  const PASSWORD_NOT_MATCH := HttpException(HTTP_400_BAD_REQUEST, "password not match")
  const PASSWORD_CHANGED := "Password has been changed successfully"

  /** The refresh token's lifetime, `timedelta(days=REFRESH_TOKEN_EXPIRE_DATES)`, in seconds. */
  function RefreshDelta(cfg: Config): int
  {
    cfg.refreshTokenExpireDates * SECONDS_PER_DAY
  }

  /**
   * `login_for_access_token`: an unknown username or a failed password check gives 401 and
   * no tokens; otherwise an access token with the default lifetime and a refresh token
   * with the configured lifetime, both for the stored username and role.
   */
  function LoginForAccessToken(cfg: Config, users: seq<User>, form: LoginForm, now: int)
    : (r: Result<LoginResponse, Error>)
    ensures r.Failure? <==> || GetUserByUsername(users, form.username).None?
                            || !VerifyPassword(form.password, GetUserByUsername(users, form.username).value.hashedPassword)
    ensures r.Failure? ==> r.error == INCORRECT_CREDENTIALS
    ensures r.Success? ==>
      exists u :: u in users && u.username == form.username && VerifyPassword(form.password, u.hashedPassword) &&
        r.value == LoginResponse(
          CreateAccessToken(cfg, now, u.username, u.role),
          CreateAccessToken(cfg, now, u.username, u.role, true, Some(RefreshDelta(cfg))),
          "bearer")
  {
    var user := GetUserByUsername(users, form.username);
    if user.None? || !VerifyPassword(form.password, user.value.hashedPassword) then
      Failure(INCORRECT_CREDENTIALS)
    else
      var u := user.value;
      Success(LoginResponse(
        CreateAccessToken(cfg, now, u.username, u.role),
        CreateAccessToken(cfg, now, u.username, u.role, true, Some(RefreshDelta(cfg))),
        "bearer"))
  }

  /**
   * The two tokens of a login fit exactly one guard each: at the login instant the access
   * token passes the access guard with `refresh` false and a 15-minute expiry and is
   * refused by the refresh guard; the refresh token (for a positive lifetime) passes the
   * refresh guard and is refused by the access guard.
   */
  lemma LoginTokensFitTheirGuards(cfg: Config, users: seq<User>, form: LoginForm, now: int)
    requires LoginForAccessToken(cfg, users, form, now).Success?
    requires cfg.refreshTokenExpireDates > 0
    ensures var resp := LoginForAccessToken(cfg, users, form, now).value;
      var u := GetUserByUsername(users, form.username).value;
      && TokenBearerCall(cfg, AccessTokenBearer, HttpAuthorizationCredentials("Bearer", resp.accessToken), now)
         == Success(Claims(form.username, u.role, false, now + DEFAULT_EXPIRE_SECONDS))
      && TokenBearerCall(cfg, RefreshTokenBearer, HttpAuthorizationCredentials("Bearer", resp.accessToken), now)
         == Failure(REFRESH_TOKEN_REQUIRED)
      && TokenBearerCall(cfg, RefreshTokenBearer, HttpAuthorizationCredentials("Bearer", resp.refreshToken), now)
         == Success(Claims(form.username, u.role, true, now + RefreshDelta(cfg)))
      && TokenBearerCall(cfg, AccessTokenBearer, HttpAuthorizationCredentials("Bearer", resp.refreshToken), now)
         == Failure(ACCESS_TOKEN_REQUIRED)
  {
    var u := GetUserByUsername(users, form.username).value;
    var resp := LoginForAccessToken(cfg, users, form, now).value;
    assert resp.accessToken == CreateAccessToken(cfg, now, u.username, u.role);
    assert resp.refreshToken == CreateAccessToken(cfg, now, u.username, u.role, true, Some(RefreshDelta(cfg)));
    assert DecodeToken(cfg, resp.accessToken, now) == Some(Claims(u.username, u.role, false, now + DEFAULT_EXPIRE_SECONDS));
    assert DecodeToken(cfg, resp.refreshToken, now) == Some(Claims(u.username, u.role, true, now + RefreshDelta(cfg)));
  }

  /** A refresh lifetime of zero days is a falsy delta: the refresh token lives 15 minutes. */
  lemma ZeroRefreshDaysGiveFifteenMinutes(cfg: Config, users: seq<User>, form: LoginForm, now: int)
    requires LoginForAccessToken(cfg, users, form, now).Success?
    requires cfg.refreshTokenExpireDates == 0
    ensures var resp := LoginForAccessToken(cfg, users, form, now).value;
      && DecodeToken(cfg, resp.refreshToken, now + DEFAULT_EXPIRE_SECONDS - 1).Some?
      && DecodeToken(cfg, resp.refreshToken, now + DEFAULT_EXPIRE_SECONDS).None?
  {
    var u := GetUserByUsername(users, form.username).value;
    var resp := LoginForAccessToken(cfg, users, form, now).value;
    assert resp.refreshToken == CreateAccessToken(cfg, now, u.username, u.role, true, Some(0));
  }

  /**
   * `get_new_access_token`: a new access token (refresh flag false, default lifetime)
   * copying `sub` and `role` exactly when `exp` is strictly later than now; otherwise 400.
   */
  function GetNewAccessToken(cfg: Config, tokenData: Claims, now: int): (r: Result<Token, Error>)
    ensures r.Success? <==> now < tokenData.exp
    ensures r.Failure? ==> r.error == REFRESH_EXPIRED
    ensures r.Success? ==> forall at :: at < now + DEFAULT_EXPIRE_SECONDS ==>
              DecodeToken(cfg, r.value, at) == Some(Claims(tokenData.sub, tokenData.role, false, now + DEFAULT_EXPIRE_SECONDS))
  {
    if tokenData.exp > now then
      Success(CreateAccessToken(cfg, now, tokenData.sub, tokenData.role))
    else
      Failure(REFRESH_EXPIRED)
  }

  /**
   * Behind the refresh guard at the same instant, the expiry check of the endpoint always
   * passes: the guard only yields claims whose `exp` is later than now.
   */
  lemma RefreshCheckAfterGuardPasses(cfg: Config, credentials: HttpAuthorizationCredentials, now: int)
    requires TokenBearerCall(cfg, RefreshTokenBearer, credentials, now).Success?
    ensures GetNewAccessToken(cfg, TokenBearerCall(cfg, RefreshTokenBearer, credentials, now).value, now).Success?
  {
    var claims := TokenBearerCall(cfg, RefreshTokenBearer, credentials, now).value;
    assert DecodeToken(cfg, credentials.credentials, now) == Some(claims);
  }

  /**
   * `create_user_account`: 404 when a user matches both the username and the email;
   * otherwise the outcome of `create_user`.
   */
  method CreateUserAccount(db: Db, userRequest: UserCreateRequest, salt: nat) returns (r: Result<User, Error>)
    requires db.Valid() && ValidCreateRequest(userRequest)
    modifies db
    ensures db.Valid()
    ensures UserExists(old(db.users), userRequest.username, userRequest.email).Some? ==>
              r == Failure(USER_ALREADY_EXISTS) && unchanged(db)
    ensures UserExists(old(db.users), userRequest.username, userRequest.email).None? ==>
      var created := NewUser(old(db.nextUid), userRequest, salt);
      if Clashes(old(db.users), created) then r == Failure(IntegrityError) && unchanged(db)
      else && r == Success(created)
           && db.users == old(db.users) + [created]
           && db.nextUid == old(db.nextUid) + 1
           && db.blogs == old(db.blogs) && db.tags == old(db.tags) && db.reviews == old(db.reviews)
  {
    var user := UserExists(db.users, userRequest.username, userRequest.email);
    if user.Some? {
      return Failure(USER_ALREADY_EXISTS);
    }
    r := CreateUser(db, userRequest, salt);
  }

  /**
   * A user that shares only the username (or only the email) is not found by
   * `user_exists`, so signup goes on to the insert, which the unique column refuses.
   */
  lemma SignupPartialMatchReachesInsert(users: seq<User>, request: UserCreateRequest, salt: nat, nextUid: Uid, i: nat)
    requires i < |users| && users[i].username == request.username
    requires forall u :: u in users ==> u.email != request.email
    requires forall u :: u in users ==> u.uid != nextUid
    ensures UserExists(users, request.username, request.email).None?
    ensures Clashes(users, NewUser(nextUid, request, salt))
  {
    assert users[i] in users;
  }

  /**
   * `change_account_password`: the old password is checked first (400), then the new
   * and confirmed passwords must match (400), then the stored hash becomes the hash of
   * the new password and nothing else changes. A current user of `None` (its subject no
   * longer exists) fails at the first attribute read.
   */
  method ChangeAccountPassword(db: Db, userRequest: UserChangePasswordRequest, currentUser: Option<User>, salt: nat)
    returns (r: Result<string, Error>)
    requires db.Valid()
    requires currentUser.Some? ==> currentUser.value in db.users
    modifies db
    ensures db.Valid()
    ensures currentUser.None? ==> r == Failure(AttributeError) && unchanged(db)
    ensures currentUser.Some? && !VerifyPassword(userRequest.oldPassword, currentUser.value.hashedPassword) ==>
              r == Failure(PASSWORD_INCORRECT) && unchanged(db)
    ensures currentUser.Some? && VerifyPassword(userRequest.oldPassword, currentUser.value.hashedPassword) &&
            userRequest.newPassword != userRequest.confirmNewPassword ==>
              r == Failure(PASSWORD_NOT_MATCH) && unchanged(db)
    ensures r.Success? <==> currentUser.Some? && VerifyPassword(userRequest.oldPassword, currentUser.value.hashedPassword) &&
                            userRequest.newPassword == userRequest.confirmNewPassword
    ensures r.Success? ==>
      var updated := currentUser.value.(hashedPassword := GeneratePasswordHash(userRequest.newPassword, salt));
      && r.value == PASSWORD_CHANGED
      && db.users == ReplaceUser(old(db.users), updated)
      && VerifyPassword(userRequest.newPassword, updated.hashedPassword)
      && db.nextUid == old(db.nextUid)
      && db.blogs == old(db.blogs) && db.tags == old(db.tags) && db.reviews == old(db.reviews)
  {
    if currentUser.None? {
      return Failure(AttributeError);
    }
    var user := currentUser.value;
    if !VerifyPassword(userRequest.oldPassword, user.hashedPassword) {
      return Failure(PASSWORD_INCORRECT);
    }
    if userRequest.newPassword != userRequest.confirmNewPassword {
      return Failure(PASSWORD_NOT_MATCH);
    }
    var hashedPassword := GeneratePasswordHash(userRequest.newPassword, salt);
    var updated := SetAll(user, [HashedPassword(hashedPassword)]);
    assert [HashedPassword(hashedPassword)][..0] == [];
    assert SetAll(user, []) == user;
    assert updated == user.(hashedPassword := hashedPassword);
    assert !Clashes(db.users, updated) by {
      forall i | 0 <= i < |db.users| && db.users[i].uid != updated.uid
        ensures db.users[i].username != updated.username && db.users[i].email != updated.email
      {
        var j :| 0 <= j < |db.users| && db.users[j] == user;
        assert i != j;
      }
    }
    var result := UpdateUser(db, user, [HashedPassword(hashedPassword)]);
    HashVerifies(userRequest.newPassword, salt);
    r := Success(PASSWORD_CHANGED);
  }

  /**
   * After a change to a different new password, the old password no longer verifies,
   * when both fit in the bytes bcrypt reads.
   */
  lemma OldPasswordStopsVerifying(user: User, oldPassword: string, newPassword: string, salt: nat)
    requires oldPassword != newPassword
    requires |Utf8(oldPassword)| <= BCRYPT_MAX_BYTES && |Utf8(newPassword)| <= BCRYPT_MAX_BYTES
    ensures !VerifyPassword(oldPassword, user.(hashedPassword := GeneratePasswordHash(newPassword, salt)).hashedPassword)
  {
    OtherPasswordFails(newPassword, salt);
  }

  /**
   * Without the byte bound the old password can survive a change: a new password that
   * only extends an old one of `BCRYPT_MAX_BYTES` bytes or more still accepts the old one.
   */
  lemma OldPasswordSurvivesExtension(user: User, oldPassword: string, tail: string, salt: nat)
    requires BCRYPT_MAX_BYTES <= |Utf8(oldPassword)| && tail != []
    ensures oldPassword + tail != oldPassword
    ensures VerifyPassword(oldPassword, user.(hashedPassword := GeneratePasswordHash(oldPassword + tail, salt)).hashedPassword)
  {
    assert |oldPassword + tail| > |oldPassword|;
    LongPasswordTailIgnored(oldPassword, tail, salt);
  }
}
