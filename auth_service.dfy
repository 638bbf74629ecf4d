/** `UserService` (src/auth/service.py): user lookups, signup insert and in-place update. */
module UserService {
  import opened Wrappers
  import opened Errors
  import opened AuthUtils
  import opened Store

  /** A signup body that passed validation (src/auth/schemas.py:18-23). */
  datatype UserCreateRequest = UserCreateRequest(
    firstName: string,
    lastName: string,
    username: string,
    email: string,
    password: string)

  /** The length limits the request schema enforces before the service is reached. */
  predicate ValidCreateRequest(request: UserCreateRequest)
  {
    && |request.firstName| <= 30
    && |request.lastName| <= 30
    && |request.username| <= 15
    && |request.email| <= 40
    && |request.password| >= 6
  }

  /** `get_user_by_username`: the first user with that username, if any. */
  function GetUserByUsername(users: seq<User>, username: string): (user: Option<User>)
    ensures user.Some? ==> user.value in users && user.value.username == username
    ensures user.None? <==> forall u :: u in users ==> u.username != username
  {
    match FirstIndex(users, (u: User) => u.username == username)
    case Some(i) => Some(users[i])
    case None => None
  }

  /** `user_exists`: the first user matching BOTH the username and the email, if any. */
  function UserExists(users: seq<User>, username: string, email: string): (user: Option<User>)
    ensures user.Some? ==> user.value in users && user.value.username == username && user.value.email == email
    ensures user.None? <==> forall u :: u in users ==> !(u.username == username && u.email == email)
  {
    match FirstIndex(users, (u: User) => u.username == username && u.email == email)
    case Some(i) => Some(users[i])
    case None => None
  }

  /** Whether storing `u` would break the unique `username` or `email` column of another row. */
  function Clashes(users: seq<User>, u: User): (clash: bool)
    ensures clash <==> exists i :: 0 <= i < |users| && users[i].uid != u.uid &&
                                   (users[i].username == u.username || users[i].email == u.email)
  {
    FirstIndex(users, (x: User) => x.uid != u.uid && (x.username == u.username || x.email == u.email)).Some?
  }

  /**
   * The row `create_user` builds: the dumped request fields (the plaintext password is
   * excluded from the dump), the hash of the password, and the column defaults.
   */
  function NewUser(uid: Uid, request: UserCreateRequest, salt: nat): (u: User)
    ensures u.uid == uid && u.username == request.username && u.email == request.email
    ensures u.firstName == request.firstName && u.lastName == request.lastName
    ensures VerifyPassword(request.password, u.hashedPassword)
    ensures |Utf8(request.password)| <= BCRYPT_MAX_BYTES ==>
      forall other :: other != request.password && |Utf8(other)| <= BCRYPT_MAX_BYTES ==> !VerifyPassword(other, u.hashedPassword)
    ensures !u.isActive && u.role == "user"
  {
    assert |Utf8(request.password)| <= BCRYPT_MAX_BYTES ==>
      forall other :: other != request.password && |Utf8(other)| <= BCRYPT_MAX_BYTES ==>
        !VerifyPassword(other, GeneratePasswordHash(request.password, salt)) by {
      if |Utf8(request.password)| <= BCRYPT_MAX_BYTES {
        OtherPasswordFails(request.password, salt);
      }
    }
    User(uid, request.username, request.email, request.firstName, request.lastName,
         GeneratePasswordHash(request.password, salt), false, "user")
  }

  /** `create_user`: inserts one row, or is refused at commit by a unique column. */
  method CreateUser(db: Db, request: UserCreateRequest, salt: nat) returns (r: Result<User, Error>)
    requires db.Valid()
    modifies db
    ensures db.Valid()
    ensures var created := NewUser(old(db.nextUid), request, salt);
      if Clashes(old(db.users), created) then r == Failure(IntegrityError) && unchanged(db)
      else && r == Success(created)
           && db.users == old(db.users) + [created]
           && db.nextUid == old(db.nextUid) + 1
           && db.blogs == old(db.blogs) && db.tags == old(db.tags) && db.reviews == old(db.reviews)
    ensures r.Success? ==> GetUserByUsername(db.users, request.username) == Some(r.value)
  {
    var created := NewUser(db.nextUid, request, salt);
    if Clashes(db.users, created) {
      return Failure(IntegrityError);
    }
    db.users := db.users + [created];
    db.nextUid := db.nextUid + 1;
    r := Success(created);
  }

  /** The assignable columns of a user. */
  datatype UserKey = UsernameKey | EmailKey | FirstNameKey | LastNameKey | HashedPasswordKey | IsActiveKey | RoleKey

  /** One item of the `user_data` dictionary: a column and its new value. */
  datatype UserField =
    | Username(username: string)
    | Email(email: string)
    | FirstName(firstName: string)
    | LastName(lastName: string)
    | HashedPassword(hashedPassword: PasswordHash)
    | IsActive(isActive: bool)
    | Role(role: string)

  function KeyOf(f: UserField): UserKey
  {
    match f
    case Username(_) => UsernameKey
    case Email(_) => EmailKey
    case FirstName(_) => FirstNameKey
    case LastName(_) => LastNameKey
    case HashedPassword(_) => HashedPasswordKey
    case IsActive(_) => IsActiveKey
    case Role(_) => RoleKey
  }

  /** `getattr(user, key)`, as an item of the same shape. */
  function Attr(u: User, key: UserKey): (f: UserField)
    ensures KeyOf(f) == key
  {
    match key
    case UsernameKey => Username(u.username)
    case EmailKey => Email(u.email)
    case FirstNameKey => FirstName(u.firstName)
    case LastNameKey => LastName(u.lastName)
    case HashedPasswordKey => HashedPassword(u.hashedPassword)
    case IsActiveKey => IsActive(u.isActive)
    case RoleKey => Role(u.role)
  }

  /** `setattr(user, k, v)`: the named column takes the value, every other column and the uid keep theirs. */
  function SetAttr(u: User, f: UserField): (v: User)
    ensures v.uid == u.uid
    ensures Attr(v, KeyOf(f)) == f
    ensures forall key :: key != KeyOf(f) ==> Attr(v, key) == Attr(u, key)
  {
    match f
    case Username(x) => u.(username := x)
    case Email(x) => u.(email := x)
    case FirstName(x) => u.(firstName := x)
    case LastName(x) => u.(lastName := x)
    case HashedPassword(x) => u.(hashedPassword := x)
    case IsActive(x) => u.(isActive := x)
    case Role(x) => u.(role := x)
  }

  /** The items of `data` applied in order. */
  function SetAll(u: User, data: seq<UserField>): User
  {
    if data == [] then u else SetAttr(SetAll(u, data[..|data| - 1]), data[|data| - 1])
  }

  /** A dictionary names each key at most once. */
  predicate DistinctKeys(data: seq<UserField>)
  {
    forall i, j :: 0 <= i < j < |data| ==> KeyOf(data[i]) != KeyOf(data[j])
  }

  /**
   * The loop of `update_user` assigns exactly the keys of `user_data`: each named column
   * holds its new value, every other column (and the uid) keeps its old one.
   */
  lemma {:induction false} SetAllAssigns(u: User, data: seq<UserField>)
    requires DistinctKeys(data)
    ensures SetAll(u, data).uid == u.uid
    ensures forall k :: 0 <= k < |data| ==> Attr(SetAll(u, data), KeyOf(data[k])) == data[k]
    ensures forall key :: (forall k :: 0 <= k < |data| ==> KeyOf(data[k]) != key) ==>
                          Attr(SetAll(u, data), key) == Attr(u, key)
  {
    if data != [] {
      var init, last := data[..|data| - 1], data[|data| - 1];
      assert DistinctKeys(init);
      SetAllAssigns(u, init);
      forall k | 0 <= k < |data| - 1
        ensures Attr(SetAll(u, data), KeyOf(data[k])) == data[k]
      {
        assert init[k] == data[k];
        assert KeyOf(data[k]) != KeyOf(last);
      }
    }
  }

  /** The table with the row of `u.uid` replaced by `u`. */
  function ReplaceUser(users: seq<User>, u: User): (r: seq<User>)
    ensures |r| == |users|
    ensures UserUids(r) == UserUids(users)
  {
    var r := Replace(users, (row: User) => row.uid, u);
    SameUserUids(r, users);
    r
  }

  /**
   * `update_user`: sets each item of `user_data` on the loaded row, then commits; a commit
   * that would break a unique column is refused and leaves the table as it was.
   */
  method UpdateUser(db: Db, user: User, userData: seq<UserField>) returns (r: Result<User, Error>)
    requires db.Valid() && user in db.users
    requires DistinctKeys(userData)
    modifies db
    ensures db.Valid()
    ensures var updated := SetAll(user, userData);
      if Clashes(old(db.users), updated) then r == Failure(IntegrityError) && unchanged(db)
      else && r == Success(updated)
           && db.users == ReplaceUser(old(db.users), updated)
           && db.nextUid == old(db.nextUid)
           && db.blogs == old(db.blogs) && db.tags == old(db.tags) && db.reviews == old(db.reviews)
  {
    var updated := user;
    for i := 0 to |userData|
      invariant updated == SetAll(user, userData[..i])
    {
      assert userData[..i + 1][..i] == userData[..i];
      updated := SetAttr(updated, userData[i]);
    }
    assert userData[..|userData|] == userData;
    SetAllAssigns(user, userData);
    if Clashes(db.users, updated) {
      return Failure(IntegrityError);
    }
    var users := ReplaceUser(db.users, updated);
    forall i, j | 0 <= i < j < |users|
      ensures users[i].uid != users[j].uid && users[i].username != users[j].username && users[i].email != users[j].email
    {
      if db.users[i].uid == user.uid {
        assert db.users[j].uid != user.uid;
      } else if db.users[j].uid == user.uid {
        assert db.users[i].uid != user.uid;
      }
    }
    db.users := users;
    r := Success(updated);
  }
}
