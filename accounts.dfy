/** The account decisions of the authentication controller: registration,
    login, the profile update with its permission checks, and the password
    reset. Hashing (`bcrypt`, SHA-256), token signing and the clock are
    parameters; so are the outcomes of the store calls. */
module Accounts {
  import opened Common

  /** A `users` row. Times are milliseconds since the epoch. */
  datatype User = User(
    id: int,
    email: string,
    name: string,
    role: string,
    passwordHash: string,
    createdAt: int,
    updatedAt: int)

  /** A user as every response returns it: the row without its hash. */
  datatype PublicUser = PublicUser(id: int, email: string, name: string, role: string, createdAt: int, updatedAt: int)

  /** `const { password_hash: _, ...userData } = user` */
  function Strip(u: User): (p: PublicUser)
    ensures p.id == u.id && p.email == u.email && p.name == u.name && p.role == u.role
    ensures p.createdAt == u.createdAt && p.updatedAt == u.updatedAt
  {
    PublicUser(u.id, u.email, u.name, u.role, u.createdAt, u.updatedAt)
  }

  function WithHash(p: PublicUser, passwordHash: string): User {
    User(p.id, p.email, p.name, p.role, passwordHash, p.createdAt, p.updatedAt)
  }

  /** Stripping loses the hash and nothing else: putting the hash back
      gives the row, and two rows strip alike exactly when they differ at
      most in their hash. */
  lemma StripKeepsAllButHash(u: User, v: User)
    ensures WithHash(Strip(u), u.passwordHash) == u
    ensures Strip(u) == Strip(v) <==> u.(passwordHash := v.passwordHash) == v
  {
  }

  /** The claims signed into the token: id, email and role; the guards read
      `id` and `role` back from them. */
  function TokenClaims(u: User): Caller {
    Caller(u.id, u.role)
  }

  // ---- register ----

  const DefaultRole := "teacher"

  datatype RegisterOutcome = RegisterOutcome(status: int, stored: Option<User>, returned: Option<PublicUser>, claims: Option<Caller>)

  /** `register`. `taken` is whether the lookup by email found a row,
      `passwordHash` the bcrypt hash of the password, `insertOk`, `newId`
      and `now` the outcome of the insert. */
  function Register(email: Option<string>, password: Option<string>, name: Option<string>, role: Option<string>,
                    taken: bool, passwordHash: string, insertOk: bool, newId: int, now: int): (o: RegisterOutcome)
    ensures o.status == 400 <==> !(TextTruthy(email) && TextTruthy(password) && TextTruthy(name))
    ensures o.status == 409 <==> TextTruthy(email) && TextTruthy(password) && TextTruthy(name) && taken
    ensures o.stored.Some? <==> o.status == 201
    ensures o.status == 201 <==> TextTruthy(email) && TextTruthy(password) && TextTruthy(name) && !taken && insertOk
    ensures o.stored.Some? ==>
      && o.stored.value.email == email.value && o.stored.value.name == name.value
      && o.stored.value.role == (if TextTruthy(role) then role.value else DefaultRole)
      && o.stored.value.passwordHash == passwordHash
      && o.returned == Some(Strip(o.stored.value))
      && o.claims == Some(TokenClaims(o.stored.value))
    ensures o.stored.None? ==> o.returned.None? && o.claims.None?
  {
    if !(TextTruthy(email) && TextTruthy(password) && TextTruthy(name)) then RegisterOutcome(400, None, None, None)
    else if taken then RegisterOutcome(409, None, None, None)
    else if !insertOk then RegisterOutcome(500, None, None, None)
    else
      var u := User(newId, email.value, name.value, if TextTruthy(role) then role.value else DefaultRole,
                    passwordHash, now, now);
      RegisterOutcome(201, Some(u), Some(Strip(u)), Some(TokenClaims(u)))
  }

  /** The role is whatever the body asks for, "admin" included; only a
      missing or empty role gives "teacher". */
  lemma RegisterRole(email: string, password: string, name: string, role: Option<string>,
                     passwordHash: string, newId: int, now: int)
    requires email != "" && password != "" && name != ""
    ensures var o := Register(Some(email), Some(password), Some(name), role, false, passwordHash, true, newId, now);
      o.stored.Some? && (o.stored.value.role == DefaultRole <==> !TextTruthy(role) || role.value == DefaultRole)
  {
  }

  // ---- login ----

  datatype LoginOutcome = LoginRejected(status: int, message: string) | LoggedIn(user: PublicUser, claims: Caller)

  const InvalidCredentials := "Invalid credentials"

  /** `login`. `found` is the row the lookup by email returned (`None` when
      it failed or found none); `matches(password, hash)` is `bcrypt.compare`. */
  function Login(email: Option<string>, password: Option<string>, found: Option<User>,
                 matches: (string, string) -> bool): (o: LoginOutcome)
    ensures o.LoginRejected? && o.status == 400 <==> !(TextTruthy(email) && TextTruthy(password))
    ensures o.LoggedIn? <==>
      TextTruthy(email) && TextTruthy(password) && found.Some? && matches(password.value, found.value.passwordHash)
    ensures o.LoggedIn? ==> o.user == Strip(found.value) && o.claims == TokenClaims(found.value)
    ensures o.LoginRejected? && o.status != 400 ==> o == LoginRejected(401, InvalidCredentials)
  {
    if !(TextTruthy(email) && TextTruthy(password)) then LoginRejected(400, "Email and password are required")
    else if found.None? then LoginRejected(401, InvalidCredentials)
    else if !matches(password.value, found.value.passwordHash) then LoginRejected(401, InvalidCredentials)
    else LoggedIn(Strip(found.value), TokenClaims(found.value))
  }

  /** An unknown email and a wrong password for a known one get the same
      answer, so the response does not reveal which emails exist. */
  lemma LoginHidesUnknownEmail(email: string, password: string, u: User, matches: (string, string) -> bool)
    requires email != "" && password != ""
    requires !matches(password, u.passwordHash)
    ensures Login(Some(email), Some(password), None, matches) == Login(Some(email), Some(password), Some(u), matches)
    ensures Login(Some(email), Some(password), None, matches) == LoginRejected(401, InvalidCredentials)
  {
  }

  // ---- updateUser ----

  datatype UpdateResult = UserNotFound | RoleForbidden | NotOwner | UpdateFailed | Updated

  /** The fields `updateData` may hold. */
  datatype Patch = Patch(name: Option<string>, email: Option<string>, role: Option<string>, updatedAt: Option<int>)

  const EmptyPatch := Patch(None, None, None, None)

  /** `updateUser`: `id` is the route's user id, `found` the looked-up row,
      `now` the clock and `updateOk` the outcome of the write. `written` is
      the patch sent to the store, if one was. */
  method UpdateUser(id: int, found: Option<User>, name: Option<string>, role: Option<string>, email: Option<string>,
                    caller: Caller, now: int, updateOk: bool)
    returns (result: UpdateResult, written: Option<Patch>)
    ensures result == UserNotFound <==> found.None?
    ensures result == RoleForbidden <==> found.Some? && TextTruthy(role) && !IsAdmin(caller)
    ensures result == NotOwner <==> found.Some? && !TextTruthy(role) && id != caller.id && !IsAdmin(caller)
    ensures written.Some? <==> result == Updated || result == UpdateFailed
    ensures result == Updated <==> written.Some? && updateOk
    ensures written.Some? ==>
      && written.value.name == (if TextTruthy(name) then name else None)
      && written.value.email == (if TextTruthy(email) then email else None)
      && written.value.role == (if TextTruthy(role) then role else None)
      && written.value.updatedAt == Some(now)
    ensures written.Some? && written.value.role.Some? ==> IsAdmin(caller)
  {
    written := None;
    if found.None? {
      return UserNotFound, None;
    }
    var updateData := EmptyPatch;
    if TextTruthy(name) {
      updateData := updateData.(name := name);
    }
    if TextTruthy(email) {
      updateData := updateData.(email := email);
    }
    if TextTruthy(role) && IsAdmin(caller) {
      updateData := updateData.(role := role);
    } else if TextTruthy(role) && !IsAdmin(caller) {
      return RoleForbidden, None;
    }
    if id != caller.id && !IsAdmin(caller) {
      return NotOwner, None;
    }
    updateData := updateData.(updatedAt := Some(now));
    written := Some(updateData);
    result := if updateOk then Updated else UpdateFailed;
  }

  /** The row after the store applies a patch. */
  function Apply(u: User, p: Patch): User {
    u.(name := if p.name.Some? then p.name.value else u.name,
       email := if p.email.Some? then p.email.value else u.email,
       role := if p.role.Some? then p.role.value else u.role,
       updatedAt := if p.updatedAt.Some? then p.updatedAt.value else u.updatedAt)
  }

  /** Whatever a non-admin sends, the stored role stays; the id, the hash
      and the creation time never change. */
  lemma PatchKeepsRole(u: User, p: Patch, caller: Caller)
    requires p.role.Some? ==> IsAdmin(caller)
    ensures !IsAdmin(caller) ==> Apply(u, p).role == u.role
    ensures Apply(u, p).id == u.id && Apply(u, p).passwordHash == u.passwordHash && Apply(u, p).createdAt == u.createdAt
  {
  }

  // ---- resetPassword ----

  /** A `password_resets` row, keyed by the SHA-256 of the token. */
  datatype ResetRow = ResetRow(userId: int, expiresAt: int)

  datatype ResetOutcome = ResetOutcome(status: int, passwordWrite: Option<(int, string)>, tokenDeleted: bool)

  /** `resetPassword`. `found` is the row stored under the token's digest,
      `now` the clock, `newHash` the bcrypt hash of the new password,
      `updateOk` and `deleteOk` the outcomes of the two writes (the
      delete's outcome is not looked at). */
  function ResetPassword(token: Option<string>, password: Option<string>, found: Option<ResetRow>, now: int,
                         newHash: string, updateOk: bool, deleteOk: bool): (o: ResetOutcome)
    ensures o.status == 400 <==>
      !(TextTruthy(token) && TextTruthy(password)) || found.None? || found.value.expiresAt < now
    ensures o.passwordWrite.Some? <==>
      TextTruthy(token) && TextTruthy(password) && found.Some? && now <= found.value.expiresAt
    ensures o.passwordWrite.Some? ==> o.passwordWrite.value == (found.value.userId, newHash)
    ensures o.tokenDeleted <==> o.passwordWrite.Some? && updateOk && deleteOk
    ensures o.status == 200 <==> o.passwordWrite.Some? && updateOk
  {
    if !(TextTruthy(token) && TextTruthy(password)) then ResetOutcome(400, None, false)
    else if found.None? then ResetOutcome(400, None, false)
    else if found.value.expiresAt < now then ResetOutcome(400, None, false)
    else if !updateOk then ResetOutcome(500, Some((found.value.userId, newHash)), false)
    else ResetOutcome(200, Some((found.value.userId, newHash)), deleteOk)
  }

  /** A token stays usable up to and including its expiry instant, and a
      failed password write leaves it in place for another attempt. */
  lemma ResetTokenLifetime(token: string, password: string, row: ResetRow, now: int, newHash: string, deleteOk: bool)
    requires token != "" && password != ""
    ensures ResetPassword(Some(token), Some(password), Some(row), now, newHash, true, true).status == 200
            <==> now <= row.expiresAt
    ensures !ResetPassword(Some(token), Some(password), Some(row), now, newHash, false, deleteOk).tokenDeleted
  {
  }
}
