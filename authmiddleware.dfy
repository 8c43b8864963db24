/** The two request guards: `authMiddleware`, which reads the bearer token
    and sets `req.user` from it, and `authorize(roles)`, which admits the
    authenticated user by role. Token verification (`jwt.verify` with the
    server secret) is the parameter `verify`: the decoded claims, or `None`
    when it throws. */
module AuthMiddleware {
  import opened Common
  import opened Strings

  const BearerPrefix := "Bearer "

  datatype AuthFailure = NoToken | BadFormat | InvalidToken

  /** 401 with the failure's message, or `next()` with `req.user` set. */
  datatype AuthResult = Unauthorized(failure: AuthFailure) | Authenticated(user: Caller)

  /** `authHeader.split(' ')[1]`: what follows "Bearer " up to the next
      space. */
  function BearerToken(header: string): string
    requires StartsWith(header, BearerPrefix)
  {
    BearerSplit(header);
    Split(header, ' ')[1]
  }

  lemma BearerSplit(header: string)
    requires StartsWith(header, BearerPrefix)
    ensures Split(header, ' ') == ["Bearer"] + Split(header[|BearerPrefix|..], ' ')
  {
    assert header == "Bearer" + [' '] + header[|BearerPrefix|..];
    SplitAfterPiece("Bearer", header[|BearerPrefix|..], ' ');
  }

  /** `authMiddleware`: a missing header or one without the "Bearer "
      prefix, then an empty token, then a token that does not verify, each
      answer 401; otherwise the verified claims become `req.user`. */
  function Authenticate(header: Option<string>, verify: string -> Option<Caller>): (r: AuthResult)
    ensures r == Unauthorized(NoToken) <==> header.None? || !StartsWith(header.value, BearerPrefix)
    ensures r == Unauthorized(BadFormat) <==>
      header.Some? && StartsWith(header.value, BearerPrefix) && BearerToken(header.value) == ""
    ensures r.Authenticated? <==>
      header.Some? && StartsWith(header.value, BearerPrefix) && BearerToken(header.value) != ""
      && verify(BearerToken(header.value)).Some?
    ensures r.Authenticated? ==> r.user == verify(BearerToken(header.value)).value
  {
    if header.None? || header.value == "" || !StartsWith(header.value, BearerPrefix) then Unauthorized(NoToken)
    else
      var token := BearerToken(header.value);
      if token == "" then Unauthorized(BadFormat)
      else match verify(token)
        case None => Unauthorized(InvalidToken)
        case Some(claims) => Authenticated(claims)
  }

  /** The token read from a header is the text after "Bearer " up to the
      first space: a header made of a non-empty token without spaces yields
      exactly that token, also when more words follow after a space. */
  lemma BearerTokenRoundTrip(token: string, trailer: string)
    requires token != [] && ' ' !in token
    ensures StartsWith(BearerPrefix + token + trailer, BearerPrefix)
    ensures trailer == [] || StartsWith(trailer, " ") ==>
      BearerToken(BearerPrefix + token + trailer) == token
  {
    var header := BearerPrefix + token + trailer;
    assert header[..|BearerPrefix|] == BearerPrefix;
    BearerSplit(header);
    var rest := header[|BearerPrefix|..];
    assert rest == token + trailer;
    assert BearerToken(header) == Split(rest, ' ')[0];
    SplitHeadIs(rest, ' ', token);
    if StartsWith(trailer, " ") {
      assert rest[..|token + [' ']|] == token + [' '];
    }
  }

  /** "Bearer " alone and "Bearer " followed by a second space both read an
      empty token and answer 401. */
  lemma EmptyTokenRejected(rest: string, verify: string -> Option<Caller>)
    requires rest == [] || rest[0] == ' '
    ensures Authenticate(Some(BearerPrefix + rest), verify) == Unauthorized(BadFormat)
  {
    var header := BearerPrefix + rest;
    assert header[..|BearerPrefix|] == BearerPrefix;
    BearerSplit(header);
    assert header[|BearerPrefix|..] == rest;
    SplitHeadIs(rest, ' ', "");
    assert rest != [] ==> rest[..1] == [' '];
  }

  // ---- authorize ----

  /** The argument of `authorize`: none (the default `[]`), one role as
      text, or a list of roles. */
  datatype RolesArg = DefaultRoles | OneRole(role: string) | RoleList(roles: seq<string>)

  /** `roles` after `typeof roles === 'string'` wraps a single role. */
  function RolesOf(arg: RolesArg): seq<string> {
    match arg
    case DefaultRoles => []
    case OneRole(r) => [r]
    case RoleList(rs) => rs
  }

  datatype Decision = Deny(status: int) | Next

  /** The handler `authorize(roles)` returns: 401 without a user, then 403
      when the list is non-empty and lacks the user's role, `next()`
      otherwise. */
  function Authorize(arg: RolesArg, user: Option<Caller>): (d: Decision)
    ensures d == Deny(401) <==> user.None?
    ensures d == Deny(403) <==> user.Some? && RolesOf(arg) != [] && user.value.role !in RolesOf(arg)
    ensures d == Next <==> user.Some? && (RolesOf(arg) == [] || user.value.role in RolesOf(arg))
  {
    var roles := RolesOf(arg);
    if user.None? then Deny(401)
    else if |roles| > 0 && user.value.role !in roles then Deny(403)
    else Next
  }

  /** A role given as text behaves exactly like the list holding only it. */
  lemma OneRoleIsList(r: string, user: Option<Caller>)
    ensures Authorize(OneRole(r), user) == Authorize(RoleList([r]), user)
  {
  }

  /** The guard of every core route: teachers and admins pass, every other
      role is refused. */
  const TeacherOrAdmin := RoleList(["teacher", "admin"])

  lemma TeacherOrAdminGuard(user: Caller)
    ensures Authorize(TeacherOrAdmin, Some(user)) == Next <==> user.role == "teacher" || user.role == "admin"
  {
  }

  /** The two guards in a row, as every protected route mounts them. */
  function Guarded(header: Option<string>, verify: string -> Option<Caller>, arg: RolesArg): Decision {
    match Authenticate(header, verify)
    case Unauthorized(_) => Deny(401)
    case Authenticated(user) => Authorize(arg, Some(user))
  }

  /** A request reaches its handler only with a verified token whose claims
      carry an admitted role; a 403 needs a verified token too. */
  lemma GuardedAdmits(header: Option<string>, verify: string -> Option<Caller>, arg: RolesArg)
    ensures Guarded(header, verify, arg) == Next ==>
      && header.Some? && StartsWith(header.value, BearerPrefix)
      && verify(BearerToken(header.value)).Some?
      && (RolesOf(arg) == [] || verify(BearerToken(header.value)).value.role in RolesOf(arg))
    ensures Guarded(header, verify, arg) == Deny(403) ==> Authenticate(header, verify).Authenticated?
  {
  }
}
