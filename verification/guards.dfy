/** The route guards (`auth-guard.ts`, `role.guard.ts`, `guest.guard.ts`):
    each reads the session, may navigate, and answers allow or deny. Reading
    the token can wipe the session, so every guard also returns the session
    it leaves behind. */
module Guards {
  import opened Wrappers
  import opened Session
  import Text

  /** A router navigation: the target path and its query parameters. */
  datatype Navigation = Navigation(path: string, query: seq<(string, string)>)

  /** A guard's answer, the navigation it started (if any), and the session after it. */
  datatype Decision = Decision(allow: bool, redirect: Option<Navigation>, session: Session)

  const LoginRoute: string := "/login"
  const UnauthorizedRoute: string := "/unauthorized"
  const DashboardRoute: string := "/dashboard"

  /** A role check passes when the lower-cased role equals some lower-cased required role. */
  predicate RoleListed(required: seq<string>, role: string)
  {
    exists i :: 0 <= i < |required| && Text.ToLower(required[i]) == Text.ToLower(role)
  }

  /** `checkUserRoles`: no current user, or a user whose role is missing or
      empty, fails; otherwise the role must be listed, ignoring case. */
  predicate CheckUserRoles(s: Session, required: seq<string>)
  {
    s.currentUser.Some? && Truthy(s.currentUser.value.role)
    && RoleListed(required, s.currentUser.value.role.value)
  }

  /** `authGuard`: both `hasToken` and `isTokenExpired` are evaluated; without
      a valid token the guard denies and sends to the login page with the
      requested URL as `returnUrl`; with one, route roles (when the route
      declares any list, even an empty one) must match the current user, or
      the guard denies and sends to the unauthorized page. */
  function AuthGuard(env: Env, now: int, s: Session, roles: Option<seq<string>>, url: string): (r: Decision)
    ensures r.session == IsTokenExpired(env, now, s).1
    ensures r.allow <==> HasToken(s) && !IsTokenExpired(env, now, s).0
                         && (roles.None? || CheckUserRoles(r.session, roles.value))
    ensures r.allow ==> r.redirect.None?
    ensures !(HasToken(s) && !IsTokenExpired(env, now, s).0) ==>
              r.redirect == Some(Navigation(LoginRoute, [("returnUrl", url)]))
    ensures HasToken(s) && !IsTokenExpired(env, now, s).0 && !r.allow ==>
              r.redirect == Some(Navigation(UnauthorizedRoute, []))
  {
    var hasToken := HasToken(s);
    var (isTokenExpired, s1) := IsTokenExpired(env, now, s);
    if hasToken && !isTokenExpired then
      if roles.Some? && !CheckUserRoles(s1, roles.value) then
        Decision(false, Some(Navigation(UnauthorizedRoute, [])), s1)
      else Decision(true, None, s1)
    else Decision(false, Some(Navigation(LoginRoute, [("returnUrl", url)])), s1)
  }

  /** `roleGuard`: no roles (absent or empty) allows at once; no current user
      sends to the login page; otherwise the lower-cased role must be listed,
      and a user without a role never is. */
  function RoleGuard(s: Session, roles: Option<seq<string>>): (r: (bool, Option<Navigation>))
    ensures roles.None? || roles.value == [] ==> r == (true, None)
    ensures roles.Some? && roles.value != [] && s.currentUser.None? ==> r == (false, Some(Navigation(LoginRoute, [])))
    ensures roles.Some? && roles.value != [] && s.currentUser.Some? ==>
              var role := s.currentUser.value.role;
              (r.0 <==> role.Some? && RoleListed(roles.value, role.value))
              && (r.0 ==> r.1.None?)
              && (!r.0 ==> r.1 == Some(Navigation(UnauthorizedRoute, [])))
  {
    if roles.None? || |roles.value| == 0 then (true, None)
    else
      match s.currentUser
      case None => (false, Some(Navigation(LoginRoute, [])))
      case Some(user) =>
        var userRole := match user.role case None => None case Some(x) => Some(Text.ToLower(x));
        var hasRequiredRole := exists i :: 0 <= i < |roles.value| && Some(Text.ToLower(roles.value[i])) == userRole;
        if !hasRequiredRole then (false, Some(Navigation(UnauthorizedRoute, [])))
        else (true, None)
  }

  /** `guestGuard`: `hasToken() && !isTokenExpired()`, short-circuited; a
      logged-in visitor is sent to the dashboard and denied, anyone else
      passes without navigation. */
  function GuestGuard(env: Env, now: int, s: Session): (r: Decision)
    ensures r.session == IsLoggedIn(env, now, s).1
    ensures r.allow <==> !IsLoggedIn(env, now, s).0
    ensures r.allow <==> r.redirect.None?
    ensures !r.allow ==> r.redirect == Some(Navigation(DashboardRoute, []))
  {
    var (isAuthenticated, s1) := IsLoggedIn(env, now, s);
    if isAuthenticated then Decision(false, Some(Navigation(DashboardRoute, [])), s1)
    else Decision(true, None, s1)
  }

  /** On a route without roles, the auth guard and the guest guard split
      every session between them: exactly one of them lets the visitor in. */
  lemma AuthAndGuestComplementary(env: Env, now: int, s: Session, url: string)
    ensures AuthGuard(env, now, s, None, url).allow <==> !GuestGuard(env, now, s).allow
  {
  }

  /** An empty role list is read in opposite ways: the auth guard denies an
      authenticated visitor, the role guard allows anyone. */
  lemma EmptyRolesDisagree(env: Env, now: int, s: Session, url: string)
    requires HasToken(s) && !IsTokenExpired(env, now, s).0
    ensures !AuthGuard(env, now, s, Some([]), url).allow
    ensures AuthGuard(env, now, s, Some([]), url).redirect == Some(Navigation(UnauthorizedRoute, []))
    ensures RoleGuard(s, Some([])) == (true, None)
  {
  }

  /** A user whose role is the empty string fails the auth guard's role check
      but passes the role guard when the empty string is a required role. */
  lemma EmptyRoleDisagrees(s: Session, required: seq<string>)
    requires s.currentUser.Some? && s.currentUser.value.role == Some("")
    requires "" in required
    ensures !CheckUserRoles(s, required)
    ensures RoleGuard(s, Some(required)) == (true, None)
  {
    var i :| 0 <= i < |required| && required[i] == "";
    assert Text.ToLower(required[i]) == "";
  }

  /** The role check ignores case on both sides. */
  lemma RoleCheckIgnoresCase(required: seq<string>, role: string, other: string)
    requires Text.ToLower(role) == Text.ToLower(other)
    ensures RoleListed(required, role) <==> RoleListed(required, other)
  {
  }

  /** The role guard consults only the current user: storage and the
      authentication flag play no part. */
  lemma RoleGuardIgnoresTokens(s: Session, t: Session, roles: Option<seq<string>>)
    requires s.currentUser == t.currentUser
    ensures RoleGuard(s, roles) == RoleGuard(t, roles)
  {
  }

  /** An outgoing HTTP request: its URL, headers and everything else. */
  datatype Request = Request(url: string, headers: map<string, string>, body: string)

  /** The request paths the interceptor leaves alone. */
  predicate Exempt(url: string)
  {
    Text.Contains(url, "/auth/login") || Text.Contains(url, "/auth/register")
  }

  /** `authInterceptor`: reads the token first (which may wipe the session),
      passes exempt requests unchanged, and otherwise adds
      `Authorization: Bearer <token>` when there is a token. */
  function Intercept(env: Env, s: Session, req: Request): (r: (Request, Session))
    ensures r.1 == GetToken(env, s).1
    ensures Exempt(req.url) || GetToken(env, s).0.None? ==> r.0 == req
    ensures !Exempt(req.url) && GetToken(env, s).0.Some? ==>
              r.0.headers == req.headers["Authorization" := "Bearer " + GetToken(env, s).0.value]
    ensures r.0.url == req.url && r.0.body == req.body
    ensures forall h :: h != "Authorization" ==>
              (h in r.0.headers <==> h in req.headers) && (h in req.headers ==> r.0.headers[h] == req.headers[h])
  {
    var (token, s1) := GetToken(env, s);
    if Exempt(req.url) then (req, s1)
    else
      match token
      case Some(t) => (req.(headers := req.headers["Authorization" := "Bearer " + t]), s1)
      case None => (req, s1)
  }

  /** The service's own login and registration paths do not match the
      exemption, so a stored token is sent along with them. */
  lemma SessionPathsNotExempt()
    ensures !Exempt(LoginPath) && !Exempt(RegisterPath)
  {
    NoExemptionIn(LoginPath);
    NoExemptionIn(RegisterPath);
  }

  /** A path of at most twelve characters in which neither the second nor the
      third character is `a` matches neither exempt fragment. */
  lemma NoExemptionIn(path: string)
    requires |path| <= 12 && (|path| >= 2 ==> path[1] != 'a') && (|path| >= 3 ==> path[2] != 'a')
    ensures !Exempt(path)
  {
    var login := "/auth/login";
    var register := "/auth/register";
    Text.NotContainsLonger(path, register);
    if |path| < |login| {
      Text.NotContainsLonger(path, login);
    } else {
      Text.NotContainsAt(path, login, 1);
    }
  }

  /** On an exempt request an undecryptable token still wipes the session,
      while the request itself passes unchanged. */
  lemma ExemptRequestStillWipes(env: Env, s: Session, req: Request)
    requires Exempt(req.url) && HasToken(s) && env.decrypt(s.storage[TokenKey]).None?
    ensures Intercept(env, s, req).0 == req
    ensures !HasToken(Intercept(env, s, req).1) && UserKey !in Intercept(env, s, req).1.storage
  {
  }
}
