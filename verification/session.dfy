/** The authentication service (`auth-service.ts`): three encrypted storage
    slots, the in-memory current user and the `isAuthenticated` flag, and the
    operations that read and change them. The cipher, the JSON codec of the
    user record, the token-payload decoder and the clock are parameters. */
module Session {
  import opened Wrappers

  /** Storage keys of the access token, the refresh token and the user record. */
  const TokenKey: string := "uDqCCJOF6m"
  const RefreshTokenKey: string := "QWEevBNASp"
  const UserKey: string := "FU9SZZETkgUS"

  /** Server paths the service posts to. */
  const RegisterPath: string := "/register"
  const LoginPath: string := "/users/login"
  const RefreshPath: string := "/refresh"

  /** Where logout sends the browser. */
  const LogoutRoute: string := "/authentification"

  /** The user record the server returns and the service stores. */
  datatype User = User(id: string, email: string, role: Option<string>)

  /** What decoding the middle part of a token gives: nothing usable (a
      decoding or parsing error), or a payload whose `exp` field compares as
      a number (`Some`; JavaScript turns `null` into 0, `true` into 1 and a
      numeric string into its value) or converts to NaN and so is never
      less than the clock (`None`: absent, a non-numeric string, an object). */
  datatype Payload = Undecodable | Decoded(exp: Option<int>)

  /** The collaborators the service calls but whose code is not modelled.
      `None` from `encrypt`/`decrypt` stands for a thrown error; `readUser`
      is decryption followed by JSON parsing and is `None` on any failure or
      on a falsy result. */
  datatype Env = Env(
    encrypt: string -> Option<string>,
    decrypt: string -> Option<string>,
    writeUser: User -> Option<string>,
    readUser: string -> Option<User>,
    decodePayload: string -> Payload)

  /** Decryption undoes encryption, and reading a stored user undoes writing it. */
  ghost predicate Faithful(env: Env)
  {
    (forall t: string :: env.encrypt(t).Some? ==> env.decrypt(env.encrypt(t).value) == Some(t))
    && (forall u: User :: env.writeUser(u).Some? ==> env.readUser(env.writeUser(u).value) == Some(u))
  }

  /** `localStorage` (as a map from key to text), the current-user subject and
      the `isAuthenticated` signal. */
  datatype Session = Session(storage: map<string, string>, currentUser: Option<User>, isAuthenticated: bool)

  /** The entry under `key`, read as JavaScript truthiness: absent and empty both count as missing. */
  function Entry(storage: map<string, string>, key: string): (r: Option<string>)
    ensures r.Some? <==> key in storage && storage[key] != ""
    ensures r.Some? ==> r.value == storage[key]
  {
    if key in storage && storage[key] != "" then Some(storage[key]) else None
  }

  /** `hasToken`: the raw token entry is present and non-empty, whether or not it decrypts. */
  predicate HasToken(s: Session)
  {
    TokenKey in s.storage && |s.storage[TokenKey]| > 0
  }

  /** `clearStorage`: removes the three keys and nothing else. */
  function ClearStorage(s: Session): (r: Session)
    ensures TokenKey !in r.storage && RefreshTokenKey !in r.storage && UserKey !in r.storage
    ensures forall k :: k in s.storage && k !in {TokenKey, RefreshTokenKey, UserKey} ==> k in r.storage && r.storage[k] == s.storage[k]
    ensures forall k :: k in r.storage ==> k in s.storage
    ensures r.currentUser == s.currentUser && r.isAuthenticated == s.isAuthenticated
  {
    s.(storage := s.storage - {TokenKey, RefreshTokenKey, UserKey})
  }

  /** `getToken`: the decrypted token, or `None` when there is no entry; a
      decryption failure wipes all three keys. */
  function GetToken(env: Env, s: Session): (r: (Option<string>, Session))
    ensures !HasToken(s) ==> r == (None, s)
    ensures HasToken(s) && env.decrypt(s.storage[TokenKey]).None? ==> r == (None, ClearStorage(s))
    ensures HasToken(s) && env.decrypt(s.storage[TokenKey]).Some? ==> r.1 == s
    ensures r.0.Some? ==> r.0.value != "" && env.decrypt(s.storage[TokenKey]) == r.0
    ensures HasToken(s) && env.decrypt(s.storage[TokenKey]).Some? && env.decrypt(s.storage[TokenKey]).value != "" ==>
              r.0 == env.decrypt(s.storage[TokenKey])
  {
    match Entry(s.storage, TokenKey)
    case None => (None, s)
    case Some(encrypted) =>
      match env.decrypt(encrypted)
      case None => (None, ClearStorage(s))
      case Some(token) => (if token == "" then None else Some(token), s)
  }

  /** `hasToken` looks at the raw entry only: it agrees with the truthiness
      read of the entry, holds whenever a token can be read, and still holds
      for an entry that does not decrypt. */
  lemma HasTokenIsRawEntry(env: Env, s: Session)
    ensures HasToken(s) <==> Entry(s.storage, TokenKey).Some?
    ensures GetToken(env, s).0.Some? ==> HasToken(s)
    ensures HasToken(s) && env.decrypt(s.storage[TokenKey]).None? ==> GetToken(env, s).0.None?
  {
  }

  /** `isTokenExpired`: no readable token or an undecodable payload counts as
      expired; otherwise the token is expired when `exp < now`, so an `exp`
      equal to `now` is still valid and a payload without a numeric `exp`
      never expires. */
  function IsTokenExpired(env: Env, now: int, s: Session): (r: (bool, Session))
    ensures r.1 == GetToken(env, s).1
    ensures GetToken(env, s).0.None? ==> r.0
    ensures GetToken(env, s).0.Some? ==>
              var p := env.decodePayload(GetToken(env, s).0.value);
              r.0 <==> p.Undecodable? || (p.exp.Some? && p.exp.value < now)
  {
    var (token, s1) := GetToken(env, s);
    match token
    case None => (true, s1)
    case Some(t) =>
      match env.decodePayload(t)
      case Undecodable => (true, s1)
      case Decoded(exp) => (exp.Some? && exp.value < now, s1)
  }

  /** `isLoggedIn`: `hasToken() && !isTokenExpired()`, with the expiry check
      (and its possible wipe) skipped when there is no raw token. */
  function IsLoggedIn(env: Env, now: int, s: Session): (r: (bool, Session))
    ensures !HasToken(s) ==> r == (false, s)
    ensures HasToken(s) ==> r == (!IsTokenExpired(env, now, s).0, IsTokenExpired(env, now, s).1)
  {
    if !HasToken(s) then (false, s)
    else
      var (expired, s1) := IsTokenExpired(env, now, s);
      (!expired, s1)
  }

  /** Logged in means exactly: a raw token that decrypts to non-empty text,
      whose payload decodes and whose `exp` is absent or not before `now`. */
  lemma LoggedInMeans(env: Env, now: int, s: Session)
    ensures IsLoggedIn(env, now, s).0 <==>
              HasToken(s)
              && var d := env.decrypt(s.storage[TokenKey]);
                 d.Some? && d.value != ""
                 && env.decodePayload(d.value).Decoded?
                 && (env.decodePayload(d.value).exp.None? || env.decodePayload(d.value).exp.value >= now)
  {
  }

  /** A token whose `exp` is exactly `now` is not expired. */
  lemma ExpiryIsStrict(env: Env, now: int, s: Session)
    requires HasToken(s)
    requires var d := env.decrypt(s.storage[TokenKey]);
             d.Some? && d.value != "" && env.decodePayload(d.value) == Decoded(Some(now))
    ensures !IsTokenExpired(env, now, s).0
    ensures IsLoggedIn(env, now, s).0
  {
  }

  /** `hasToken` trusts an entry that does not decrypt; the first read of the
      token then wipes the session, after which `hasToken` is false. */
  lemma UndecryptableToken(env: Env, now: int, s: Session)
    requires HasToken(s) && env.decrypt(s.storage[TokenKey]).None?
    ensures GetToken(env, s).0.None? && !HasToken(GetToken(env, s).1)
    ensures IsTokenExpired(env, now, s).0
    ensures !IsLoggedIn(env, now, s).0 && !HasToken(IsLoggedIn(env, now, s).1)
  {
  }

  /** `setToken` and `setRefreshToken`: the encrypted text under `key`, or no
      change when encryption fails. */
  function StoreEncrypted(env: Env, storage: map<string, string>, key: string, plain: string): (r: map<string, string>)
    ensures env.encrypt(plain).Some? ==> r == storage[key := env.encrypt(plain).value]
    ensures env.encrypt(plain).None? ==> r == storage
  {
    match env.encrypt(plain)
    case None => storage
    case Some(c) => storage[key := c]
  }

  /** `logout`: clears the three keys, forgets the user, clears the flag, and
      navigates to the authentication page. */
  function Logout(s: Session): (r: (Session, string))
    ensures r.1 == LogoutRoute
    ensures r.0.currentUser.None? && !r.0.isAuthenticated
    ensures r.0.storage == ClearStorage(s).storage
  {
    (ClearStorage(s).(currentUser := None, isAuthenticated := false), LogoutRoute)
  }

  /** After logout nothing can be read back and nobody is logged in. */
  lemma LogoutForgets(env: Env, now: int, s: Session)
    ensures var t := Logout(s).0;
            !HasToken(t) && GetUserFromStorage(env, t).None? && GetRefreshToken(env, t).None?
            && IsLoggedIn(env, now, t) == (false, t)
  {
  }

  /** The `data` part of a successful login or registration response. */
  datatype AuthData = AuthData(accessToken: Option<string>, refreshToken: Option<string>, user: Option<User>)

  /** The server's answer to a login or registration request. */
  datatype AuthOutcome =
    | Answered(success: bool, data: Option<AuthData>)
    | RequestFailed

  /** A response field read as JavaScript truthiness. */
  predicate Truthy(v: Option<string>)
  {
    v.Some? && v.value != ""
  }

  /** `key` holds after what it held before, or is absent from both. */
  predicate SlotKept(before: map<string, string>, after: map<string, string>, key: string)
  {
    (key in after <==> key in before) && (key in before ==> after[key] == before[key])
  }

  /** One field of the answer: a truthy value that encrypts is stored under
      `key`; otherwise the slot stays as it was. No other key changes. */
  function StoreField(env: Env, storage: map<string, string>, key: string, v: Option<string>): (r: map<string, string>)
    ensures Truthy(v) && env.encrypt(v.value).Some? ==> key in r && r[key] == env.encrypt(v.value).value
    ensures !(Truthy(v) && env.encrypt(v.value).Some?) ==> SlotKept(storage, r, key)
    ensures forall k :: k != key ==> SlotKept(storage, r, k)
  {
    if Truthy(v) then StoreEncrypted(env, storage, key, v.value) else storage
  }

  /** `handleAuthSuccess`: stores each field that is present (the user record
      also becomes the current user), then sets `isAuthenticated`, whether or
      not a token came back. A field that is missing, falsy or fails to
      encrypt leaves its slot as it was. */
  function HandleAuthSuccess(env: Env, s: Session, data: Option<AuthData>): (r: Session)
    ensures r.isAuthenticated
    ensures forall k :: k !in {TokenKey, RefreshTokenKey, UserKey} ==> SlotKept(s.storage, r.storage, k)
    ensures data.Some? && Truthy(data.value.accessToken) && env.encrypt(data.value.accessToken.value).Some? ==>
              TokenKey in r.storage && r.storage[TokenKey] == env.encrypt(data.value.accessToken.value).value
    ensures !(data.Some? && Truthy(data.value.accessToken) && env.encrypt(data.value.accessToken.value).Some?) ==>
              SlotKept(s.storage, r.storage, TokenKey)
    ensures data.Some? && Truthy(data.value.refreshToken) && env.encrypt(data.value.refreshToken.value).Some? ==>
              RefreshTokenKey in r.storage && r.storage[RefreshTokenKey] == env.encrypt(data.value.refreshToken.value).value
    ensures !(data.Some? && Truthy(data.value.refreshToken) && env.encrypt(data.value.refreshToken.value).Some?) ==>
              SlotKept(s.storage, r.storage, RefreshTokenKey)
    ensures data.Some? && data.value.user.Some? && env.writeUser(data.value.user.value).Some? ==>
              UserKey in r.storage && r.storage[UserKey] == env.writeUser(data.value.user.value).value
    ensures !(data.Some? && data.value.user.Some? && env.writeUser(data.value.user.value).Some?) ==>
              SlotKept(s.storage, r.storage, UserKey)
    ensures data.Some? && data.value.user.Some? ==> r.currentUser == data.value.user
    ensures data.None? || data.value.user.None? ==> r.currentUser == s.currentUser
  {
    match data
    case None => s.(isAuthenticated := true)
    case Some(d) =>
      var st1 := StoreField(env, s.storage, TokenKey, d.accessToken);
      var st2 := StoreField(env, st1, RefreshTokenKey, d.refreshToken);
      match d.user
      case None => s.(storage := st2, isAuthenticated := true)
      case Some(u) =>
        var st3 := match env.writeUser(u) case None => st2 case Some(c) => st2[UserKey := c];
        s.(storage := st3, currentUser := Some(u), isAuthenticated := true)
  }

  /** `login` and `register`: a successful answer is handled as above; an
      unsuccessful answer or a failed request changes nothing. The two differ
      only in the path they post to. */
  function Authenticate(env: Env, s: Session, outcome: AuthOutcome): (r: Session)
    ensures outcome.Answered? && outcome.success ==> r == HandleAuthSuccess(env, s, outcome.data)
    ensures !(outcome.Answered? && outcome.success) ==> r == s
  {
    match outcome
    case Answered(success, data) => if success then HandleAuthSuccess(env, s, data) else s
    case RequestFailed => s
  }

  /** With a faithful cipher, the token, refresh token and user that the
      login stored are the ones read back, and the session counts as
      authenticated. */
  lemma LoginThenRead(env: Env, s: Session, token: string, refresh: string, user: User)
    requires Faithful(env)
    requires token != "" && env.encrypt(token).Some? && env.encrypt(token).value != ""
    requires refresh != "" && env.encrypt(refresh).Some? && env.encrypt(refresh).value != ""
    requires env.writeUser(user).Some? && env.writeUser(user).value != ""
    ensures var t := Authenticate(env, s, Answered(true, Some(AuthData(Some(token), Some(refresh), Some(user)))));
            t.isAuthenticated && t.currentUser == Some(user)
            && HasToken(t) && GetToken(env, t) == (Some(token), t)
            && GetRefreshToken(env, t) == Some(refresh)
            && GetUserFromStorage(env, t) == Some(user)
  {
  }

  /** A successful answer without any token still sets `isAuthenticated`,
      while a later `isLoggedIn` on an empty storage says no. */
  lemma AuthenticatedWithoutToken(env: Env, now: int, s: Session)
    requires !HasToken(s)
    ensures var t := Authenticate(env, s, Answered(true, Some(AuthData(None, None, None))));
            t.isAuthenticated && !IsLoggedIn(env, now, t).0
  {
  }

  /** `getUserFromStorage`: the decoded user record, or `None` when the entry
      is missing or cannot be read. */
  function GetUserFromStorage(env: Env, s: Session): (r: Option<User>)
    ensures Entry(s.storage, UserKey).None? ==> r.None?
    ensures Entry(s.storage, UserKey).Some? ==> r == env.readUser(s.storage[UserKey])
  {
    match Entry(s.storage, UserKey)
    case None => None
    case Some(encrypted) => env.readUser(encrypted)
  }

  /** `getRefreshToken`: the decrypted refresh token; a failure gives `None`
      without wiping anything. */
  function GetRefreshToken(env: Env, s: Session): (r: Option<string>)
    ensures Entry(s.storage, RefreshTokenKey).None? ==> r.None?
    ensures Entry(s.storage, RefreshTokenKey).Some? ==> r == env.decrypt(s.storage[RefreshTokenKey])
  {
    match Entry(s.storage, RefreshTokenKey)
    case None => None
    case Some(encrypted) => env.decrypt(encrypted)
  }

  /** `checkAuthStatus`: keeps the session (and adopts the stored user) when a
      token, a stored user and an unexpired token are all present; otherwise
      clears storage and the flag, but leaves the current user as it was. */
  function CheckAuthStatus(env: Env, now: int, s: Session): (r: Session)
    ensures GetToken(env, s).0.Some? && GetUserFromStorage(env, s).Some? && !IsTokenExpired(env, now, s).0
            ==> r.isAuthenticated
    ensures r.isAuthenticated ==>
              GetToken(env, s).0.Some? && GetUserFromStorage(env, s).Some?
              && !IsTokenExpired(env, now, s).0
              && r == s.(isAuthenticated := true, currentUser := GetUserFromStorage(env, s))
    ensures !r.isAuthenticated ==>
              TokenKey !in r.storage && RefreshTokenKey !in r.storage && UserKey !in r.storage
              && r.currentUser == s.currentUser
  {
    var (token, s1) := GetToken(env, s);
    var user := GetUserFromStorage(env, s1);
    if token.Some? && user.Some? then
      var (expired, s2) := IsTokenExpired(env, now, s1);
      if !expired then s2.(isAuthenticated := true, currentUser := user)
      else ClearStorage(s2).(isAuthenticated := false)
    else ClearStorage(s1).(isAuthenticated := false)
  }

  /** The service as constructed: the current user is read from storage, the
      flag from `hasToken`, and then the start-up check runs. */
  function Start(env: Env, now: int, storage: map<string, string>): (r: Session)
    ensures r.isAuthenticated ==> r.currentUser.Some? && IsLoggedIn(env, now, r).0
    ensures var s0 := Session(storage, None, false);
            r.isAuthenticated <==>
              GetToken(env, s0).0.Some? && GetUserFromStorage(env, s0).Some? && !IsTokenExpired(env, now, s0).0
  {
    var s0 := Session(storage, None, false);
    var s := Session(storage, GetUserFromStorage(env, s0), HasToken(s0));
    assert GetToken(env, s).0 == GetToken(env, s0).0;
    assert IsTokenExpired(env, now, s).0 == IsTokenExpired(env, now, s0).0;
    CheckAuthStatus(env, now, s)
  }

  /** A stored token that decrypts and has not expired, together with a
      readable stored user, survives start-up: the session is authenticated,
      the stored user is current and storage is untouched. */
  lemma StartRestoresSession(env: Env, now: int, storage: map<string, string>)
    requires var s0 := Session(storage, None, false);
             GetToken(env, s0).0.Some? && GetUserFromStorage(env, s0).Some? && !IsTokenExpired(env, now, s0).0
    ensures var r := Start(env, now, storage);
            r.isAuthenticated && r.storage == storage
            && r.currentUser == GetUserFromStorage(env, Session(storage, None, false))
  {
  }

  /** Start-up with a stored user but an expired token ends unauthenticated
      with storage cleared, yet the user read at construction stays current. */
  lemma StartKeepsStaleUser(env: Env, now: int, storage: map<string, string>)
    requires var s := Session(storage, None, false);
             GetUserFromStorage(env, s).Some? && IsTokenExpired(env, now, s).0
    ensures var r := Start(env, now, storage);
            !r.isAuthenticated && UserKey !in r.storage
            && r.currentUser == GetUserFromStorage(env, Session(storage, None, false))
  {
  }

  /** The answer to a refresh request. */
  datatype RefreshOutcome =
    | RefreshAnswered(success: bool, token: Option<string>)
    | RefreshFailed

  /** How `refreshToken` ended: never sent, answered, or failed. */
  datatype RefreshEnd = NoRefreshToken | Refreshed | RefreshError

  /** `refreshToken`: without a readable refresh token nothing is sent and
      nothing changes; a successful answer with a token replaces the stored
      access token only; a failed request logs out. */
  function RefreshToken(env: Env, s: Session, outcome: RefreshOutcome): (r: (Session, RefreshEnd, Option<string>))
    ensures !Truthy(GetRefreshToken(env, s)) ==> r == (s, NoRefreshToken, None)
    ensures Truthy(GetRefreshToken(env, s)) && outcome.RefreshFailed? ==>
              r == (Logout(s).0, RefreshError, Some(LogoutRoute))
    ensures Truthy(GetRefreshToken(env, s)) && outcome.RefreshAnswered? ==>
              r.1 == Refreshed && r.2.None?
              && r.0 == s.(storage := r.0.storage)
              && (forall k :: k != TokenKey ==>
                    (k in r.0.storage <==> k in s.storage) && (k in s.storage ==> r.0.storage[k] == s.storage[k]))
    ensures Truthy(GetRefreshToken(env, s)) && outcome.RefreshAnswered?
            && outcome.success && Truthy(outcome.token) && env.encrypt(outcome.token.value).Some? ==>
              TokenKey in r.0.storage && r.0.storage[TokenKey] == env.encrypt(outcome.token.value).value
    ensures Truthy(GetRefreshToken(env, s)) && outcome.RefreshAnswered?
            && !(outcome.success && Truthy(outcome.token) && env.encrypt(outcome.token.value).Some?) ==>
              r.0 == s
  {
    if !Truthy(GetRefreshToken(env, s)) then (s, NoRefreshToken, None)
    else
      match outcome
      case RefreshFailed =>
        var (t, route) := Logout(s);
        (t, RefreshError, Some(route))
      case RefreshAnswered(success, token) =>
        if success && Truthy(token) then
          (s.(storage := StoreEncrypted(env, s.storage, TokenKey, token.value)), Refreshed, None)
        else (s, Refreshed, None)
  }

  /** With a faithful cipher, a refreshed token is the one read back next. */
  lemma RefreshThenRead(env: Env, s: Session, token: string)
    requires Faithful(env) && Truthy(GetRefreshToken(env, s))
    requires token != "" && env.encrypt(token).Some? && env.encrypt(token).value != ""
    ensures var t := RefreshToken(env, s, RefreshAnswered(true, Some(token))).0;
            GetToken(env, t) == (Some(token), t) && t.currentUser == s.currentUser
            && t.isAuthenticated == s.isAuthenticated
  {
  }

  /** `getCurrentUser` */
  function GetCurrentUser(s: Session): Option<User>
  {
    s.currentUser
  }
}
