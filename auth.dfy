/** The admin session gate: a single shared password, and a cookie
    `admin=1` that marks a logged-in browser. */
module Auth {
  import opened Wrappers
  import opened Records

  /** The request cookies, by name. */
  type Cookies = map<string, string>

  const AdminCookie: string := "admin"
  const SessionMarker: string := "1"
  const DefaultAdminPassword: string := "virat123"

  /** `process.env.ADMIN_PASSWORD || 'virat123'`: an unset or empty
      setting falls back to the built-in password. */
  function AdminPassword(setting: Option<string>): (p: string)
    ensures p != ""
    ensures setting.Some? && setting.value != "" ==> p == setting.value
    ensures setting.None? || setting.value == "" ==> p == DefaultAdminPassword
  {
    match setting
    case Some(s) => if s != "" then s else DefaultAdminPassword
    case None => DefaultAdminPassword
  }

  /** `requireAuth`: the request passes when its `admin` cookie is exactly "1",
      that is, exactly when the browser already holds the cookie a login sets. */
  predicate RequireAuth(cookies: Cookies): (b: bool)
    ensures b <==> cookies[AdminCookie := SessionMarker] == cookies
  {
    AdminCookie in cookies && cookies[AdminCookie] == SessionMarker
  }

  /** What a login or logout reply asks the browser to do with its cookies. */
  datatype CookieChange = SetSession | ClearSession | KeepCookies

  datatype Reply = Reply(response: Response<bool>, cookie: CookieChange)

  /** POST /admin/login: an exact password match sets the session cookie
      and answers `{ok: true}`; anything else is refused with 403. */
  function Login(password: Field, adminPassword: string): (r: Reply)
    ensures r.response.Ok? <==> password == Some(adminPassword)
    ensures r.response.Ok? ==> r.response.value && r.cookie == SetSession
    ensures !r.response.Ok? ==> r.response.Status() == 403 && r.cookie == KeepCookies
  {
    if password == Some(adminPassword) then Reply(Ok(true), SetSession)
    else Reply(Forbidden, KeepCookies)
  }

  /** POST /admin/logout: answers `{ok: true}` to every browser and leaves
      none of them with a session; only the `admin` cookie is dropped. */
  function Logout(): (r: Reply)
    ensures r.response.Status() == 200 && r.response == Ok(true)
    ensures forall jar :: !RequireAuth(ApplyReply(jar, r.cookie))
    ensures forall jar :: ApplyReply(jar, r.cookie).Keys == jar.Keys - {AdminCookie}
  {
    Reply(Ok(true), ClearSession)
  }

  /** The browser's cookies after it applies a reply. */
  function ApplyReply(jar: Cookies, change: CookieChange): Cookies {
    match change
    case SetSession => jar[AdminCookie := SessionMarker]
    case ClearSession => jar - {AdminCookie}
    case KeepCookies => jar
  }

  /** A successful login opens the session, whatever the browser held before. */
  lemma LoginOpensSession(jar: Cookies, password: Field, adminPassword: string)
    requires password == Some(adminPassword)
    ensures RequireAuth(ApplyReply(jar, Login(password, adminPassword).cookie))
  {
  }

  /** A wrong or missing password is refused with 403 and leaves the
      browser's cookies, and so its session state, as they were. */
  lemma FailedLoginChangesNothing(jar: Cookies, password: Field, adminPassword: string)
    requires password != Some(adminPassword)
    ensures Login(password, adminPassword).response == Forbidden
    ensures ApplyReply(jar, Login(password, adminPassword).cookie) == jar
  {
  }

  /** Logout always succeeds and closes the session. */
  lemma LogoutClosesSession(jar: Cookies)
    ensures Logout().response == Ok(true)
    ensures !RequireAuth(ApplyReply(jar, Logout().cookie))
  {
  }

  /** Only the exact marker passes the gate: a missing cookie, or any other
      value such as "true" or "0", is refused. */
  lemma GateNeedsExactMarker(jar: Cookies, v: string)
    requires v != SessionMarker
    ensures !RequireAuth(jar - {AdminCookie})
    ensures !RequireAuth(jar[AdminCookie := v])
  {
  }
}
