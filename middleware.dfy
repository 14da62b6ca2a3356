/**
  The two request gates of src/middleware.rs: `require_auth`, which admits a
  request only with a readable session, and `csrf_protect`, which admits a
  state-changing request only when its `x-csrf-token` header matches the
  session's token. Reading the session cookie is an input here: its outcome
  (`Ok(Some(session))`, `Ok(None)` or an error) is a field of the request.
*/
module Middleware {
  import opened Base
  import opened Text
  import opened Models
  import opened Errors

  /** The names `http::Method` parses to one of its nine standard variants (case-sensitively). */
  const STANDARD_METHODS: set<String> := {"GET", "HEAD", "POST", "PUT", "DELETE", "CONNECT", "OPTIONS", "TRACE", "PATCH"}

  /** Any other method name: a standard name never ends up here. */
  type ExtensionName = t: String | t !in STANDARD_METHODS witness "PROPFIND"

  /** `http::Method`: the nine standard methods and any other token. */
  datatype Method = Get | Head | Post | Put | Delete | Connect | Options | Trace | Patch | Extension(token: ExtensionName)

  /** What the gates look at in a request. */
  datatype Request = Request(
    verb: Method,
    path: String,
    csrfHeader: Option<String>,                          // raw bytes of `x-csrf-token`, if sent
    session: Result<Option<SessionData>, AppError>)      // what `auth::read_session` returned

  /** What happens to the session cookie in the response. */
  datatype CookieUpdate = KeepCookies | ClearSession(secure: bool)

  /** The outcome of a gate. */
  datatype Outcome =
    | Forward(attached: Option<SessionData>)             // `next.run(request)`, with the session inserted if any
    | Reply(status: nat, message: String, cookies: CookieUpdate)
    | Redirect(location: String, cookies: CookieUpdate)

  const AUTH_REQUIRED: String := "authentication required"
  const INVALID_CSRF: String := "invalid csrf token"
  const LOGIN_PATH: String := "/auth/login"
  const REMOVE_PREFIX: String := "/remove"

  /** `requires_csrf`: only the state-changing methods POST, PUT, PATCH and DELETE. */
  predicate RequiresCsrf(m: Method) {
    m.Post? || m.Put? || m.Patch? || m.Delete?
  }

  /** The methods a browser may send without side effects never need a token. */
  lemma {:induction false} SafeMethodsExempt(m: Method)
    ensures RequiresCsrf(m) <==> !(m.Get? || m.Head? || m.Options? || m.Trace? || m.Connect? || m.Extension?)
  {
  }

  /** `HeaderValue::to_str` accepts tab and the visible ASCII range only. */
  predicate IsHeaderTextChar(c: char) {
    c == '\t' || ' ' <= c <= '~'
  }

  predicate IsHeaderText(v: String) {
    forall k :: 0 <= k < |v| ==> IsHeaderTextChar(v[k])
  }

  /**
    The token a request presents: the header's value, when it is present and
    readable as text, with its outer whitespace removed.
  */
  function HeaderToken(header: Option<String>): (token: Option<String>)
    ensures token.Some? <==> header.Some? && IsHeaderText(header.value)
    ensures token.Some? ==> Bordered(token.value)
    ensures token.Some? ==> exists pre: String, post: String ::
      AllWhitespace(pre) && AllWhitespace(post) && header.value == pre + token.value + post
  {
    match header
    case None => None
    case Some(v) =>
      if IsHeaderText(v) then
        TrimIsPadded(v);
        Some(Trim(v))
      else None
  }

  /** Spaces and tabs are header text, so padding with them keeps a value readable or unreadable. */
  lemma {:induction false} PaddedHeaderText(pre: String, token: String, post: String)
    requires forall k :: 0 <= k < |pre| ==> pre[k] in {' ', '\t'}
    requires forall k :: 0 <= k < |post| ==> post[k] in {' ', '\t'}
    ensures IsHeaderText(pre + token + post) == IsHeaderText(token)
  {
    var padded := pre + token + post;
    forall k | 0 <= k < |token| ensures padded[|pre| + k] == token[k] { }
    forall k | 0 <= k < |padded| ensures IsHeaderTextChar(padded[k]) || (|pre| <= k < |pre| + |token| && padded[k] == token[k - |pre|]) {
      if k < |pre| {
        assert padded[k] == pre[k];
      } else if k >= |pre| + |token| {
        assert padded[k] == post[k - |pre| - |token|];
      }
    }
  }

  /** Padding a header with spaces and tabs leaves its token unchanged. */
  lemma {:induction false} HeaderTokenIgnoresPadding(pre: String, token: String, post: String)
    requires forall k :: 0 <= k < |pre| ==> pre[k] in {' ', '\t'}
    requires forall k :: 0 <= k < |post| ==> post[k] in {' ', '\t'}
    ensures HeaderToken(Some(pre + token + post)) == HeaderToken(Some(token))
  {
    PaddedHeaderText(pre, token, post);
    assert AllWhitespace(pre) && AllWhitespace(post);
    TrimIgnoresPadding(pre, token, post);
  }

  /** The session `read_session` produced, when it produced one. */
  function SessionOf(read: Result<Option<SessionData>, AppError>): Option<SessionData> {
    match read
    case Ok(Some(s)) => Some(s)
    case _ => None
  }

  /** `csrf_protect`. */
  function CsrfProtect(req: Request): (r: Outcome)
    ensures !RequiresCsrf(req.verb) ==> r == Forward(None)
    ensures RequiresCsrf(req.verb) && SessionOf(req.session).None? ==> r == Reply(UNAUTHORIZED, AUTH_REQUIRED, KeepCookies)
    ensures RequiresCsrf(req.verb) && SessionOf(req.session).Some? ==>
      (r == Forward(None) <==> HeaderToken(req.csrfHeader) == Some(SessionOf(req.session).value.csrfToken))
    ensures RequiresCsrf(req.verb) && SessionOf(req.session).Some? ==>
      (HeaderToken(req.csrfHeader) != Some(SessionOf(req.session).value.csrfToken) ==> r == Reply(FORBIDDEN, INVALID_CSRF, KeepCookies))
    ensures r == Forward(None) || r == Reply(UNAUTHORIZED, AUTH_REQUIRED, KeepCookies) || r == Reply(FORBIDDEN, INVALID_CSRF, KeepCookies)
  {
    if !RequiresCsrf(req.verb) then Forward(None)
    else
      match req.session
      case Ok(Some(session)) =>
        if HeaderToken(req.csrfHeader) == Some(session.csrfToken) then Forward(None)
        else Reply(FORBIDDEN, INVALID_CSRF, KeepCookies)
      case _ => Reply(UNAUTHORIZED, AUTH_REQUIRED, KeepCookies)
  }

  /** Spaces and tabs around the header token do not change the decision. */
  lemma {:induction false} CsrfIgnoresHeaderPadding(req: Request, pre: String, token: String, post: String)
    requires forall k :: 0 <= k < |pre| ==> pre[k] in {' ', '\t'}
    requires forall k :: 0 <= k < |post| ==> post[k] in {' ', '\t'}
    ensures CsrfProtect(req.(csrfHeader := Some(pre + token + post))) == CsrfProtect(req.(csrfHeader := Some(token)))
  {
    HeaderTokenIgnoresPadding(pre, token, post);
  }

  /**
    A state-changing request whose header carries the session's token,
    padded with spaces or tabs, is let through.
  */
  lemma {:induction false} PaddedSessionTokenAccepted(req: Request, pre: String, post: String)
    requires RequiresCsrf(req.verb) && SessionOf(req.session).Some?
    requires IsHeaderText(SessionOf(req.session).value.csrfToken) && Bordered(SessionOf(req.session).value.csrfToken)
    requires forall k :: 0 <= k < |pre| ==> pre[k] in {' ', '\t'}
    requires forall k :: 0 <= k < |post| ==> post[k] in {' ', '\t'}
    requires req.csrfHeader == Some(pre + SessionOf(req.session).value.csrfToken + post)
    ensures CsrfProtect(req) == Forward(None)
  {
    var t := SessionOf(req.session).value.csrfToken;
    HeaderTokenIgnoresPadding(pre, t, post);
    TrimOfPadded([], t, []);
    assert [] + t + [] == t;
  }

  /** A request that changes nothing is let through whatever its header and session. */
  lemma {:induction false} SafeRequestUnchecked(req: Request, header: Option<String>, read: Result<Option<SessionData>, AppError>)
    requires !RequiresCsrf(req.verb)
    ensures CsrfProtect(req.(csrfHeader := header, session := read)) == Forward(None)
  {
  }

  /** `unauthenticated_response`: clears the session cookie, then 401 for `/remove...`, else the login page. */
  function UnauthenticatedResponse(path: String, secure: bool): (r: Outcome)
    ensures !r.Forward? && r.cookies == ClearSession(secure)
    ensures r.Reply? <==> StartsWith(path, REMOVE_PREFIX)
    ensures r.Reply? ==> r.status == UNAUTHORIZED && r.message == AUTH_REQUIRED
    ensures r.Redirect? ==> r.location == LOGIN_PATH
  {
    if StartsWith(path, REMOVE_PREFIX) then Reply(UNAUTHORIZED, AUTH_REQUIRED, ClearSession(secure))
    else Redirect(LOGIN_PATH, ClearSession(secure))
  }

  /**
    `require_auth`: forwards with the session attached when one was read;
    no session and a session that could not be read are treated alike.
  */
  function RequireAuth(req: Request, secure: bool): (r: Outcome)
    ensures r.Forward? <==> req.session.Ok? && req.session.value.Some?
    ensures r.Forward? ==> r.attached == Some(req.session.value.value)
    ensures !r.Forward? ==> r == UnauthenticatedResponse(req.path, secure)
  {
    match req.session
    case Ok(Some(session)) => Forward(Some(session))
    case _ => UnauthenticatedResponse(req.path, secure)
  }

  /** A request is authenticated by `require_auth` exactly when `csrf_protect` has a session to check against. */
  lemma {:induction false} GatesAgreeOnSession(req: Request, secure: bool)
    ensures RequireAuth(req, secure).Forward? <==> SessionOf(req.session).Some?
    ensures RequireAuth(req, secure).Forward? ==> RequireAuth(req, secure).attached == SessionOf(req.session)
  {
  }
}
