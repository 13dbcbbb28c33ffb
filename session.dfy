/**
 * Session bootstrap: a request without a usable `sessionId` cookie gets a
 * newly generated token, which the reply sets as a cookie; a request with one
 * keeps it. The new token is supplied by the caller (it stands for a
 * random UUID, which is never empty).
 */
module Session {
  import opened Common
  import opened Http

  const CookieName := "sessionId"
  const CookiePath := "/"
  /** The max age the handlers pass, commented as seven days. */
  const CookieMaxAge := 1000 * 60 * 60 * 24 * 7

  /** A cookie value is usable when it is sent and truthy, that is not empty. */
  predicate Present(cookie: Option<string>) {
    cookie.Some? && cookie.value != ""
  }

  /** The session a create request runs under, and the cookie its reply sets, if any. */
  datatype Resolution = Resolution(sessionId: string, setCookie: Option<Cookie>)

  function Resolve(cookie: Option<string>, issued: string): (r: Resolution)
    requires issued != ""
    ensures Present(Some(r.sessionId))
    ensures Present(cookie) ==> r.sessionId == cookie.value && r.setCookie == None
    ensures !Present(cookie) ==>
      r.sessionId == issued && r.setCookie == Some(Cookie(CookieName, issued, CookiePath, CookieMaxAge))
    ensures r.setCookie.Some? ==> r.setCookie.value.value == r.sessionId
  {
    if Present(cookie) then Resolution(cookie.value, None)
    else Resolution(issued, Some(Cookie(CookieName, issued, CookiePath, CookieMaxAge)))
  }

  /**
   * A token once resolved is stable: presenting it on any later request keeps
   * it and sets no cookie, whatever issued token that request would have drawn.
   */
  lemma ResolvedTokenIsReused(cookie: Option<string>, issued: string, later: string)
    requires issued != "" && later != ""
    ensures var r := Resolve(cookie, issued);
      Resolve(Some(r.sessionId), later) == Resolution(r.sessionId, None)
  {
  }
}
