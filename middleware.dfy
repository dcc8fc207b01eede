/** app/middleware.ts: the session guard in front of `/dashboard`, as a pure
    decision over the request URL and the `session` cookie. */
module Middleware {
  import opened Wrappers
  import opened JsString

  /** The parts of `req.nextUrl` the guard reads or rewrites. */
  datatype RequestUrl = RequestUrl(origin: string, pathname: string, search: string, hash: string)

  /** `NextResponse.next()` or `NextResponse.redirect(url)`. */
  datatype Decision = Next | Redirect(to: RequestUrl)

  const GuardedPrefix: string := "/dashboard"
  const LoginPath: string := "/auth"

  /** `middleware(req)`; `session` is `req.cookies.get("session")?.value`. */
  function Guard(url: RequestUrl, session: Option<string>): (d: Decision)
    ensures !StartsWith(url.pathname, GuardedPrefix) ==> d == Next
    ensures d.Redirect? <==> StartsWith(url.pathname, GuardedPrefix) && (session.None? || session.value == "")
    ensures d.Redirect? ==> d.to == url.(pathname := LoginPath, search := "")
  {
    if StartsWith(url.pathname, GuardedPrefix) && (session.None? || session.value == "") then
      Redirect(url.(pathname := LoginPath, search := ""))
    else
      Next
  }

  /** Whether a request passes depends only on its pathname and the cookie. */
  lemma DecisionDependsOnPathAndCookie(u1: RequestUrl, u2: RequestUrl, session: Option<string>)
    requires u1.pathname == u2.pathname
    ensures Guard(u1, session).Next? == Guard(u2, session).Next?
  {
  }

  /** The redirect target is not itself guarded, so the redirect cannot loop,
      and it keeps the origin and fragment of the request. */
  lemma RedirectTargetPasses(url: RequestUrl, session: Option<string>)
    requires Guard(url, session).Redirect?
    ensures Guard(Guard(url, session).to, session) == Next
    ensures Guard(url, session).to.origin == url.origin && Guard(url, session).to.hash == url.hash
  {
    var to := Guard(url, session).to;
    assert to.pathname == "/auth";
    assert !StartsWith(to.pathname, GuardedPrefix);
  }
}
