/** `withAuth` of client/src/lib/authhelpers.ts: the page-level guard of the web client. */
module AuthHelpers {
  import opened Wrappers

  const AccessTokenCookie := "accessToken"

  /** What `getServerSideProps` returns: a redirect, or empty props that let the page render. */
  datatype ServerSideResult =
    | Redirect(destination: string, permanent: bool)
    | Props

  const SignInRedirect := Redirect("/auth", false)

  /** The `accessToken` cookie as `parseCookies` yields it, `None` when absent. */
  function AccessToken(cookies: map<string, string>): (token: Option<string>)
    ensures token.Some? <==> AccessTokenCookie in cookies
    ensures token.Some? ==> token.value == cookies[AccessTokenCookie]
  {
    if AccessTokenCookie in cookies then Some(cookies[AccessTokenCookie]) else None
  }

  /** Setting or changing any other cookie never changes the token read. */
  lemma OtherCookiesIgnored(cookies: map<string, string>, name: string, value: string)
    requires name != AccessTokenCookie
    ensures AccessToken(cookies[name := value]) == AccessToken(cookies)
  {
  }

  /**
   * `withAuth`. `secret` is `process.env.ACCESS_TOKEN_SECRET`, read once
   * when the module loads and possibly unset; `verify` stands for
   * `jsonwebtoken.verify`, true when it returns and false when it throws.
   */
  function WithAuth(cookies: map<string, string>, secret: Option<string>,
                    verify: (string, Option<string>) -> bool): (r: ServerSideResult)
    ensures r == Props || r == SignInRedirect
    ensures r == Props <==>
      AccessTokenCookie in cookies && cookies[AccessTokenCookie] != "" && verify(cookies[AccessTokenCookie], secret)
  {
    match AccessToken(cookies)
    case None => SignInRedirect
    case Some(token) =>
      if token == "" then SignInRedirect
      else if verify(token, secret) then Props
      else SignInRedirect
  }
}
