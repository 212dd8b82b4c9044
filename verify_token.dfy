/**
 * The `verifyToken` middleware: finds the access JWT in the `accessToken`
 * cookie or in a `Bearer` authorization header (the cookie first), checks
 * it, and either records its claims on the request and passes the request
 * on, or answers 401.
 */
module VerifyToken {

  import opened Wrappers
  import opened Http
  import opened Strings

  const CookieName := "accessToken"
  const BearerPrefix := "Bearer "

  /** A cookie value a client sets when it has no token: empty, or a stringified null or undefined. */
  predicate Sentinel(value: string)
  {
    value == "" || value == "null" || value == "undefined"
  }

  /** `getTokenFromCookies`: the cookie's value, unless it is missing or a sentinel. */
  function TokenFromCookies(cookies: map<string, string>): (r: Option<string>)
    ensures r.Some? <==> CookieName in cookies && !Sentinel(cookies[CookieName])
    ensures r.Some? ==> r.value == cookies[CookieName] && r.value != ""
  {
    if CookieName in cookies && !Sentinel(cookies[CookieName]) then Some(cookies[CookieName]) else None
  }

  /**
   * The header half of `getToken`: for an authorization header starting
   * with "Bearer ", the second space-separated piece, which is the text up
   * to the next space and may be empty.
   */
  function TokenFromHeader(headers: map<string, string>): (r: Option<string>)
    ensures r.Some? <==> "authorization" in headers && |headers["authorization"]| >= |BearerPrefix| &&
                         headers["authorization"][..|BearerPrefix|] == BearerPrefix
    ensures r.Some? ==>
              var h, n := headers["authorization"], |BearerPrefix| + |r.value|;
              ' ' !in r.value && n <= |h| && h[..n] == BearerPrefix + r.value && (n == |h| || h[n] == ' ')
  {
    if "authorization" in headers && |headers["authorization"]| >= |BearerPrefix| &&
       headers["authorization"][..|BearerPrefix|] == BearerPrefix
    then
      var h := headers["authorization"];
      var rest := h[|BearerPrefix|..];
      assert h == "Bearer" + [' '] + rest;
      SplitAfter("Bearer", ' ', rest);
      SplitFirst(rest, ' ');
      Some(Split(h, ' ')[1])
    else None
  }

  /** The first piece of a split is the text before the first separator. */
  lemma {:induction false} SplitFirst(s: string, c: char)
    ensures var p := Split(s, c)[0];
            |p| <= |s| && s[..|p|] == p && (|p| == |s| || s[|p|] == c)
  {
    if s != [] {
      SplitFirst(s[1..], c);
    }
  }

  /** `getToken`: a usable cookie, else the header's token. */
  function GetToken(cookies: map<string, string>, headers: map<string, string>): (r: Option<string>)
    ensures TokenFromCookies(cookies).Some? ==> r == TokenFromCookies(cookies)
    ensures TokenFromCookies(cookies).None? ==> r == TokenFromHeader(headers)
  {
    var cookie := TokenFromCookies(cookies);
    if cookie.Some? then cookie else TokenFromHeader(headers)
  }

  /**
   * `verifyToken`, with jsonwebtoken's verification under the access secret
   * as the parameter `decode` (None where it throws). No token, or an empty
   * one: 401 "No token provided". A token that does not verify: 401
   * "Invalid token". Otherwise the claims become `req.user` and `next` is
   * called.
   */
  method Verify(req: Request, res: Response, decode: string -> Option<Claims>) returns (next: bool)
    modifies req, res
    ensures var token := GetToken(req.cookies, req.headers);
            (token.None? || token.value == "" ==>
               !next && res.status == Unauthorized && res.body == Some(Body("error", "No token provided")) && res.sent &&
               res.headers == old(res.headers) && req.user == old(req.user)) &&
            (token.Some? && token.value != "" && decode(token.value).None? ==>
               !next && res.status == Unauthorized && res.body == Some(Body("error", "Invalid token")) && res.sent &&
               res.headers == old(res.headers) && req.user == old(req.user)) &&
            (token.Some? && token.value != "" && decode(token.value).Some? ==>
               next && req.user == decode(token.value) &&
               res.status == old(res.status) && res.body == old(res.body) && res.sent == old(res.sent) &&
               res.headers == old(res.headers))
  {
    var token := GetToken(req.cookies, req.headers);
    if token.None? || token.value == "" {
      res.Reply(Unauthorized, Body("error", "No token provided"));
      return false;
    }
    var claims := decode(token.value);
    if claims.None? {
      res.Reply(Unauthorized, Body("error", "Invalid token"));
      return false;
    }
    req.user := claims;
    next := true;
  }

  // ---------------------------------------------------------------------
  // Which token is used

  /** A bearer header carries back the token written into it, if it has no space. */
  lemma BearerToken(t: string)
    requires ' ' !in t
    ensures TokenFromHeader(map["authorization" := BearerPrefix + t]) == Some(t)
  {
    var h := BearerPrefix + t;
    assert h[..|BearerPrefix|] == BearerPrefix;
    assert h == "Bearer" + [' '] + t;
    SplitAfter("Bearer", ' ', t);
    SplitWhole(t, ' ');
  }

  /** A header of "Bearer " alone yields the empty token, which is answered as no token at all. */
  lemma BearerEmpty()
    ensures TokenFromHeader(map["authorization" := "Bearer "]) == Some("")
  {
    BearerToken("");
  }

  /** Only the first word after "Bearer " is taken; whatever follows the next space is dropped. */
  lemma BearerFirstWord(t: string, more: string)
    requires ' ' !in t
    ensures TokenFromHeader(map["authorization" := BearerPrefix + t + " " + more]) == Some(t)
  {
    var rest := t + [' '] + more;
    var h := BearerPrefix + t + " " + more;
    assert h == "Bearer" + [' '] + rest;
    assert h[..|BearerPrefix|] == BearerPrefix;
    SplitAfter("Bearer", ' ', rest);
    SplitAfter(t, ' ', more);
  }

  /** Another scheme, or "bearer" in lower case, gives no header token. */
  lemma OtherSchemes()
    ensures TokenFromHeader(map["authorization" := "Basic abc"]).None?
    ensures TokenFromHeader(map["authorization" := "bearer abc"]).None?
  {
    assert "Basic abc"[..7][1] != BearerPrefix[1];
    assert "bearer abc"[..7][0] != BearerPrefix[0];
  }

  /** A usable cookie wins over any authorization header. */
  lemma CookieWins(t: string, headers: map<string, string>)
    requires !Sentinel(t)
    ensures GetToken(map[CookieName := t], headers) == Some(t)
  {
  }

  /** A sentinel cookie is as good as no cookie: the header decides. */
  lemma SentinelIgnored(t: string, headers: map<string, string>)
    requires Sentinel(t)
    ensures GetToken(map[CookieName := t], headers) == TokenFromHeader(headers)
    ensures GetToken(map[CookieName := t], headers) == GetToken(map[], headers)
  {
  }

  /** The token used is always one the request carries: the cookie's value or a piece of the header. */
  lemma TokenFromRequest(cookies: map<string, string>, headers: map<string, string>)
    requires GetToken(cookies, headers).Some?
    ensures var t := GetToken(cookies, headers).value;
            (CookieName in cookies && t == cookies[CookieName]) ||
            ("authorization" in headers && t in Split(headers["authorization"], ' '))
  {
    if TokenFromCookies(cookies).None? {
      var h := headers["authorization"];
      var rest := h[|BearerPrefix|..];
      assert h == "Bearer" + [' '] + rest;
      SplitAfter("Bearer", ' ', rest);
    }
  }
}
