/**
 * The `cors` middleware: for a request with an `Origin` header it sets the
 * four `Access-Control-Allow-*` headers, answers a preflight (`OPTIONS`)
 * with 204 itself and passes every other request on.
 */
module Cors {

  import opened Wrappers
  import opened Http
  import opened Strings

  const DefaultMethods: seq<string> := ["GET", "POST", "PUT", "DELETE"]
  const DefaultHeaders: seq<string> := ["Content-Type", "Authorization"]

  const AllowOrigin := "Access-Control-Allow-Origin"
  const AllowMethods := "Access-Control-Allow-Methods"
  const AllowHeaders := "Access-Control-Allow-Headers"
  const AllowCredentials := "Access-Control-Allow-Credentials"

  /** `NODE_ENV`, one of the four values the environment schema accepts. */
  datatype Env = Development | Production | Test | Staging

  /** The options of `cors(...)`; a missing one takes its default. */
  datatype CorsOptions = CorsOptions(
    skip: Option<bool>,
    origins: Option<seq<string>>,
    methods: Option<seq<string>>,
    headers: Option<seq<string>>)

  datatype Settings = Settings(skip: bool, origins: seq<string>, methods: seq<string>, headers: seq<string>)

  /** The defaults: not skipped, no origins, GET, POST, PUT and DELETE, Content-Type and Authorization. */
  function Resolve(o: CorsOptions): (s: Settings)
    ensures s.skip == (o.skip == Some(true))
    ensures s.origins == if o.origins.Some? then o.origins.value else []
    ensures s.methods == if o.methods.Some? then o.methods.value else DefaultMethods
    ensures s.headers == if o.headers.Some? then o.headers.value else DefaultHeaders
  {
    Settings(
      if o.skip.Some? then o.skip.value else false,
      if o.origins.Some? then o.origins.value else [],
      if o.methods.Some? then o.methods.value else DefaultMethods,
      if o.headers.Some? then o.headers.value else DefaultHeaders)
  }

  /** `parseHeader`: the values joined with ", ". */
  function ParseHeader(values: seq<string>): (s: string)
    ensures values == [] ==> s == ""
    ensures |values| == 1 ==> s == values[0]
  {
    Join(values, ", ")
  }

  /**
   * `getAllowedOrigin`: "*" in development and test; elsewhere the
   * request's origin when the list holds it, and "" otherwise.
   */
  function AllowedOrigin(origin: string, origins: seq<string>, nodeEnv: Option<Env>): (r: string)
    ensures nodeEnv == Some(Development) || nodeEnv == Some(Test) ==> r == "*"
    ensures nodeEnv != Some(Development) && nodeEnv != Some(Test) ==>
              (r == origin && origin in origins) || (r == "" && origin !in origins)
  {
    if nodeEnv == Some(Development) || nodeEnv == Some(Test) then "*"
    else if origin in origins then origin
    else ""
  }

  /** `methods.map(toUpperCase)`. */
  function UpperAll(values: seq<string>): (r: seq<string>)
    ensures |r| == |values|
    ensures forall i :: 0 <= i < |values| ==> r[i] == Upper(values[i])
  {
    seq(|values|, i requires 0 <= i < |values| => Upper(values[i]))
  }

  /** A response's headers with the four CORS headers set over them. */
  function WithCors(h: map<string, string>, origin: string, methods: seq<string>, headers: seq<string>): map<string, string>
  {
    h[AllowOrigin := origin]
     [AllowMethods := ParseHeader(UpperAll(methods))]
     [AllowHeaders := ParseHeader(headers)]
     [AllowCredentials := "true"]
  }

  /** `setCorsHeaders`: sets the four headers one after another. */
  method SetCorsHeaders(res: Response, origin: string, methods: seq<string>, headers: seq<string>)
    modifies res
    ensures res.headers == WithCors(old(res.headers), origin, methods, headers)
    ensures res.status == old(res.status) && res.body == old(res.body) && res.sent == old(res.sent)
  {
    res.Header(AllowOrigin, origin);
    res.Header(AllowMethods, ParseHeader(UpperAll(methods)));
    res.Header(AllowHeaders, ParseHeader(headers));
    res.Header(AllowCredentials, "true");
  }

  /**
   * The middleware `cors(options)` on one request. Skipped, or without an
   * origin: nothing is set and `next` is called. Otherwise the CORS headers
   * are set; a preflight is answered 204 without `next`, any other method
   * goes on to `next`.
   */
  method Handle(options: CorsOptions, nodeEnv: Option<Env>, req: Request, res: Response) returns (next: bool)
    modifies res
    ensures var s := Resolve(options);
            var origin := if "origin" in req.headers then req.headers["origin"] else "";
            (s.skip || origin == "" ==>
               next && res.headers == old(res.headers) && res.status == old(res.status) &&
               res.body == old(res.body) && res.sent == old(res.sent)) &&
            (!s.skip && origin != "" ==>
               res.headers == WithCors(old(res.headers), AllowedOrigin(origin, s.origins, nodeEnv), s.methods, s.headers) &&
               res.body == old(res.body) &&
               (req.verb == "OPTIONS" ==> !next && res.status == NoContent && res.sent) &&
               (req.verb != "OPTIONS" ==> next && res.status == old(res.status) && res.sent == old(res.sent)))
  {
    var s := Resolve(options);
    if s.skip {
      return true;
    }
    var origin := if "origin" in req.headers then req.headers["origin"] else "";
    if origin == "" {
      return true;
    }
    var allowed := AllowedOrigin(origin, s.origins, nodeEnv);
    SetCorsHeaders(res, allowed, s.methods, s.headers);
    if req.verb == "OPTIONS" {
      res.SendStatus(NoContent);
      return false;
    }
    next := true;
  }

  // ---------------------------------------------------------------------
  // What the headers say

  /** The request's origin is echoed only when listed; "*" only in development and test. */
  lemma OriginNeverWidened(origin: string, origins: seq<string>, nodeEnv: Option<Env>)
    requires origin != "*" || "*" !in origins
    ensures AllowedOrigin(origin, origins, nodeEnv) == "*" ==> nodeEnv == Some(Development) || nodeEnv == Some(Test)
    ensures AllowedOrigin(origin, origins, nodeEnv) != "" && AllowedOrigin(origin, origins, nodeEnv) != "*" ==>
              AllowedOrigin(origin, origins, nodeEnv) == origin && origin in origins
  {
  }

  /** With the default options, production and staging allow no origin at all. */
  lemma DefaultOriginsAllowNone(origin: string)
    ensures AllowedOrigin(origin, Resolve(CorsOptions(None, None, None, None)).origins, Some(Production)) == ""
    ensures AllowedOrigin(origin, Resolve(CorsOptions(None, None, None, None)).origins, Some(Staging)) == ""
    ensures AllowedOrigin(origin, Resolve(CorsOptions(None, None, None, None)).origins, None) == ""
  {
  }

  /** The default headers: the four methods and the two request headers. */
  lemma DefaultHeaderValues()
    ensures ParseHeader(UpperAll(DefaultMethods)) == "GET, POST, PUT, DELETE"
    ensures ParseHeader(DefaultHeaders) == "Content-Type, Authorization"
  {
    DefaultMethodsUpper();
    DefaultMethodsJoined();
    DefaultHeadersJoined();
  }

  lemma DefaultHeadersJoined()
    ensures Join(DefaultHeaders, ", ") == "Content-Type, Authorization"
  {
    JoinStep("Content-Type", ["Authorization"]);
  }

  lemma DefaultMethodsJoined()
    ensures Join(DefaultMethods, ", ") == "GET, POST, PUT, DELETE"
  {
    var tail := ["PUT", "DELETE"];
    JoinStep("PUT", ["DELETE"]);
    JoinStep("POST", tail);
    JoinStep("GET", ["POST"] + tail);
  }

  /** The default methods are upper case already. */
  lemma DefaultMethodsUpper()
    ensures UpperAll(DefaultMethods) == DefaultMethods
  {
    forall i | 0 <= i < |DefaultMethods|
      ensures Upper(DefaultMethods[i]) == DefaultMethods[i]
    {
      UpperKeeps(DefaultMethods[i]);
    }
  }

  lemma JoinStep(first: string, rest: seq<string>)
    requires rest != []
    ensures Join([first] + rest, ", ") == first + ", " + Join(rest, ", ")
  {
    assert ([first] + rest)[1..] == rest;
  }

  /** Methods given in lower case are sent upper-cased: `["get", "post"]` becomes "GET, POST". */
  lemma LowerMethodsUpperCased()
    ensures ParseHeader(UpperAll(["get", "post"])) == "GET, POST"
  {
    assert Upper("get") == "GET" by {
      assert UpperChar('g') == 'G' && UpperChar('e') == 'E' && UpperChar('t') == 'T';
    }
    assert Upper("post") == "POST" by {
      assert UpperChar('p') == 'P' && UpperChar('o') == 'O' && UpperChar('s') == 'S' && UpperChar('t') == 'T';
    }
    assert UpperAll(["get", "post"]) == ["GET", "POST"];
    JoinStep("GET", ["POST"]);
  }

  /** Whatever the options, a CORS answer adds the four headers, allows credentials, and keeps every other header. */
  lemma CorsHeadersShape(h: map<string, string>, origin: string, methods: seq<string>, headers: seq<string>)
    ensures var w := WithCors(h, origin, methods, headers);
            w.Keys == h.Keys + {AllowOrigin, AllowMethods, AllowHeaders, AllowCredentials} &&
            w[AllowCredentials] == "true" && w[AllowOrigin] == origin &&
            forall k :: k in h && k !in {AllowOrigin, AllowMethods, AllowHeaders, AllowCredentials} ==> w[k] == h[k]
  {
  }

  /** Each value after the first starts with the space of the ", " before it. */
  function Spaced(values: seq<string>): (r: seq<string>)
    requires values != []
    ensures |r| == |values| && r[0] == values[0]
    ensures forall i :: 1 <= i < |values| ==> r[i] == " " + values[i]
  {
    [values[0]] + seq(|values| - 1, i requires 0 <= i < |values| - 1 => " " + values[i + 1])
  }

  lemma {:induction false} JoinSpaced(values: seq<string>)
    requires values != []
    ensures Join(values, ", ") == Join(Spaced(values), ",")
  {
    if |values| > 1 {
      var tail := values[1..];
      JoinSpaced(tail);
      JoinPrefixed(tail);
      assert Spaced(values)[1..] == Spaced(tail)[0 := " " + tail[0]];
    }
  }

  /** A space before a ", "-joined list is a space before each of its ","-joined values. */
  lemma {:induction false} JoinPrefixed(values: seq<string>)
    requires values != []
    ensures " " + Join(values, ", ") == Join(Spaced(values)[0 := " " + values[0]], ",")
  {
    var p := Spaced(values)[0 := " " + values[0]];
    if |values| > 1 {
      var tail := values[1..];
      JoinPrefixed(tail);
      assert p[1..] == Spaced(tail)[0 := " " + tail[0]];
      assert " " + Join(values, ", ") == (" " + values[0]) + "," + (" " + Join(tail, ", "));
    }
  }

  /**
   * A client splitting the header on "," gets the values back, each after
   * the first with its leading space, when no value holds a comma.
   */
  lemma ParseHeaderSplit(values: seq<string>)
    requires values != []
    requires forall i :: 0 <= i < |values| ==> ',' !in values[i]
    ensures Split(ParseHeader(values), ',') == Spaced(values)
  {
    JoinSpaced(values);
    var spaced := Spaced(values);
    forall i | 0 <= i < |spaced|
      ensures ',' !in spaced[i]
    {
      if i > 0 {
        assert spaced[i] == " " + values[i];
      }
    }
    SplitJoin(spaced, ',');
  }
}
