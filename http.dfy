/**
 * The parts of Express's request and response objects the middlewares
 * touch. Header names are lower-case on a request, as Node hands them over.
 * A middleware's `next` callback is not an object here: each middleware
 * answers whether it called it.
 */
module Http {

  import opened Wrappers

  /** The claims of a verified access JWT (`Payload`). */
  datatype Claims = Claims(id: Option<int>, email: Option<string>)

  /** The JSON body of an error answer. */
  datatype Body = Body(status: string, message: string)

  const StatusOk := 200
  const NoContent := 204
  const Unauthorized := 401

  /** `req.method` is `verb` here. */
  class Request {
    const verb: string
    const headers: map<string, string>
    const cookies: map<string, string>
    var user: Option<Claims>

    constructor(verb: string, headers: map<string, string>, cookies: map<string, string>)
      ensures this.verb == verb && this.headers == headers && this.cookies == cookies
      ensures user == None
    {
      this.verb := verb;
      this.headers := headers;
      this.cookies := cookies;
      user := None;
    }
  }

  class Response {
    var status: int
    var headers: map<string, string>
    var body: Option<Body>
    var sent: bool

    constructor()
      ensures status == StatusOk && headers == map[] && body == None && !sent
    {
      status := StatusOk;
      headers := map[];
      body := None;
      sent := false;
    }

    /** `res.header(name, value)`: sets one header, replacing an earlier value. */
    method Header(name: string, value: string)
      modifies this
      ensures headers == old(headers)[name := value]
      ensures status == old(status) && body == old(body) && sent == old(sent)
    {
      headers := headers[name := value];
    }

    /**
     * `res.status(code).json(body)`: answers with that status and body. The
     * entity headers Express adds on sending are not part of this model.
     */
    method Reply(code: int, b: Body)
      modifies this
      ensures status == code && body == Some(b) && sent
      ensures headers == old(headers)
    {
      status := code;
      body := Some(b);
      sent := true;
    }

    /**
     * `res.sendStatus(code)`: answers with that status alone. The status
     * text body and the headers Express adds or strips on sending are not
     * part of this model.
     */
    method SendStatus(code: int)
      modifies this
      ensures status == code && sent
      ensures headers == old(headers) && body == old(body)
    {
      status := code;
      sent := true;
    }
  }
}
