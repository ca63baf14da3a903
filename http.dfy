/** The client's request helpers (app/src/http.rs): building the request URI, sorting
    a reply into success or one of the error kinds, and the session cookie the client
    keeps after logging in. The transport itself is a parameter: a reply is given, not
    fetched. */
module Http {
  import opened Wrappers
  import opened Schema
  import Json

  const ServerUri: string := "http://localhost:3000"

  predicate StartsWithSlash(s: string) {
    |s| > 0 && s[0] == '/'
  }

  /** The endpoint without one leading slash, if it has one. */
  function WithoutLeadingSlash(endpoint: string): string {
    if StartsWithSlash(endpoint) then endpoint[1..] else endpoint
  }

  /** Joins the server address and an endpoint with a slash, unless the endpoint brings
      its own: the result is the server address, one slash, and the endpoint without
      its leading slash. */
  function EndpointToUri(endpoint: string): (uri: string)
    ensures |uri| > |ServerUri| && uri[..|ServerUri|] == ServerUri
    ensures uri[|ServerUri|] == '/' && uri[|ServerUri| + 1..] == WithoutLeadingSlash(endpoint)
    ensures |uri| >= |endpoint| && uri[|uri| - |endpoint|..] == endpoint
  {
    var separator := if StartsWithSlash(endpoint) then "" else "/";
    ServerUri + separator + endpoint
  }

  /** Two endpoints address the same URI exactly when they agree after dropping one
      leading slash; in particular `"/books"` and `"books"` do. */
  lemma EndpointToUriInjective(a: string, b: string)
    ensures EndpointToUri(a) == EndpointToUri(b) <==> WithoutLeadingSlash(a) == WithoutLeadingSlash(b)
  {
  }

  /** Unless the endpoint itself starts with two slashes, the join point holds exactly
      one slash: the server address does not end in one and the next character is not
      one. */
  lemma SingleSlashAtJoin(endpoint: string)
    requires !(|endpoint| >= 2 && endpoint[0] == '/' && endpoint[1] == '/')
    ensures var uri := EndpointToUri(endpoint);
            uri[|ServerUri| - 1] != '/' && uri[|ServerUri|] == '/' &&
            (|uri| > |ServerUri| + 1 ==> uri[|ServerUri| + 1] != '/')
  {
  }

  /** The body of a reply, as far as it parses as JSON. */
  datatype Body = Parsed(value: Json.Value) | NotJson

  /** What the transport hands back: a status and a body, or a network failure. */
  datatype Reply = Received(statusCode: nat, body: Body) | NetworkFailure

  datatype Error =
    | Network
    | Api(statusCode: nat, msg: string)
    | Deserialization

  /** The request put on the wire. */
  datatype Request = Request(verb: string, uri: string, body: Option<string>)

  datatype Exchange<R> = Exchange(sent: Request, outcome: Result<R, Error>)

  /** The message of an error reply: the rendering of an object's `error` member, or
      "Unknown error" if it has none; the rendering of the whole value otherwise. */
  function ApiMessage(error: Json.Value): (msg: string)
    ensures |msg| > 0
    ensures error.Object? && Json.Get(error.members, "error").Some? ==>
              msg == Json.Render(Json.Get(error.members, "error").value)
    ensures error.Object? && Json.Get(error.members, "error").None? ==> msg == "Unknown error"
    ensures !error.Object? ==> msg == Json.Render(error)
  {
    match error
    case Object(members) =>
      (match Json.Get(members, "error")
       case Some(m) => Json.Render(m)
       case None => "Unknown error")
    case _ => Json.Render(error)
  }

  /** The server's error body `{"error": text}` reaches the user as the text in JSON
      quotes, escaped. */
  lemma ApiMessageOfServerError(text: string)
    ensures ApiMessage(Json.Object([Json.Member("error", Json.String(text))])) == "\"" + Json.Escape(text) + "\""
  {
  }

  /** Sorts a received reply: a status of 400 or more is always an error — `Api` with
      that status when the body is JSON, `Deserialization` when it is not; below 400 the
      decoded body, or `Deserialization` when it does not decode. */
  function Classify<R>(statusCode: nat, body: Body, decode: Json.Value -> Option<R>): (r: Result<R, Error>)
    ensures statusCode >= 400 ==> r.Err? && (r.error.Api? <==> body.Parsed?)
    ensures r.Err? && r.error.Api? ==> body.Parsed? && r.error == Api(statusCode, ApiMessage(body.value))
    ensures r.Ok? <==> statusCode < 400 && body.Parsed? && decode(body.value).Some?
    ensures r.Ok? ==> decode(body.value) == Some(r.value)
    ensures r.Err? ==> !r.error.Network?
    ensures r.Err? && statusCode < 400 ==> r.error == Deserialization
  {
    if statusCode >= 400 then
      match body
      case NotJson => Err(Deserialization)
      case Parsed(error) => Err(Api(statusCode, ApiMessage(error)))
    else
      match body
      case NotJson => Err(Deserialization)
      case Parsed(value) =>
        match decode(value)
        case None => Err(Deserialization)
        case Some(v) => Ok(v)
  }

  /** `Session::post`: sends the serialised request to the endpoint's URI and sorts the
      reply; a transport failure is a `Network` error. */
  function Post<R>(request: Json.Value, endpoint: string, reply: Reply, decode: Json.Value -> Option<R>): (x: Exchange<R>)
    ensures x.sent == Request("POST", EndpointToUri(endpoint), Some(Json.Render(request)))
    ensures reply.NetworkFailure? <==> x.outcome == Err(Network)
    ensures reply.Received? ==> x.outcome == Classify(reply.statusCode, reply.body, decode)
  {
    var sent := Request("POST", EndpointToUri(endpoint), Some(Json.Render(request)));
    match reply
    case NetworkFailure => Exchange(sent, Err(Network))
    case Received(statusCode, body) => Exchange(sent, Classify(statusCode, body, decode))
  }

  /** `Session::get`: a body-less request to the endpoint's URI, whose reply is sorted
      exactly as `post` sorts it. */
  function Get<R>(endpoint: string, reply: Reply, decode: Json.Value -> Option<R>): (x: Exchange<R>)
    ensures x.sent == Request("GET", EndpointToUri(endpoint), None)
    ensures reply.NetworkFailure? <==> x.outcome == Err(Network)
    ensures reply.Received? ==> x.outcome == Classify(reply.statusCode, reply.body, decode)
  {
    var sent := Request("GET", EndpointToUri(endpoint), None);
    match reply
    case NetworkFailure => Exchange(sent, Err(Network))
    case Received(statusCode, body) => Exchange(sent, Classify(statusCode, body, decode))
  }

  /** The credentials and role the client keeps after logging in. */
  datatype SessionCookie = SessionCookie(credentials: Cookie, kind: int) {

    function Cookie(): Schema.Cookie {
      credentials
    }

    function UserType(): int {
      kind
    }
  }

  /** `SessionCookie::new`: the accessors give back exactly what was passed in. */
  function NewSessionCookie(id: int, password: string, userType: int): (c: SessionCookie)
    ensures c.Cookie().id == id && c.Cookie().password == password && c.UserType() == userType
  {
    SessionCookie(Schema.Cookie(id, password), userType)
  }
}
