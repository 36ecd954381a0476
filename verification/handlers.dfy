/**
 * The request handlers over the registry and the reflection engine, after
 * the request body has been read and decoded from JSON. Reading or decoding
 * either succeeds with a value or fails with a `ParseError`.
 */
module Handlers {
  import opened Wrappers
  import opened Text
  import opened Http
  import opened Reflection
  import opened Registry

  /** The two ways reading a request's spec can fail. */
  datatype ParseError = UnreadableBody | InvalidJson

  /** The method and raw request target (`r.RequestURI`, query string included) of a request. */
  datatype Request = Request(httpMethod: Bytes, requestUri: Bytes)

  /** What a configuration request leaves behind: the registry and the response. */
  datatype Configured = Configured(table: Table, writer: Writer)

  const FAILED_TO_PARSE: Bytes := "Failed to parse request body"
  const INVALID_JSON: Bytes := "Invalid JSON in request body"

  /** The 400 response to a request whose spec could not be read. */
  function Rejected(e: ParseError): (w: Writer)
    ensures w.status == Some(400) && w.header == map[] && w.superfluous == 0
    ensures w.body == (if e == UnreadableBody then FAILED_TO_PARSE else INVALID_JSON)
  {
    Write(WriteHeader(Fresh, 400), if e.UnreadableBody? then FAILED_TO_PARSE else INVALID_JSON)
  }

  /** `handleDefault`: reflect the spec bound to the request's endpoint, or answer with an empty 200. */
  function HandleDefault(table: Table, hash: Hash, req: Request): (r: Reflected)
    ensures Lookup(table, hash, req.httpMethod, req.requestUri).None? ==> r == Reflected(Fresh, None)
    ensures Lookup(table, hash, req.httpMethod, req.requestUri).Some? ==>
              r == Reflect(table[EndpointKey(hash, req.httpMethod, req.requestUri)])
  {
    match Lookup(table, hash, req.httpMethod, req.requestUri)
    case Some(spec) => Reflect(spec)
    case None => Reflected(Fresh, None)
  }

  /** `handleReflect`: reflect the spec carried by the request once; the registry is not involved. */
  function HandleReflect(parsed: Result<Spec, ParseError>): (r: Reflected)
    ensures parsed.Failure? ==> r == Reflected(Rejected(parsed.error), None)
    ensures parsed.Success? ==> r == Reflect(parsed.value)
  {
    match parsed
    case Failure(e) => Reflected(Rejected(e), None)
    case Success(spec) => Reflect(spec)
  }

  /** `handleConfigureReflection`: bind the spec to every listed endpoint, or change nothing if the request is unreadable. */
  function HandleConfigure(table: Table, hash: Hash, parsed: Result<ConfigureSpec, ParseError>): (r: Configured)
    ensures parsed.Failure? ==> r == Configured(table, Rejected(parsed.error))
    ensures parsed.Success? ==> r.writer == Fresh
    ensures parsed.Success? ==> r.table.Keys == table.Keys + KeysOf(hash, parsed.value.endpoints)
    ensures parsed.Success? ==> forall e :: e in parsed.value.endpoints ==>
              r.table[EndpointKey(hash, e.httpMethod, e.url)] == parsed.value.spec
    ensures parsed.Success? ==> forall k :: k in table && k !in KeysOf(hash, parsed.value.endpoints) ==>
              r.table[k] == table[k]
  {
    match parsed
    case Failure(e) => Configured(table, Rejected(e))
    case Success(cfg) => Configured(Bind(table, hash, cfg.spec, cfg.endpoints), Fresh)
  }

  /** `handleReset`: forget every binding and answer with an empty 200. */
  method HandleReset(table: Table) returns (r: Table, w: Writer)
    ensures r == map[]
    ensures w == Fresh
  {
    r := Clear(table);
    w := Fresh;
  }

  /** A request to an endpoint nobody configured gets a 200 with no headers and no body. */
  lemma UnconfiguredIsEmpty200(table: Table, hash: Hash, req: Request)
    requires EndpointKey(hash, req.httpMethod, req.requestUri) !in table
    ensures var w := HandleDefault(table, hash, req).writer;
            SentStatus(w) == 200 && w.header == map[] && w.body == []
  {
  }

  /** After configuring an endpoint, a request to it is reflected with the configured spec. */
  lemma ConfigureThenRequest(table: Table, hash: Hash, cfg: ConfigureSpec, req: Request)
    requires EndpointSpec(req.httpMethod, req.requestUri) in cfg.endpoints
    ensures var t := HandleConfigure(table, hash, Success(cfg)).table;
            HandleDefault(t, hash, req) == Reflect(cfg.spec)
  {
  }

  /**
   * Configure GET /foo, then request GET /foo and GET /bar: the first is
   * reflected with the spec, the second, if its key differs from every key
   * already taken, gets the empty 200.
   */
  lemma ConfigureFooExample(hash: Hash, spec: Spec)
    requires hash("GET/bar") != hash("GET/foo")
    ensures var t := HandleConfigure(map[], hash, Success(ConfigureSpec(spec, [EndpointSpec("GET", "/foo")]))).table;
            HandleDefault(t, hash, Request("GET", "/foo")) == Reflect(spec) &&
            HandleDefault(t, hash, Request("GET", "/bar")) == Reflected(Fresh, None)
  {
    var foo := EndpointSpec("GET", "/foo");
    var eps := [foo];
    assert foo in eps;
    var get: Bytes := "GET";
    assert get + "/foo" == "GET/foo" && get + "/bar" == "GET/bar";
    assert KeysOf(hash, eps) == {hash("GET/foo")} by {
      assert forall e :: e in eps ==> e == foo;
    }
  }

  /** After a reset every request gets the empty 200, whatever was configured before. */
  lemma ResetThenRequest(hash: Hash, req: Request)
    ensures HandleDefault(map[], hash, req) == Reflected(Fresh, None)
  {
  }

  /** An unreadable configuration request leaves every binding as it was. */
  lemma BadConfigureKeepsTable(table: Table, hash: Hash, e: ParseError, req: Request)
    ensures var c := HandleConfigure(table, hash, Failure(e));
            SentStatus(c.writer) == 400 && HandleDefault(c.table, hash, req) == HandleDefault(table, hash, req)
  {
  }
}
