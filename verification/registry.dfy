/**
 * The dynamic endpoint registry: endpoint keys bound to response specs.
 *
 * The key of a (method, URL) pair is `maphash` over the method's bytes
 * followed by the URL's bytes. The hash's seed is drawn when the process
 * starts, so the hash is a parameter here: every property below holds for
 * any hash function.
 */
module Registry {
  import opened Wrappers
  import opened Text
  import opened Reflection

  type Hash = Bytes -> uint64

  /** `dynamicEndpoints`: endpoint key to the spec bound to it. */
  type Table = map<uint64, Spec>

  /** `dynamicEndpointSpec`: the method and literal request target a spec is bound to. */
  datatype EndpointSpec = EndpointSpec(httpMethod: Bytes, url: Bytes)

  /** `configureReflectionSpec`: one spec and the endpoints it is bound to. */
  datatype ConfigureSpec = ConfigureSpec(spec: Spec, endpoints: seq<EndpointSpec>)

  /** `computeEndpointKey`: the hash of the method followed by the URL, with no separator. */
  function EndpointKey(hash: Hash, httpMethod: Bytes, url: Bytes): uint64 {
    hash(httpMethod + url)
  }

  function KeysOf(hash: Hash, endpoints: seq<EndpointSpec>): set<uint64> {
    set e | e in endpoints :: EndpointKey(hash, e.httpMethod, e.url)
  }

  lemma KeysOfFirst(hash: Hash, endpoints: seq<EndpointSpec>)
    requires endpoints != []
    ensures KeysOf(hash, endpoints) == {EndpointKey(hash, endpoints[0].httpMethod, endpoints[0].url)} + KeysOf(hash, endpoints[1..])
    ensures forall x :: x in endpoints ==> x == endpoints[0] || x in endpoints[1..]
  {
    assert endpoints == [endpoints[0]] + endpoints[1..];
  }

  /** The bytes a pair feeds to the hash. */
  function Joined(e: EndpointSpec): Bytes {
    e.httpMethod + e.url
  }

  /** The registry loop of `handleConfigureReflection`: binds the spec to each endpoint in turn. */
  function Bind(table: Table, hash: Hash, spec: Spec, endpoints: seq<EndpointSpec>): (r: Table)
    ensures r.Keys == table.Keys + KeysOf(hash, endpoints)
    ensures forall e :: e in endpoints ==> r[EndpointKey(hash, e.httpMethod, e.url)] == spec
    ensures forall k :: k in table && k !in KeysOf(hash, endpoints) ==> r[k] == table[k]
    decreases |endpoints|
  {
    if endpoints == [] then table
    else
      var e := endpoints[0];
      KeysOfFirst(hash, endpoints);
      Bind(table[EndpointKey(hash, e.httpMethod, e.url) := spec], hash, spec, endpoints[1..])
  }

  /** The registry read of `handleDefault`. */
  function Lookup(table: Table, hash: Hash, httpMethod: Bytes, url: Bytes): (r: Option<Spec>)
    ensures r.Some? <==> EndpointKey(hash, httpMethod, url) in table
    ensures r.Some? ==> r.value == table[EndpointKey(hash, httpMethod, url)]
  {
    var key := EndpointKey(hash, httpMethod, url);
    if key in table then Some(table[key]) else None
  }

  /** The loop of `handleReset`: deletes the keys one at a time, in whatever order the map yields them. */
  method Clear(table: Table) returns (r: Table)
    ensures r == map[]
  {
    r := table;
    while r.Keys != {}
      decreases |r.Keys|
    {
      var k :| k in r.Keys;
      r := r - {k};
    }
  }

  /** Pairs whose method and URL run together into the same bytes share a key, whatever the hash. */
  lemma KeyDependsOnJoinedBytes(hash: Hash, a: EndpointSpec, b: EndpointSpec)
    requires Joined(a) == Joined(b)
    ensures EndpointKey(hash, a.httpMethod, a.url) == EndpointKey(hash, b.httpMethod, b.url)
  {
  }

  /** ("GET", "/foo") and ("GE", "T/foo") are one endpoint to the registry. */
  lemma CollidingPairsExample(table: Table, hash: Hash, spec: Spec)
    ensures Lookup(Bind(table, hash, spec, [EndpointSpec("GET", "/foo")]), hash, "GE", "T/foo") == Some(spec)
  {
    var a, b := EndpointSpec("GET", "/foo"), EndpointSpec("GE", "T/foo");
    assert Joined(a) == Joined(b);
    assert EndpointSpec("GET", "/foo") in [EndpointSpec("GET", "/foo")];
  }

  /**
   * After binding, a pair that runs together like one of the listed
   * endpoints finds the spec. A pair whose key is none of the listed keys
   * finds what it found before.
   */
  lemma BindThenLookup(table: Table, hash: Hash, spec: Spec, endpoints: seq<EndpointSpec>, httpMethod: Bytes, url: Bytes)
    ensures (exists e :: e in endpoints && Joined(e) == httpMethod + url) ==>
              Lookup(Bind(table, hash, spec, endpoints), hash, httpMethod, url) == Some(spec)
    ensures EndpointKey(hash, httpMethod, url) !in KeysOf(hash, endpoints) ==>
              Lookup(Bind(table, hash, spec, endpoints), hash, httpMethod, url) == Lookup(table, hash, httpMethod, url)
  {
    if e :| e in endpoints && Joined(e) == httpMethod + url {
      KeyDependsOnJoinedBytes(hash, e, EndpointSpec(httpMethod, url));
    }
  }
}
