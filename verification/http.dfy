/**
 * The part of Go's `http.ResponseWriter` the handlers use.
 *
 * A `Writer` is the response as a handler builds it: the status of the
 * first `WriteHeader` call, the header map (`http.Header`, each name to its
 * list of values), the bytes written, and how many later `WriteHeader`
 * calls net/http ignored as superfluous. `Write` before any status writes
 * an implicit 200 first; a handler that writes nothing gets an empty 200.
 */
module Http {
  import opened Wrappers
  import opened Text

  datatype Writer = Writer(status: Option<int>, header: map<Bytes, seq<Bytes>>, body: Bytes, superfluous: nat)

  /** The writer a handler receives. */
  const Fresh: Writer := Writer(None, map[], [], 0)

  /** `w.Header().Add(name, value)`: appends a value to the name's list. */
  function AddHeader(w: Writer, name: Bytes, value: Bytes): (r: Writer)
    ensures r.header.Keys == w.header.Keys + {name}
    ensures r.header[name] == (if name in w.header then w.header[name] else []) + [value]
    ensures forall n :: n in w.header && n != name ==> r.header[n] == w.header[n]
    ensures r.status == w.status && r.body == w.body && r.superfluous == w.superfluous
  {
    var values := if name in w.header then w.header[name] else [];
    w.(header := w.header[name := values + [value]])
  }

  /** The header map after adding every entry of `h` once, in whatever order. */
  function AddHeaders(w: Writer, h: map<Bytes, Bytes>): Writer {
    w.(header := map n | n in w.header.Keys + h.Keys ::
                   (if n in w.header then w.header[n] else []) + (if n in h then [h[n]] else []))
  }

  lemma AddHeadersStep(w: Writer, h: map<Bytes, Bytes>, name: Bytes, value: Bytes)
    requires name !in h
    ensures AddHeader(AddHeaders(w, h), name, value) == AddHeaders(w, h[name := value])
  {
    var a := AddHeader(AddHeaders(w, h), name, value);
    var b := AddHeaders(w, h[name := value]);
    assert a.header.Keys == b.header.Keys;
    forall n | n in a.header
      ensures a.header[n] == b.header[n]
    {
    }
  }

  lemma MapRemoveOneLess(h: map<Bytes, Bytes>, todo: set<Bytes>, name: Bytes)
    requires name in todo && todo <= h.Keys
    ensures (h - todo)[name := h[name]] == h - (todo - {name})
  {
  }

  /**
   * `for name, value := range h { w.Header().Add(name, value) }`. Go visits a
   * map in an unspecified order; the choice below stands for that order, and
   * the result does not depend on it, because names are kept as given rather
   * than canonicalised.
   */
  method ApplyHeaders(w: Writer, h: map<Bytes, Bytes>) returns (r: Writer)
    ensures r == AddHeaders(w, h)
  {
    r := w;
    var todo := h.Keys;
    assert h - todo == map[];
    assert AddHeaders(w, map[]).header == w.header by {
      var e := AddHeaders(w, map[]).header;
      assert e.Keys == w.header.Keys;
      forall n | n in e
        ensures e[n] == w.header[n]
      {
      }
    }
    while todo != {}
      invariant todo <= h.Keys
      invariant r == AddHeaders(w, h - todo)
      decreases todo
    {
      var name :| name in todo;
      AddHeadersStep(w, h - todo, name, h[name]);
      r := AddHeader(r, name, h[name]);
      MapRemoveOneLess(h, todo, name);
      todo := todo - {name};
    }
    assert h - todo == h;
  }

  /** On a fresh writer every added header name carries exactly its one value. */
  lemma AddHeadersToFresh(h: map<Bytes, Bytes>)
    ensures AddHeaders(Fresh, h).header == map n | n in h :: [h[n]]
  {
    var a := AddHeaders(Fresh, h).header;
    var b := map n | n in h :: [h[n]];
    assert a.Keys == b.Keys;
    forall n | n in a
      ensures a[n] == b[n]
    {
    }
  }

  /** `w.WriteHeader(code)`: only the first call sets the status. */
  function WriteHeader(w: Writer, code: int): (r: Writer)
    ensures r.status.Some?
    ensures w.status.None? ==> r.status == Some(code) && r.superfluous == w.superfluous
    ensures w.status.Some? ==> r.status == w.status && r.superfluous == w.superfluous + 1
    ensures r.header == w.header && r.body == w.body
  {
    if w.status.Some? then w.(superfluous := w.superfluous + 1) else w.(status := Some(code))
  }

  /** `w.Write(data)`: writes an implicit 200 if no status was written, then appends the bytes the handler passes. */
  function Write(w: Writer, data: Bytes): (r: Writer)
    ensures r.status == (if w.status.Some? then w.status else Some(200))
    ensures r.body == w.body + data
    ensures r.header == w.header && r.superfluous == w.superfluous
  {
    var v := if w.status.Some? then w else w.(status := Some(200));
    v.(body := v.body + data)
  }

  /** The status the client receives once the handler returns. */
  function SentStatus(w: Writer): int {
    if w.status.Some? then w.status.value else 200
  }

  /** Applies a run of `WriteHeader` calls in order. */
  function WriteHeaders(w: Writer, codes: seq<int>): Writer
    decreases |codes|
  {
    if codes == [] then w else WriteHeaders(WriteHeader(w, codes[0]), codes[1..])
  }

  /** On a fresh writer the first of several `WriteHeader` calls decides the status; the others are counted as superfluous. */
  lemma {:induction false} FirstWriteHeaderWins(w: Writer, codes: seq<int>)
    requires w.status.Some? || codes != []
    ensures WriteHeaders(w, codes).status == (if w.status.Some? then w.status else Some(codes[0]))
    ensures WriteHeaders(w, codes).superfluous == w.superfluous + |codes| - (if w.status.Some? then 0 else 1)
    decreases |codes|
  {
    if codes != [] {
      FirstWriteHeaderWins(WriteHeader(w, codes[0]), codes[1..]);
    }
  }
}
