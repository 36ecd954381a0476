/**
 * The capabilities document and its quiet projection, which keeps only
 * each route's path.
 */
module Capabilities {
  import opened Text

  /** `endpoint`: one route of the capabilities document. */
  datatype Endpoint = Endpoint(path: Bytes, methods: seq<Bytes>, contentType: Bytes, description: Bytes)

  /** An entry with its path and nothing else. */
  function PathOnly(e: Endpoint): Endpoint {
    Endpoint(e.path, [], [], [])
  }

  /** The loop in `handleCapabilities` that appends a path-only copy of each entry. */
  function Quiet(doc: seq<Endpoint>): (r: seq<Endpoint>)
    ensures |r| == |doc|
    ensures forall i :: 0 <= i < |doc| ==>
              r[i].path == doc[i].path && r[i].methods == [] && r[i].contentType == [] && r[i].description == []
    decreases |doc|
  {
    if doc == [] then [] else Quiet(doc[..|doc| - 1]) + [PathOnly(doc[|doc| - 1])]
  }

  /** The document `handleCapabilities` serves for the value of the `quiet` query parameter. */
  function Served(doc: seq<Endpoint>, quiet: Bytes): seq<Endpoint> {
    if quiet == "true" then Quiet(doc) else doc
  }

  /** Projecting twice is projecting once. */
  lemma QuietIdempotent(doc: seq<Endpoint>)
    ensures Quiet(Quiet(doc)) == Quiet(doc)
  {
    var q := Quiet(doc);
    assert forall i :: 0 <= i < |q| ==> PathOnly(q[i]) == q[i];
  }

  /** Any value of `quiet` other than "true" serves the full document; "true" serves the same paths in the same order. */
  lemma ServedPaths(doc: seq<Endpoint>, quiet: Bytes)
    ensures |Served(doc, quiet)| == |doc|
    ensures forall i :: 0 <= i < |doc| ==> Served(doc, quiet)[i].path == doc[i].path
    ensures quiet != "true" ==> Served(doc, quiet) == doc
    ensures quiet == "true" ==> forall i :: 0 <= i < |doc| ==> Served(doc, quiet)[i] == PathOnly(doc[i])
  {
  }
}
