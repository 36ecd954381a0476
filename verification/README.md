# Reflection engine and dynamic-endpoint registry of albedo, in Dafny

albedo is an HTTP test double. By default it answers every request with an
empty 200. A client can ask it to reflect a response it describes: a status,
headers, and a literal or base64-encoded body. It can do this once
(`POST /reflect`) or bind the description to a (method, URL) pair
(`POST /configure_reflection`). `PUT /reset` forgets every binding.

This project models the core of `server/server.go` as pure functions over
already-decoded request values, and proves what those functions promise.

- `Text`: Go strings as byte sequences, Go's `int`/`uint64`, and the `%d` verb (`FormatInt`, read back by `ParseInt`).
- `Base64`: the standard padded alphabet of section 4 of RFC 4648, decoded as `base64.NewDecoder(base64.StdEncoding, …)` read to the end. Line breaks are dropped, padding is allowed only in the last group, and leftover bits are ignored.
- `Http`: the response writer as a value (`Writer`). It holds the status of the first `WriteHeader` call, the `http.Header` map (name to list of values), the body bytes, and a count of ignored `WriteHeader` calls. `Write` before any status implies 200. `ApplyHeaders` adds the headers in an arbitrary order, standing for Go's random map order, and is proved to give the same map whatever the order.
- `Reflection`: `reflectionSpec` as `Spec`, `decodeBody`, the body log line, and `doReflect` as `Reflect`.
- `Registry`: the endpoint key and the key-to-spec map. The registry loop of `handleConfigureReflection` is `Bind`, the read in `handleDefault` is `Lookup`, and the delete loop of `handleReset` is `Clear`. The key is `hash(method + url)`. The process's randomly seeded `maphash` is a parameter, so every registry property holds for any hash.
- `Handlers`: `handleDefault`, `handleReflect`, `handleConfigureReflection` and `handleReset`. Reading and JSON-decoding the body arrive as a `Result` that either holds the decoded value or says how reading failed.
- `Capabilities`: the capabilities entries and the `quiet=true` projection.
- `MemorySize`: `toHumanReadableMemorySize`.

There are three places where the code does less than its own text suggests. The model follows the code in each:

- The status check at `server/server.go:209` rejects statuses in (0, 100) and at or above 600 with the message "Invalid status code: …" (line 211). That points to the range [100, 599]. The check uses `s > 0` to let the default status 0 through. That also lets every negative status through, because a negative status fails both `s > 0` and `s >= 600`. The check needed `s != 0` (see Findings).
- A corrupt base64 body leads to `WriteHeader(400)` at line 227. That call follows `WriteHeader(status)` at line 223, and net/http ignores it. For any final status, the client gets the configured status (or 200) with the error text as its body (except after 101, 204 or 304; see `Http.Write` under Left out). A 1xx status other than 101 is sent as informational and does not fix the status, so there the 400 becomes final. That case is not modelled (see `Http.WriteHeader` under Left out).
- The log line cuts the body at 200 bytes (lines 241-243). This can split a multi-byte UTF-8 character.

## Model

| member | source | states |
|---|---|---|
| Text.FormatIntRoundTrip | server/server.go:211 | the decimal text `%d` writes for a status reads back as that same status |
| Text.FormatIntInjective | server/server.go:211 | distinct statuses give distinct decimal texts |
| Base64.DecodeEncode | server/server.go:181-187 | decoding the standard padded base64 encoding of any bytes gives back exactly those bytes |
| Base64.DecodeRejectsForeign | server/server.go:181-185 | any character that is not in the alphabet, not padding and not a line break makes decoding fail |
| Http.ApplyHeaders | server/server.go:204-207 | adding the spec's headers in any map order yields the same header map, each name getting its value appended once |
| Http.AddHeadersToFresh | server/server.go:204-207 | on a fresh response each configured header name carries exactly its one configured value |
| Http.FirstWriteHeaderWins | server/server.go:223-227 | after several `WriteHeader` calls the first code is the status, and every later call is counted as ignored |
| Reflection.InvalidStatusMessage | server/server.go:211 | the rejection body starts with "Invalid status code: " followed by more text |
| Reflection.DecodeBody | server/server.go:170-188 | a non-empty body wins; else an empty encoded body gives an empty body; else the result is the base64 decoding, and a failed decoding is the fixed error text |
| Reflection.LoggedBody | server/server.go:240-244 | the logged body is at most 203 bytes; a body of up to 200 bytes is logged as is, a longer one as its first 200 bytes followed by "..." |
| Reflection.ReflectWith | server/server.go:197-249 | the handler's header map (`w.Header()`) holds exactly the spec's headers. A rejected status gives 400 and the status message, with nothing else written. Otherwise the status is the spec's (200 for 0), and the body is either the resolved body with its log line or the decoding error after one ignored `WriteHeader` |
| Reflection.ReflectStatus | server/server.go:209-223 | for a non-negative status: 0 is sent as 200, one in [100, 599] as given, and one in (0, 100) or at least 600 as 400 |
| Reflection.InvalidStatusNamesValue | server/server.go:209-216 | a rejected status's response body is the prefix followed by text that parses back to that status |
| Reflection.BodyPrecedence | server/server.go:173-175 | with a non-empty literal body and an accepted status, the response is the same whatever the encoded body holds, and its body is the literal body |
| Reflection.EncodedBodyRoundTrip | server/server.go:177-187 | reflecting the base64 encoding of bytes `b` with no literal body writes exactly `b` as the body, with the configured status |
| Reflection.CorruptEncodingKeepsStatus | server/server.go:223-233 | corrupt base64 leaves the status already written, puts the error text in the body and records one ignored `WriteHeader` |
| Reflection.CorruptEncodingExample | server/server.go:225-233 | status 201 with encoded body "!" gives a 201 whose body is "invalid base64 encoding of response body" |
| Reflection.LongBodyLoggedTruncated | server/server.go:240-245 | a body over 200 bytes is written in full while its log line is the first 200 bytes plus "..." |
| Reflection.EmptyBodyWritesNothing | server/server.go:236-238 | with neither body the status is written and no body and no body log follow |
| Reflection.NegativeStatusPassesCheck | server/server.go:209-223 | a negative status passes the check as written and is handed to `WriteHeader` unchanged |
| Reflection.IntendedRejectsOutOfRange | server/server.go:209-216 | with the corrected check every nonzero status outside [100, 599] gives 400 and the status message |
| Reflection.IntendedAgreesOnNonNegative | server/server.go:209 | the corrected check and the written one give the same reflection for every non-negative status |
| Registry.Bind | server/server.go:155-160 | after binding, every listed endpoint's key maps to the spec, the key set grows by exactly the listed keys, and every other key keeps its spec |
| Registry.Lookup | server/server.go:60-62 | a lookup finds a spec exactly when the pair's key is registered, and then it is the registered spec |
| Registry.Clear | server/server.go:163-168 | deleting the keys one by one in any order empties the registry |
| Registry.KeyDependsOnJoinedBytes | server/server.go:190-195 | two pairs whose method and URL run together into the same bytes get the same key under every hash |
| Registry.CollidingPairsExample | server/server.go:190-195 | after binding ("GET", "/foo"), the pair ("GE", "T/foo") finds the same spec |
| Registry.BindThenLookup | server/server.go:155-160 | after binding, a pair that runs together like a listed endpoint finds the spec, and a pair whose key is not among the listed keys finds what it found before |
| Handlers.Rejected | server/server.go:82-101 | an unreadable body gives 400 "Failed to parse request body", bad JSON gives 400 "Invalid JSON in request body", with no headers set by the handler |
| Handlers.HandleDefault | server/server.go:59-70 | an unregistered endpoint gets the untouched response; a registered one is reflected with its bound spec |
| Handlers.HandleReflect | server/server.go:72-105 | a request that cannot be read is rejected with its message; otherwise its spec is reflected once |
| Handlers.HandleConfigure | server/server.go:131-161 | an unreadable request leaves the registry unchanged and gets 400; otherwise every listed endpoint is bound to the spec, every other key is unchanged, and the response is empty |
| Handlers.HandleReset | server/server.go:163-168 | the registry is empty afterwards and the response is untouched |
| Handlers.UnconfiguredIsEmpty200 | server/server.go:59-70 | a request whose key is not registered gets status 200 with no headers and no body |
| Handlers.ConfigureThenRequest | server/server.go:155-160 | after configuring an endpoint, a request to that method and request target is reflected with the configured spec |
| Handlers.ConfigureFooExample | server/server.go:59-70 | after configuring GET /foo, GET /foo is reflected with the spec and GET /bar, when its key differs, gets the empty 200 |
| Handlers.ResetThenRequest | server/server.go:163-168 | on the empty registry every request gets the empty 200 |
| Handlers.BadConfigureKeepsTable | server/server.go:144-153 | a configuration request with bad JSON or an unreadable body gets 400 and every later request is handled as before |
| Capabilities.Quiet | server/server.go:112-118 | the quiet projection has the same number of entries, the same paths in the same order, and no methods, content type or description |
| Capabilities.QuietIdempotent | server/server.go:112-118 | projecting an already quiet document changes nothing |
| Capabilities.ServedPaths | server/server.go:112-118 | the served document always has the document's paths in order; it is the full document unless `quiet` is exactly "true", and then each entry is the path only |
| MemorySize.ToHumanReadable | server/server.go:267-281 | the number returned is at most 10000 and is the input divided by 1000 once per step, where the step count is the first at which the number fits. The unit is B, KB, MB or GB by step count, else "(too big...)". An input of at most 10000 comes back unchanged with "B" |
| MemorySize.TooBigExactly | server/server.go:274-279 | the unit is "(too big...)" exactly when the input divided by 1000 three times still exceeds 10000 |

## Left out

- `Start`, the routing in `Handler`, `cmd/root.go` and `main.go`: these only wire the handlers into net/http and cobra. The handlers are modelled directly.
- Reading the request body and decoding JSON and YAML: these are library parsers. The handlers take the decoded value or the kind of failure (`Handlers.ParseError`).
- `getCapabilities` and the JSON output of `handleCapabilities`, including its `Content-Type` header: this is document loading and serialisation. The document is a parameter of `Capabilities.Served`.
- The `sync.RWMutex` discipline, the single shared `maphash.Hash`, the unlocked `handleReset` and the unguarded lazy cache of `capabilities`: their significance is concurrency, which this sequential model does not cover. Each operation is one atomic step here.
- `maphash` seeding and its collision behaviour: the hash is the parameter `Registry.Hash`. Properties that need distinct keys state that as a premise.
- Log output other than the body's log line: the `logMessage` line, the per-header and status lines, and the write-failure warnings. `Spec.logMessage` is carried but not used.
- Failures to write the response (a client that went away): the server only logs them.
- Http.ApplyHeaders: header names are not canonicalised as `http.Header.Add` does, so names differing only in case stay distinct. In Go, spec names "a" and "A" both end up under "A", with the two values in map-iteration order. So the order-independence proved here holds only because the model does not canonicalise names. `Writer.header` is `w.Header()` as the handler leaves it, not the headers on the wire. net/http also drops malformed headers and adds `Date` and `Content-Length`. On the first non-empty `Write`, when the handler set no `Content-Type`, it adds a sniffed one. That covers the reflected body, the status message, the base64 error text and both parse-failure messages. None of this is modelled.
- Http.WriteHeader: net/http's handling of 1xx codes is not modelled. It sends 1xx codes other than 101 as informational responses without fixing the final status. 101 is a final status, as here. It also panics on codes outside [100, 999]. Here the first call always fixes the status.
- Http.Write: `Writer.body` holds the bytes the handler passes to `Write`. After a 101, 204 or 304 status (the final statuses that allow no body), net/http's `Write` returns `ErrBodyNotAllowed` and the handler only logs it. On HEAD requests net/http discards the body. In both cases the bytes never reach the client. So the rows above that say what body is written describe the client's view only for other statuses and methods.
- Base64.Decode: models decoding of the whole input. Go's streaming decoder decodes in chunks whose size follows the reader's buffer. A padded group that ends exactly at a chunk boundary may be accepted there, although whole-input decoding rejects padding before the last group.
- `toHumanReadableMemorySize` is used by `handleReflect` only for a debug log line; that log line is left out.

## Findings

| source | as written | input that shows it | evidently intended | confidence | as-written member | corrected member |
|---|---|---|---|---|---|---|
| server/server.go:209 | the status check is `s > 0 && s < 100 || s >= 600`. The `s > 0` meant to exempt the default 0 also exempts every negative status, so a negative status is accepted and passed to `WriteHeader` | status -1 | `s != 0` in place of `s > 0`: reject every nonzero status below 100 or at least 600 with 400 "Invalid status code: -1" | not executed; high (the error message and the upper bound 600 both say so, and net/http panics on `WriteHeader(-1)`) | Reflection.NegativeStatusPassesCheck | Reflection.IntendedRejectsOutOfRange |

`Reflection.ReflectWith` takes the check as a parameter. `Reflection.Reflect` uses the check as written and `Reflection.ReflectIntended` uses the corrected one. The handlers use `Reflect`, because that is what the server does. `Reflection.IntendedAgreesOnNonNegative` shows the two differ only on negative statuses.
