/**
 * The reflection engine: turning a response specification into the
 * response a handler writes.
 *
 * The steps are those of `doReflect`: add every header, check the status,
 * write the status (200 when none is given), resolve the body, write it.
 * Only the body's log line is modelled among the engine's log output.
 */
module Reflection {
  import opened Wrappers
  import opened Text
  import Base64
  import opened Http

  /** `reflectionSpec`: the response one reflection should produce. */
  datatype Spec = Spec(status: int64, headers: map<Bytes, Bytes>, body: Bytes, encodedBody: Bytes, logMessage: Bytes)

  /** What a reflection leaves behind: the response, and the body as it was logged, if it was. */
  datatype Reflected = Reflected(writer: Writer, bodyLog: Option<Bytes>)

  const INVALID_BASE64: Bytes := "invalid base64 encoding of response body"
  const INVALID_STATUS: Bytes := "Invalid status code: "
  const ELLIPSIS: Bytes := "..."

  /** How many body bytes the log line keeps. */
  const LOG_LIMIT: nat := 200

  /** Which status check the engine applies: the one in the source, or the one its error message describes. */
  datatype Guard = AsWritten | Intended

  /**
   * Whether the check turns the status away with a 400. As written the
   * condition is `s > 0 && s < 100 || s >= 600`. Its `s > 0`, meant to let
   * the default 0 through, lets every negative status through as well. The
   * intended check rejects every nonzero status outside [100, 599].
   */
  predicate Rejects(g: Guard, s: int) {
    match g
    case AsWritten => (s > 0 && s < 100) || s >= 600
    case Intended => s != 0 && (s < 100 || s >= 600)
  }

  /** The plain-text body that reports a rejected status. */
  function InvalidStatusMessage(s: int): (r: Bytes)
    ensures |r| > |INVALID_STATUS| && r[..|INVALID_STATUS|] == INVALID_STATUS
  {
    INVALID_STATUS + FormatInt(s)
  }

  /** `decodeBody`: the literal body first, else the decoded encoded body, else nothing. */
  function DecodeBody(spec: Spec): (r: Result<Bytes, Bytes>)
    ensures spec.body != [] ==> r == Success(spec.body)
    ensures spec.body == [] && spec.encodedBody == [] ==> r == Success([])
    ensures spec.body == [] && spec.encodedBody != [] ==>
              (r.Success? <==> Base64.Decode(spec.encodedBody).Some?) &&
              (r.Success? ==> Some(r.value) == Base64.Decode(spec.encodedBody))
    ensures r.Failure? ==> r.error == INVALID_BASE64
  {
    if spec.body != [] then Success(spec.body)
    else if spec.encodedBody == [] then Success([])
    else match Base64.Decode(spec.encodedBody)
      case None => Failure(INVALID_BASE64)
      case Some(bytes) => Success(bytes)
  }

  /** The body as the log line shows it: cut to its first 200 bytes plus "..." when it is longer. */
  function LoggedBody(b: Bytes): (r: Bytes)
    ensures |r| <= LOG_LIMIT + |ELLIPSIS|
    ensures |b| <= LOG_LIMIT ==> r == b
    ensures |b| > LOG_LIMIT ==> |r| == LOG_LIMIT + |ELLIPSIS| && r[..LOG_LIMIT] == b[..LOG_LIMIT] && r[LOG_LIMIT..] == ELLIPSIS
  {
    if |b| > LOG_LIMIT then b[..LOG_LIMIT] + ELLIPSIS else b
  }

  /** The header map a reflection sends: each configured name with its one value. */
  function SpecHeaders(spec: Spec): map<Bytes, seq<Bytes>> {
    map n | n in spec.headers :: [spec.headers[n]]
  }

  /** `doReflect` on a fresh response writer, with the given status check. */
  function ReflectWith(g: Guard, spec: Spec): (r: Reflected)
    ensures r.writer.header == SpecHeaders(spec)
    ensures Rejects(g, spec.status) ==>
              r.writer == Writer(Some(400), SpecHeaders(spec), InvalidStatusMessage(spec.status), 0) && r.bodyLog == None
    ensures !Rejects(g, spec.status) ==> r.writer.status == Some(if spec.status == 0 then 200 else spec.status)
    ensures !Rejects(g, spec.status) && DecodeBody(spec).Failure? ==>
              r.writer.body == INVALID_BASE64 && r.writer.superfluous == 1 && r.bodyLog == None
    ensures !Rejects(g, spec.status) && DecodeBody(spec).Success? ==>
              var b := DecodeBody(spec).value;
              r.writer.body == b && r.writer.superfluous == 0 &&
              r.bodyLog == (if b == [] then None else Some(LoggedBody(b)))
  {
    var w0 := AddHeaders(Fresh, spec.headers);
    AddHeadersToFresh(spec.headers);
    if Rejects(g, spec.status) then
      Reflected(Write(WriteHeader(w0, 400), InvalidStatusMessage(spec.status)), None)
    else
      var w1 := WriteHeader(w0, if spec.status == 0 then 200 else spec.status);
      match DecodeBody(spec)
      case Failure(e) => Reflected(Write(WriteHeader(w1, 400), e), None)
      case Success(b) => if b == [] then Reflected(w1, None) else Reflected(Write(w1, b), Some(LoggedBody(b)))
  }

  /** `doReflect` as the source writes it. */
  function Reflect(spec: Spec): Reflected {
    ReflectWith(AsWritten, spec)
  }

  /** `doReflect` with the status check its error message describes. */
  function ReflectIntended(spec: Spec): Reflected {
    ReflectWith(Intended, spec)
  }

  /** Status 0 gives 200, a status in [100, 599] is sent as given, one in (0, 100) or at least 600 gives 400. */
  lemma ReflectStatus(spec: Spec)
    requires spec.status >= 0
    ensures SentStatus(Reflect(spec).writer) ==
              if spec.status == 0 then 200
              else if 100 <= spec.status < 600 then spec.status
              else 400
  {
  }

  /** A rejected status is reported with its own value: the text after the prefix reads back as that status. */
  lemma InvalidStatusNamesValue(spec: Spec)
    requires Rejects(AsWritten, spec.status)
    ensures var body := Reflect(spec).writer.body;
            body[..|INVALID_STATUS|] == INVALID_STATUS && ParseInt(body[|INVALID_STATUS|..]) == Some(spec.status as int)
  {
    var body := Reflect(spec).writer.body;
    assert body[|INVALID_STATUS|..] == FormatInt(spec.status);
    FormatIntRoundTrip(spec.status);
  }

  /** A non-empty literal body is what the client receives, whatever the encoded body holds. */
  lemma BodyPrecedence(spec: Spec, encoded: Bytes)
    requires spec.body != [] && !Rejects(AsWritten, spec.status)
    ensures Reflect(spec.(encodedBody := encoded)) == Reflect(spec)
    ensures Reflect(spec).writer.body == spec.body
  {
  }

  /** Reflecting the base64 encoding of some bytes, with no literal body, sends exactly those bytes. */
  lemma EncodedBodyRoundTrip(spec: Spec, b: Bytes)
    requires spec.body == [] && spec.encodedBody == Base64.Encode(b)
    requires !Rejects(AsWritten, spec.status)
    ensures Reflect(spec).writer.body == b
    ensures SentStatus(Reflect(spec).writer) == if spec.status == 0 then 200 else spec.status
  {
    Base64.DecodeEncode(b);
  }

  /**
   * A corrupt encoded body is reported in the body, but the status already
   * written stays: the second `WriteHeader(400)` comes too late.
   */
  lemma CorruptEncodingKeepsStatus(spec: Spec)
    requires spec.body == [] && spec.encodedBody != [] && Base64.Decode(spec.encodedBody).None?
    requires !Rejects(AsWritten, spec.status)
    ensures Reflect(spec).writer.status == Some(if spec.status == 0 then 200 else spec.status)
    ensures Reflect(spec).writer.body == INVALID_BASE64
    ensures Reflect(spec).writer.superfluous == 1
  {
  }

  /** For example, status 201 with encoded body "!" is sent as a 201 whose body is the error text. */
  lemma CorruptEncodingExample()
    ensures var w := Reflect(Spec(201, map[], [], "!", [])).writer;
            w.status == Some(201) && w.body == INVALID_BASE64 && w.superfluous == 1
  {
    Base64.DecodeRejectsForeign("!", 0);
  }

  /** A body over 200 bytes is sent whole; only its log line is cut. */
  lemma LongBodyLoggedTruncated(spec: Spec)
    requires |spec.body| > LOG_LIMIT && !Rejects(AsWritten, spec.status)
    ensures Reflect(spec).writer.body == spec.body
    ensures Reflect(spec).bodyLog == Some(spec.body[..LOG_LIMIT] + ELLIPSIS)
  {
  }

  /** With no body of either kind the status is written and nothing follows it. */
  lemma EmptyBodyWritesNothing(spec: Spec)
    requires spec.body == [] && spec.encodedBody == [] && !Rejects(AsWritten, spec.status)
    ensures Reflect(spec).writer.body == [] && Reflect(spec).bodyLog == None
  {
  }

  /** A negative status passes the check as written and is handed to `WriteHeader` unchanged. */
  lemma NegativeStatusPassesCheck(spec: Spec)
    requires spec.status < 0
    ensures !Rejects(AsWritten, spec.status)
    ensures Reflect(spec).writer.status == Some(spec.status as int)
  {
  }

  /** The intended check answers every nonzero status outside [100, 599] with 400 and the status's value. */
  lemma IntendedRejectsOutOfRange(spec: Spec)
    requires spec.status != 0 && (spec.status < 100 || spec.status >= 600)
    ensures ReflectIntended(spec).writer.status == Some(400)
    ensures ReflectIntended(spec).writer.body == InvalidStatusMessage(spec.status)
  {
  }

  /** The two checks differ only on negative statuses. */
  lemma IntendedAgreesOnNonNegative(spec: Spec)
    requires spec.status >= 0
    ensures ReflectIntended(spec) == Reflect(spec)
  {
    assert Rejects(Intended, spec.status) == Rejects(AsWritten, spec.status);
  }
}
