/**
  The request-path guard `preventChaosInjection` and the two one-line
  middleware rules of the service: the CORS origin it echoes and the status
  its default error handler answers with. Each is a pure function of the
  request; what the middleware does to the response is returned as a value.
*/
module Service {
  import opened Wrappers
  import opened UriDecode

  /** Longest decoded path, in UTF-16 code units, that the guard lets through. */
  const MaxPathLength := 2000

  /** The characters of the class `[a-zA-Z0-9_\-\/\.]`. */
  predicate IsPathChar(c: char) {
    ('a' <= c <= 'z') || ('A' <= c <= 'Z') || ('0' <= c <= '9') || c == '_' || c == '-' || c == '/' || c == '.'
  }

  /** The anchored pattern `^\/[a-zA-Z0-9_\-\/\.]*$`: a slash, then path characters only, to the end. */
  predicate MatchesPathPattern(d: string)
    ensures MatchesPathPattern(d) ==> forall i :: 0 <= i < |d| ==> d[i] as int < 0x80 && d[i] != '%' && d[i] != '\0'
  {
    |d| >= 1 && d[0] == '/' && forall i :: 1 <= i < |d| ==> IsPathChar(d[i])
  }

  /** JavaScript's `length`: code points above U+FFFF take two UTF-16 code units. */
  function Utf16Length(d: string): (n: nat)
    ensures n >= |d|
  {
    if d == [] then 0 else (if d[0] as int >= 0x10000 then 2 else 1) + Utf16Length(d[1..])
  }

  /**
    The condition under which the guard refuses a decoded path. The `%`, NUL
    and UTF-16 length tests reduce to the pattern and a count of characters.
  */
  predicate IsChaos(d: string)
    ensures IsChaos(d) <==> !MatchesPathPattern(d) || |d| > MaxPathLength
  {
    PathPatternExcludesPercentAndNul(d);
    !MatchesPathPattern(d) || '%' in d || '\0' in d || Utf16Length(d) > MaxPathLength
  }

  /** The JSON body of a 400 response. */
  datatype Body =
    | Refusal(status: string, reason: string)
    | EncodingError(status: string, message: string)

  datatype Response = Response(statusCode: nat, body: Body)

  /**
    What the middleware does with one request: whether it hands the request on
    with `next()`, the response it sends instead, and the chaos incidents it
    records with the metrics module.
  */
  datatype Outcome = Outcome(callsNext: bool, response: Option<Response>, incidents: seq<string>)

  const PassThrough := Outcome(true, None, [])
  /** The refusal after the incident was recorded. */
  const Rejected := Outcome(false, Some(Response(400, Refusal("rejected", "Invalid request path"))), ["url_encoding"])
  /** The response of the `catch` branch, for anything thrown inside the `try`. */
  const CaughtError := Outcome(false, Some(Response(400, EncodingError("error", "Invalid request path encoding"))), [])

  /**
    `preventChaosInjection` applied to `req.path`. `incidentRecorded` says
    whether `metrics.recordChaosIncident` returns normally: the metrics module
    of src/metrics.js defines no such method, so there the call throws a
    `TypeError` and the refusal is answered by the `catch` branch instead.
  */
  function PreventChaosInjection(path: string, incidentRecorded: bool): (o: Outcome)
    ensures o.callsNext <==> o.response.None?
    ensures o.callsNext ==> o == PassThrough
    ensures o.callsNext <==>
      Decode(path).Some? && MatchesPathPattern(Decode(path).value) && |Decode(path).value| <= MaxPathLength
    ensures Decode(path).None? ==> o == CaughtError
    ensures Decode(path).Some? && !o.callsNext && incidentRecorded ==> o == Rejected
    ensures !o.callsNext && !incidentRecorded ==> o == CaughtError
  {
    match Decode(path)
    case None => CaughtError
    case Some(d) =>
      if !IsChaos(d) then PassThrough
      else if incidentRecorded then Rejected
      else CaughtError
  }

  /** A path made of pattern characters has one code unit per character. */
  lemma {:induction false} AsciiUtf16Length(d: string)
    requires forall i :: 0 <= i < |d| ==> d[i] as int < 0x80
    ensures Utf16Length(d) == |d|
  {
    if d != [] {
      AsciiUtf16Length(d[1..]);
    }
  }

  /**
    The `%` and NUL tests and the UTF-16 length add nothing to the pattern: a
    path that matches it has neither character and one code unit per character.
  */
  lemma PathPatternExcludesPercentAndNul(d: string)
    ensures MatchesPathPattern(d) ==> '%' !in d && '\0' !in d
    ensures MatchesPathPattern(d) ==> Utf16Length(d) == |d|
  {
    if MatchesPathPattern(d) {
      AsciiUtf16Length(d);
    }
  }

  /** Every path the guard passes starts with a slash, decodes, and is at most 2000 characters long. */
  lemma AcceptedPathShape(path: string, incidentRecorded: bool)
    requires PreventChaosInjection(path, incidentRecorded).callsNext
    ensures Decode(path).Some?
    ensures var d := Decode(path).value; |d| >= 1 && d[0] == '/' && |d| <= MaxPathLength
    ensures '%' !in Decode(path).value && '\0' !in Decode(path).value
  {
    PathPatternExcludesPercentAndNul(Decode(path).value);
  }

  /** The root path `/` is passed on and the empty path is refused as chaos. */
  lemma RootAcceptedEmptyRejected(incidentRecorded: bool)
    ensures PreventChaosInjection("/", incidentRecorded) == PassThrough
    ensures PreventChaosInjection("", true) == Rejected
    ensures PreventChaosInjection("", false) == CaughtError
  {
    DecodeWithoutPercent("/");
  }

  /**
    A path holding an escaped percent sign (`%25`, the encoding of an already
    encoded `%`) anywhere is refused: either it does not decode, or the
    decoded path contains `%`, whatever surrounds the escape.
  */
  lemma DoubleEncodedPercentRejected(p: string, q: string, incidentRecorded: bool)
    ensures !PreventChaosInjection(p + "%25" + q, incidentRecorded).callsNext
  {
    EscapedPercentDecodesToPercent(p, q);
  }

  /** A path of more than 2000 pattern characters, none of them escaped, is refused. */
  lemma OverlongPathRejected(path: string)
    requires MatchesPathPattern(path) && |path| > MaxPathLength
    ensures PreventChaosInjection(path, true) == Rejected
    ensures PreventChaosInjection(path, false) == CaughtError
  {
    PathPatternExcludesPercentAndNul(path);
    DecodeWithoutPercent(path);
  }

  /** `req.headers.origin || "*"`: an absent or empty Origin header falls back to the wildcard. */
  function AllowOrigin(origin: Option<string>): (r: string)
    ensures r != ""
    ensures origin.Some? && origin.value != "" ==> r == origin.value
    ensures origin.None? || origin.value == "" ==> r == "*"
  {
    match origin
    case Some(o) => if o != "" then o else "*"
    case None => "*"
  }

  /** The value of `err.statusCode`: absent (`undefined`), `null`, or a number. */
  datatype StatusCode = Undefined | Null | Code(code: int)

  /** `err.statusCode ?? 500`: only `null` and `undefined` fall back, so a code of 0 is kept. */
  function ErrorStatus(s: StatusCode): (r: int)
    ensures s.Code? ==> r == s.code
    ensures !s.Code? ==> r == 500
  {
    match s
    case Code(c) => c
    case _ => 500
  }
}
