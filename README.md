# JWT Pizza service: request metrics and path guard

This project models two pieces of the JWT Pizza REST backend in Dafny and proves properties about them.

- **The request counter in `src/metrics.js`.** The `Metrics` object keeps five counters named `all`, `get`, `post`, `put` and `delete`. `requestTracker` counts one request. `sendEveryRequest` walks the counters in that order. For each counter it pushes one text line to the metrics sink and then resets the counter to zero. The push uses the template `request,source=<source>,method=<key> total=<value>`. A failed push is logged and never raised, so the reset always happens.
- **The middleware rules in `src/service.js`.** `preventChaosInjection` percent-decodes the request path the way `decodeURIComponent` does. It passes the request on only when the decoded path matches `^/[a-zA-Z0-9_\-/.]*$`, contains no `%` and no NUL, and is at most 2000 UTF-16 code units long. Any other decoded path is refused. The guard first calls `metrics.recordChaosIncident("url_encoding")`. If that call returns, the guard sends a 400 "rejected" response. If it throws, the `catch` branch sends the 400 "error" response. A path that cannot be decoded also gets that 400 "error" response. The file also has two one-line rules. The CORS origin is the request's `Origin` header when it is non-empty, and `*` otherwise. The error handler picks `err.statusCode` as the status, or 500 when that is `null` or `undefined`.

Files:

- `wrappers.dfy`: the `Option` type.
- `uri_decode.dfy` (module `UriDecode`): `decodeURIComponent`. An escape is `%` followed by two hex digits (section 2.1 of RFC 3986). Octets from 0x80 upwards must form one complete, shortest-form UTF-8 sequence for a scalar value (sections 3 and 4 of RFC 3629). Otherwise decoding fails, which is where JavaScript throws a `URIError`. A reference encoder writes every character as the escapes of its UTF-8 octets, and decoding is proved to invert it.
- `service.dfy` (module `Service`): the guard, which returns its effect as an `Outcome` value (calls `next`, response, incidents recorded). It also holds the CORS origin rule and the error-status rule.
- `metrics.dfy` (module `Metrics`): the `Metrics` class. Its counters are a `map` field. `RequestTracker` and `SendEveryRequest` are methods that update the map in place. The abstract sink is a parameter that answers each pushed line with ok, non-ok or network error. A `MetricsSingleton` class stands for the static `Metrics.instance`.

The TODO list at the top of `src/metrics.js` (lines 1-13) names requests by method, active users, auth attempts, CPU and memory, revenue and latency. The file implements only the request counter, and this model follows it. The code calls `recordChaosIncident`, `recordLatency`, `logHTTPRequest`, `logAuthRequest` and `logActiveUsers`, but `src/metrics.js` does not define them. The guard takes whether `recordChaosIncident` returns as a parameter. When it does, the incident is an entry in the guard's `incidents` list. The other four calls are not part of this model.

Two points where the code differs from what a reader might expect are modelled as the code has them:

- A request whose method lower-cases to `all` is itself a key, so it raises `all` twice (`BumpAllMethodCountsTwice`). Node's HTTP parser knows no such method.
- `toLowerCase` is modelled on the letters A to Z only. For deciding which of the five keys a method names, this is exact. The only non-ASCII characters that lower-case to ASCII letters are U+212A, which gives `k`, and U+0130, which gives `i` plus a combining mark. No key contains either result.

## Model

| member | source | states |
|---|---|---|
| `Metrics.Zero` | src/metrics.js:25-31 | the counters start with exactly the keys all, get, post, put and delete, each at 0 |
| `Metrics.Metrics.constructor` | src/metrics.js:20-35 | a new Metrics object holds the five counters at zero and the configured source tag |
| `Metrics.MetricsSingleton.NewMetrics` | src/metrics.js:18-35 | constructing Metrics again returns the first instance; only the first construction allocates a fresh object with zero counters |
| `Metrics.ToLower` | src/metrics.js:38 | lower-casing keeps the length and lower-cases each letter A to Z in place |
| `Metrics.Bump` | src/metrics.js:38-43 | one request never adds or removes a counter key, whatever its method, and always raises all |
| `Metrics.Metrics.RequestTracker` | src/metrics.js:37-44 | the counters after a request are those of Bump on the counters before; the five keys remain |
| `Metrics.BumpRaisesAllByOne` | src/metrics.js:40 | every request whose method is not "all" in some case raises all by exactly one |
| `Metrics.BumpAllMethodCountsTwice` | src/metrics.js:40-43 | every method that lower-cases to "all" raises all by two and leaves the other counters alone |
| `Metrics.BumpKnownMethod` | src/metrics.js:38-43 | GET, POST, PUT and DELETE in any case raise all and their own counter by one, and no other counter changes |
| `Metrics.BumpUnknownMethod` | src/metrics.js:40-43 | any method outside the five keys raises only all |
| `Metrics.BumpCaseInsensitive` | src/metrics.js:38 | methods equal up to case update the counters identically |
| `Metrics.TrackAllCounts` | src/metrics.js:37-44 | after a run of requests each method counter has risen by the number of requests with that method, and all by the number of requests plus the number whose method lower-cases to "all" |
| `Metrics.GetsAndPostsCounted` | src/metrics.js:37-44 | g GETs and p POSTs from zero leave all = g + p, get = g, post = p, put = delete = 0 |
| `Metrics.NatToString` | src/metrics.js:61 | a counter renders as a non-empty run of decimal digits without a leading zero |
| `Metrics.ParseNatToString` | src/metrics.js:61 | the rendered digits read back as the counter's value |
| `Metrics.MetricLine` | src/metrics.js:61 | the line starts with the metric prefix and ends with the decimal rendering of the value |
| `Metrics.MetricLineDeterminesValue` | src/metrics.js:61 | two lines with the same prefix, source, method and name carry the same value only if the values are equal, so the reading can be recovered from the line |
| `Metrics.MetricLineIsOneLine` | src/metrics.js:61 | the line has no line break when its prefix, source, method and name have none |
| `Metrics.Report` | src/metrics.js:68-77 | a push is logged as "Pushed <metric>" exactly when the reply is ok; a non-ok reply or a network error is logged as an error and never raised |
| `Metrics.Metrics.SendMetricToGrafana` | src/metrics.js:60-78 | the pushed body is the template line for the arguments and the configured source; the line is logged as "Pushed <line>" exactly when the sink answers ok, it is logged as the error "Failed to push metrics data to Grafana" on a non-ok reply and "Error pushing metrics:" on a network error, and nothing is raised |
| `Metrics.Snapshot` | src/metrics.js:53-58 | one flush sends exactly one line per key, in the key order of the counter object |
| `Metrics.SnapshotLines` | src/metrics.js:25-31 | the five lines of a flush are, in order, the template lines of all, get, post, put and delete, each carrying that counter's value |
| `Metrics.Metrics.SendEveryRequest` | src/metrics.js:53-58 | the bodies pushed are, in key order all, get, post, put, delete, the template lines of each counter's value before the flush; every counter is 0 afterwards, whatever the sink answered |
| `Metrics.SnapshotOfZero` | src/metrics.js:54-57 | a flush of zeroed counters, such as a second flush with no traffic in between, reports total=0 for every key |
| `Metrics.GetsAndPostsFlush` | src/metrics.js:37-58 | after g GETs and p POSTs from zero, a flush sends all = g + p, get = g, post = p, and 0 for put and delete |
| `UriDecode.DecodeEscape` | src/service.js:13 | a successful escape decode starts with `%` and two hex digits and spans three, six, nine or twelve input characters, all within the input; a decoded character below U+0080 always spans exactly one escape, so no overlong form can produce one |
| `UriDecode.Decode` | src/service.js:13 | a decoded path is never longer than the encoded one |
| `UriDecode.DecodeWithoutPercent` | src/service.js:13 | a path without % decodes to itself |
| `UriDecode.DecodeAppend` | src/service.js:13 | decoding is compositional: if p decodes, then p + q decodes exactly when q does, to the concatenation of the two decodings |
| `UriDecode.DecodeEncode` | src/service.js:13 | decoding inverts percent-encoding of the UTF-8 octets of any string |
| `UriDecode.StepFailureFails` | src/service.js:13 | text whose first character or escape cannot be decoded makes any decodable text before it fail to decode too |
| `UriDecode.IncompleteEscapeFails` | src/service.js:13 | a `%` followed by fewer than two characters at the end of the path makes decoding fail (a URIError), whatever comes before it |
| `UriDecode.NonHexEscapeFails` | src/service.js:13 | a `%` not followed by two hex digits makes decoding fail, whatever comes before or after it |
| `UriDecode.EscapeWithoutOctetFails` | src/service.js:13 | a `%` that does not start an escaped octet makes decoding fail whatever text precedes it, because no escape sequence that starts earlier can read it as one of its continuation octets |
| `UriDecode.BadLeadingOctetFails` | src/service.js:13 | after text that decodes, an escaped octet that cannot start a UTF-8 sequence (a continuation octet, or five or more leading one bits) makes decoding fail; the premise is needed, since in `%C3%80` the octet 0x80 continues the character `%C3` starts |
| `UriDecode.InvalidUtf8Fails` | src/service.js:13 | `%80`, the overlong `%C0%AF`, the surrogate `%ED%A0%80` and `%F4%90%80%80` above U+10FFFF all fail to decode |
| `Service.MatchesPathPattern` | src/service.js:16 | a path matching `^\/[a-zA-Z0-9_\-\/\.]*$` consists of ASCII characters and holds neither `%` nor NUL |
| `Service.IsChaos` | src/service.js:15-20 | a decoded path is refused exactly when it does not match the pattern or has more than 2000 characters |
| `Service.Utf16Length` | src/service.js:19 | JavaScript's length of a decoded path is at least its number of characters |
| `Service.AsciiUtf16Length` | src/service.js:19 | for an ASCII path, the JavaScript length is the number of characters |
| `Service.PreventChaosInjection` | src/service.js:11-50 | next is called, with no response sent and no incident recorded, exactly when the path decodes to a string that matches the pattern and has at most 2000 characters; an undecodable path gets the 400 "error" response with no incident; any other path gets the 400 "rejected" response and exactly one url_encoding incident when recordChaosIncident returns, and the 400 "error" response when it throws |
| `Service.PathPatternExcludesPercentAndNul` | src/service.js:16-19 | a path matching the pattern contains neither % nor NUL, and its JavaScript length is its number of characters, so the extra tests never change the decision |
| `Service.AcceptedPathShape` | src/service.js:15-20 | every passed path decodes to a string that starts with a slash, has at most 2000 characters, and contains no % and no NUL |
| `Service.RootAcceptedEmptyRejected` | src/service.js:16 | the path "/" is passed on and the empty path is rejected as chaos |
| `Service.DoubleEncodedPercentRejected` | src/service.js:13-17 | a path holding an escaped percent %25 anywhere is never passed on, whatever surrounds it: a step of the decoder never runs over the escape, so if the path decodes, its decoding holds a % |
| `Service.OverlongPathRejected` | src/service.js:19 | an unescaped path of more than 2000 pattern characters is rejected as chaos |
| `Service.AllowOrigin` | src/service.js:80 | the allowed origin is the request's Origin header when present and non-empty, otherwise "*", and is never empty |
| `Service.ErrorStatus` | src/service.js:138 | the status picked is err.statusCode whenever it is an integer, 0 included, and 500 only when it is null or undefined |

## Left out

- The timer that triggers the flush every 10 seconds (`setInterval` and `unref`) is not modelled. `SendEveryRequest` is called directly instead.
- The HTTP `fetch` call, its URL, and the bearer header built from the user id and API key are not modelled. They are replaced by the sink parameter, which answers each line.
- `Metrics.Report`: the error object that `console.error` prints beside "Error pushing metrics:" is dropped. Only the message text is kept.
- The sink is a function of the pushed line. Within one flush the five lines differ, so each push can get its own answer, and across flushes the sink can change.
- Concurrency is not modelled. The model is sequential, so a request counted while a push is awaited, and then wiped by the reset, cannot happen here. The model makes no claim that increments are never lost.
- JavaScript's `in` operator also finds inherited properties such as `constructor` on `this.requests`. Only the five own keys are modelled, because Node's HTTP parser rejects such method names.
- `Service.ErrorStatus`: `statusCode` is modelled as undefined, null or an integer. JavaScript's `??` also keeps a non-integer number, NaN or a string, which the model does not represent. The model gives the value of `err.statusCode ?? 500`. Node refuses to write a status outside 100-999, so a code such as 0 is picked but never sent. That refusal is not modelled.
- Counters are unbounded naturals. JavaScript numbers lose integer precision above 2^53, which is not modelled.
- The logger calls in `preventChaosInjection` are left out. So are the `timestamp` fields of its JSON bodies and the client IP, because they are I/O and clock reads.
- `Service.PreventChaosInjection`: `recordChaosIncident` is not defined in `src/metrics.js`, so with that module the call at src/service.js:29 throws a `TypeError`. The `catch` at src/service.js:39-48 then sends the 400 "error" body, and the "rejected" response cannot be reached. The model takes whether the call returns as a parameter. When it returns, the model records only the incident name, because its effect on the metrics is not defined anywhere.
- The JavaScript engine's UTF-16 strings are modelled as sequences of Unicode scalar values. The 2000-unit limit is measured in UTF-16 code units through `Utf16Length`.
- Express wiring is not part of this model. That covers router mounting, the JSON body limit, the HTTP logger, `setAuthUser`, the latency middleware and its floating-point timing, the other CORS headers, the `res.end` wrapper around auth, `/docs`, `/`, the 404 fallback, and the `next()` after the error response. `app` itself is not defined in `src/service.js`.
- `Service.AllowOrigin`: the Origin header is modelled as absent or one string. The header value is never any other JavaScript value.
