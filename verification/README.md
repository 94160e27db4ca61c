# URL resolver: a Dafny model of the resolution engine

This project models the resolution engine of a small URL-resolving
service (`working_resolver.py`). The service takes a URL and reports where
it finally lands. Most URLs are resolved by one GET with redirects
followed. Google News article links are different: they wrap the real
destination in an opaque token, which the service exchanges in two steps.

1. Step 1 fetches `https://news.google.com/rss/articles/{token}`. If that
   status is not 200, it fetches `https://news.google.com/articles/{token}`
   instead. It then reads the `data-n-a-sg` and `data-n-a-ts` attributes of
   the page's `c-wiz > div` element.
2. Step 2 posts a signed `Fbv4je` RPC to the `batchexecute` endpoint. It
   then digs the destination out of the reply.

A batch request resolves at most ten URLs, one after the other.

Every network exchange, HTML query and JSON parse is an input to the model:

- `Http.FetchOutcome` is a response (status, final URL, body) or a raised
  exception with its message.
- `Resolver.Outcomes` holds the outcome of each request one resolution may
  make.
- `PyLib.Lib` holds the library calls the model does not look inside:
  `urlparse(...).path`, BeautifulSoup's `select_one("c-wiz > div")`,
  `json.loads`, `json.dumps` of a string, and `quote`.

What remains is pure decision logic. Every function that issues requests returns the value the
Python code returns, together with the list of outbound requests it issued
(`Http.Traced`). This lets "the second fetch happens only if ..." be stated
as a property of that list.

Modules:

- `Wrappers`: the `Option` type.
- `Strings`: Python's `in`, `str.find`, `str.split` and `sep.join`. It
  includes lemmas relating the split pieces to positions in the string.
- `PyLib`: JSON values as Python sees them: truthiness, `len`, integer
  indexing, type names, and how an f-string renders `None`. It also holds
  the record of library oracles.
- `Http`: fetch outcomes, the request trace, and `raise_for_status`.
- `GoogleNewsDecoder`: token extraction, step 1, the RPC argument string and
  payload, reply parsing, and the decoder.
- `Resolver`: the classifier and strategy selector, standard resolution,
  the error envelope, and the batch loop.

Four behaviours of the code are easy to misread; the model follows the
code:

- The `news.google.com` test is a substring test on the whole URL string,
  not on the host (`Resolver.MarkerAnywhereTriesDecoder`).
- Step 1 fails on the final response only when `raise_for_status` raises,
  that is for a status from 400 to 599. Other non-200 statuses go on to the
  HTML query.
- The two attributes are passed through without a presence check. A
  missing one is rendered as `None` in the RPC argument string, as a Python
  f-string renders it (`PyLib.FormatOpt`).
- The decoded value can be any JSON value. A truthy value that is not a
  string makes `.startswith` raise `AttributeError`. The outer handler turns
  that into a status-500 error envelope (`Resolver.JudgeDecoded`). A JSON
  `null` is Python's `None`, so it leads to the fallback.

## Model

| member | source | states |
|---|---|---|
| `Strings.Find` | working_resolver.py:103 | A returned index is a place where the needle occurs. |
| `Strings.FindLeftmost` | working_resolver.py:103 | No earlier index holds an occurrence, and `None` comes only when the needle occurs nowhere. So `Find` is the leftmost search behind Python's `in`. |
| `Strings.ContainsIffOccurs` | working_resolver.py:103 | `t in s` holds exactly when `t` occurs at some index of `s`. |
| `Strings.ContainsSpliced` | working_resolver.py:103 | A string contains every string spliced into it, wherever it is spliced. |
| `Strings.Split` | working_resolver.py:54 | `str.split` gives at least one piece. |
| `Strings.SplitOnePiece` | working_resolver.py:54 | The split gives exactly one piece when the separator does not occur, and that piece is the whole string. |
| `Strings.JoinSplit` | working_resolver.py:54 | Joining the split pieces with the separator gives back the original string. |
| `Strings.SplitPiecesAvoidSep` | working_resolver.py:54 | No split piece contains the separator. |
| `Strings.LastPieceEnds` | working_resolver.py:59 | The piece `LastPiece` computes, the text after the last separator, ends the string. It is preceded by the separator unless it is the whole string. |
| `Strings.SplitLastPiece` | working_resolver.py:59 | The last element of the split list (`[-1]`) is the text after the last separator. |
| `Strings.LastPieceIsSuffix` | working_resolver.py:59 | The last element of the split list itself (`s.split(sep)[-1]`) ends the string. It is preceded by the separator unless it is the whole string. |
| `Strings.LastCharSegment` | working_resolver.py:59 | With a one-character separator, the last piece is the longest suffix free of that character. |
| `Strings.SplitSegment` | working_resolver.py:56 | A word is among the `/`-split pieces exactly when it stands in the string between two separators or string ends. |
| `PyLib.Len` | working_resolver.py:90 | `len` succeeds exactly on strings, lists and dicts. |
| `PyLib.Index` | working_resolver.py:90-91 | Integer indexing succeeds exactly on lists and strings within bounds. It gives the element, or the one-character string. Dicts (string keys) and scalars raise. |
| `PyLib.FormatOpt` | working_resolver.py:66 | An f-string inserts a present attribute verbatim and a missing one as `None`. |
| `GoogleNewsDecoder.ArticleToken` | working_resolver.py:53-59 | There is a token exactly when some `/`-delimited segment of the path is `articles`. The token holds no `/`, ends the path, and is preceded by `/` unless it is the whole path. |
| `GoogleNewsDecoder.TokenFound` | working_resolver.py:54-56 | `"articles"` is among the `/`-split pieces of the path exactly when it stands there as a whole segment. |
| `GoogleNewsDecoder.TokenShape` | working_resolver.py:54-59 | The last `/`-split piece holds no `/` and ends the path, preceded by `/` unless it is the whole path. |
| `GoogleNewsDecoder.GetDecodingParams` | working_resolver.py:27-49 | The RSS path is always fetched first. The `/articles/` path is fetched exactly when the RSS answer had a status other than 200. Parameters come out exactly when the page settled on raised nothing, has no error status, and has a `c-wiz > div`. The record then carries the input token and the element's attributes unchecked. |
| `GoogleNewsDecoder.RetryMatchesDirectAnswer` | working_resolver.py:29-35 | A non-200 answer followed by a 200 on the alternate path yields the same parameters as a direct 200 with the same page. |
| `GoogleNewsDecoder.AlternatePathIgnored` | working_resolver.py:31-33 | When the RSS fetch answers 200 or raises, the alternate fetch has no influence on the result or the requests. |
| `GoogleNewsDecoder.RpcArgsRoundTrip` | working_resolver.py:64-67 | The argument string is the fixed `garturlreq` prefix, then the quoted id, the bare timestamp, and the quoted signature. The three fields can be read back whenever the id holds no quote and the timestamp no comma. |
| `GoogleNewsDecoder.RpcPayloadCarriesParams` | working_resolver.py:64-69 | The payload is `f.req=` and the quoted JSON of `[[["Fbv4je", args]]]`. The argument string `args` reads back as the parameters' id, timestamp and signature (a missing attribute as `None`), whenever the id holds no quote and the timestamp no comma. |
| `GoogleNewsDecoder.ParsePrefixed` | working_resolver.py:66 | Behind the constant `garturlreq` prefix, reading the argument string back reads the fields that follow it. |
| `GoogleNewsDecoder.RpcArgsInjective` | working_resolver.py:66 | Under the same conditions, different fields give different argument strings. |
| `GoogleNewsDecoder.UrlFromFrames` | working_resolver.py:90-92 | An empty frame list gives nothing. A result requires a non-empty list whose first element has more than two elements, and whose element 2 is a string that `json.loads` accepts. With that shape and a string that parses, the result is element 1 of the parse, and nothing when the parse has no element 1. If element 2 is missing, is not a string, or does not parse, there is no result. |
| `GoogleNewsDecoder.ParseRpcResponse` | working_resolver.py:85-96 | A reply without a blank-line delimiter, or whose second part fails to parse, gives nothing. Whenever the split has a second part that `json.loads` accepts, the result is exactly what `UrlFromFrames` extracts from that parse, whatever the part contains, newlines included. |
| `GoogleNewsDecoder.SecondPart` | working_resolver.py:85 | In a reply laid out as head, blank line, frame, and optionally text starting with another blank line, with no newline in the head or the frame, the second split part is exactly the frame. |
| `GoogleNewsDecoder.ParseWellFormedReply` | working_resolver.py:85-92 | Take a reply laid out as a head, a blank line, a frame and optionally text starting with another blank line, with no newline in the head or the frame. If the frame parses to a non-empty list whose first element is a list with a string at index 2, and that string parses to a list of at least two elements, the reply decodes to element 1 of that list. |
| `GoogleNewsDecoder.DecodeGoogleNewsUrl` | working_resolver.py:51-99 | No request is made unless the path parses and has an `articles` segment. The requests then begin with step 1's. The batchexecute POST with the payload built from the step-1 parameters follows exactly when step 1 succeeded, and the decoded value is then what the RPC reply yields. A reply with any status outside 400-599, not only 200, is parsed. A decoded value comes only from a non-error RPC reply. |
| `Resolver.JudgeDecoded` | working_resolver.py:104-105 | The answer is accepted exactly when it is a string starting with `http`, which is then non-empty. A truthy non-string makes `startswith` raise, with Python's message. |
| `Resolver.StandardResolution` | working_resolver.py:113-128 | One GET of the URL itself. It reports that fetch's final URL and status verbatim with method `standard`, or an error envelope carrying the exception's message when the fetch raises. |
| `Resolver.ResolveSingleUrl` | working_resolver.py:101-128 | The result always names the original URL. A `google_news` result needs the marker in the URL and has status 200 and an `http` final URL. A URL without the marker is resolved the standard way. |
| `Resolver.OrdinaryUrlSkipsDecoder` | working_resolver.py:103-121 | Without the marker, the only request is the GET of the URL. The step-1 and RPC outcomes do not affect the result. |
| `Resolver.MarkerAnywhereTriesDecoder` | working_resolver.py:103-104 | A URL with the marker anywhere, not only in its host, is decoded first. Its requests begin with the decoder's. |
| `Resolver.GoogleNewsResultIff` | working_resolver.py:103-111 | A result is `google_news` exactly when the marker is present and the decoder returned a string starting with `http`. That string is then the final URL, the status is 200, and no GET of the URL follows. |
| `Resolver.FallbackResolvesOriginalUrl` | working_resolver.py:103-121 | When the decoder's answer is unusable, the original URL is resolved the standard way after the decoder's requests. |
| `Resolver.ErrorEnvelopeCauses` | working_resolver.py:123-128 | An error envelope, always status 500, arises exactly when the decoder's answer was a truthy non-string, or when the GET made on the standard path raised. It then carries the exception's message: the `AttributeError` message for a non-string answer, the GET's message otherwise. After a non-string answer no GET of the URL is made: the requests are the decoder's alone. |
| `Resolver.GoogleNewsExchangeSucceeds` | working_resolver.py:51-111 | Take a marked URL whose step 1 yields parameters. Its RPC answers 200 with a head, a blank line and a frame, neither holding a newline. The frame is laid out as in `ParseWellFormedReply`, and element 1 of the inner list is a string starting with `http`. Then the URL resolves as `google_news` to that string with status 200. Its requests are exactly step 1's, then the RPC post. |
| `Resolver.ResolveInOrder` | working_resolver.py:170-172 | There is one result per URL, in input order. Each result is the resolution of that URL at its position. The requests are those of each resolution in turn. |
| `Resolver.ResolveBatch` | working_resolver.py:167-174 | The batch yields min(len(urls), 10) results. Result `i` is the resolution of `urls[i]`, in input order and independent of the other entries. The requests are each resolution's requests in turn. |

## Left out

- HTTP itself is left out: `requests.get`/`requests.post`, redirect-following, timeouts, and the `User-Agent`, `Content-Type` and `Referer` headers. Each request's outcome is an input, and the trace records only method, URL and form payload.
- BeautifulSoup parsing and the CSS selection are left out; they are the oracle `Lib.selectDiv`. So are `json.loads`, `json.dumps` of a string, `quote` and `urlparse(...).path`. All of these are library code.
- The payload's JSON escaping and percent-encoding are the oracles `jsonDumpsStr` and `quote`. `GoogleNewsDecoder.RpcPayloadCarriesParams` ties the payload to the parameters through the argument string, but nothing is stated about the encoded bytes.
- Python strings may hold lone surrogate code points; Dafny strings cannot, so URLs and replies holding them are not represented.
- JSON floats are modelled as reals, so the `NaN` and `Infinity` values that `json.loads` accepts are not represented.
- The Flask application is left out: the `/`, `/health` and `/resolve` routes, the 404 and 500 handlers, and the request-JSON checks of `/resolve-batch` (a missing body or `urls` key, `urls` that is not a list of strings). It is a transport shell; only the batch's truncate-and-map loop is modelled, over a list of strings.
- The 500 envelope for an exception raised by the batch handler itself is left out.
- `main` is left out: argument parsing, printing, and threaded serving. These are process start-up and concurrency.
- Logging and `time.time()` are left out; they do not affect results.
