/** `URLResolver.resolve_single_url` and the batch loop of the
    `/resolve-batch` handler: classify the URL, try the Google News decoder
    where the URL mentions `news.google.com`, fall back to one
    redirect-following GET, and turn any exception into an error envelope. */
module Resolver {
  import opened Wrappers
  import opened Strings
  import opened PyLib
  import opened Http
  import opened GoogleNewsDecoder

  /** The substring that makes a URL a Google News candidate. It is looked
      for anywhere in the URL string, not only in the host. */
  const GoogleNewsMarker := "news.google.com"

  /** At most this many URLs of a batch are resolved. */
  const BatchLimit := 10

  datatype Method = Standard | GoogleNews

  /** The dict `resolve_single_url` returns: either a resolution carrying
      `final_url`, `status_code` and `method`, or an error envelope carrying
      `error`, whose status code is always 500. */
  datatype ResolutionResult =
    | Resolved(original: string, finalUrl: string, status: int, resolvedBy: Method)
    | Failed(original: string, error: string)
  {
    function StatusCode(): int {
      if Resolved? then status else 500
    }
  }

  /** What each outbound request of one resolution would yield: the two
      step-1 fetches, the RPC post and the plain GET of the URL itself. */
  datatype Outcomes = Outcomes(rss: FetchOutcome, articles: FetchOutcome,
                               rpc: FetchOutcome, direct: FetchOutcome)

  /** How `resolve_single_url` treats the decoder's answer. */
  datatype Verdict =
    | Accept(url: string)  // truthy string starting with "http"
    | Reject               // falsy, or a string not starting with "http"
    | Crash(msg: string)   // truthy non-string: `.startswith` raises

  /** The message of the `AttributeError` raised by calling `startswith`
      on a value that is not a string. */
  function NoStartswithMessage(v: Json): string {
    "'" + TypeName(v) + "' object has no attribute 'startswith'"
  }

  /** The test `resolved_url and resolved_url.startswith('http')`. */
  function JudgeDecoded(d: Option<Json>): (v: Verdict)
    ensures v.Accept? <==> d.Some? && d.value.JStr? && "http" <= d.value.s
    ensures v.Accept? ==> d == Some(JStr(v.url)) && |v.url| > 0
    ensures v.Crash? <==> d.Some? && Truthy(d.value) && !d.value.JStr?
    ensures v.Crash? ==> v.msg == NoStartswithMessage(d.value)
  {
    match d
    case None => Reject
    case Some(value) =>
      if !Truthy(value) then Reject
      else match value
        case JStr(s) => if "http" <= s then Accept(s) else Reject
        case _ => Crash(NoStartswithMessage(value))
  }

  /** Standard resolution: one GET of `url` with redirects followed,
      reporting where it landed and the status verbatim; a raised request
      becomes the error envelope. */
  function StandardResolution(url: string, direct: FetchOutcome): (r: Traced<ResolutionResult>)
    ensures r.calls == [Get(url)] && r.value.original == url
    ensures r.value.Failed? <==> direct.Raised?
    ensures direct.Raised? ==> r.value.error == direct.msg && r.value.StatusCode() == 500
    ensures direct.Response? ==>
      r.value.resolvedBy == Standard && r.value.finalUrl == direct.finalUrl && r.value.status == direct.status
  {
    match direct
    case Raised(msg) => Traced(Failed(url, msg), [Get(url)])
    case Response(status, finalUrl, _) => Traced(Resolved(url, finalUrl, status, Standard), [Get(url)])
  }

  /** The decoder run on `url` with the outcomes of `net`. */
  function Decoded(url: string, net: Outcomes, lib: Lib): Traced<Option<Json>> {
    DecodeGoogleNewsUrl(url, net.rss, net.articles, net.rpc, lib)
  }

  /** `resolve_single_url`: the result dict and the requests issued. */
  function ResolveSingleUrl(url: string, net: Outcomes, lib: Lib): (r: Traced<ResolutionResult>)
    ensures r.value.original == url
    ensures r.value.Resolved? && r.value.resolvedBy == GoogleNews ==>
      Contains(url, GoogleNewsMarker) && r.value.status == 200 && "http" <= r.value.finalUrl
    ensures !Contains(url, GoogleNewsMarker) ==> r == StandardResolution(url, net.direct)
  {
    if Contains(url, GoogleNewsMarker) then
      var d := Decoded(url, net, lib);
      match JudgeDecoded(d.value)
      case Accept(finalUrl) => Traced(Resolved(url, finalUrl, 200, GoogleNews), d.calls)
      case Crash(msg) => Traced(Failed(url, msg), d.calls)
      case Reject =>
        var std := StandardResolution(url, net.direct);
        Traced(std.value, d.calls + std.calls)
    else
      StandardResolution(url, net.direct)
  }

  /** A URL without the marker is never decoded: its only request is the
      GET of the URL itself, and the step-1 and RPC outcomes do not matter. */
  lemma OrdinaryUrlSkipsDecoder(url: string, net1: Outcomes, net2: Outcomes, lib: Lib)
    requires !Contains(url, GoogleNewsMarker)
    requires net1.direct == net2.direct
    ensures ResolveSingleUrl(url, net1, lib).calls == [Get(url)]
    ensures ResolveSingleUrl(url, net1, lib) == ResolveSingleUrl(url, net2, lib)
  {
  }

  /** The marker is looked for in the whole URL: one that carries it
      anywhere, in a query string say, goes through the decoder first, and
      its requests begin with the decoder's. */
  lemma MarkerAnywhereTriesDecoder(before: string, after: string, net: Outcomes, lib: Lib)
    ensures var url := before + GoogleNewsMarker + after;
      var d := Decoded(url, net, lib);
      var r := ResolveSingleUrl(url, net, lib);
      |d.calls| <= |r.calls| && r.calls[..|d.calls|] == d.calls
  {
    var url := before + GoogleNewsMarker + after;
    ContainsSpliced(before, GoogleNewsMarker, after);
    var d := Decoded(url, net, lib);
    assert (d.calls + [Get(url)])[..|d.calls|] == d.calls;
  }

  /** A result is a Google News resolution exactly when the URL carries the
      marker and the decoder answered with a string starting with `http`;
      that string is then the final URL, the status is 200, and no plain
      GET of the URL follows the decoder's requests. */
  lemma GoogleNewsResultIff(url: string, net: Outcomes, lib: Lib)
    ensures var r := ResolveSingleUrl(url, net, lib);
      r.value.Resolved? && r.value.resolvedBy == GoogleNews <==>
        Contains(url, GoogleNewsMarker) &&
        exists s :: Decoded(url, net, lib).value == Some(JStr(s)) && "http" <= s
    ensures var r := ResolveSingleUrl(url, net, lib);
      r.value.Resolved? && r.value.resolvedBy == GoogleNews ==>
        && Decoded(url, net, lib).value == Some(JStr(r.value.finalUrl))
        && r.value == Resolved(url, r.value.finalUrl, 200, GoogleNews)
        && r.calls == Decoded(url, net, lib).calls
  {
  }

  /** End to end: a marked URL with an `articles` token whose step 1
      yields parameters and whose RPC answers 200 with a reply laid out as
      the protocol expects, carrying a string that starts with `http`,
      resolves as `google_news` to that string, after exactly the step-1
      requests and the RPC post. */
  lemma GoogleNewsExchangeSucceeds(url: string, net: Outcomes, lib: Lib, path: string,
                                   rpcUrl: string, head: string, frame: string,
                                   frames: seq<Json>, first: seq<Json>, inner: string,
                                   payload: seq<Json>, dest: string)
    requires Contains(url, GoogleNewsMarker)
    requires lib.urlPath(url) == Some(path) && ArticleToken(path).Some?
    requires GetDecodingParams(ArticleToken(path).value, net.rss, net.articles, lib).value.Some?
    requires net.rpc == Response(200, rpcUrl, head + FrameDelimiter + frame)
    requires '\n' !in head && '\n' !in frame
    requires lib.jsonLoads(frame) == Some(JArr(frames))
    requires |frames| > 0 && frames[0] == JArr(first)
    requires |first| > 2 && first[2] == JStr(inner)
    requires lib.jsonLoads(inner) == Some(JArr(payload)) && |payload| > 1
    requires payload[1] == JStr(dest) && "http" <= dest
    ensures ResolveSingleUrl(url, net, lib).value == Resolved(url, dest, 200, GoogleNews)
    ensures var step1 := GetDecodingParams(ArticleToken(path).value, net.rss, net.articles, lib);
      ResolveSingleUrl(url, net, lib).calls ==
        step1.calls + [Post(BatchExecuteUrl, RpcPayload(step1.value.value, lib))]
  {
    ParseWellFormedReply(head, frame, [], lib, frames, first, inner, payload);
    assert head + FrameDelimiter + frame + [] == head + FrameDelimiter + frame;
  }

  /** When the decoder gives nothing usable (nothing, a falsy value, or a
      string not starting with `http`), the original URL, not the token, is
      resolved the standard way after the decoder's requests. */
  lemma FallbackResolvesOriginalUrl(url: string, net: Outcomes, lib: Lib)
    requires Contains(url, GoogleNewsMarker)
    requires var d := Decoded(url, net, lib).value;
      d.None? || !Truthy(d.value) || (d.value.JStr? && !("http" <= d.value.s))
    ensures var r := ResolveSingleUrl(url, net, lib);
      && r.value == StandardResolution(url, net.direct).value
      && r.calls == Decoded(url, net, lib).calls + [Get(url)]
  {
  }

  /** An error envelope arises exactly when the GET that was made raised,
      or when the decoder's answer was a truthy non-string; its message is
      the exception's. */
  lemma ErrorEnvelopeCauses(url: string, net: Outcomes, lib: Lib)
    ensures var r := ResolveSingleUrl(url, net, lib);
      r.value.Failed? ==> r.value.StatusCode() == 500 && r.value.original == url
    ensures var r := ResolveSingleUrl(url, net, lib);
      var d := Decoded(url, net, lib).value;
      r.value.Failed? <==>
        || (Contains(url, GoogleNewsMarker) && d.Some? && Truthy(d.value) && !d.value.JStr?)
        || ((!Contains(url, GoogleNewsMarker) || JudgeDecoded(d).Reject?) && net.direct.Raised?)
    ensures var r := ResolveSingleUrl(url, net, lib);
      r.value.Failed? && net.direct.Raised? && !JudgeDecoded(Decoded(url, net, lib).value).Crash? ==>
        r.value.error == net.direct.msg
    ensures var r := ResolveSingleUrl(url, net, lib);
      var d := Decoded(url, net, lib).value;
      Contains(url, GoogleNewsMarker) && JudgeDecoded(d).Crash? ==>
        r.value.error == NoStartswithMessage(d.value)
    ensures var d := Decoded(url, net, lib);
      Contains(url, GoogleNewsMarker) && JudgeDecoded(d.value).Crash? ==>
        ResolveSingleUrl(url, net, lib).calls == d.calls
  {
  }

  /** The requests issued by running `resolve` on each URL of `urls` in
      order, the `i`-th with index `i`. */
  ghost function BatchCalls(urls: seq<string>, resolve: (string, nat) -> Traced<ResolutionResult>): seq<Request>
    decreases |urls|
  {
    if |urls| == 0 then []
    else BatchCalls(urls[..|urls| - 1], resolve) + resolve(urls[|urls| - 1], |urls| - 1).calls
  }

  /** Runs `resolve` on each URL in turn, keeping one result per URL in
      order and the requests of each run one after the other. */
  method ResolveInOrder(urls: seq<string>, resolve: (string, nat) -> Traced<ResolutionResult>)
    returns (results: seq<ResolutionResult>, calls: seq<Request>)
    ensures |results| == |urls|
    ensures forall i :: 0 <= i < |urls| ==> results[i] == resolve(urls[i], i).value
    ensures calls == BatchCalls(urls, resolve)
  {
    results := [];
    calls := [];
    var i := 0;
    while i < |urls|
      invariant 0 <= i <= |urls|
      invariant |results| == i
      invariant forall j :: 0 <= j < i ==> results[j] == resolve(urls[j], j).value
      invariant calls == BatchCalls(urls[..i], resolve)
    {
      var r := resolve(urls[i], i);
      assert urls[..i + 1][..i] == urls[..i];
      results := results + [r.value];
      calls := calls + r.calls;
      i := i + 1;
    }
    assert urls[..i] == urls;
  }

  /** The batch loop: the first `BatchLimit` URLs are resolved one after
      the other, each independently of the others, the `i`-th with the
      outcomes `nets(i)`, and one result per URL is returned in input order. */
  method ResolveBatch(urls: seq<string>, nets: nat -> Outcomes, lib: Lib)
    returns (results: seq<ResolutionResult>, calls: seq<Request>)
    ensures |results| == if |urls| < BatchLimit then |urls| else BatchLimit
    ensures forall i :: 0 <= i < |results| ==> results[i] == ResolveSingleUrl(urls[i], nets(i), lib).value
    ensures calls == BatchCalls(urls[..|results|], (u: string, i: nat) => ResolveSingleUrl(u, nets(i), lib))
  {
    var batch := if |urls| < BatchLimit then urls else urls[..BatchLimit];
    results, calls := ResolveInOrder(batch, (u: string, i: nat) => ResolveSingleUrl(u, nets(i), lib));
    assert batch == urls[..|results|];
  }
}
