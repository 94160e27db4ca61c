/** `URLResolver.decode_google_news_url_batchexecute` and
    `URLResolver.get_decoding_params`: recovering the destination wrapped in
    a Google News article token through a two-step exchange (fetch the
    signed parameters, then one batchexecute RPC). Every network response,
    HTML query and JSON parse is an input; the functions here are the
    decisions the resolver takes on them. */
module GoogleNewsDecoder {
  import opened Wrappers
  import opened Strings
  import opened PyLib
  import opened Http

  const RssArticlesPrefix := "https://news.google.com/rss/articles/"
  const ArticlesPrefix := "https://news.google.com/articles/"
  const BatchExecuteUrl := "https://news.google.com/_/DotsSplashUi/data/batchexecute"

  /** The blank line that separates the frames of a batchexecute reply. */
  const FrameDelimiter := "\n\n"

  /** The parameters step 1 extracts. The attributes are taken as the page
      has them, so either may be absent. */
  datatype DecodingParams = DecodingParams(
    signature: Option<string>,
    timestamp: Option<string>,
    gnArtId: string)

  // ---------------------------------------------------------------------
  // Token extraction

  /** The article token of a URL path: its last `/`-separated segment,
      provided some segment is exactly `articles`. */
  function ArticleToken(path: string): (r: Option<string>)
    ensures r.Some? <==> exists i :: SegmentAt(path, "articles", '/', i)
    ensures r.Some? ==> '/' !in r.value && EndsWithPiece(path, r.value, "/")
  {
    var parts := Split(path, "/");
    var r := if "articles" in parts then Some(parts[|parts| - 1]) else None;
    TokenFacts(path, r);
    r
  }

  /** A token is found exactly when `articles` stands as a whole segment
      of the path, and it is then the `/`-free suffix after the last `/`. */
  lemma TokenFacts(path: string, r: Option<string>)
    requires var parts := Split(path, "/");
      r == if "articles" in parts then Some(parts[|parts| - 1]) else None
    ensures r.Some? <==> exists i :: SegmentAt(path, "articles", '/', i)
    ensures r.Some? ==> '/' !in r.value && EndsWithPiece(path, r.value, "/")
  {
    TokenFound(path);
    TokenShape(path);
  }

  lemma TokenFound(path: string)
    ensures "articles" in Split(path, "/") <==> exists i :: SegmentAt(path, "articles", '/', i)
  {
    SplitSegment(path, '/', "articles");
  }

  lemma TokenShape(path: string)
    ensures var parts := Split(path, "/");
      '/' !in parts[|parts| - 1] && EndsWithPiece(path, parts[|parts| - 1], "/")
  {
    LastCharSegment(path, '/');
  }

  // ---------------------------------------------------------------------
  // Step 1: parameter retrieval

  /** The parameters read from the page step 1 settled on. */
  function ParamsFromPage(id: string, page: FetchOutcome, lib: Lib): Option<DecodingParams> {
    match page
    case Raised(_) => None
    case Response(status, _, text) =>
      if RaisesForStatus(status) then None
      else match lib.selectDiv(text)
        case None => None
        case Some(div) => Some(DecodingParams(div.signature, div.timestamp, id))
  }

  /** Step 1. `rss` and `articles` are what fetching
      `https://news.google.com/rss/articles/{id}` and
      `https://news.google.com/articles/{id}` would yield; the second is
      fetched only when the first answered with a status other than 200. */
  function GetDecodingParams(id: string, rss: FetchOutcome, articles: FetchOutcome, lib: Lib)
    : (r: Traced<Option<DecodingParams>>)
    ensures 1 <= |r.calls| <= 2 && r.calls[0] == Get(RssArticlesPrefix + id)
    ensures |r.calls| == 2 <==> rss.Response? && rss.status != 200
    ensures |r.calls| == 2 ==> r.calls[1] == Get(ArticlesPrefix + id)
    ensures r.value.Some? ==> r.value.value.gnArtId == id
    ensures var page := if |r.calls| == 2 then articles else rss;
      r.value.Some? <==>
        page.Response? && !RaisesForStatus(page.status) && lib.selectDiv(page.text).Some?
    ensures var page := if |r.calls| == 2 then articles else rss;
      r.value.Some? ==>
        lib.selectDiv(page.text) == Some(DivAttrs(r.value.value.signature, r.value.value.timestamp))
  {
    match rss
    case Raised(_) => Traced(None, [Get(RssArticlesPrefix + id)])
    case Response(status, _, _) =>
      if status == 200 then
        Traced(ParamsFromPage(id, rss, lib), [Get(RssArticlesPrefix + id)])
      else
        Traced(ParamsFromPage(id, articles, lib), [Get(RssArticlesPrefix + id), Get(ArticlesPrefix + id)])
  }

  /** A non-200 answer on the RSS path followed by a 200 on the alternate
      path yields the parameters a direct 200 with the same page would. */
  lemma RetryMatchesDirectAnswer(id: string, rss: FetchOutcome, page: FetchOutcome,
                                 direct: FetchOutcome, unused: FetchOutcome, lib: Lib)
    requires rss.Response? && rss.status != 200
    requires page.Response? && page.status == 200
    requires direct.Response? && direct.status == 200 && direct.text == page.text
    ensures GetDecodingParams(id, rss, page, lib).value == GetDecodingParams(id, direct, unused, lib).value
  {
  }

  /** When the RSS path answers 200 (or raises), the alternate path's outcome
      has no influence. */
  lemma AlternatePathIgnored(id: string, rss: FetchOutcome, a1: FetchOutcome, a2: FetchOutcome, lib: Lib)
    requires rss.Raised? || rss.status == 200
    ensures GetDecodingParams(id, rss, a1, lib) == GetDecodingParams(id, rss, a2, lib)
  {
  }

  // ---------------------------------------------------------------------
  // Step 2: the RPC envelope

  /** The constant part of the `garturlreq` argument list, up to and
      including the quote that opens the article id. */
  const ArgsPrefix := "[\"garturlreq\",[[\"X\",\"X\",[\"X\",\"X\"],null,null,1,1,\"US:en\",null,1,null,null,null,null,null,0,1],\"X\",\"X\",1,[1,1,1],1,1,null,0,0,null,0],\""

  /** The argument string of the `Fbv4je` RPC: the id and the signature are
      inserted inside quotes, the timestamp bare. */
  function RpcArgs(id: string, timestamp: string, signature: string): string {
    ArgsPrefix + (id + "\"," + timestamp + ",\"" + signature + "\"]")
  }

  /** Reads the three fields back out of an argument string. */
  function ParseRpcArgs(a: string): Option<(string, string, string)> {
    if ArgsPrefix <= a then ParseFields(a[|ArgsPrefix|..]) else None
  }

  /** Reads the fields back out of the text after the constant prefix:
      the id runs to the first quote, which a comma follows. */
  function ParseFields(rest: string): Option<(string, string, string)> {
    match Find(rest, "\"")
    case None => None
    case Some(q) =>
      var afterId := rest[q + 1..];
      if |afterId| == 0 || afterId[0] != ',' then None
      else ParseFromTimestamp(rest[..q], afterId[1..])
  }

  /** The timestamp runs to the next comma; the signature follows in
      quotes, and `]` closes the list. */
  function ParseFromTimestamp(id: string, rest: string): Option<(string, string, string)> {
    match Find(rest, ",")
    case None => None
    case Some(k) =>
      var after := rest[k + 1..];
      if |after| >= 3 && after[0] == '"' && after[|after| - 2..] == "\"]" then
        Some((id, rest[..k], after[1..|after| - 2]))
      else None
  }

  /** The first occurrence of a character absent from `a` in `a + [c] + b`
      is at `|a|`. */
  lemma FindAfterFreePrefix(a: string, c: char, b: string)
    requires c !in a
    ensures Find(a + [c] + b, [c]) == Some(|a|)
  {
    var s := a + [c] + b;
    FindLeftmost(s, [c]);
    assert s[|a|..|a| + 1] == [c];
    assert OccursAt(s, [c], |a|);
    var i := Find(s, [c]).value;
    assert s[i..i + 1][0] == s[i];
  }

  /** The argument string determines its fields: they can be read back
      whenever the id holds no quote and the timestamp no comma. */
  lemma RpcArgsRoundTrip(id: string, timestamp: string, signature: string)
    requires '"' !in id && ',' !in timestamp
    ensures ParseRpcArgs(RpcArgs(id, timestamp, signature)) == Some((id, timestamp, signature))
  {
    ParsePrefixed(id + "\"," + timestamp + ",\"" + signature + "\"]");
    FieldsRoundTrip(id, timestamp, signature);
  }

  /** Behind the constant prefix, parsing reads the fields. */
  lemma ParsePrefixed(fields: string)
    ensures ParseRpcArgs(ArgsPrefix + fields) == ParseFields(fields)
  {
    StripPrefix(ArgsPrefix, fields);
  }

  lemma StripPrefix(p: string, x: string)
    ensures p <= p + x && (p + x)[|p|..] == x
  {
  }

  lemma FieldsRoundTrip(id: string, timestamp: string, signature: string)
    requires '"' !in id && ',' !in timestamp
    ensures ParseFields(id + "\"," + timestamp + ",\"" + signature + "\"]") == Some((id, timestamp, signature))
  {
    var tail := "\"" + signature + "\"]";
    var tsAndRest := timestamp + [','] + tail;
    var rest := id + ['"'] + ([','] + tsAndRest);
    assert rest == id + "\"," + timestamp + ",\"" + signature + "\"]";
    FindAfterFreePrefix(id, '"', [','] + tsAndRest);
    assert rest[|id| + 1..] == [','] + tsAndRest;
    assert rest[..|id|] == id;
    assert ([','] + tsAndRest)[1..] == tsAndRest;
    TimestampRoundTrip(id, timestamp, signature);
  }

  lemma TimestampRoundTrip(id: string, timestamp: string, signature: string)
    requires ',' !in timestamp
    ensures ParseFromTimestamp(id, timestamp + [','] + ("\"" + signature + "\"]")) == Some((id, timestamp, signature))
  {
    var tail := "\"" + signature + "\"]";
    var rest := timestamp + [','] + tail;
    FindAfterFreePrefix(timestamp, ',', tail);
    assert rest[|timestamp| + 1..] == tail;
    assert rest[..|timestamp|] == timestamp;
    assert tail[1..|tail| - 2] == signature;
  }

  /** Corollary: distinct fields give distinct argument strings. */
  lemma RpcArgsInjective(id1: string, ts1: string, sig1: string, id2: string, ts2: string, sig2: string)
    requires '"' !in id1 && ',' !in ts1 && '"' !in id2 && ',' !in ts2
    requires RpcArgs(id1, ts1, sig1) == RpcArgs(id2, ts2, sig2)
    ensures id1 == id2 && ts1 == ts2 && sig1 == sig2
  {
    RpcArgsRoundTrip(id1, ts1, sig1);
    RpcArgsRoundTrip(id2, ts2, sig2);
  }

  /** The form body posted to batchexecute:
      `f.req=` followed by `quote(json.dumps([[["Fbv4je", args]]]))`. */
  function RpcPayload(p: DecodingParams, lib: Lib): string {
    var args := RpcArgs(p.gnArtId, FormatOpt(p.timestamp), FormatOpt(p.signature));
    "f.req=" + lib.quote("[[[" + lib.jsonDumpsStr("Fbv4je") + ", " + lib.jsonDumpsStr(args) + "]]]")
  }

  /** The posted form wraps one `Fbv4je` command whose argument string
      reads back as the parameters' id, timestamp and signature (a missing
      attribute as `None`), whenever the id holds no quote and the rendered
      timestamp no comma. */
  lemma RpcPayloadCarriesParams(p: DecodingParams, lib: Lib)
    ensures exists args ::
      && RpcPayload(p, lib) == "f.req=" + lib.quote("[[[" + lib.jsonDumpsStr("Fbv4je") + ", " + lib.jsonDumpsStr(args) + "]]]")
      && ('"' !in p.gnArtId && ',' !in FormatOpt(p.timestamp) ==>
            ParseRpcArgs(args) == Some((p.gnArtId, FormatOpt(p.timestamp), FormatOpt(p.signature))))
  {
    var args := RpcArgs(p.gnArtId, FormatOpt(p.timestamp), FormatOpt(p.signature));
    if '"' !in p.gnArtId && ',' !in FormatOpt(p.timestamp) {
      RpcArgsRoundTrip(p.gnArtId, FormatOpt(p.timestamp), FormatOpt(p.signature));
    }
    assert RpcPayload(p, lib) == "f.req=" + lib.quote("[[[" + lib.jsonDumpsStr("Fbv4je") + ", " + lib.jsonDumpsStr(args) + "]]]");
  }

  // ---------------------------------------------------------------------
  // Step 2: parsing the RPC reply

  /** The destination inside the frame list decoded from the reply's second
      part: element 1 of the JSON held as a string at `[0][2]`. */
  function UrlFromFrames(frames: Json, lib: Lib): (r: Option<Json>)
    ensures Len(frames) == Some(0) ==> r.None?
    ensures r.Some? ==> frames.JArr? && |frames.items| > 0 && Len(frames.items[0]).Some? && Len(frames.items[0]).value > 2
    ensures r.Some? ==>
      var cell := Index(frames.items[0], 2);
      && cell.Some? && cell.value.JStr? && lib.jsonLoads(cell.value.s).Some?
      && r == Index(lib.jsonLoads(cell.value.s).value, 1)
    ensures frames.JArr? && |frames.items| > 0 && Len(frames.items[0]).Some? && Len(frames.items[0]).value > 2 ==>
      var cell := Index(frames.items[0], 2);
      (cell.None? || !cell.value.JStr? || lib.jsonLoads(cell.value.s).None?) ==> r.None?
    ensures frames.JArr? && |frames.items| > 0 && Len(frames.items[0]).Some? && Len(frames.items[0]).value > 2 ==>
      var cell := Index(frames.items[0], 2);
      cell.Some? && cell.value.JStr? && lib.jsonLoads(cell.value.s).Some? ==>
        r == Index(lib.jsonLoads(cell.value.s).value, 1)
  {
    match Len(frames)
    case None => None
    case Some(n) =>
      if n == 0 then None
      else match Index(frames, 0)
        case None => None
        case Some(first) =>
          match Len(first)
          case None => None
          case Some(m) =>
            if m <= 2 then None
            else match Index(first, 2)
              case Some(JStr(inner)) =>
                (match lib.jsonLoads(inner)
                 case None => None
                 case Some(payload) => Index(payload, 1))
              case _ => None
  }

  /** Parses a batchexecute reply body; `None` on every failure. */
  function ParseRpcResponse(text: string, lib: Lib): (r: Option<Json>)
    ensures !Contains(text, FrameDelimiter) ==> r.None?
    ensures r.Some? ==> lib.jsonLoads(Split(text, FrameDelimiter)[1]).Some?
    ensures r.Some? ==> r == UrlFromFrames(lib.jsonLoads(Split(text, FrameDelimiter)[1]).value, lib)
    ensures |Split(text, FrameDelimiter)| >= 2 && lib.jsonLoads(Split(text, FrameDelimiter)[1]).Some? ==>
      r == UrlFromFrames(lib.jsonLoads(Split(text, FrameDelimiter)[1]).value, lib)
  {
    var parts := Split(text, FrameDelimiter);
    if |parts| < 2 then None
    else match lib.jsonLoads(parts[1])
      case None => None
      case Some(frames) => UrlFromFrames(frames, lib)
  }

  /** A reply laid out as the protocol expects is decoded to the URL it
      carries: a first part, a blank line, a frame list whose first frame's
      third element is a JSON string whose element 1 is `url`. */
  lemma ParseWellFormedReply(head: string, frame: string, rest: string, lib: Lib,
                             frames: seq<Json>, first: seq<Json>, inner: string,
                             payload: seq<Json>)
    requires '\n' !in head && '\n' !in frame
    requires rest == [] || FrameDelimiter <= rest
    requires lib.jsonLoads(frame) == Some(JArr(frames))
    requires |frames| > 0 && frames[0] == JArr(first)
    requires |first| > 2 && first[2] == JStr(inner)
    requires lib.jsonLoads(inner) == Some(JArr(payload)) && |payload| > 1
    ensures ParseRpcResponse(head + FrameDelimiter + frame + rest, lib) == Some(payload[1])
  {
    var text := head + FrameDelimiter + frame + rest;
    SecondPart(head, frame, rest);
    assert Split(text, FrameDelimiter)[1] == frame;
  }

  /** The second part of such a reply is exactly the frame. */
  lemma SecondPart(head: string, frame: string, rest: string)
    requires '\n' !in head && '\n' !in frame
    requires rest == [] || FrameDelimiter <= rest
    ensures |Split(head + FrameDelimiter + frame + rest, FrameDelimiter)| >= 2
    ensures Split(head + FrameDelimiter + frame + rest, FrameDelimiter)[1] == frame
  {
    assert head + FrameDelimiter + frame + rest == head + FrameDelimiter + (frame + rest);
    SplitAfterFreeHead(head, frame + rest);
    FirstPiece(frame, rest);
  }

  /** Splitting `head + "\n\n" + tail` with no newline in `head`. */
  lemma SplitAfterFreeHead(head: string, tail: string)
    requires '\n' !in head
    ensures Split(head + FrameDelimiter + tail, FrameDelimiter) == [head] + Split(tail, FrameDelimiter)
  {
    var text := head + FrameDelimiter + tail;
    FirstDelimiter(head, tail);
    assert text[|head| + 2..] == tail;
    assert text[..|head|] == head;
    SplitStep(text, FrameDelimiter, |head|);
  }

  /** The first piece of `frame + rest` is `frame` when `frame` holds no
      newline and `rest` is empty or opens with the delimiter. */
  lemma FirstPiece(frame: string, rest: string)
    requires '\n' !in frame
    requires rest == [] || FrameDelimiter <= rest
    ensures Split(frame + rest, FrameDelimiter)[0] == frame
  {
    if rest == [] {
      assert frame + rest == frame;
      NoDelimiterWithoutNewline(frame);
    } else {
      assert rest == FrameDelimiter + rest[2..];
      assert frame + rest == frame + FrameDelimiter + rest[2..];
      SplitAfterFreeHead(frame, rest[2..]);
    }
  }

  lemma NoDelimiterWithoutNewline(s: string)
    requires '\n' !in s
    ensures !Contains(s, FrameDelimiter)
  {
    forall i | 0 <= i && i + 2 <= |s|
      ensures !OccursAt(s, FrameDelimiter, i)
    {
      assert s[i..i + 2][0] == s[i];
    }
  }

  /** In `a + "\n\n" + b` with no newline in `a`, the first delimiter is
      the one after `a`. */
  lemma FirstDelimiter(a: string, b: string)
    requires '\n' !in a
    ensures Find(a + FrameDelimiter + b, FrameDelimiter) == Some(|a|)
  {
    var s := a + FrameDelimiter + b;
    FindLeftmost(s, FrameDelimiter);
    assert s[|a|..|a| + 2] == FrameDelimiter;
    assert OccursAt(s, FrameDelimiter, |a|);
    var i := Find(s, FrameDelimiter).value;
    assert s[i..i + 2][0] == s[i];
  }

  // ---------------------------------------------------------------------
  // The decoder

  /** The outcome of the RPC, given what the POST yields. */
  function RpcResult(rpc: FetchOutcome, lib: Lib): Option<Json> {
    match rpc
    case Raised(_) => None
    case Response(status, _, text) =>
      if RaisesForStatus(status) then None else ParseRpcResponse(text, lib)
  }

  /** `decode_google_news_url_batchexecute`: the decoded value (any JSON
      value; `None` when decoding is not applicable or fails) and the
      requests issued. */
  function DecodeGoogleNewsUrl(url: string, rss: FetchOutcome, articles: FetchOutcome,
                               rpc: FetchOutcome, lib: Lib): (r: Traced<Option<Json>>)
    ensures r.calls == [] <==>
      (lib.urlPath(url).None? || ArticleToken(lib.urlPath(url).value).None?)
    ensures r.calls == [] ==> r.value.None?
    ensures r.calls != [] ==>
      var id := ArticleToken(lib.urlPath(url).value).value;
      var step1 := GetDecodingParams(id, rss, articles, lib);
      && |r.calls| >= |step1.calls| && r.calls[..|step1.calls|] == step1.calls
      && (step1.value.None? ==> r == Traced(None, step1.calls))
      && (step1.value.Some? ==>
            r.calls == step1.calls + [Post(BatchExecuteUrl, RpcPayload(step1.value.value, lib))])
      && (step1.value.Some? ==> r.value == RpcResult(rpc, lib))
      && (step1.value.Some? && rpc.Response? && !RaisesForStatus(rpc.status) ==>
            r.value == ParseRpcResponse(rpc.text, lib))
    ensures r.value.Some? ==>
      rpc.Response? && !RaisesForStatus(rpc.status) && r.value == ParseRpcResponse(rpc.text, lib)
    ensures r.value.Some? ==>
      |r.calls| >= 2 && r.calls[|r.calls| - 1].Post? && r.calls[|r.calls| - 1].url == BatchExecuteUrl
  {
    match lib.urlPath(url)
    case None => Traced(None, [])
    case Some(path) =>
      match ArticleToken(path)
      case None => Traced(None, [])
      case Some(id) =>
        var step1 := GetDecodingParams(id, rss, articles, lib);
        match step1.value
        case None => Traced(None, step1.calls)
        case Some(params) =>
          Traced(RpcResult(rpc, lib), step1.calls + [Post(BatchExecuteUrl, RpcPayload(params, lib))])
  }
}
