/** Outbound HTTP as the resolver sees it: each request either yields a
    response (after any redirects `requests` followed) or raises. */
module Http {

  /** The outcome of one `requests.get` / `requests.post`. */
  datatype FetchOutcome =
    | Response(status: int, finalUrl: string, text: string)
    | Raised(msg: string)

  /** An outbound request, as recorded in a trace. */
  datatype Request =
    | Get(url: string)
    | Post(url: string, payload: string)

  /** A value together with the requests issued, in order, to compute it. */
  datatype Traced<T> = Traced(value: T, calls: seq<Request>)

  /** `response.raise_for_status()` raises for client (4xx) and server (5xx)
      error statuses and for nothing else. */
  predicate RaisesForStatus(status: int) {
    400 <= status < 600
  }
}
