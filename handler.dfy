/** The request handler of the arXiv query proxy: it checks the request,
    fills in the query defaults, asks the arXiv API and answers with the
    translated feed or an error. The network is a parameter: `fetch` gives
    the outcome of asking the API for a query. */
module Handler {
  import opened Text
  import opened Feed

  /** The parameters of the query string; `None` when absent. */
  datatype Query = Query(
    search_query: Option<string>,
    sortBy: Option<string>,
    sortOrder: Option<string>,
    start: Option<string>,
    max_results: Option<string>)

  /** An incoming request: its HTTP method (if any) and its query. */
  datatype Request = Request(httpMethod: Option<string>, query: Query)

  /** The five parameters set on the arXiv API URL, as the strings passed. */
  datatype UpstreamQuery = UpstreamQuery(
    search_query: string,
    sortBy: string,
    sortOrder: string,
    start: string,
    max_results: string)

  /** A value thrown during the upstream call: an `Error` with its message,
      or anything else. */
  datatype Thrown = ErrorValue(message: string) | OtherValue

  /** Reading the body of a reply. */
  datatype BodyText = Text(text: string) | ReadThrew(thrown: Thrown)

  /** What asking the API gives: the call throws, or a reply arrives with its
      `ok` flag, status, status text and (read on demand) body. */
  datatype Outcome =
    | FetchThrew(thrown: Thrown)
    | Reply(ok: bool, status: nat, statusText: string, body: BodyText)

  /** The JSON bodies the handler answers with. */
  datatype Body =
    | ErrorBody(error: string)
    | FailureBody(error: string, message: string)
    | SuccessBody(success: bool, total_results: nat, entries: seq<ArxivEntry>)

  datatype Response = Response(status: nat, body: Body)

  /** Before the upstream call: answer at once, or send this query. */
  datatype Decision = Reject(response: Response) | Send(upstream: UpstreamQuery)

  const NotAllowed := Response(405, ErrorBody("Method not allowed"))
  const MissingQuery := Response(400, ErrorBody("search_query parameter is required"))
  const FailedFetch := "Failed to fetch ArXiv data"

  /** The checks and defaults before the upstream call. `start` and
      `max_results` default to the numbers 0 and 10, whose `toString` is
      "0" and "10"; a given value is a string and passes unchanged. */
  function Prepare(req: Request): (d: Decision)
    ensures d == Reject(NotAllowed) <==> req.httpMethod != Some("GET")
    ensures d == Reject(MissingQuery) <==>
      req.httpMethod == Some("GET") && req.query.search_query in {None, Some("")}
    ensures d.Send? <==>
      req.httpMethod == Some("GET") && req.query.search_query.Some? && req.query.search_query.value != ""
    ensures d.Send? ==> Defaulted(req.query, d.upstream)
  {
    if req.httpMethod != Some("GET") then Reject(NotAllowed)
    else
      var q := req.query;
      if q.search_query.None? || q.search_query.value == "" then Reject(MissingQuery)
      else Send(UpstreamQuery(
        q.search_query.value,
        q.sortBy.GetOr("submittedDate"),
        q.sortOrder.GetOr("descending"),
        q.start.GetOr("0"),
        q.max_results.GetOr("10")))
  }

  /** The upstream query carries the given search query, and every other
      parameter as given or, when absent, its default. */
  predicate Defaulted(q: Query, u: UpstreamQuery) {
    && q.search_query == Some(u.search_query)
    && u.sortBy == (if q.sortBy.Some? then q.sortBy.value else "submittedDate")
    && u.sortOrder == (if q.sortOrder.Some? then q.sortOrder.value else "descending")
    && u.start == (if q.start.Some? then q.start.value else "0")
    && u.max_results == (if q.max_results.Some? then q.max_results.value else "10")
  }

  /** The message of the error thrown for a reply that is not ok:
      `ArXiv API returned ${status}: ${statusText}`. */
  function StatusMessage(status: nat, statusText: string): string {
    "ArXiv API returned " + Decimal(status) + ": " + statusText
  }

  /** The `catch` arm: 500 with the thrown error's message, or
      "Unknown error" for a value that is not an `Error`. */
  function Failure(t: Thrown): (r: Response)
    ensures r.status == 500 && r.body.FailureBody? && r.body.error == FailedFetch
  {
    Response(500, FailureBody(FailedFetch,
      match t
      case ErrorValue(m) => m
      case OtherValue => "Unknown error"))
  }

  /** After the upstream call: the translated feed, or a failure. */
  function Complete(o: Outcome): (r: Response)
    ensures r.status in {200, 500}
    ensures r.status == 200 <==> o.Reply? && o.ok && o.body.Text?
    ensures r.status == 200 ==>
      r.body == SuccessBody(true, |ParseFeed(o.body.text)|, ParseFeed(o.body.text))
    ensures o.Reply? && !o.ok ==>
      r == Response(500, FailureBody(FailedFetch, StatusMessage(o.status, o.statusText)))
  {
    match o
    case FetchThrew(t) => Failure(t)
    case Reply(ok, status, statusText, body) =>
      if !ok then Failure(ErrorValue(StatusMessage(status, statusText)))
      else
        match body
        case ReadThrew(t) => Failure(t)
        case Text(xml) =>
          var entries := ParseFeed(xml);
          Response(200, SuccessBody(true, |entries|, entries))
  }

  /** The whole handler, with `fetch` standing for the upstream call. */
  function Handle(req: Request, fetch: UpstreamQuery -> Outcome): (r: Response)
    ensures r.status in {200, 400, 405, 500}
    ensures r.status == 405 <==> req.httpMethod != Some("GET")
    ensures r.status == 400 <==>
      req.httpMethod == Some("GET") && req.query.search_query in {None, Some("")}
    ensures r.status == 200 <==>
      Prepare(req).Send? && var o := fetch(Prepare(req).upstream); o.Reply? && o.ok && o.body.Text?
  {
    match Prepare(req)
    case Reject(r) => r
    case Send(u) => Complete(fetch(u))
  }

  /** The handler as written: early returns for the checks, the upstream
      call with the prepared query, the status check, then the translation
      of the body. */
  method Handler(req: Request, fetch: UpstreamQuery -> Outcome) returns (res: Response)
    ensures res == Handle(req, fetch)
  {
    if req.httpMethod != Some("GET") {
      return NotAllowed;
    }
    var q := req.query;
    if q.search_query.None? || q.search_query.value == "" {
      return MissingQuery;
    }
    var upstream := Prepare(req).upstream;
    var response := fetch(upstream);
    if response.FetchThrew? {
      return Failure(response.thrown);
    }
    if !response.ok {
      return Failure(ErrorValue(StatusMessage(response.status, response.statusText)));
    }
    if response.body.ReadThrew? {
      return Failure(response.body.thrown);
    }
    var entries := ParseArxivXML(response.body.text);
    res := Response(200, SuccessBody(true, |entries|, entries));
  }

  // ---------------------------------------------------------------------
  // Decimal notation of the status

  /** The digit for `d`. */
  function DigitChar(d: nat): (c: char)
    requires d < 10
    ensures IsDigit(c) && c as int - '0' as int == d
  {
    ('0' as int + d) as char
  }

  /** `${n}` for a non-negative integer: its decimal digits, no leading zero. */
  function Decimal(n: nat): (r: string)
    ensures |r| > 0 && AllDigits(r)
    ensures r[0] == '0' ==> n == 0
    decreases n
  {
    if n < 10 then [DigitChar(n)] else Decimal(n / 10) + [DigitChar(n % 10)]
  }

  predicate IsDigit(c: char) {
    '0' <= c <= '9'
  }

  predicate AllDigits(s: string) {
    forall i :: 0 <= i < |s| ==> IsDigit(s[i])
  }
}
