/** Properties of the request handler: the checks come before the upstream
    call, the defaults, the status codes, and the status reported in the
    message of a failed reply. */
module HandlerProperties {
  import opened Text
  import opened Feed
  import opened FeedProperties
  import opened Handler

  // ---------------------------------------------------------------------
  // The decimal status in the failure message

  /** The number a string of decimal digits denotes. */
  function DigitsValue(s: string): nat
    requires AllDigits(s)
  {
    if s == [] then 0
    else DigitsValue(s[..|s| - 1]) * 10 + (s[|s| - 1] as int - '0' as int)
  }

  /** Reading back the decimal notation of `n` gives `n`. */
  lemma {:induction false} DecimalValue(n: nat)
    ensures DigitsValue(Decimal(n)) == n
    decreases n
  {
    var d := Decimal(n);
    if n >= 10 {
      DecimalValue(n / 10);
      assert d[..|d| - 1] == Decimal(n / 10);
    } else {
      assert d[..|d| - 1] == [];
    }
  }

  /** How many decimal digits `s` starts with. */
  function DigitRun(s: string): (r: nat)
    ensures r <= |s|
  {
    if s != [] && IsDigit(s[0]) then 1 + DigitRun(s[1..]) else 0
  }

  /** The leading digits of `s` are digits. */
  lemma {:induction false} DigitRunDigits(s: string)
    ensures AllDigits(s[..DigitRun(s)])
  {
    if s != [] && IsDigit(s[0]) {
      DigitRunDigits(s[1..]);
      forall i | 0 < i < DigitRun(s) ensures s[..DigitRun(s)][i] == s[1..][..DigitRun(s[1..])][i - 1] {
      }
    }
  }

  /** Digits followed by something that is not a digit: the run is exactly
      the digits. */
  lemma {:induction false} DigitRunAppend(d: string, t: string)
    requires AllDigits(d)
    requires t == [] || !IsDigit(t[0])
    ensures DigitRun(d + t) == |d|
  {
    if d != [] {
      assert (d + t)[1..] == d[1..] + t;
      DigitRunAppend(d[1..], t);
    } else {
      assert d + t == t;
    }
  }

  const StatusPrefix := "ArXiv API returned "

  /** The status a failure message reports: the digits after
      "ArXiv API returned ", read up to the first other character. */
  function MessageStatus(m: string): Option<nat> {
    if |m| < |StatusPrefix| || m[..|StatusPrefix|] != StatusPrefix then None
    else
      var rest := m[|StatusPrefix|..];
      var n := DigitRun(rest);
      if n == 0 then None
      else
        DigitRunDigits(rest);
        Some(DigitsValue(rest[..n]))
  }

  /** The message for a reply that is not ok reports its status, and ends
      with its status text. */
  lemma StatusMessageReports(status: nat, statusText: string)
    ensures MessageStatus(StatusMessage(status, statusText)) == Some(status)
    ensures var m := StatusMessage(status, statusText);
      |statusText| <= |m| && m[|m| - |statusText|..] == statusText
  {
    var d := Decimal(status);
    var m := StatusMessage(status, statusText);
    var t := ": " + statusText;
    assert m == StatusPrefix + (d + t);
    assert m[..|StatusPrefix|] == StatusPrefix;
    assert m[|StatusPrefix|..] == d + t;
    DigitRunAppend(d, t);
    assert (d + t)[..|d|] == d;
    DecimalValue(status);
    assert m[|m| - |statusText|..] == statusText;
  }

  // ---------------------------------------------------------------------
  // The handler

  /** The checks come before the upstream call: a rejected request gets the
      same answer whatever the upstream would do. */
  lemma RejectionIgnoresUpstream(req: Request, f: UpstreamQuery -> Outcome, g: UpstreamQuery -> Outcome)
    requires Prepare(req).Reject?
    ensures Handle(req, f) == Handle(req, g)
    ensures Handle(req, f).status in {400, 405}
  {
  }

  /** The upstream is asked once, with the prepared query: two upstreams
      that agree on it give the same answer. */
  lemma UpstreamAskedOnce(req: Request, f: UpstreamQuery -> Outcome, g: UpstreamQuery -> Outcome)
    requires Prepare(req).Send? && f(Prepare(req).upstream) == g(Prepare(req).upstream)
    ensures Handle(req, f) == Handle(req, g)
  {
  }

  /** A reply that is not ok gives 500 with a message reporting its status. */
  lemma NotOkReportsStatus(o: Outcome)
    requires o.Reply? && !o.ok
    ensures Complete(o).status == 500
    ensures Complete(o).body.FailureBody? && Complete(o).body.error == "Failed to fetch ArXiv data"
    ensures MessageStatus(Complete(o).body.message) == Some(o.status)
  {
    StatusMessageReports(o.status, o.statusText);
  }

  /** A readable ok reply gives 200 with one entry per entry block of its
      body, in order, and `total_results` their count. */
  lemma SuccessCountsEntries(o: Outcome, xml: string)
    requires o.Reply? && o.ok && o.body == Text(xml)
    ensures Complete(o).status == 200
    ensures Complete(o).body.SuccessBody? && Complete(o).body.success
    ensures Complete(o).body.total_results == |Complete(o).body.entries| == |EntryBlocks(xml)|
    ensures forall k :: 0 <= k < |EntryBlocks(xml)| ==>
      Complete(o).body.entries[k] == EntryOf(EntryBlocks(xml)[k])
  {
    ParseFeedEntries(xml);
  }

  /** A value thrown by the call or by reading the body of an ok reply
      gives 500 with its message, or "Unknown error". */
  lemma ThrownReportsMessage(t: Thrown, status: nat, statusText: string)
    ensures Complete(FetchThrew(t)) == Failure(t)
    ensures Complete(Reply(true, status, statusText, ReadThrew(t))) == Failure(t)
    ensures Failure(t).body.message == (if t.ErrorValue? then t.message else "Unknown error")
  {
  }
}
