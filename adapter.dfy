/** `app/mcp_server.py`: the tool-facing payloads. A single check turns the
    record, or the `ValueError` of invalid input, into a dictionary; the
    batch tool bounds its input and keeps the input order. */
module Adapter {
  import opened Wrappers
  import opened Text
  import opened Results

  /** The dictionary `{"domain", "registered", "status", "error"}`. */
  datatype Payload = Payload(domain: string, registered: Option<bool>, status: string, error: Option<string>)

  const MIN_BATCH := 1
  const MAX_BATCH := 200
  const EMPTY_BATCH_MESSAGE := "`domains` must contain at least one value"
  const LARGE_BATCH_MESSAGE := "`domains` supports up to 200 values"

  /** The tri-state invariant, read on the payload's strings. */
  predicate PayloadConsistent(p: Payload)
  {
    && p.status in {"registered", "unregistered", "unknown", "invalid"}
    && (p.registered == Some(true) <==> p.status == "registered")
    && (p.registered == Some(false) <==> p.status == "unregistered")
    && (p.error.Some? ==> p.status in {"unknown", "invalid"})
  }

  /** Lines 15-21. The payload loses nothing, since reading it back gives
      the record, and a consistent record gives a consistent payload. */
  function ResultToPayload(r: CheckResult): (p: Payload)
    ensures PayloadToResult(p) == Some(r)
    ensures Consistent(r) ==> PayloadConsistent(p)
  {
    Payload(r.domain, r.registered, r.status.Text(), r.error)
  }

  /** The status string read back. */
  function ParseStatus(s: string): Option<Status>
  {
    if s == "registered" then Some(Registered)
    else if s == "unregistered" then Some(Unregistered)
    else if s == "unknown" then Some(Unknown)
    else if s == "invalid" then Some(Invalid)
    else None
  }

  /** A payload read back as a record. */
  function PayloadToResult(p: Payload): Option<CheckResult>
  {
    match ParseStatus(p.status)
    case None => None
    case Some(status) => Some(CheckResult(p.domain, p.registered, status, p.error))
  }

  /** Line 28: `domain.strip().lower()`. */
  function Sanitized(domain: string): string
  {
    Lower(Strip(domain))
  }

  /** Lines 24-36 for a checker `check`: a returned record is passed on, a
      `ValueError` becomes an "invalid" payload, and any other exception
      escapes. */
  function CheckToPayload(check: string -> Outcome, domain: string): (r: Result<Payload, string>)
    ensures r.Failure? <==> check(domain).Raised?
    ensures r.Failure? ==> r.error == check(domain).message
    ensures check(domain).Returned? ==> r == Success(ResultToPayload(check(domain).result))
  {
    match check(domain)
    case Returned(r) => Success(ResultToPayload(r))
    case Rejected(message) =>
      var sanitized := Sanitized(domain);
      Success(Payload(if sanitized != "" then sanitized else domain, None, "invalid", Some(message)))
    case Raised(message) => Failure(message)
  }

  /** The "invalid" payload of rejected input: consistent, carrying the
      rejection message, and naming the cleaned-up input, or the input as
      given when cleaning leaves nothing; its name is empty only for empty
      input. */
  lemma RejectedPayload(check: string -> Outcome, domain: string)
    requires check(domain).Rejected?
    ensures CheckToPayload(check, domain).Success?
    ensures var p := CheckToPayload(check, domain).value;
      && PayloadConsistent(p) && p.status == "invalid" && p.registered == None
      && p.error == Some(check(domain).message)
      && (p.domain == "" <==> domain == "")
      && (Strip(domain) != "" ==> p.domain == Lower(Strip(domain)))
      && (Strip(domain) == "" ==> p.domain == domain)
  {
    assert |Sanitized(domain)| == |Strip(domain)|;
  }

  /** The list comprehension at line 73: payloads in input order; the first
      exception escapes and ends the batch. */
  function BatchPayloads(check: string -> Outcome, domains: seq<string>): (r: Result<seq<Payload>, string>)
    ensures r.Success? <==> forall i :: 0 <= i < |domains| ==> CheckToPayload(check, domains[i]).Success?
    ensures r.Success? ==> (|r.value| == |domains|
      && forall i :: 0 <= i < |domains| ==> r.value[i] == CheckToPayload(check, domains[i]).value)
    ensures r.Failure? ==> exists i :: (0 <= i < |domains| && CheckToPayload(check, domains[i]) == Failure(r.error)
      && forall j :: 0 <= j < i ==> CheckToPayload(check, domains[j]).Success?)
    decreases |domains|
  {
    if domains == [] then Success([])
    else
      match CheckToPayload(check, domains[0])
      case Failure(e) => Failure(e)
      case Success(p) =>
        var rest := BatchPayloads(check, domains[1..]);
        assert forall i :: 1 <= i < |domains| ==> domains[i] == domains[1..][i - 1];
        match rest
        case Failure(e) =>
          var i :| 0 <= i < |domains[1..]| && CheckToPayload(check, domains[1..][i]) == Failure(e)
            && forall j :: 0 <= j < i ==> CheckToPayload(check, domains[1..][j]).Success?;
          assert CheckToPayload(check, domains[i + 1]) == Failure(e);
          Failure(e)
        case Success(ps) => Success([p] + ps)
  }

  /** Lines 68-73: the batch tool. An accepted batch has 1 to 200 names and
      one payload for each; a batch outside those bounds is refused with the
      message for its side. */
  function CheckDomainsBatch(check: string -> Outcome, domains: seq<string>): (r: Result<seq<Payload>, string>)
    ensures r.Success? ==> MIN_BATCH <= |domains| <= MAX_BATCH && |r.value| == |domains|
    ensures |domains| < MIN_BATCH ==> r == Failure(EMPTY_BATCH_MESSAGE)
    ensures |domains| > MAX_BATCH ==> r == Failure(LARGE_BATCH_MESSAGE)
  {
    if |domains| < MIN_BATCH then Failure(EMPTY_BATCH_MESSAGE)
    else if |domains| > MAX_BATCH then Failure(LARGE_BATCH_MESSAGE)
    else BatchPayloads(check, domains)
  }

  /** A batch outside 1..200 is refused before any domain is checked, so
      the refusal does not depend on the checker. */
  lemma BatchBounds(c1: string -> Outcome, c2: string -> Outcome, domains: seq<string>)
    requires |domains| < MIN_BATCH || |domains| > MAX_BATCH
    ensures CheckDomainsBatch(c1, domains) == CheckDomainsBatch(c2, domains)
    ensures CheckDomainsBatch(c1, domains) == Failure(if domains == [] then EMPTY_BATCH_MESSAGE else LARGE_BATCH_MESSAGE)
  {
  }

  /** An accepted batch answers every domain, in input order, exactly as the
      single-domain tool would. */
  lemma BatchMatchesSingle(check: string -> Outcome, domains: seq<string>)
    requires MIN_BATCH <= |domains| <= MAX_BATCH
    requires forall i :: 0 <= i < |domains| ==> !check(domains[i]).Raised?
    ensures CheckDomainsBatch(check, domains).Success?
    ensures |CheckDomainsBatch(check, domains).value| == |domains|
    ensures forall i :: 0 <= i < |domains| ==> CheckToPayload(check, domains[i]) == Success(CheckDomainsBatch(check, domains).value[i])
  {
    assert forall i :: 0 <= i < |domains| ==> CheckToPayload(check, domains[i]).Success?;
  }

  /** Every payload of a batch whose checker only returns consistent records
      is consistent. */
  lemma BatchConsistent(check: string -> Outcome, domains: seq<string>)
    requires CheckDomainsBatch(check, domains).Success?
    requires forall i :: 0 <= i < |domains| ==> check(domains[i]).Returned? ==> Consistent(check(domains[i]).result)
    ensures forall i :: 0 <= i < |CheckDomainsBatch(check, domains).value| ==> PayloadConsistent(CheckDomainsBatch(check, domains).value[i])
  {
    var ps := CheckDomainsBatch(check, domains).value;
    forall i | 0 <= i < |ps|
      ensures PayloadConsistent(ps[i])
    {
      var d := domains[i];
      match check(d)
      case Returned(r) =>
      case Rejected(m) => RejectedPayload(check, d);
      case Raised(m) => assert false;
    }
  }
}
