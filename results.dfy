/** The `DomainCheckResult` record every resolver returns. */
module Results {
  import opened Wrappers

  /** The four values the `status` string takes. */
  datatype Status = Registered | Unregistered | Unknown | Invalid
  {
    /** The string the source stores in `status`. */
    function Text(): string
    {
      match this
      case Registered => "registered"
      case Unregistered => "unregistered"
      case Unknown => "unknown"
      case Invalid => "invalid"
    }
  }

  datatype CheckResult = CheckResult(domain: string, registered: Option<bool>, status: Status, error: Option<string>)

  function RegisteredResult(domain: string): CheckResult
  {
    CheckResult(domain, Some(true), Registered, None)
  }

  function UnregisteredResult(domain: string): CheckResult
  {
    CheckResult(domain, Some(false), Unregistered, None)
  }

  function UnknownResult(domain: string, error: string): CheckResult
  {
    CheckResult(domain, None, Unknown, Some(error))
  }

  /** The tri-state invariant of the record: `registered` is true exactly for
      `registered`, false exactly for `unregistered`, absent exactly for
      `unknown` and `invalid`, and an error appears only with the last two. */
  predicate Consistent(r: CheckResult)
  {
    && (r.registered == Some(true) <==> r.status == Registered)
    && (r.registered == Some(false) <==> r.status == Unregistered)
    && (r.registered.None? <==> r.status in {Unknown, Invalid})
    && (r.error.Some? ==> r.status in {Unknown, Invalid})
  }

  /** What the resolvers return: a consistent result for `domain` that is
      never `invalid`, and whose `unknown` always carries a non-empty error. */
  predicate Resolved(r: CheckResult, domain: string)
  {
    && Consistent(r)
    && r.domain == domain
    && r.status != Invalid
    && (r.status == Unknown ==> r.error.Some? && r.error.value != "")
  }

  /** How a call ends: with the record it returns, with the `ValueError` it
      raises, or with any other exception it lets escape. */
  datatype Outcome = Returned(result: CheckResult) | Rejected(message: string) | Raised(message: string)
}
