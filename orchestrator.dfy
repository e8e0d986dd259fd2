/** `check_domain_registration`: normalise, ask RDAP, fall back to WHOIS
    when RDAP is inconclusive, and merge both errors when neither decides. */
module Orchestrator {
  import opened Wrappers
  import opened Text
  import opened Results
  import opened Normalizer
  import opened Bootstrap
  import opened Rdap
  import opened Whois
  import opened UrlRequest

  const LOOKUP_FAILED_FALLBACK := "Domain lookup failed"

  /** Lines 259-263: each truthy error, tagged with where it came from. */
  function ErrorParts(rdap: CheckResult, whois: CheckResult): (parts: seq<string>)
    ensures |parts| <= 2
  {
    (if rdap.error.Some? && rdap.error.value != "" then ["RDAP: " + rdap.error.value] else [])
    + (if whois.error.Some? && whois.error.value != "" then ["WHOIS: " + whois.error.value] else [])
  }

  /** Line 269. */
  function MergedError(rdap: CheckResult, whois: CheckResult): (e: string)
    ensures e != ""
  {
    var parts := ErrorParts(rdap, whois);
    if parts != [] then
      assert |Join(parts, "; ")| >= |parts[0]| > 0;
      Join(parts, "; ")
    else LOOKUP_FAILED_FALLBACK
  }

  /** The specification of `check_domain_registration` for a given bootstrap
      outcome, RDAP network and WHOIS reply: invalid input is rejected with
      the normaliser's message; a valid name is rejected only when RDAP's
      `Request` refuses a server URL; and a returned record is resolved for
      the normalised name. */
  function Resolve(c: Codecs, value: string, boot: Result<BootstrapMap, string>, net: string -> Reply, whois: WhoisReply): (r: Outcome)
    ensures Normalize(c, value).Failure? ==> r == Rejected(Normalize(c, value).error)
    ensures Normalize(c, value).Success? ==> (r.Rejected? <==> RdapResult(boot, Normalize(c, value).value, net).Rejected?)
    ensures r.Returned? ==> Resolved(r.result, Normalize(c, value).value)
  {
    match Normalize(c, value)
    case Failure(e) => Rejected(e)
    case Success(domain) =>
      var outcome := RdapResult(boot, domain, net);
      if !outcome.Returned? then outcome
      else
        var rdap := outcome.result;
        if rdap.registered.Some? then outcome
        else
          var w := CheckWithWhois(domain, whois);
          if w.registered.Some? then Returned(w)
          else Returned(UnknownResult(domain, MergedError(rdap, w)))
  }

  /** Lines 249-270, with the shared bootstrap cache. It reports the
      endpoints RDAP requested and whether WHOIS was asked. */
  method CheckDomainRegistration(cache: BootstrapCache, c: Codecs, value: string, fetched: Fetch, net: string -> Reply, whois: WhoisReply)
    returns (r: Outcome, queried: seq<string>, whoisAsked: bool)
    requires cache.Valid()
    modifies cache
    ensures cache.Valid()
    ensures r == Resolve(c, value, Served(old(cache.cached), fetched), net, whois)
    ensures Normalize(c, value).Failure? ==> queried == [] && !whoisAsked && cache.cached == old(cache.cached)
    ensures Normalize(c, value).Success? ==> queried == RdapQueried(Served(old(cache.cached), fetched), Normalize(c, value).value, net)
    ensures whoisAsked <==> (Normalize(c, value).Success? &&
      var rdap := RdapResult(Served(old(cache.cached), fetched), Normalize(c, value).value, net);
      rdap.Returned? && rdap.result.registered.None?)
    ensures Normalize(c, value).Success? ==>
      cache.cached == if Served(old(cache.cached), fetched).Success? then Some(Served(old(cache.cached), fetched).value) else None
    ensures old(cache.cached).Some? ==> cache.cached == old(cache.cached)
  {
    var normalized := ExtractDomain(c, value);
    if normalized.Failure? {
      return Rejected(normalized.error), [], false;
    }
    var domain := normalized.value;
    var rdap;
    rdap, queried := CheckWithRdap(cache, fetched, domain, net);
    if !rdap.Returned? || rdap.result.registered.Some? {
      return rdap, queried, false;
    }
    whoisAsked := true;
    var w := CheckWithWhois(domain, whois);
    if w.registered.Some? {
      return Returned(w), queried, whoisAsked;
    }
    r := Returned(UnknownResult(domain, MergedError(rdap.result, w)));
  }

  /** A conclusive RDAP answer is final: WHOIS is not consulted, so its reply
      cannot change the result. */
  lemma RdapConclusionIsFinal(c: Codecs, value: string, boot: Result<BootstrapMap, string>, net: string -> Reply, w1: WhoisReply, w2: WhoisReply)
    requires Normalize(c, value).Success?
    requires var rdap := RdapResult(boot, Normalize(c, value).value, net); rdap.Returned? && rdap.result.registered.Some?
    ensures Resolve(c, value, boot, net, w1) == Resolve(c, value, boot, net, w2) == RdapResult(boot, Normalize(c, value).value, net)
  {
  }

  /** When RDAP is inconclusive, a conclusive WHOIS answer is the result. */
  lemma WhoisDecidesWhenRdapCannot(c: Codecs, value: string, boot: Result<BootstrapMap, string>, net: string -> Reply, whois: WhoisReply)
    requires Normalize(c, value).Success?
    requires var rdap := RdapResult(boot, Normalize(c, value).value, net); rdap.Returned? && rdap.result.registered.None?
    requires CheckWithWhois(Normalize(c, value).value, whois).registered.Some?
    ensures Resolve(c, value, boot, net, whois) == Returned(CheckWithWhois(Normalize(c, value).value, whois))
  {
  }

  /** Two non-empty errors are merged as "RDAP: …; WHOIS: …". */
  lemma MergedBoth(domain: string, rdapError: string, whoisError: string)
    requires rdapError != "" && whoisError != ""
    ensures MergedError(UnknownResult(domain, rdapError), UnknownResult(domain, whoisError)) == "RDAP: " + rdapError + "; WHOIS: " + whoisError
  {
    var a := "RDAP: " + rdapError;
    var b := "WHOIS: " + whoisError;
    assert ErrorParts(UnknownResult(domain, rdapError), UnknownResult(domain, whoisError)) == [a, b];
    assert Join([a, b], "; ") == a + "; " + Join([b], "; ");
    assert a + "; " + b == "RDAP: " + rdapError + "; WHOIS: " + whoisError;
  }

  /** When neither decides, the error names both failures, RDAP's first.
      (An inconclusive answer of either resolver is always an unknown record
      for the domain with a non-empty error.) */
  lemma NeitherDecides(c: Codecs, value: string, boot: Result<BootstrapMap, string>, net: string -> Reply, whois: WhoisReply,
                       domain: string, rdapError: string, whoisError: string)
    requires Normalize(c, value) == Success(domain)
    requires RdapResult(boot, domain, net) == Returned(UnknownResult(domain, rdapError))
    requires CheckWithWhois(domain, whois) == UnknownResult(domain, whoisError)
    ensures Resolve(c, value, boot, net, whois) == Returned(UnknownResult(domain, "RDAP: " + rdapError + "; WHOIS: " + whoisError))
  {
    assert rdapError != "" && whoisError != "";
    MergedBoth(domain, rdapError, whoisError);
  }

  /** Both resolvers always explain an unknown answer, so the fallback
      message "Domain lookup failed" is never produced. */
  lemma DomainLookupFailedUnreachable(c: Codecs, value: string, boot: Result<BootstrapMap, string>, net: string -> Reply, whois: WhoisReply)
    requires Resolve(c, value, boot, net, whois).Returned?
    ensures Resolve(c, value, boot, net, whois).result.error != Some(LOOKUP_FAILED_FALLBACK)
  {
    var domain := Normalize(c, value).value;
    var rdap := RdapResult(boot, domain, net).result;
    var w := CheckWithWhois(domain, whois);
    if rdap.registered.None? && w.registered.None? {
      NeitherDecides(c, value, boot, net, whois, domain, rdap.error.value, w.error.value);
      var e := "RDAP: " + rdap.error.value + "; WHOIS: " + w.error.value;
      assert e[0] == 'R' && LOOKUP_FAILED_FALLBACK[0] == 'D';
    }
  }

  /** Invalid input never reaches the network: the outcome is the same for
      every bootstrap, RDAP network and WHOIS reply. */
  lemma InvalidInputStaysLocal(c: Codecs, value: string, b1: Result<BootstrapMap, string>, b2: Result<BootstrapMap, string>,
                               n1: string -> Reply, n2: string -> Reply, w1: WhoisReply, w2: WhoisReply)
    requires Normalize(c, value).Failure?
    ensures Resolve(c, value, b1, n1, w1) == Resolve(c, value, b2, n2, w2) == Rejected(Normalize(c, value).error)
  {
  }

  /** A valid name is rejected only with RDAP's `ValueError`, which is the
      "unknown url type" refusal of a server URL. */
  lemma ValidNameRejectedByRequest(c: Codecs, value: string, boot: Result<BootstrapMap, string>, net: string -> Reply, whois: WhoisReply)
    requires Normalize(c, value).Success? && Resolve(c, value, boot, net, whois).Rejected?
    ensures Resolve(c, value, boot, net, whois) == RdapResult(boot, Normalize(c, value).value, net)
    ensures StartsWith(Resolve(c, value, boot, net, whois).message, UNKNOWN_URL_TYPE)
  {
  }

  /** A valid name without the newline `$` lets through goes out under
      `/domain/` as it is: `quote` changes none of its characters. */
  lemma NormalizedNameSentVerbatim(c: Codecs, value: string, base: string)
    requires Normalize(c, value).Success? && '\n' !in Normalize(c, value).value
    ensures Endpoint(base, Normalize(c, value).value) == RStrip(base, '/') + "/domain/" + Normalize(c, value).value
  {
    NormalizedSafe(c, value);
    EndpointOfSafeName(base, Normalize(c, value).value);
  }

  /** Every character of a returned name without a newline is one `quote`
      leaves alone. */
  lemma NormalizedSafe(c: Codecs, value: string)
    requires Normalize(c, value).Success? && '\n' !in Normalize(c, value).value
    ensures forall i :: 0 <= i < |Normalize(c, value).value| ==> IsQuoteSafe(Normalize(c, value).value[i])
  {
    NormalizedShape(c, value);
    FqdnChars(Normalize(c, value).value);
  }

  /** A bootstrap entry whose first server URL has no scheme makes a valid
      name fail with `ValueError`, before any RDAP request or WHOIS query,
      so the tool reports it as "invalid". */
  lemma SchemelessServerRejectsValidName(c: Codecs, value: string, boot: Result<BootstrapMap, string>, net: string -> Reply, whois: WhoisReply)
    requires Normalize(c, value).Success? && '\n' !in Normalize(c, value).value
    requires Servers(boot, Normalize(c, value).value) != []
    requires ':' !in Servers(boot, Normalize(c, value).value)[0]
    ensures Resolve(c, value, boot, net, whois).Rejected?
    ensures StartsWith(Resolve(c, value, boot, net, whois).message, UNKNOWN_URL_TYPE)
    ensures RdapQueried(boot, Normalize(c, value).value, net) == []
  {
    var name := Normalize(c, value).value;
    var urls := Servers(boot, name);
    NormalizedSafe(c, value);
    SchemelessServerRefused(urls[0], name, net);
    FirstServerRefused(boot, name, net);
  }
}
