/** `_check_with_rdap`: look the TLD up in the bootstrap map, then ask each of
    its RDAP servers in turn until one gives a conclusive answer. */
module Rdap {
  import opened Wrappers
  import opened Text
  import opened Json
  import opened Results
  import opened Bootstrap
  import opened UrlRequest

  /** What one request to an RDAP endpoint ends with: an `HTTPError` with its
      code, any other exception with its message (transport failures, time-outs
      and undecodable bodies alike), or a response with its status and the
      decoded body. */
  datatype Reply = HttpError(code: int) | QueryError(message: string) | Response(status: int, payload: Json)

  /** What one server means for the loop at lines 132-194: stop with this
      record, go on to the next server after recording an error, let an
      exception escape the whole check, or raise the `ValueError` of the
      `Request` built at lines 134-137, outside the `try`. */
  datatype Step = Conclude(result: CheckResult) | Continue(error: string) | Crash(message: string) | Refused(message: string)

  /** How a decoded RDAP object reads: says not found, shows a registration, or neither. */
  datatype Verdict = NotFound | Found | Inconclusive

  const LOOKUP_FAILED_MESSAGE := "RDAP lookup failed"

  /** Line 133: the base URL without trailing slashes, then `/domain/` and the quoted name. */
  function Endpoint(base: string, domain: string): (url: string)
    ensures StartsWith(url, RStrip(base, '/'))
  {
    RStrip(base, '/') + "/domain/" + Quote(domain)
  }

  /** A name made of characters `quote` leaves alone goes out as it is. */
  lemma EndpointOfSafeName(base: string, domain: string)
    requires forall i :: 0 <= i < |domain| ==> IsQuoteSafe(domain[i])
    ensures Endpoint(base, domain) == RStrip(base, '/') + "/domain/" + domain
  {
    QuoteSafe(domain);
  }

  function HttpErrorMessage(code: int, base: string): string
  {
    "RDAP HTTP " + IntToString(code) + " from " + base
  }

  function QueryErrorMessage(base: string, message: string): string
  {
    "RDAP query failed for " + base + ": " + message
  }

  function StatusMessage(status: int, base: string): string
  {
    "RDAP returned unexpected status " + IntToString(status) + " from " + base
  }

  function InconclusiveMessage(base: string): string
  {
    "RDAP response was inconclusive from " + base
  }

  /** `str(payload.get(key, "")).lower()`. */
  function Field(fields: seq<(string, Json)>, key: string): string
  {
    Lower(Str(GetOr(fields, key, JStr(""))))
  }

  /** Lines 174-178: a list of descriptions is joined with spaces, item by item lower-cased. */
  function DescriptionText(value: Json): string
  {
    if value.JArr? then Join(seq(|value.items|, i requires 0 <= i < |value.items| => Lower(Str(value.items[i]))), " ")
    else Lower(Str(value))
  }

  /** Lines 170-192 on a decoded object answered with status 200. An object
      that has none of the five fields the code reads says nothing, so it is
      inconclusive. */
  function Classify(fields: seq<(string, Json)>, domain: string): (v: Verdict)
    ensures domain != "" && Get(fields, "title") == None && Get(fields, "description") == None
      && Get(fields, "objectClassName") == None && Get(fields, "ldhName") == None && Get(fields, "handle") == None
      ==> v == Inconclusive
  {
    var title := Field(fields, "title");
    var description := DescriptionText(GetOr(fields, "description", JStr("")));
    if Contains(title, "not found") || Contains(description, "not found") then NotFound
    else if Field(fields, "objectClassName") == "domain" || Field(fields, "ldhName") == domain
      || Truthy(GetOr(fields, "handle", JNull)) then Found
    else Inconclusive
  }

  /** One pass of the loop body after the request was built, for the server
      `base` and its reply. Every error it records is non-empty and every
      record it stops with is conclusive. */
  function StepFor(base: string, domain: string, reply: Reply): (s: Step)
    ensures !s.Refused?
    ensures s.Continue? ==> s.error != ""
    ensures s.Conclude? ==> s.result.registered.Some? && Resolved(s.result, domain)
  {
    match reply
    case HttpError(code) =>
      if code == 404 then Conclude(UnregisteredResult(domain)) else Continue(HttpErrorMessage(code, base))
    case QueryError(message) => Continue(QueryErrorMessage(base, message))
    case Response(status, payload) =>
      if status == 404 then Conclude(UnregisteredResult(domain))
      else if status != 200 then Continue(StatusMessage(status, base))
      else if !payload.JObj? then Crash("'" + TypeName(payload) + "' object has no attribute 'get'")
      else match Classify(payload.fields, domain)
        case NotFound => Conclude(UnregisteredResult(domain))
        case Found => Conclude(RegisteredResult(domain))
        case Inconclusive => Continue(InconclusiveMessage(base))
  }

  /** The step taken at server `base`: the request for its endpoint is
      built first, and only when `build` accepts the URL is the network
      asked. `_check_with_rdap` builds with `UrlRequest.RequestError`. */
  function StepAt(base: string, domain: string, build: string -> Option<string>, net: string -> Reply): (s: Step)
    ensures s.Refused? <==> build(Endpoint(base, domain)).Some?
    ensures s.Refused? ==> s.message == build(Endpoint(base, domain)).value
  {
    var endpoint := Endpoint(base, domain);
    match build(endpoint)
    case Some(message) => Refused(message)
    case None => StepFor(base, domain, net(endpoint))
  }

  /** `last_error or "RDAP lookup failed"`. */
  function LastErrorOr(last: Option<string>): (e: string)
    ensures e != ""
  {
    if last.Some? && last.value != "" then last.value else LOOKUP_FAILED_MESSAGE
  }

  /** The loop over the servers still to ask with `last` the error recorded
      so far. A returned record is resolved, and a `ValueError` is always the
      refusal of the request for one of the servers. */
  function Walk(urls: seq<string>, domain: string, build: string -> Option<string>, net: string -> Reply, last: Option<string>): (r: Outcome)
    ensures r.Returned? ==> Resolved(r.result, domain)
    ensures r.Rejected? ==> exists i :: 0 <= i < |urls| && build(Endpoint(urls[i], domain)) == Some(r.message)
    decreases |urls|
  {
    if urls == [] then Returned(UnknownResult(domain, LastErrorOr(last)))
    else match StepAt(urls[0], domain, build, net)
      case Conclude(result) => Returned(result)
      case Crash(message) => Raised(message)
      case Refused(message) => Rejected(message)
      case Continue(error) =>
        var r := Walk(urls[1..], domain, build, net, Some(error));
        if r.Rejected? then
          var i :| 0 <= i < |urls[1..]| && build(Endpoint(urls[1..][i], domain)) == Some(r.message);
          assert urls[i + 1] == urls[1..][i];
          r
        else r
  }

  /** The endpoints the loop requests, in order: servers are asked one after
      the other, up to and including the first that does not say to go on;
      a refused request is never sent. */
  function Visited(urls: seq<string>, domain: string, build: string -> Option<string>, net: string -> Reply): (v: seq<string>)
    ensures |v| <= |urls|
    ensures urls != [] && !StepAt(urls[0], domain, build, net).Refused? ==> v != []
    decreases |urls|
  {
    if urls == [] || StepAt(urls[0], domain, build, net).Refused? then []
    else [Endpoint(urls[0], domain)] + (if StepAt(urls[0], domain, build, net).Continue? then Visited(urls[1..], domain, build, net) else [])
  }

  /** The `i`-th request goes to the endpoint of the `i`-th server listed. */
  lemma {:induction false} VisitedInOrder(urls: seq<string>, domain: string, build: string -> Option<string>, net: string -> Reply, i: nat)
    requires i < |Visited(urls, domain, build, net)|
    ensures i < |urls| && Visited(urls, domain, build, net)[i] == Endpoint(urls[i], domain)
    decreases i
  {
    if i > 0 {
      VisitedInOrder(urls[1..], domain, build, net, i - 1);
    }
  }

  /** The servers the bootstrap map lists for the domain's TLD, if any. */
  function Servers(boot: Result<BootstrapMap, string>, domain: string): seq<string>
  {
    var tld := AfterLast(domain, '.');
    if boot.Success? && tld in boot.value then boot.value[tld] else []
  }

  /** The specification of `_check_with_rdap` for a bootstrap outcome and a
      network. A returned record is resolved; the only `ValueError` is a
      refused request. */
  function RdapResult(boot: Result<BootstrapMap, string>, domain: string, net: string -> Reply): (r: Outcome)
    ensures r.Returned? ==> Resolved(r.result, domain)
    ensures r.Rejected? ==> StartsWith(r.message, UNKNOWN_URL_TYPE)
  {
    if boot.Failure? then Returned(UnknownResult(domain, "RDAP bootstrap failed: " + boot.error))
    else if Servers(boot, domain) == [] then Returned(UnknownResult(domain, "RDAP server is not available for ." + AfterLast(domain, '.')))
    else Walk(Servers(boot, domain), domain, RequestError, net, None)
  }

  /** The endpoints `_check_with_rdap` requests. */
  function RdapQueried(boot: Result<BootstrapMap, string>, domain: string, net: string -> Reply): seq<string>
  {
    Visited(Servers(boot, domain), domain, RequestError, net)
  }

  /** Lines 110-201 once the bootstrap outcome is known. */
  method RdapLookup(boot: Result<BootstrapMap, string>, domain: string, net: string -> Reply) returns (r: Outcome, queried: seq<string>)
    ensures r == RdapResult(boot, domain, net)
    ensures queried == RdapQueried(boot, domain, net)
  {
    var tld := AfterLast(domain, '.');
    if boot.Failure? {
      return Returned(UnknownResult(domain, "RDAP bootstrap failed: " + boot.error)), [];
    }
    if tld !in boot.value || boot.value[tld] == [] {
      return Returned(UnknownResult(domain, "RDAP server is not available for ." + tld)), [];
    }
    r, queried := AskServers(boot.value[tld], domain, RequestError, net);
  }

  /** Lines 131-201: the servers are asked in order, the last error is
      remembered, and the first conclusive reply ends the loop; the branches
      on each reply are those of lines 139-194. */
  method AskServers(urls: seq<string>, domain: string, build: string -> Option<string>, net: string -> Reply) returns (r: Outcome, queried: seq<string>)
    ensures r == Walk(urls, domain, build, net, None)
    ensures queried == Visited(urls, domain, build, net)
  {
    var lastError: Option<string> := None;
    queried := [];
    var i := 0;
    while i < |urls|
      invariant 0 <= i <= |urls|
      invariant Walk(urls, domain, build, net, None) == Walk(urls[i..], domain, build, net, lastError)
      invariant Visited(urls, domain, build, net) == queried + Visited(urls[i..], domain, build, net)
    {
      var base := urls[i];
      var endpoint := Endpoint(base, domain);
      var refused := build(endpoint);
      if refused.Some? {
        RefusedStep(urls, domain, build, net, lastError, queried, i);
        return Rejected(refused.value), queried;
      }
      SentStep(urls, domain, build, net, lastError, queried, i);
      queried := queried + [endpoint];
      match net(endpoint) {
        case HttpError(code) =>
          if code == 404 {
            return Returned(UnregisteredResult(domain)), queried;
          }
          lastError := Some(HttpErrorMessage(code, base));
        case QueryError(message) =>
          lastError := Some(QueryErrorMessage(base, message));
        case Response(status, payload) =>
          if status == 404 {
            return Returned(UnregisteredResult(domain)), queried;
          }
          if status != 200 {
            lastError := Some(StatusMessage(status, base));
          } else if !payload.JObj? {
            return Raised("'" + TypeName(payload) + "' object has no attribute 'get'"), queried;
          } else {
            var verdict := Classify(payload.fields, domain);
            if verdict == NotFound {
              return Returned(UnregisteredResult(domain)), queried;
            }
            if verdict == Found {
              return Returned(RegisteredResult(domain)), queried;
            }
            lastError := Some(InconclusiveMessage(base));
          }
      }
      i := i + 1;
    }
    return Returned(UnknownResult(domain, LastErrorOr(lastError))), queried;
  }

  /** The turn at position `i` when the request for server `i` is refused:
      the walk raises that `ValueError` and nothing more is requested. */
  lemma RefusedStep(urls: seq<string>, domain: string, build: string -> Option<string>, net: string -> Reply,
                    last: Option<string>, queried: seq<string>, i: nat)
    requires i < |urls| && build(Endpoint(urls[i], domain)).Some?
    requires Visited(urls, domain, build, net) == queried + Visited(urls[i..], domain, build, net)
    ensures Walk(urls[i..], domain, build, net, last) == Rejected(build(Endpoint(urls[i], domain)).value)
    ensures Visited(urls, domain, build, net) == queried
  {
    assert urls[i..][0] == urls[i];
  }

  /** The turn at position `i` when the request for server `i` is built:
      the walk goes on as the reply to that endpoint says, and the endpoint
      is the next one requested. */
  lemma SentStep(urls: seq<string>, domain: string, build: string -> Option<string>, net: string -> Reply,
                 last: Option<string>, queried: seq<string>, i: nat)
    requires i < |urls| && build(Endpoint(urls[i], domain)).None?
    requires Visited(urls, domain, build, net) == queried + Visited(urls[i..], domain, build, net)
    ensures Walk(urls[i..], domain, build, net, last) ==
      match StepFor(urls[i], domain, net(Endpoint(urls[i], domain)))
      case Conclude(result) => Returned(result)
      case Crash(message) => Raised(message)
      case Refused(message) => Rejected(message)
      case Continue(error) => Walk(urls[i + 1..], domain, build, net, Some(error))
    ensures Visited(urls, domain, build, net) ==
      (queried + [Endpoint(urls[i], domain)])
      + (if StepFor(urls[i], domain, net(Endpoint(urls[i], domain))).Continue? then Visited(urls[i + 1..], domain, build, net) else [])
  {
    assert urls[i..][0] == urls[i];
    assert urls[i..][1..] == urls[i + 1..];
  }

  /** `_check_with_rdap` with the memoised bootstrap: the cache is consulted
      first, and filled when it was empty and the fetch succeeds. */
  method CheckWithRdap(cache: BootstrapCache, fetched: Fetch, domain: string, net: string -> Reply)
    returns (r: Outcome, queried: seq<string>)
    requires cache.Valid()
    modifies cache
    ensures cache.Valid()
    ensures r == RdapResult(Served(old(cache.cached), fetched), domain, net)
    ensures queried == RdapQueried(Served(old(cache.cached), fetched), domain, net)
    ensures cache.cached == if Served(old(cache.cached), fetched).Success? then Some(Served(old(cache.cached), fetched).value) else None
    ensures old(cache.cached).Some? ==> cache.cached == old(cache.cached)
  {
    var boot, fetchedNow := cache.Get(fetched);
    r, queried := RdapLookup(boot, domain, net);
  }

  /** The first server whose reply concludes decides: the servers before it
      all said to go on, it is the last one asked, and its record is the
      result. */
  lemma {:induction false} FirstConclusionDecides(urls: seq<string>, domain: string, build: string -> Option<string>, net: string -> Reply, last: Option<string>, k: nat)
    requires k < |urls|
    requires forall j :: 0 <= j < k ==> StepAt(urls[j], domain, build, net).Continue?
    requires StepAt(urls[k], domain, build, net).Conclude?
    ensures Walk(urls, domain, build, net, last) == Returned(StepAt(urls[k], domain, build, net).result)
    ensures |Visited(urls, domain, build, net)| == k + 1
    decreases k
  {
    if k == 0 {
      WalkConclude(urls, domain, build, net, last);
    } else {
      var rest := urls[1..];
      ContinueOnce(urls, domain, build, net, last);
      forall j | 0 <= j < k - 1
        ensures StepAt(rest[j], domain, build, net).Continue?
      {
        assert rest[j] == urls[j + 1];
      }
      assert rest[k - 1] == urls[k];
      FirstConclusionDecides(rest, domain, build, net, Some(StepAt(urls[0], domain, build, net).error), k - 1);
    }
  }

  /** When every server says to go on, all are asked and the result is
      unknown with the error recorded for the last of them. */
  lemma {:induction false} ExhaustedReportsLastError(urls: seq<string>, domain: string, build: string -> Option<string>, net: string -> Reply, last: Option<string>)
    requires urls != []
    requires forall j :: 0 <= j < |urls| ==> StepAt(urls[j], domain, build, net).Continue?
    ensures Walk(urls, domain, build, net, last) == Returned(UnknownResult(domain, StepAt(urls[|urls| - 1], domain, build, net).error))
    ensures |Visited(urls, domain, build, net)| == |urls|
    decreases |urls|
  {
    var rest := urls[1..];
    ContinueOnce(urls, domain, build, net, last);
    if |urls| > 1 {
      assert forall j :: 0 <= j < |rest| ==> rest[j] == urls[j + 1];
      ExhaustedReportsLastError(rest, domain, build, net, Some(StepAt(urls[0], domain, build, net).error));
      assert rest[|rest| - 1] == urls[|urls| - 1];
    } else {
      assert rest == [];
    }
  }

  /** A server that says to go on passes its error to the rest of the walk. */
  lemma ContinueOnce(urls: seq<string>, domain: string, build: string -> Option<string>, net: string -> Reply, last: Option<string>)
    requires urls != [] && StepAt(urls[0], domain, build, net).Continue?
    ensures Walk(urls, domain, build, net, last) == Walk(urls[1..], domain, build, net, Some(StepAt(urls[0], domain, build, net).error))
    ensures |Visited(urls, domain, build, net)| == 1 + |Visited(urls[1..], domain, build, net)|
    ensures urls[1..] == [] ==>
      Walk(urls[1..], domain, build, net, Some(StepAt(urls[0], domain, build, net).error)) == Returned(UnknownResult(domain, StepAt(urls[0], domain, build, net).error))
  {
  }

  /** A server that concludes ends the walk with its record. */
  lemma WalkConclude(urls: seq<string>, domain: string, build: string -> Option<string>, net: string -> Reply, last: Option<string>)
    requires urls != [] && StepAt(urls[0], domain, build, net).Conclude?
    ensures Walk(urls, domain, build, net, last) == Returned(StepAt(urls[0], domain, build, net).result)
    ensures |Visited(urls, domain, build, net)| == 1
  {
  }

  /** No endpoint is requested exactly when the bootstrap failed, lists no
      server for the TLD, or lists first a server whose endpoint `Request`
      refuses; otherwise the first request goes to the first server listed. */
  lemma NoQueryWithoutServer(boot: Result<BootstrapMap, string>, domain: string, net: string -> Reply)
    ensures RdapQueried(boot, domain, net) == [] <==>
      Servers(boot, domain) == [] || RequestError(Endpoint(Servers(boot, domain)[0], domain)).Some?
    ensures RdapQueried(boot, domain, net) != [] ==>
      RdapQueried(boot, domain, net)[0] == Endpoint(Servers(boot, domain)[0], domain)
  {
  }

  /** Lines 112-120: a failed bootstrap gives an unknown record with the
      bootstrap's message, and no server is asked. */
  lemma BootstrapFailureIsUnknown(boot: Result<BootstrapMap, string>, domain: string, net: string -> Reply)
    requires boot.Failure?
    ensures RdapResult(boot, domain, net) == Returned(UnknownResult(domain, "RDAP bootstrap failed: " + boot.error))
    ensures RdapQueried(boot, domain, net) == []
  {
  }

  /** Lines 122-129: a TLD the bootstrap map does not list, or lists with no
      server, gives an unknown record naming the TLD, and no server is asked. */
  lemma NoServerIsUnknown(boot: Result<BootstrapMap, string>, domain: string, net: string -> Reply)
    requires boot.Success?
    requires var tld := AfterLast(domain, '.'); tld !in boot.value || boot.value[tld] == []
    ensures RdapResult(boot, domain, net) == Returned(UnknownResult(domain, "RDAP server is not available for ." + AfterLast(domain, '.')))
    ensures RdapQueried(boot, domain, net) == []
  {
  }

  /** The first server whose request is refused ends the walk with that
      `ValueError`, after the servers before it all said to go on; the
      refused endpoint is not requested. */
  lemma {:induction false} FirstRefusalRejects(urls: seq<string>, domain: string, build: string -> Option<string>, net: string -> Reply, last: Option<string>, k: nat)
    requires k < |urls|
    requires forall j :: 0 <= j < k ==> StepAt(urls[j], domain, build, net).Continue?
    requires build(Endpoint(urls[k], domain)).Some?
    ensures Walk(urls, domain, build, net, last) == Rejected(build(Endpoint(urls[k], domain)).value)
    ensures |Visited(urls, domain, build, net)| == k
    decreases k
  {
    if k > 0 {
      var rest := urls[1..];
      ContinueOnce(urls, domain, build, net, last);
      forall j | 0 <= j < k - 1
        ensures StepAt(rest[j], domain, build, net).Continue?
      {
        assert rest[j] == urls[j + 1];
      }
      assert rest[k - 1] == urls[k];
      FirstRefusalRejects(rest, domain, build, net, Some(StepAt(urls[0], domain, build, net).error), k - 1);
    }
  }

  /** A first listed server whose request is refused makes the RDAP answer
      that `ValueError`, with nothing requested. */
  lemma FirstServerRefused(boot: Result<BootstrapMap, string>, domain: string, net: string -> Reply)
    requires Servers(boot, domain) != [] && RequestError(Endpoint(Servers(boot, domain)[0], domain)).Some?
    ensures RdapResult(boot, domain, net) == Rejected(RequestError(Endpoint(Servers(boot, domain)[0], domain)).value)
    ensures RdapQueried(boot, domain, net) == []
  {
    FirstRefusalRejects(Servers(boot, domain), domain, RequestError, net, None, 0);
  }

  /** When every request is built, the walk never raises `ValueError`. */
  lemma {:induction false} BuiltRequestsNeverReject(urls: seq<string>, domain: string, build: string -> Option<string>, net: string -> Reply, last: Option<string>)
    requires forall i :: 0 <= i < |urls| ==> build(Endpoint(urls[i], domain)).None?
    ensures !Walk(urls, domain, build, net, last).Rejected?
    decreases |urls|
  {
    if urls != [] && StepAt(urls[0], domain, build, net).Continue? {
      assert forall i :: 0 <= i < |urls[1..]| ==> urls[1..][i] == urls[i + 1];
      BuiltRequestsNeverReject(urls[1..], domain, build, net, Some(StepAt(urls[0], domain, build, net).error));
    }
  }

  /** A server URL without any `:` has no scheme, so for a name `quote`
      leaves alone the request for it is refused before anything is sent. */
  lemma SchemelessServerRefused(base: string, domain: string, net: string -> Reply)
    requires ':' !in base
    requires forall i :: 0 <= i < |domain| ==> IsQuoteSafe(domain[i])
    ensures StepAt(base, domain, RequestError, net).Refused?
  {
    EndpointOfSafeName(base, domain);
    var stem := RStrip(base, '/');
    assert forall i :: 0 <= i < |stem| ==> stem[i] == base[i];
    var url := stem + "/domain/" + domain;
    assert forall i :: 0 <= i < |url| ==> url[i] != ':' by {
      forall i | 0 <= i < |url|
        ensures url[i] != ':'
      {
        if i >= |stem| + 8 {
          assert url[i] == domain[i - |stem| - 8];
        }
      }
    }
    NoColonRefused(url);
  }

  /** A server URL that starts with a lower-case scheme such as `https:` is
      accepted, so for a name `quote` leaves alone the network is asked. */
  lemma SchemeServerAccepted(base: string, domain: string, net: string -> Reply, k: nat)
    requires 0 < k < |base| && base[k] == ':' && forall j :: 0 <= j < k ==> 'a' <= base[j] <= 'z'
    requires forall i :: 0 <= i < |domain| ==> IsQuoteSafe(domain[i])
    ensures StepAt(base, domain, RequestError, net) == StepFor(base, domain, net(Endpoint(base, domain)))
  {
    EndpointOfSafeName(base, domain);
    var stem := RStrip(base, '/');
    assert |stem| > k;
    var url := stem + "/domain/" + domain;
    assert url[k] == ':' && forall j :: 0 <= j < k ==> url[j] == base[j];
    assert !IsSpace(url[|url| - 1]) by {
      if domain != [] {
        assert url[|url| - 1] == domain[|domain| - 1];
      }
    }
    LowerSchemeAccepted(url, k);
  }

  /** A title or description that says "not found", in any letter case,
      makes the server's answer "unregistered", whatever else the object
      says about a registration. */
  lemma NotFoundTitleWins(fields: seq<(string, Json)>, domain: string, pre: string, phrase: string, post: string)
    requires Get(fields, "title") == Some(JStr(pre + phrase + post))
    requires Lower(phrase) == "not found"
    ensures Classify(fields, domain) == NotFound
  {
    LowerConcat(pre, phrase);
    LowerConcat(pre + phrase, post);
    var t := Lower(pre + phrase + post);
    assert t[|pre|..][..|phrase|] == Lower(phrase);
    ContainsAt(t, "not found", |pre|);
  }

  /** The same for one item of a description list. */
  lemma DescriptionItemWins(fields: seq<(string, Json)>, domain: string, items: seq<Json>, k: nat)
    requires Get(fields, "description") == Some(JArr(items))
    requires k < |items| && Contains(Lower(Str(items[k])), "not found")
    ensures Classify(fields, domain) == NotFound
  {
    var parts := seq(|items|, i requires 0 <= i < |items| => Lower(Str(items[i])));
    assert DescriptionText(JArr(items)) == Join(parts, " ");
    JoinKeepsParts(parts, " ", k, "not found");
  }

  /** The same for a description given as a single string. */
  lemma DescriptionTextWins(fields: seq<(string, Json)>, domain: string, pre: string, phrase: string, post: string)
    requires Get(fields, "description") == Some(JStr(pre + phrase + post))
    requires Lower(phrase) == "not found"
    ensures Classify(fields, domain) == NotFound
  {
    LowerConcat(pre, phrase);
    LowerConcat(pre + phrase, post);
    var t := Lower(pre + phrase + post);
    assert t[|pre|..][..|phrase|] == Lower(phrase);
    ContainsAt(t, "not found", |pre|);
  }

  /** Lines 172-178: the title or the description text says "not found". */
  predicate SaysNotFound(fields: seq<(string, Json)>)
  {
    Contains(Field(fields, "title"), "not found") || Contains(DescriptionText(GetOr(fields, "description", JStr(""))), "not found")
  }

  /** Line 187 read on the fields that are present: the object is of class
      "domain", echoes the queried name, or has a truthy `handle`. */
  predicate ClaimsDomain(fields: seq<(string, Json)>, domain: string)
  {
    || (Get(fields, "objectClassName").Some? && Lower(Str(Get(fields, "objectClassName").value)) == "domain")
    || (Get(fields, "ldhName").Some? && Lower(Str(Get(fields, "ldhName").value)) == domain)
    || (Get(fields, "handle").Some? && Truthy(Get(fields, "handle").value))
  }

  /** The three verdicts exactly: "not found" text wins; otherwise a
      registration signal makes the object conclusive; without either it is
      inconclusive. The queried name is non-empty, as every normalised name is. */
  lemma ClassifyCases(fields: seq<(string, Json)>, domain: string)
    requires domain != ""
    ensures Classify(fields, domain) == NotFound <==> SaysNotFound(fields)
    ensures Classify(fields, domain) == Found <==> !SaysNotFound(fields) && ClaimsDomain(fields, domain)
    ensures Classify(fields, domain) == Inconclusive <==> !SaysNotFound(fields) && !ClaimsDomain(fields, domain)
  {
    assert Str(JStr("")) == "";
    assert Lower("") == "";
  }

  /** An object of class "domain" (any letter case) that says nothing about
      "not found" records a registration, whatever else it carries. */
  lemma DomainObjectIsRegistered(fields: seq<(string, Json)>, domain: string, cls: Json)
    requires !SaysNotFound(fields)
    requires Get(fields, "objectClassName") == Some(cls) && Lower(Str(cls)) == "domain"
    ensures Classify(fields, domain) == Found
  {
  }

  /** So does an object that echoes the queried name as its `ldhName`. */
  lemma EchoedNameIsRegistered(fields: seq<(string, Json)>, domain: string, name: Json)
    requires !SaysNotFound(fields)
    requires Get(fields, "ldhName") == Some(name) && Lower(Str(name)) == domain
    ensures Classify(fields, domain) == Found
  {
  }

  /** So does an object with a truthy `handle`, of any type. */
  lemma HandleIsRegistered(fields: seq<(string, Json)>, domain: string, handle: Json)
    requires !SaysNotFound(fields)
    requires Get(fields, "handle") == Some(handle) && Truthy(handle)
    ensures Classify(fields, domain) == Found
  {
  }

  /** A 404, whether raised as `HTTPError` or returned as a status, ends the
      lookup with "unregistered" at that server. */
  /** Which replies end the walk and which try the next server (lines
      139-194): a network or decode error, an HTTP error other than 404, a
      status other than 200 and 404, and an inconclusive object all go on
      with their message; a 200 body that is not an object raises
      `AttributeError`; a 200 object with a verdict concludes with it. */
  lemma ReplyCases(base: string, domain: string, reply: Reply)
    ensures reply.QueryError? ==> StepFor(base, domain, reply) == Continue(QueryErrorMessage(base, reply.message))
    ensures reply.HttpError? && reply.code != 404 ==> StepFor(base, domain, reply) == Continue(HttpErrorMessage(reply.code, base))
    ensures reply.Response? && reply.status != 404 && reply.status != 200 ==>
      StepFor(base, domain, reply) == Continue(StatusMessage(reply.status, base))
    ensures reply.Response? && reply.status == 200 && !reply.payload.JObj? ==>
      StepFor(base, domain, reply) == Crash("'" + TypeName(reply.payload) + "' object has no attribute 'get'")
    ensures reply.Response? && reply.status == 200 && reply.payload.JObj? ==>
      StepFor(base, domain, reply) ==
        match Classify(reply.payload.fields, domain)
        case NotFound => Conclude(UnregisteredResult(domain))
        case Found => Conclude(RegisteredResult(domain))
        case Inconclusive => Continue(InconclusiveMessage(base))
    ensures StepFor(base, domain, reply).Continue? <==>
      reply.QueryError? || (reply.HttpError? && reply.code != 404)
      || (reply.Response? && reply.status != 404 && reply.status != 200)
      || (reply.Response? && reply.status == 200 && reply.payload.JObj? && Classify(reply.payload.fields, domain) == Inconclusive)
  {
  }

  lemma NotFoundStatusIsTerminal(base: string, domain: string, reply: Reply)
    requires reply == HttpError(404) || (reply.Response? && reply.status == 404)
    ensures StepFor(base, domain, reply) == Conclude(UnregisteredResult(domain))
  {
  }
}
