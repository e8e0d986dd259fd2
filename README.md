# Domain registration checker

A Dafny model of the core of a small service that answers one question:
is this domain name registered? Given raw user input, `check_domain_registration`
does four things:

1. It normalises the input to a lower-case ASCII name.
2. It asks the RDAP servers that the IANA bootstrap registry lists for the
   name's TLD (RFC 9224), one after the other.
3. It falls back to a WHOIS query when RDAP cannot decide.
4. It merges both errors when neither resolver decides.

The tool layer (`app/mcp_server.py`) turns each answer into a payload. It
turns invalid input into an `invalid` payload. It bounds a batch to 1..200
names and answers them in input order.

The model is split into modules:

- `Wrappers`: `Option` and `Result`.
- `Text`: the Python string operations the code uses, written out. These
  are `strip()` with Python's whitespace set, `rstrip(ch)`, ASCII
  `lower()`, `split`, `rsplit(".", 1)[-1]`, `join`, `in` on strings,
  `int` to `str`, `repr` of a `str`, and `urllib.parse.quote` with its
  default safe set.
- `Json`: decoded JSON values and the Python built-ins applied to them.
  These are truthiness, `str()`, the type names in error messages, and
  `dict.get`.
- `Results`: the `DomainCheckResult` record and its tri-state invariant.
  `registered` is true exactly for `registered` and false exactly for
  `unregistered`. It is absent exactly for `unknown` and `invalid`. An
  error appears only with those two statuses. The module also declares
  `Outcome`, which says how a call ends: with a record, with a
  `ValueError`, or with another escaping exception.
- `UrlRequest`: the URL check that `urllib.request.Request` makes when it is
  built: `unwrap`, the split at the last `#`, and the scheme pattern of
  `_splittype`, with the `unknown url type` message.
- `Normalizer`: `_extract_domain`. `ExtractDomain` is an imperative method
  proved equal to the specification function `Normalize`. It hands the
  encoded name to `CheckAscii`, which is proved equal to `Validate`. The
  label loop `CheckLabels` accepts exactly when every label passes both
  checks. Lemmas state:
  - the shape of every returned name;
  - that the normaliser is complete on names in the output format;
  - idempotence;
  - that letter case and trailing dots do not matter;
  - that URLs are reduced to their host;
  - each error path.
- `Bootstrap`: `_rdap_bootstrap`.
  - The parse loop is a method proved equal to a fold over the service
    entries. Lemmas say which TLDs become keys and what they map to: a
    later entry overwrites an earlier one.
  - `lru_cache(maxsize=1)` is the class `BootstrapCache`. Its `cached`
    field is filled only by a successful fetch and never changes
    afterwards.
- `Rdap`: `_check_with_rdap`.
  - `AskServers` is the server loop, with the branches on each reply in its
    body. It is proved against the recursive specification `Walk` and the
    list `Visited` of endpoints it requests. `StepFor` says what one reply
    makes the loop do.
  - Each server's request is built before the network is asked. The walk
    takes the builder as a parameter `build`, and `RdapResult` fixes it to
    `UrlRequest.RequestError`.
  - `CheckWithRdap` consults the shared cache.
  - Lemmas state:
    - the first conclusive server decides;
    - an exhausted list reports the last server's error;
    - a 404 is terminal;
    - which object fields make a response conclusive.
- `Whois`: `_check_with_whois` and `_looks_unregistered`.
- `Orchestrator`: `check_domain_registration`. `CheckDomainRegistration`
  is a method that threads the cache and is proved against the function
  `Resolve`. Lemmas state:
  - a conclusive RDAP answer short-circuits WHOIS;
  - WHOIS decides when RDAP cannot;
  - the merged error is `RDAP: …; WHOIS: …`;
  - the generic message is never produced;
  - invalid input never reaches the network.
- `Adapter`: `_result_to_payload`, `_check_to_payload` and the batch tool.

The network is modelled as values passed in:

- `Fetch` is what the bootstrap download produced.
- `net: string -> Reply` is the reply of each RDAP endpoint URL.
- `WhoisReply` is what `whois.whois` ended with.
- The two library calls of the normaliser are the datatype `Codecs`:
  - `urlparse(url).hostname`, which may raise `ValueError`;
  - the `idna` codec, which may raise `UnicodeError`.

  Their behaviour is known only through the stated assumption `KeepsFqdns`.
  It says that both calls leave a name already in the output format
  unchanged.

Notes on the code as written, where it behaves differently from what its
names and messages suggest:

- Line 38 uses `rstrip(".")`, which removes every trailing dot, not just one
  (`Normalizer.CaseAndTrailingDots`).
- A URL without a host is not rejected at lines 44-45: `parsed.hostname or
  raw` falls back to the prepared input, which the later TLD and label checks
  then judge. The candidate is therefore never empty, and the
  `Invalid domain` raise at lines 44-45 cannot happen
  (`Normalizer.Candidate`).
- `DOMAIN_LABEL_RE.match` uses `$`. In Python, `$` also matches just before
  one trailing newline, so a label `"ab\n"` passes the label pattern
  (`Normalizer.MatchesLabelRe`).
- The RDAP resolver can raise after all. A 200 response whose body is not
  a JSON object raises `AttributeError` at `payload.get` on line 170, which
  is outside the `try`. That exception escapes `check_domain_registration`,
  and `_check_to_payload` catches only `ValueError`, so it escapes the tool
  too (`Rdap.ReplyCases`, `Adapter.CheckToPayload`). A batch therefore stops
  at the first such domain. Failures of one domain are not isolated from
  the others (`Adapter.BatchPayloads`).
- The RDAP resolver raises `ValueError` for a server URL without a scheme.
  `Request(endpoint, ...)` at lines 134-137 is built outside the `try` of
  line 139, and it raises `unknown url type` when the URL names no scheme.
  The bootstrap parser keeps any non-empty string as a URL. So a bootstrap
  entry such as `"rdap.example/"` makes a valid name fail with that
  `ValueError`, before anything is requested and without a WHOIS fallback,
  and the tool then reports the name as `invalid`
  (`Orchestrator.SchemelessServerRejectsValidName`).
- A WHOIS `domain_name` claims the domain when it, or one item of its list,
  is truthy in Python's sense, not only when it is a non-empty string.
- The messages `RDAP lookup failed` (line 200) and `Domain lookup failed`
  (line 269) cannot be produced. The first is covered by
  `Rdap.ExhaustedReportsLastError`, the second by
  `Orchestrator.DomainLookupFailedUnreachable`.

## Model

| member | source | states |
|---|---|---|
| Text.TrimStart | app/domain_checker.py:38 | the result is a suffix of the input, the removed prefix is all Python whitespace, and the result does not start with whitespace |
| Text.TrimEnd | app/domain_checker.py:38 | the result is a prefix of the input, the removed suffix is all Python whitespace, and the result does not end with whitespace |
| Text.RStrip | app/domain_checker.py:38 | `rstrip(ch)` removes a suffix made only of `ch` and leaves a string that does not end with `ch` |
| Text.Lower | app/domain_checker.py:38 | lower-casing keeps the length and maps every character by itself |
| Text.Split | app/domain_checker.py:52 | `split(sep)` gives at least one part, no part holds the separator, and joining the parts gives back the input |
| Text.AfterLast | app/domain_checker.py:110 | `rsplit(".", 1)[-1]` is the whole name when it has no dot, and otherwise the dot-free suffix that follows the last dot |
| Text.QuoteSafe | app/domain_checker.py:133 | `quote` leaves letters, digits, `_.-~` and `/` unchanged |
| Text.Repr | app/domain_checker.py:134-137 | `repr` of a string is quoted at both ends with the quote Python picks |
| Text.ReprPlain | app/domain_checker.py:134-137 | printable ASCII without quotes or backslashes is shown between single quotes as it is |
| Json.Get | app/domain_checker.py:170-174 | `dict.get` finds a value exactly when the key is present, and then it is the value of the first entry with that key |
| UrlRequest.TagPath | app/domain_checker.py:134-137 | the URL `Request` parses is the text before the last `#`, or all of it |
| UrlRequest.LeadRun | app/domain_checker.py:134-137 | the scheme candidate is the longest leading run without `/` or `:` |
| UrlRequest.HasUrlTypeIff | app/domain_checker.py:134-137 | the scheme test holds exactly when a non-empty prefix free of `/` and `:` is followed by `:`, which is the pattern `([^/:]+):(.*)` of `_splittype` |
| UrlRequest.RequestError | app/domain_checker.py:134-137 | a refused URL gets a message that starts with "unknown url type: " |
| UrlRequest.NoColonRefused | app/domain_checker.py:134-137 | a URL without `:` is refused |
| UrlRequest.LowerSchemeAccepted | app/domain_checker.py:134-137 | a URL that starts with a lower-case scheme and `:` and does not end with whitespace is accepted |
| Normalizer.Candidate | app/domain_checker.py:42-45 | the candidate of non-empty input is never empty, so the raise at lines 44-45 cannot happen |
| Normalizer.Normalize | app/domain_checker.py:37-65 | the specification of `_extract_domain`; its properties are the contracts of `ExtractDomain`, `NormalizeOutcome`, `NormalizedShape`, `NormalizeFqdn`, `NormalizeIdempotent` and `CaseAndTrailingDots` |
| Normalizer.NormalizeOutcome | app/domain_checker.py:37-65 | a returned name has a dot and at most 253 characters, and a refusal carries "Domain is empty", "Invalid domain", "Domain must contain a TLD" or the message of `urlparse`'s own `ValueError` |
| Normalizer.Validate | app/domain_checker.py:52-65 | an accepted encoded name is returned unchanged with at most 253 characters, and every refusal is "Domain must contain a TLD" or "Invalid domain" |
| Normalizer.NoTldExactlyWithoutDot | app/domain_checker.py:52-54 | an encoded name is refused for lacking a TLD exactly when it has no dot |
| Normalizer.ExtractDomain | app/domain_checker.py:37-65 | the procedure, with its early raises, returns exactly what `Normalize` specifies: the name, or the message of the `ValueError` |
| Normalizer.CheckAscii | app/domain_checker.py:52-65 | the checks on the encoded name: at least two labels, every label accepted, at most 253 characters |
| Normalizer.CheckLabels | app/domain_checker.py:56-60 | the loop accepts exactly when every label matches the label pattern and neither starts nor ends with `-` |
| Normalizer.NormalizedShape | app/domain_checker.py:37-65 | a returned name has at least two labels, each accepted by the label checks, at most 253 characters, and is in the output format when it holds no newline |
| Normalizer.ValidatedShape | app/domain_checker.py:52-65 | the same for the checks on the encoded name, which return that name unchanged |
| Normalizer.NormalizeIdempotent | app/domain_checker.py:37-65 | normalising a returned name again gives the same name |
| Normalizer.NormalizeFqdn | app/domain_checker.py:37-65 | every name in the output format is accepted and returned unchanged |
| Normalizer.ValidateFqdn | app/domain_checker.py:52-65 | the encoded-name checks accept every name in the output format |
| Normalizer.PrepareFqdn | app/domain_checker.py:38 | trimming, dot stripping and lower-casing leave a name in the output format unchanged |
| Normalizer.PrepareUnchanged | app/domain_checker.py:38 | line 38 changes nothing in a string with no whitespace or dot at its ends and no upper-case letter |
| Normalizer.NoSpaceAtEnds | app/domain_checker.py:38 | `strip()` leaves a string with no whitespace at either end unchanged |
| Normalizer.RStripDots | app/domain_checker.py:38 | `rstrip(".")` removes a whole run of trailing dots, not just one |
| Normalizer.PreparedSpelling | app/domain_checker.py:38 | any letter-case spelling of an output-format name, followed by dots, becomes that name at line 38 |
| Normalizer.SpellingEnds | app/domain_checker.py:38 | a spelling of an output-format name has no whitespace at either end and no trailing dot, so line 38 only lower-cases it |
| Normalizer.SamePrepared | app/domain_checker.py:38-65 | the result depends on the input only through line 38 |
| Normalizer.CaseAndTrailingDots | app/domain_checker.py:37-65 | any letter-case spelling of an output-format name, followed by any number of dots, normalises to that name |
| Normalizer.PreparedToFqdn | app/domain_checker.py:38-65 | an input that line 38 turns into a name in the output format normalises to that name |
| Normalizer.EmptyMessage | app/domain_checker.py:38-42 | input that is empty after line 38 raises "Domain is empty", and no other input does unless `urlparse` itself raised that message |
| Normalizer.NoColonNoScheme | app/domain_checker.py:42 | input without a colon is never treated as a URL |
| Normalizer.NoSchemeInFqdn | app/domain_checker.py:42 | a name in the output format is never treated as a URL |
| Normalizer.HostOnly | app/domain_checker.py:42-43 | input without a colon is parsed as `//` plus itself, and that host is the candidate |
| Normalizer.UrlReducedToHost | app/domain_checker.py:42-65 | input with a scheme separator normalises to its host when that host is in the output format |
| Normalizer.NormalizeVia | app/domain_checker.py:38-52 | once the candidate is encoded, the outcome is decided by the checks of lines 52-65 alone |
| Normalizer.SingleLabelHasNoTld | app/domain_checker.py:52-54 | an encoded name without a dot raises "Domain must contain a TLD" |
| Normalizer.FirstLabelRefused | app/domain_checker.py:56-60 | a refused first label makes a two-label name "Invalid domain" |
| Normalizer.ForeignCharRefused | app/domain_checker.py:15 | a label with a character outside `a-z0-9-` (other than the one admitted trailing newline) does not pass the label checks |
| Normalizer.ForeignCharInvalid | app/domain_checker.py:52-58 | such a label among two or more makes the name "Invalid domain" |
| Normalizer.TwoLabels | app/domain_checker.py:52-65 | two valid labels joined by a dot, short enough, form a name in the output format |
| Bootstrap.ServiceUrls | app/domain_checker.py:98 | the kept URLs are non-empty and are exactly the non-empty strings of the list |
| Bootstrap.ServiceUrlsConcat | app/domain_checker.py:98 | the kept URLs keep list order and repeats: those of a concatenation are those of each piece, one after the other, which is the order the servers are tried in |
| Bootstrap.ServiceUrlsSingle | app/domain_checker.py:98 | a single item is kept exactly when it is a non-empty string |
| Bootstrap.Entry | app/domain_checker.py:91-100 | an entry that is used has a non-empty URL list |
| Bootstrap.ServicesMap | app/domain_checker.py:89-106 | the mapping built from the entries maps every TLD to a non-empty list of non-empty URLs |
| Bootstrap.AddTldsWellFormed | app/domain_checker.py:102-104 | adding an entry's TLDs keeps that property |
| Bootstrap.AddTldsKeys | app/domain_checker.py:102-104 | adding TLDs touches exactly the lower-cased string TLDs listed and maps each to the entry's URLs |
| Bootstrap.ServicesMapLast | app/domain_checker.py:90-104 | one more entry maps the TLDs it declares to its URLs and leaves every other key as it was |
| Bootstrap.ServicesMapKeys | app/domain_checker.py:89-106 | a TLD is a key exactly when some used entry lists it |
| Bootstrap.ServicesMapValue | app/domain_checker.py:89-106 | a key maps to the URLs of the last entry that lists it |
| Bootstrap.Load | app/domain_checker.py:80-106 | a successful load gives a well-formed mapping |
| Bootstrap.Parse | app/domain_checker.py:87-106 | a non-dict document fails, a dict without "services" gives the empty map, and a parsed map is well formed |
| Bootstrap.ParseBootstrap | app/domain_checker.py:87-106 | the in-place loop over services and TLDs builds exactly the specified mapping, and fails like `.get` and iteration on a non-dict document or a non-iterable `services` value |
| Bootstrap.BootstrapCache.constructor | app/domain_checker.py:80 | the cache starts empty |
| Bootstrap.BootstrapCache.Get | app/domain_checker.py:80-106 | a call fetches exactly when nothing is cached; it returns the cached map or the fresh outcome, and caches a success only |
| Bootstrap.RetryAfterFailure | app/domain_checker.py:80-81 | after a failed fetch the next call fetches again and returns the new outcome |
| Bootstrap.SuccessIsPermanent | app/domain_checker.py:80-81 | after a successful fetch later calls make no fetch and return the same map |
| Rdap.Endpoint | app/domain_checker.py:133 | the endpoint starts with the base URL stripped of its trailing slashes; `EndpointOfSafeName` gives the whole URL |
| Rdap.EndpointOfSafeName | app/domain_checker.py:133 | for a name `quote` leaves alone, the endpoint is the stripped base URL, `/domain/` and the name itself |
| Rdap.StepFor | app/domain_checker.py:139-194 | a reply that says to go on records a non-empty error, and one that concludes gives a resolved record with a definite answer; `ReplyCases` says which replies do which |
| Rdap.Classify | app/domain_checker.py:170-194 | an object with none of the five fields the code reads is inconclusive; `ClassifyCases` states all three verdicts |
| Rdap.ClassifyCases | app/domain_checker.py:170-194 | for a non-empty name: "not found" text gives unregistered; otherwise a "domain" class, an echoed `ldhName` or a truthy `handle` gives registered; and only without all of these is the object inconclusive |
| Rdap.LastErrorOr | app/domain_checker.py:200 | the error reported when the servers are exhausted is never empty |
| Rdap.Walk | app/domain_checker.py:131-201 | a record the server loop returns is resolved for the domain, and a `ValueError` it raises is the refusal `build` gives for the endpoint of one of the listed servers |
| Rdap.Visited | app/domain_checker.py:132-140 | the loop requests at most one endpoint per server, and at least one when the first server's request is built |
| Rdap.VisitedInOrder | app/domain_checker.py:132-140 | the `i`-th request goes to the endpoint of the `i`-th listed server |
| Rdap.AskServers | app/domain_checker.py:131-201 | the loop, with the branches of lines 139-194 on each reply, returns what `Walk` specifies and requests exactly the endpoints `Visited` lists |
| Rdap.RdapResult | app/domain_checker.py:109-201 | a record the RDAP answer returns is resolved for the domain, and its only `ValueError` is an "unknown url type" refusal |
| Rdap.RdapLookup | app/domain_checker.py:110-201 | with a known bootstrap outcome, the procedure returns the specified answer, the refusal of a scheme-less server URL included, and requests the specified endpoints |
| Rdap.CheckWithRdap | app/domain_checker.py:109-201 | the same through the shared bootstrap cache, which afterwards holds the served map when it is a success and stays empty after a failed fetch |
| Rdap.FirstConclusionDecides | app/domain_checker.py:132-192 | when the servers before `k` all say to go on and server `k` concludes, its record is the answer and exactly `k + 1` servers are asked |
| Rdap.ExhaustedReportsLastError | app/domain_checker.py:150-201 | when every server says to go on, all are asked and the answer is unknown with the last server's error, never "RDAP lookup failed" |
| Rdap.NoQueryWithoutServer | app/domain_checker.py:122-140 | nothing is requested exactly when the bootstrap failed, lists no server for the TLD, or lists first a server whose request is refused; otherwise the first request goes to the first listed server |
| Rdap.BootstrapFailureIsUnknown | app/domain_checker.py:112-120 | a failed bootstrap gives an unknown record with "RDAP bootstrap failed: " and its message, and nothing is requested |
| Rdap.NoServerIsUnknown | app/domain_checker.py:122-129 | a TLD with no listed server gives an unknown record naming the TLD, and nothing is requested |
| Rdap.FirstRefusalRejects | app/domain_checker.py:132-140 | when the servers before `k` all say to go on and the request for server `k` is refused, the answer is that `ValueError` and exactly `k` endpoints are requested |
| Rdap.BuiltRequestsNeverReject | app/domain_checker.py:132-140 | when every server's request is built, the loop never raises `ValueError` |
| Rdap.FirstServerRefused | app/domain_checker.py:122-140 | when the first listed server's request is refused, the answer is that `ValueError` and nothing is requested |
| Rdap.SchemelessServerRefused | app/domain_checker.py:133-137 | a server URL without `:` is refused before anything is sent, for a name `quote` leaves alone |
| Rdap.SchemeServerAccepted | app/domain_checker.py:133-139 | a server URL with a lower-case scheme is accepted, so the network is asked |
| Rdap.NotFoundTitleWins | app/domain_checker.py:173-185 | a title holding "not found" in any letter case makes the answer unregistered, whatever else the object says |
| Rdap.DescriptionItemWins | app/domain_checker.py:174-185 | so does one item of a description list |
| Rdap.DescriptionTextWins | app/domain_checker.py:174-185 | so does a description given as one string |
| Rdap.DomainObjectIsRegistered | app/domain_checker.py:170-192 | an object of class "domain" in any letter case, whose title and description do not say "not found", records a registration |
| Rdap.EchoedNameIsRegistered | app/domain_checker.py:171-192 | so does an object that echoes the queried name as its `ldhName` |
| Rdap.HandleIsRegistered | app/domain_checker.py:172-192 | so does an object with a truthy `handle` |
| Rdap.ReplyCases | app/domain_checker.py:139-194 | a network or decode error, an HTTP error other than 404, a status other than 200 and 404, and an inconclusive object go on to the next server with their message, and nothing else does; a 200 body that is not an object raises `AttributeError` with its type name; a 200 object concludes with its verdict |
| Rdap.NotFoundStatusIsTerminal | app/domain_checker.py:143-164 | a 404, raised as `HTTPError` or returned as a status, ends the lookup with "unregistered" |
| Whois.StringParts | app/domain_checker.py:71 | a string appears among the parts exactly when it is a string item of the list |
| Whois.StringPartsConcat | app/domain_checker.py:71 | the parts keep list order and repeats: those of a concatenation are those of each piece, one after the other |
| Whois.StringPartsSingle | app/domain_checker.py:71 | a single item gives its string, or nothing when it is not a string |
| Whois.LooksUnregistered | app/domain_checker.py:68-77 | every phrase is non-empty, so an empty text never reads as a free domain; `PhraseInText` and `PhraseInPart` show a phrase is found in any case and in any string part |
| Whois.CheckWithWhois | app/domain_checker.py:204-246 | the WHOIS answer is always a resolved record for the domain |
| Whois.NoSuchDomainIsUnregistered | app/domain_checker.py:205-212 | the library's "no such domain" error gives an unregistered record |
| Whois.ClaimBeforeText | app/domain_checker.py:221-239 | a claimed domain name makes the answer registered, whatever the text says, a no-match phrase included |
| Whois.PhraseInText | app/domain_checker.py:68-77 | a text holding one of the no-match phrases in any letter case, with no claimed name, makes the answer unregistered |
| Whois.PhraseInRendered | app/domain_checker.py:74-77 | a record whose text is neither a list nor a string is searched as `str(record)`: a phrase there in any letter case, with no claimed name, makes the answer unregistered |
| Whois.PhraseInPart | app/domain_checker.py:69-77 | for a list text, a phrase inside any one of its string parts is found |
| Whois.UnknownCases | app/domain_checker.py:213-246 | the answer is unknown exactly for a failed query or a record with neither a claimed name nor a phrase; a failed query carries its message and an undecided record "WHOIS response was inconclusive" |
| Whois.WhoisCases | app/domain_checker.py:204-246 | registered exactly for a record with a claimed name; unregistered exactly for "no such domain" or a record with no claimed name and a no-match phrase; an undecided record carries the inconclusive message |
| Orchestrator.ErrorParts | app/domain_checker.py:259-263 | at most two error parts are collected |
| Orchestrator.MergedError | app/domain_checker.py:269 | the final error is never empty |
| Orchestrator.Resolve | app/domain_checker.py:249-270 | invalid input raises `ValueError` with the normaliser's message; a valid name raises `ValueError` exactly when RDAP does; a returned record is resolved for the normalised name |
| Orchestrator.CheckDomainRegistration | app/domain_checker.py:249-270 | the procedure returns what `Resolve` specifies, the `ValueError` of a refused server URL included; invalid input asks no server and leaves the cache alone; valid input leaves the cache holding the served map after a success; it asks WHOIS exactly when RDAP returned no definite answer |
| Orchestrator.RdapConclusionIsFinal | app/domain_checker.py:251-253 | a definite RDAP answer is the result whatever WHOIS would say |
| Orchestrator.WhoisDecidesWhenRdapCannot | app/domain_checker.py:255-257 | when RDAP is undecided, a definite WHOIS answer is the result |
| Orchestrator.MergedBoth | app/domain_checker.py:259-269 | two non-empty errors merge as "RDAP: …; WHOIS: …" |
| Orchestrator.NeitherDecides | app/domain_checker.py:259-270 | when neither decides, the answer is unknown for the normalised name with both errors, RDAP's first |
| Orchestrator.DomainLookupFailedUnreachable | app/domain_checker.py:269 | the message "Domain lookup failed" is never produced |
| Orchestrator.InvalidInputStaysLocal | app/domain_checker.py:250 | invalid input ends the same way for every bootstrap, network and WHOIS reply |
| Orchestrator.ValidNameRejectedByRequest | app/domain_checker.py:249-251 | a valid name is rejected only with RDAP's own "unknown url type" error |
| Orchestrator.NormalizedNameSentVerbatim | app/domain_checker.py:133 | a returned name without a newline goes out under `/domain/` as it is |
| Orchestrator.NormalizedSafe | app/domain_checker.py:133 | every character of a returned name without a newline is one `quote` leaves alone |
| Orchestrator.SchemelessServerRejectsValidName | app/domain_checker.py:122-137 | a first server URL without `:` makes a valid name raise "unknown url type", with nothing requested |
| Adapter.ResultToPayload | app/mcp_server.py:15-21 | the payload loses nothing, since reading it back gives the record, and a consistent record gives a consistent payload |
| Adapter.CheckToPayload | app/mcp_server.py:24-36 | the tool fails exactly when the check raised something other than `ValueError`, with its message, and passes a returned record on as its payload |
| Adapter.RejectedPayload | app/mcp_server.py:24-34 | a `ValueError` becomes a consistent "invalid" payload with its message, naming the stripped and lower-cased input, or the input as given when stripping leaves nothing |
| Adapter.BatchPayloads | app/mcp_server.py:73 | the batch succeeds exactly when every single check does, gives one payload per name in input order, and otherwise fails with the first escaping exception |
| Adapter.CheckDomainsBatch | app/mcp_server.py:68-73 | an accepted batch has 1 to 200 names and one payload for each, and a batch outside those bounds is refused with the message for its side |
| Adapter.BatchBounds | app/mcp_server.py:68-72 | an empty batch or one over 200 names is refused with its message before any name is checked |
| Adapter.BatchMatchesSingle | app/mcp_server.py:68-73 | an accepted batch answers each name as the single-name tool does |
| Adapter.BatchConsistent | app/mcp_server.py:68-73 | every payload of a batch is consistent when the checker returns consistent records |

## Left out

- Network I/O: the HTTP requests, their headers and the 5-second timeout,
  `json.load`, and the WHOIS library's own parsing. They are inputs to the
  model (`Fetch`, `net`, `WhoisReply`). `HTTPError` (lines 143-151) is the
  reply `HttpError(code)`. The exception classes caught at lines 152-157
  are all collapsed into `QueryError`, since every one of them records the
  same message shape.
- `urlparse` and the `idna` codec. They are the parameters `Codecs`; the
  only assumption about them is `KeepsFqdns`.
- Unicode lower-casing: `Lower` changes only `A-Z`, so `Prepare` differs
  from line 38 on non-ASCII letters. Python's `str.lower()` maps `'É'` to
  `'é'` and `'İ'` to two characters, and it does so before `urlparse` and
  before the `or raw` fallback. In the model those letters reach both the
  `hostname` and the `idna` parameters unchanged, and those two parameters
  stand in for the difference.
- JSON floats: numbers are integers, so `str` of a value that holds a float
  is not modelled.
- `Text.Repr`: non-ASCII characters are kept as they are. Python escapes
  those it does not consider printable, and the Unicode tables that decide
  this are not modelled.
- `UrlRequest.RequestError`: only the scheme check of `Request` is modelled.
  While it computes the origin host, `Request` also runs `urlparse`, which
  raises `ValueError` for some malformed hosts, such as an unbalanced `[`. The model
  treats such a URL as sent.
- `Rdap.ClassifyCases`: stated for a non-empty queried name. Only normalised
  names, which are never empty, are looked up.
- Concurrency: `lru_cache` does not give single-flight fetching, so two
  concurrent first calls may both fetch. The cache is modelled for
  sequential calls only.
- RDAP replies are a function of the endpoint URL. Two servers that share
  a URL therefore get the same reply.
- `Adapter.CheckToPayload`: the checker behind the tool is an abstract
  function of the input. The bootstrap cache that successive calls of one
  batch share is not threaded through it. `Orchestrator.CheckDomainRegistration`
  shows what one call does to the cache.
- `Normalizer.NormalizeIdempotent`: proved only for returned names without a
  newline. A name that the `$` of the label pattern let through with a
  trailing newline is not in the output format.
- `Rdap.ExhaustedReportsLastError`: the unreachability of "RDAP lookup failed"
  is stated as "the error is the last server's error". No separate lemma
  claims it.
- `create_mcp_server`, the `check_domain` tool wrapper (a direct call of
  `_check_to_payload`), the FastMCP wiring, `app/main.py` and the
  `run_*.py` launchers. They are transport and start-up code.
