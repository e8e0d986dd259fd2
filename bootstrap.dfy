/** `_rdap_bootstrap`: the IANA RDAP bootstrap registry for DNS (sections 3
    and 4 of RFC 9224) turned into a map from lower-case TLD to the list of
    RDAP base URLs, fetched once and memoised by `lru_cache(maxsize=1)`. */
module Bootstrap {
  import opened Wrappers
  import opened Text
  import opened Json

  type BootstrapMap = map<string, seq<string>>

  /** What the fetch at lines 82-87 produced: the decoded document, or the
      message of the exception `urlopen` or `json.load` raised. */
  datatype Fetch = FetchFailed(reason: string) | Fetched(document: Json)

  /** Every TLD maps to a non-empty list of non-empty URL strings. */
  ghost predicate WellFormed(m: BootstrapMap)
  {
    forall tld :: tld in m ==> m[tld] != [] && forall i :: 0 <= i < |m[tld]| ==> m[tld][i] != ""
  }

  /** Line 98: `[url for url in urls if isinstance(url, str) and url]`. */
  function ServiceUrls(urls: seq<Json>): (r: seq<string>)
    ensures forall i :: 0 <= i < |r| ==> r[i] != ""
    ensures forall u :: u in r <==> u != "" && JStr(u) in urls
  {
    if urls == [] then []
    else
      var rest := ServiceUrls(urls[1..]);
      assert forall u :: JStr(u) in urls <==> JStr(u) == urls[0] || JStr(u) in urls[1..];
      if urls[0].JStr? && urls[0].s != "" then [urls[0].s] + rest else rest
  }

  /** The kept URLs are in list order, repeats included: the URLs of a
      concatenation are those of each piece, one after the other. This is
      the order in which the servers are tried. */
  lemma {:induction false} ServiceUrlsConcat(a: seq<Json>, b: seq<Json>)
    ensures ServiceUrls(a + b) == ServiceUrls(a) + ServiceUrls(b)
    decreases |a|
  {
    if a == [] {
      assert a + b == b;
    } else {
      assert (a + b)[1..] == a[1..] + b;
      ServiceUrlsConcat(a[1..], b);
    }
  }

  /** A single item is kept exactly when it is a non-empty string. */
  lemma ServiceUrlsSingle(url: Json)
    ensures ServiceUrls([url]) == if url.JStr? && url.s != "" then [url.s] else []
  {
    assert [url][1..] == [];
  }

  /** Lines 91-100: a service entry that is used, as its TLD list and its
      filtered URL list; `None` for an entry the loop skips. */
  function Entry(service: Json): (r: Option<(seq<Json>, seq<string>)>)
    ensures r.Some? ==> r.value.1 != []
  {
    if !service.JArr? || |service.items| != 2 then None
    else if !service.items[0].JArr? || !service.items[1].JArr? then None
    else
      var urls := ServiceUrls(service.items[1].items);
      if urls == [] then None else Some((service.items[0].items, urls))
  }

  /** Lines 102-104: every string TLD, lower-cased, mapped to `urls`. */
  function AddTlds(m: BootstrapMap, tlds: seq<Json>, urls: seq<string>): BootstrapMap
    decreases |tlds|
  {
    if tlds == [] then m
    else
      var last := tlds[|tlds| - 1];
      var earlier := AddTlds(m, tlds[..|tlds| - 1], urls);
      if last.JStr? then earlier[Lower(last.s) := urls] else earlier
  }

  /** One turn of the loop at line 90. */
  function AddService(m: BootstrapMap, service: Json): BootstrapMap
  {
    match Entry(service)
    case None => m
    case Some((tlds, urls)) => AddTlds(m, tlds, urls)
  }

  /** The mapping built from `services[..n]`, entry after entry. */
  function ServicesMap(services: seq<Json>): (m: BootstrapMap)
    ensures WellFormed(m)
    decreases |services|
  {
    if services == [] then map[]
    else
      var earlier := ServicesMap(services[..|services| - 1]);
      AddTldsWellFormed(earlier, Entry(services[|services| - 1]));
      AddService(earlier, services[|services| - 1])
  }

  lemma AddTldsWellFormed(m: BootstrapMap, entry: Option<(seq<Json>, seq<string>)>)
    requires WellFormed(m)
    requires entry.Some? ==> entry.value.1 != [] && forall i :: 0 <= i < |entry.value.1| ==> entry.value.1[i] != ""
    ensures entry.Some? ==> WellFormed(AddTlds(m, entry.value.0, entry.value.1))
  {
    if entry.Some? {
      AddTldsKeys(m, entry.value.0, entry.value.1);
    }
  }

  /** `service` lists `tld` (any case) as one of its string TLDs and is not skipped. */
  predicate Declares(service: Json, tld: string)
  {
    Entry(service).Some? && ListsTld(Entry(service).value.0, tld)
  }

  predicate ListsTld(tlds: seq<Json>, tld: string)
  {
    exists i :: 0 <= i < |tlds| && tlds[i].JStr? && Lower(tlds[i].s) == tld
  }

  /** Adding TLDs touches exactly the listed ones, and maps each to `urls`. */
  lemma {:induction false} AddTldsKeys(m: BootstrapMap, tlds: seq<Json>, urls: seq<string>)
    ensures forall tld :: tld in AddTlds(m, tlds, urls) <==> tld in m || ListsTld(tlds, tld)
    ensures forall tld :: tld in AddTlds(m, tlds, urls) ==>
      AddTlds(m, tlds, urls)[tld] == if ListsTld(tlds, tld) then urls else m[tld]
    decreases |tlds|
  {
    if tlds != [] {
      var init := tlds[..|tlds| - 1];
      AddTldsKeys(m, init, urls);
      forall tld
        ensures ListsTld(tlds, tld) <==> ListsTld(init, tld) || (tlds[|tlds| - 1].JStr? && Lower(tlds[|tlds| - 1].s) == tld)
      {
        if ListsTld(tlds, tld) {
          var i :| 0 <= i < |tlds| && tlds[i].JStr? && Lower(tlds[i].s) == tld;
          if i < |tlds| - 1 {
            assert init[i] == tlds[i];
          }
        }
        if ListsTld(init, tld) {
          var i :| 0 <= i < |init| && init[i].JStr? && Lower(init[i].s) == tld;
          assert tlds[i] == init[i];
        }
      }
    }
  }

  /** One more service entry: the TLDs it declares now map to its URLs, and
      every other key keeps what the earlier entries gave it. */
  lemma ServicesMapLast(services: seq<Json>, tld: string)
    requires services != []
    ensures var n := |services| - 1; var earlier := ServicesMap(services[..n]);
      && (tld in ServicesMap(services) <==> tld in earlier || Declares(services[n], tld))
      && (tld in ServicesMap(services) ==>
            ServicesMap(services)[tld] == if Declares(services[n], tld) then Entry(services[n]).value.1 else earlier[tld])
  {
    var n := |services| - 1;
    var earlier := ServicesMap(services[..n]);
    match Entry(services[n])
    case None =>
    case Some((tlds, urls)) =>
      AddTldsKeys(earlier, tlds, urls);
  }

  /** A TLD is a key of the parsed map exactly when some used entry lists it. */
  lemma {:induction false} ServicesMapKeys(services: seq<Json>, tld: string)
    ensures tld in ServicesMap(services) <==> exists i :: 0 <= i < |services| && Declares(services[i], tld)
    decreases |services|
  {
    if services != [] {
      var n := |services| - 1;
      ServicesMapKeys(services[..n], tld);
      ServicesMapLast(services, tld);
      assert forall i :: 0 <= i < n ==> services[..n][i] == services[i];
    }
  }

  /** `services[i]` lists `tld` and no later entry does. */
  predicate LastDeclarer(services: seq<Json>, tld: string, i: int)
  {
    0 <= i < |services| && Declares(services[i], tld) && forall j :: i < j < |services| ==> !Declares(services[j], tld)
  }

  /** A key maps to the URLs of the last entry that lists it: later entries
      overwrite earlier ones. */
  lemma {:induction false} ServicesMapValue(services: seq<Json>, tld: string)
    requires tld in ServicesMap(services)
    ensures exists i :: LastDeclarer(services, tld, i) && ServicesMap(services)[tld] == Entry(services[i]).value.1
    decreases |services|
  {
    var n := |services| - 1;
    var init := services[..n];
    ServicesMapLast(services, tld);
    if Declares(services[n], tld) {
      assert LastDeclarer(services, tld, n);
    } else {
      ServicesMapValue(init, tld);
      var i :| LastDeclarer(init, tld, i) && ServicesMap(init)[tld] == Entry(init[i]).value.1;
      assert forall j :: 0 <= j < n ==> init[j] == services[j];
      assert LastDeclarer(services, tld, i);
    }
  }

  /** What `for service in data.get("services", [])` iterates over: the
      list's items, a string's characters, a dict's keys; any other value
      raises `TypeError`. */
  function ServiceItems(services: Json): Result<seq<Json>, string>
  {
    match services
    case JArr(items) => Success(items)
    case JStr(s) => Success(seq(|s|, i requires 0 <= i < |s| => JStr([s[i]])))
    case JObj(fields) => Success(seq(|fields|, i requires 0 <= i < |fields| => JStr(fields[i].0)))
    case _ => Failure("'" + TypeName(services) + "' object is not iterable")
  }

  /** The specification of lines 87-106 for a decoded document: a non-dict
      document raises `AttributeError` on `.get`, a dict without "services"
      gives the empty map, and a parsed map is well formed. */
  function Parse(document: Json): (r: Result<BootstrapMap, string>)
    ensures !document.JObj? ==> r.Failure?
    ensures document.JObj? && Get(document.fields, "services") == None ==> r == Success(map[])
    ensures r.Success? ==> WellFormed(r.value)
  {
    if !document.JObj? then Failure("'" + TypeName(document) + "' object has no attribute 'get'")
    else match ServiceItems(GetOr(document.fields, "services", JArr([])))
      case Failure(e) => Failure(e)
      case Success(services) => Success(ServicesMap(services))
  }

  /** The body of `_rdap_bootstrap` run on what the fetch produced. */
  function Load(fetched: Fetch): (r: Result<BootstrapMap, string>)
    ensures r.Success? ==> WellFormed(r.value)
  {
    match fetched
    case FetchFailed(reason) => Failure(reason)
    case Fetched(document) => Parse(document)
  }

  /** What a call of the memoised function returns: the cached map when
      there is one, else the outcome of a fresh fetch. */
  function Served(cached: Option<BootstrapMap>, fetched: Fetch): Result<BootstrapMap, string>
  {
    if cached.Some? then Success(cached.value) else Load(fetched)
  }

  /** Lines 89-106: the loop over services, filling `mapping` in place. */
  method ParseBootstrap(document: Json) returns (r: Result<BootstrapMap, string>)
    ensures r == Parse(document)
  {
    if !document.JObj? {
      return Failure("'" + TypeName(document) + "' object has no attribute 'get'");
    }
    var items := ServiceItems(GetOr(document.fields, "services", JArr([])));
    if items.Failure? {
      return Failure(items.error);
    }
    var services := items.value;
    var mapping: BootstrapMap := map[];
    var i := 0;
    while i < |services|
      invariant 0 <= i <= |services|
      invariant mapping == ServicesMap(services[..i])
    {
      var service := services[i];
      assert services[..i + 1][..i] == services[..i];
      var entry := Entry(service);
      if entry.Some? {
        var tlds := entry.value.0;
        var urls := entry.value.1;
        var before := mapping;
        var k := 0;
        while k < |tlds|
          invariant 0 <= k <= |tlds|
          invariant mapping == AddTlds(before, tlds[..k], urls)
        {
          assert tlds[..k + 1][..k] == tlds[..k];
          if tlds[k].JStr? {
            mapping := mapping[Lower(tlds[k].s) := urls];
          }
          k := k + 1;
        }
        assert tlds[..k] == tlds;
      }
      i := i + 1;
    }
    assert services[..i] == services;
    return Success(mapping);
  }

  /** The `lru_cache(maxsize=1)` around `_rdap_bootstrap`: empty until a
      fetch succeeds, then holding that map for good. Exceptions are not
      cached, so a failed fetch leaves the cache empty for the next call. */
  class BootstrapCache {
    var cached: Option<BootstrapMap>

    ghost predicate Valid()
      reads this
    {
      cached.Some? ==> WellFormed(cached.value)
    }

    constructor ()
      ensures Valid() && cached == None
    {
      cached := None;
    }

    /** A call of `_rdap_bootstrap()`. `fetched` is what the network would
        give; `fetchedNow` tells whether the fetch was made. */
    method Get(fetched: Fetch) returns (r: Result<BootstrapMap, string>, fetchedNow: bool)
      requires Valid()
      modifies this
      ensures Valid()
      ensures fetchedNow <==> old(cached).None?
      ensures r == Served(old(cached), fetched)
      ensures cached == if r.Success? then Some(r.value) else None
      ensures r.Success? ==> WellFormed(r.value)
    {
      if cached.Some? {
        return Success(cached.value), false;
      }
      fetchedNow := true;
      match fetched {
        case FetchFailed(reason) =>
          r := Failure(reason);
        case Fetched(document) =>
          r := ParseBootstrap(document);
      }
      if r.Success? {
        cached := Some(r.value);
      }
    }
  }

  /** A failed fetch does not poison the cache: the next call fetches again
      and its success is what is returned. */
  method RetryAfterFailure(reason: string, document: Json) returns (first: Result<BootstrapMap, string>, second: Result<BootstrapMap, string>, refetched: bool)
    ensures first == Failure(reason)
    ensures refetched && second == Parse(document)
  {
    var cache := new BootstrapCache();
    var once;
    first, once := cache.Get(FetchFailed(reason));
    second, refetched := cache.Get(Fetched(document));
  }

  /** A successful fetch is permanent: later calls make no fetch and return
      the same map, whatever the network would now say. */
  method SuccessIsPermanent(document: Json, later: Fetch) returns (first: Result<BootstrapMap, string>, second: Result<BootstrapMap, string>, refetched: bool)
    requires Parse(document).Success?
    ensures first == Parse(document) && second == first && !refetched
  {
    var cache := new BootstrapCache();
    var once;
    first, once := cache.Get(Fetched(document));
    second, refetched := cache.Get(later);
  }
}
