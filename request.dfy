/** The part of `urllib.request.Request(url)` that can fail. The constructor
    takes the URL apart as soon as it is built: `unwrap`, then `_splittag`
    at the last `#`, then `_splittype`, and it raises
    `ValueError("unknown url type: %r")` when the URL names no scheme. */
module UrlRequest {
  import opened Wrappers
  import opened Text

  const UNKNOWN_URL_TYPE := "unknown url type: "

  /** `urllib.parse.unwrap`: outer whitespace, one `<...>` wrapper and a
      `URL:` prefix are removed. */
  function Unwrap(url: string): string
  {
    DropUrlPrefix(DropBrackets(Strip(url)))
  }

  function DropBrackets(s: string): string
  {
    if |s| >= 2 && s[0] == '<' && s[|s| - 1] == '>' then Strip(s[1..|s| - 1]) else s
  }

  function DropUrlPrefix(t: string): string
  {
    if StartsWith(t, "URL:") then Strip(t[4..]) else t
  }

  /** The position of the last `c` in `s`, or -1 when there is none. */
  function LastIndex(s: string, c: char): (k: int)
    ensures -1 <= k < |s|
    ensures k >= 0 ==> s[k] == c
    ensures forall j :: k < j < |s| ==> s[j] != c
  {
    if s == [] then -1 else if s[|s| - 1] == c then |s| - 1 else LastIndex(s[..|s| - 1], c)
  }

  /** `_splittag`'s first half: the text before the last `#`, or all of it. */
  function TagPath(u: string): string
  {
    var k := LastIndex(u, '#');
    if k < 0 then u else u[..k]
  }

  /** `_splittag`'s second half: the fragment after the last `#`, empty when there is none. */
  function TagOf(u: string): string
  {
    var k := LastIndex(u, '#');
    if k < 0 then "" else u[k + 1..]
  }

  /** The length of the leading run of characters other than `/` and `:`. */
  function LeadRun(s: string): (k: nat)
    ensures k <= |s|
    ensures forall j :: 0 <= j < k ==> s[j] != '/' && s[j] != ':'
    ensures k < |s| ==> s[k] == '/' || s[k] == ':'
  {
    if s == [] || s[0] == '/' || s[0] == ':' then 0 else 1 + LeadRun(s[1..])
  }

  /** `_splittype`'s pattern `([^/:]+):(.*)` matches at the start: the longest
      run without `/` or `:` is non-empty and a `:` follows it. */
  predicate HasUrlType(s: string)
  {
    var k := LeadRun(s);
    0 < k < |s| && s[k] == ':'
  }

  /** The reference reading of the pattern: some non-empty prefix free of
      `/` and `:` is followed by `:`. */
  lemma HasUrlTypeIff(s: string)
    ensures HasUrlType(s) <==> exists k :: 0 < k < |s| && s[k] == ':' && forall j :: 0 <= j < k ==> s[j] != '/' && s[j] != ':'
  {
    if exists k :: 0 < k < |s| && s[k] == ':' && forall j :: 0 <= j < k ==> s[j] != '/' && s[j] != ':' {
      var k :| 0 < k < |s| && s[k] == ':' && forall j :: 0 <= j < k ==> s[j] != '/' && s[j] != ':';
      LeadRunAt(s, k);
    }
  }

  /** The run ends at the first `/` or `:`. */
  lemma {:induction false} LeadRunAt(s: string, k: nat)
    requires k < |s| && (s[k] == '/' || s[k] == ':')
    requires forall j :: 0 <= j < k ==> s[j] != '/' && s[j] != ':'
    ensures LeadRun(s) == k
    decreases k
  {
    if k > 0 {
      assert forall j :: 0 <= j < k - 1 ==> s[1..][j] == s[j + 1];
      LeadRunAt(s[1..], k - 1);
    }
  }

  /** The `ValueError` message `Request(url)` raises, if any: the URL left
      after `unwrap` and `_splittag` must name a scheme. The message shows
      the URL again, with a non-empty fragment put back. */
  function RequestError(url: string): (e: Option<string>)
    ensures e.Some? ==> StartsWith(e.value, UNKNOWN_URL_TYPE)
  {
    var u := Unwrap(url);
    var path := TagPath(u);
    var tag := TagOf(u);
    if HasUrlType(path) then None
    else Some(UNKNOWN_URL_TYPE + Repr(if tag != "" then path + "#" + tag else path))
  }

  /** A character missing from the input is missing after `strip()`. */
  lemma StripKeepsOut(s: string, c: char)
    requires c !in s
    ensures c !in Strip(s)
  {
    var t := TrimStart(s);
    SliceKeepsOut(s, |s| - |t|, |s|, c);
    assert s[|s| - |t|..|s|] == t;
    SliceKeepsOut(t, 0, |TrimEnd(t)|, c);
    assert t[0..|TrimEnd(t)|] == TrimEnd(t);
  }

  /** A character missing from the input is missing from every slice of it. */
  lemma SliceKeepsOut(s: string, a: nat, b: nat, c: char)
    requires a <= b <= |s| && c !in s
    ensures c !in s[a..b]
  {
    assert forall i :: 0 <= i < b - a ==> s[a..b][i] == s[a + i];
  }

  /** A character missing from the input is missing after `unwrap`. */
  lemma UnwrapKeepsOut(url: string, c: char)
    requires c !in url
    ensures c !in Unwrap(url)
  {
    StripKeepsOut(url, c);
    DropBracketsKeepsOut(Strip(url), c);
    DropUrlPrefixKeepsOut(DropBrackets(Strip(url)), c);
  }

  lemma DropBracketsKeepsOut(s: string, c: char)
    requires c !in s
    ensures c !in DropBrackets(s)
  {
    if |s| >= 2 && s[0] == '<' && s[|s| - 1] == '>' {
      SliceKeepsOut(s, 1, |s| - 1, c);
      StripKeepsOut(s[1..|s| - 1], c);
    }
  }

  lemma DropUrlPrefixKeepsOut(t: string, c: char)
    requires c !in t
    ensures c !in DropUrlPrefix(t)
  {
    if StartsWith(t, "URL:") {
      SliceKeepsOut(t, 4, |t|, c);
      assert t[4..|t|] == t[4..];
      StripKeepsOut(t[4..], c);
    }
  }

  /** A URL without any `:` names no scheme, so `Request` refuses it. */
  lemma NoColonRefused(url: string)
    requires ':' !in url
    ensures RequestError(url).Some?
  {
    UnwrapKeepsOut(url, ':');
    var u := Unwrap(url);
    var path := TagPath(u);
    assert forall i :: 0 <= i < |path| ==> path[i] == u[i];
    assert ':' !in path;
  }

  /** A URL that starts with a lower-case scheme and a `:` and does not end
      with whitespace is accepted by `Request`. */
  lemma LowerSchemeAccepted(url: string, k: nat)
    requires 0 < k < |url| && url[k] == ':' && !IsSpace(url[|url| - 1])
    requires forall j :: 0 <= j < k ==> 'a' <= url[j] <= 'z'
    ensures RequestError(url).None?
  {
    UnwrapUnchanged(url);
    SchemeSurvivesTag(url, k);
  }

  lemma SchemeSurvivesTag(url: string, k: nat)
    requires 0 < k < |url| && url[k] == ':'
    requires forall j :: 0 <= j < k ==> 'a' <= url[j] <= 'z'
    ensures HasUrlType(TagPath(url))
  {
    TagPathKeepsScheme(url, k);
    var path := TagPath(url);
    assert forall j :: 0 <= j < k ==> path[j] == url[j];
    LeadRunAt(path, k);
  }

  /** `unwrap` leaves a URL alone that starts with a lower-case letter and
      does not end with whitespace. */
  lemma UnwrapUnchanged(url: string)
    requires url != [] && 'a' <= url[0] <= 'z' && !IsSpace(url[|url| - 1])
    ensures Unwrap(url) == url
  {
    StripUnchanged(url);
    assert DropBrackets(url) == url;
    assert !StartsWith(url, "URL:") by {
      if |url| >= 4 {
        assert url[..4][0] == url[0];
      }
    }
  }

  lemma StripUnchanged(s: string)
    requires s != [] && !IsSpace(s[0]) && !IsSpace(s[|s| - 1])
    ensures Strip(s) == s
  {
    assert TrimStart(s) == s;
  }

  /** Cutting at the last `#` keeps a scheme that ends before any `#`. */
  lemma TagPathKeepsScheme(url: string, k: nat)
    requires k < |url| && url[k] == ':' && forall j :: 0 <= j < k ==> url[j] != '#'
    ensures |TagPath(url)| > k && TagPath(url)[k] == ':'
  {
  }
}
