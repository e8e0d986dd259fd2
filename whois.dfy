/** `_check_with_whois` and `_looks_unregistered`: the WHOIS fallback. */
module Whois {
  import opened Wrappers
  import opened Text
  import opened Json
  import opened Results

  /** What `whois.whois(domain)` ends with: `PywhoisError` (the library's
      "no such domain"), any other exception with its message, or a parsed
      record. `domainName` and `text` are the record's attributes (`JNull`
      when absent) and `rendered` is `str(record)`. */
  datatype WhoisReply = NoSuchDomain | QueryFailed(message: string) | Record(domainName: Json, text: Json, rendered: string)

  /** Lines 18-26: phrases WHOIS servers use for a free name. */
  const NO_MATCH_PATTERNS: seq<string> := [
    "no match for",
    "not found",
    "no data found",
    "status: free",
    "domain you requested is not known",
    "is available",
    "object does not exist"
  ]

  const INCONCLUSIVE_MESSAGE := "WHOIS response was inconclusive"

  /** Lines 221-225: a list of names claims the domain when one of them is
      truthy; any other value when it is truthy itself. */
  predicate NameClaimed(domainName: Json)
  {
    if domainName.JArr? then exists i :: 0 <= i < |domainName.items| && Truthy(domainName.items[i])
    else Truthy(domainName)
  }

  /** The string items of a list, in order. */
  function StringParts(items: seq<Json>): (parts: seq<string>)
    ensures forall s :: s in parts <==> JStr(s) in items
  {
    if items == [] then []
    else
      var rest := StringParts(items[1..]);
      assert forall s :: JStr(s) in items <==> JStr(s) == items[0] || JStr(s) in items[1..];
      if items[0].JStr? then [items[0].s] + rest else rest
  }

  /** The parts keep the order and the repeats of the list: the parts of a
      concatenation are the parts of each piece, one after the other. */
  lemma {:induction false} StringPartsConcat(a: seq<Json>, b: seq<Json>)
    ensures StringParts(a + b) == StringParts(a) + StringParts(b)
    decreases |a|
  {
    if a == [] {
      assert a + b == b;
    } else {
      assert (a + b)[1..] == a[1..] + b;
      StringPartsConcat(a[1..], b);
    }
  }

  /** A single item gives its string, or nothing when it is not a string. */
  lemma StringPartsSingle(item: Json)
    ensures StringParts([item]) == if item.JStr? then [item.s] else []
  {
    assert [item][1..] == [];
  }

  /** Lines 69-75: the text searched, lower-cased: the string parts of a
      list joined by newlines, a string itself, and otherwise the whole
      record rendered as a string. */
  function SearchText(text: Json, rendered: string): string
  {
    if text.JArr? then Lower(Join(StringParts(text.items), "\n"))
    else if text.JStr? then Lower(text.s)
    else Lower(rendered)
  }

  /** `_looks_unregistered`. Every phrase is non-empty, so an empty text
      never reads as a free domain. */
  predicate LooksUnregistered(text: Json, rendered: string)
    ensures LooksUnregistered(text, rendered) ==> SearchText(text, rendered) != ""
  {
    exists i :: 0 <= i < |NO_MATCH_PATTERNS| && Contains(SearchText(text, rendered), NO_MATCH_PATTERNS[i])
  }

  /** Lines 204-246. The result is always resolved for `domain`. */
  function CheckWithWhois(domain: string, reply: WhoisReply): (r: CheckResult)
    ensures Resolved(r, domain)
  {
    match reply
    case NoSuchDomain => UnregisteredResult(domain)
    case QueryFailed(message) => UnknownResult(domain, "WHOIS query failed: " + message)
    case Record(domainName, text, rendered) =>
      if NameClaimed(domainName) then RegisteredResult(domain)
      else if LooksUnregistered(text, rendered) then UnregisteredResult(domain)
      else UnknownResult(domain, INCONCLUSIVE_MESSAGE)
  }

  /** Lines 207-212: the library's "no such domain" error makes the name
      "unregistered". */
  lemma NoSuchDomainIsUnregistered(domain: string)
    ensures CheckWithWhois(domain, NoSuchDomain) == UnregisteredResult(domain)
    ensures CheckWithWhois(domain, NoSuchDomain).registered == Some(false)
  {
  }

  /** A record that names the domain is "registered", whatever its text
      says, a no-match phrase included. */
  lemma ClaimBeforeText(domain: string, domainName: Json, text: Json, rendered: string)
    requires NameClaimed(domainName)
    ensures CheckWithWhois(domain, Record(domainName, text, rendered)) == RegisteredResult(domain)
  {
  }

  /** A string text carrying one of the phrases in any letter case, and no
      claimed name, makes the record "unregistered". */
  lemma PhraseInText(domain: string, domainName: Json, pre: string, phrase: string, post: string, rendered: string, k: nat)
    requires !NameClaimed(domainName)
    requires k < |NO_MATCH_PATTERNS| && Lower(phrase) == NO_MATCH_PATTERNS[k]
    ensures CheckWithWhois(domain, Record(domainName, JStr(pre + phrase + post), rendered)) == UnregisteredResult(domain)
  {
    var s := pre + phrase + post;
    assert s[|pre|..][..|phrase|] == phrase;
    ContainsAt(s, phrase, |pre|);
    LowerContains(s, phrase);
    assert Contains(SearchText(JStr(s), rendered), NO_MATCH_PATTERNS[k]);
  }

  /** A record whose `text` is neither a list nor a string is searched as
      `str(record)`: a phrase there in any letter case, with no claimed
      name, makes the record "unregistered". */
  lemma PhraseInRendered(domain: string, domainName: Json, text: Json, pre: string, phrase: string, post: string, k: nat)
    requires !NameClaimed(domainName) && !text.JArr? && !text.JStr?
    requires k < |NO_MATCH_PATTERNS| && Lower(phrase) == NO_MATCH_PATTERNS[k]
    ensures CheckWithWhois(domain, Record(domainName, text, pre + phrase + post)) == UnregisteredResult(domain)
  {
    var s := pre + phrase + post;
    assert s[|pre|..][..|phrase|] == phrase;
    ContainsAt(s, phrase, |pre|);
    LowerContains(s, phrase);
    assert Contains(SearchText(text, s), NO_MATCH_PATTERNS[k]);
  }

  /** For a list text, a phrase inside any one of its string parts is found,
      however the parts are split. */
  lemma PhraseInPart(text: seq<Json>, rendered: string, j: nat, k: nat)
    requires j < |text| && text[j].JStr?
    requires k < |NO_MATCH_PATTERNS| && Contains(Lower(text[j].s), NO_MATCH_PATTERNS[k])
    ensures LooksUnregistered(JArr(text), rendered)
  {
    var parts := StringParts(text);
    var s := text[j].s;
    assert s in parts;
    var m :| 0 <= m < |parts| && parts[m] == s;
    assert Contains(s, s) by {
      assert StartsWith(s, s);
    }
    JoinKeepsParts(parts, "\n", m, s);
    var joined := Join(parts, "\n");
    LowerContains(joined, s);
    ContainsTrans(Lower(joined), Lower(s), NO_MATCH_PATTERNS[k]);
  }

  /** Without a claimed name or a phrase, the answer is unknown with the
      inconclusive message; a failed query is unknown with its message. */
  lemma UnknownCases(domain: string, reply: WhoisReply)
    ensures CheckWithWhois(domain, reply).status == Unknown <==>
      reply.QueryFailed? || (reply.Record? && !NameClaimed(reply.domainName) && !LooksUnregistered(reply.text, reply.rendered))
    ensures reply.QueryFailed? ==> CheckWithWhois(domain, reply).error == Some("WHOIS query failed: " + reply.message)
    ensures reply.Record? && CheckWithWhois(domain, reply).status == Unknown ==> CheckWithWhois(domain, reply).error == Some(INCONCLUSIVE_MESSAGE)
  {
  }

  /** The whole table of lines 204-246: registered exactly for a record
      with a claimed name; unregistered exactly for "no such domain" or a
      record with no claimed name and a no-match phrase; an undecided
      record carries the inconclusive message. */
  lemma WhoisCases(domain: string, reply: WhoisReply)
    ensures CheckWithWhois(domain, reply).status == Registered <==> reply.Record? && NameClaimed(reply.domainName)
    ensures CheckWithWhois(domain, reply).status == Unregistered <==>
      reply.NoSuchDomain? || (reply.Record? && !NameClaimed(reply.domainName) && LooksUnregistered(reply.text, reply.rendered))
    ensures reply.Record? && CheckWithWhois(domain, reply).status == Unknown ==> CheckWithWhois(domain, reply).error == Some(INCONCLUSIVE_MESSAGE)
  {
  }
}
