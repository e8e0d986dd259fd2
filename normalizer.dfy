/** `_extract_domain`: validates raw user input and turns it into a lower-case
    ASCII domain name of at least two letter-digit-hyphen labels (section 2.3.4
    of RFC 1035 as relaxed by section 2.1 of RFC 1123), at most 63 characters a
    label and 253 in all. */
module Normalizer {
  import opened Wrappers
  import opened Text

  const EMPTY_MESSAGE := "Domain is empty"
  const INVALID_MESSAGE := "Invalid domain"
  const NO_TLD_MESSAGE := "Domain must contain a TLD"
  const MAX_LABEL_LENGTH := 63
  const MAX_DOMAIN_LENGTH := 253

  /** The two library calls the normaliser makes. `hostname(url)` is
      `urlparse(url).hostname`: `Failure(message)` when `urlparse` raises
      `ValueError(message)`, `Success(None)` when the URL has no host.
      `toAscii(name)` is `name.encode("idna").decode("ascii")` (ToASCII of
      section 4 of RFC 3490): `None` when the codec raises `UnicodeError`. */
  datatype Codecs = Codecs(hostname: string -> Result<Option<string>, string>, toAscii: string -> Option<string>)

  predicate IsLdhChar(c: char)
  {
    'a' <= c <= 'z' || '0' <= c <= '9' || c == '-'
  }

  /** The whole string matches `[a-z0-9-]{1,63}`. */
  predicate IsLdhRun(s: string)
  {
    1 <= |s| <= MAX_LABEL_LENGTH && forall i :: 0 <= i < |s| ==> IsLdhChar(s[i])
  }

  /** `DOMAIN_LABEL_RE.match(label)` for `^[a-z0-9-]{1,63}$`: Python's `$` also
      matches just before a final newline, so one trailing `\n` is let through. */
  predicate MatchesLabelRe(s: string)
  {
    IsLdhRun(s) || (|s| >= 2 && s[|s| - 1] == '\n' && IsLdhRun(s[..|s| - 1]))
  }

  /** A label that passes both checks of the label loop (lines 57-60). */
  predicate LabelAccepted(s: string)
  {
    MatchesLabelRe(s) && !StartsWith(s, "-") && !EndsWith(s, "-")
  }

  /** A label in the output format: 1 to 63 of `a-z`, `0-9`, `-`, with no hyphen at either end. */
  predicate IsLdhLabel(s: string)
  {
    IsLdhRun(s) && s[0] != '-' && s[|s| - 1] != '-'
  }

  /** The output format: a dot-separated name of at least two LDH labels, at most 253 characters. */
  predicate IsFqdn(name: string)
  {
    var labels := Split(name, '.');
    |labels| >= 2 && (forall i :: 0 <= i < |labels| ==> IsLdhLabel(labels[i])) && |name| <= MAX_DOMAIN_LENGTH
  }

  /** Line 38: trimmed, every trailing dot removed, lower-cased. */
  function Prepare(value: string): string
  {
    Lower(RStrip(Strip(value), '.'))
  }

  /** The string handed to `urlparse`. */
  function HostUrl(raw: string): string
  {
    if Contains(raw, "://") then raw else "//" + raw
  }

  /** `parsed.hostname or raw`: the host when there is a non-empty one, else the
      prepared input itself, so a non-empty input never yields an empty candidate. */
  function Candidate(c: Codecs, raw: string): (r: Result<string, string>)
    ensures raw != "" && r.Success? ==> r.value != ""
  {
    match c.hostname(HostUrl(raw))
    case Failure(e) => Failure(e)
    case Success(host) => Success(if host.Some? && host.value != "" then host.value else raw)
  }

  /** Lines 52-65, the checks on the IDNA-encoded name: an accepted name is
      returned as it is and has at most 253 characters, and every refusal is
      for a missing TLD or an invalid name. */
  function Validate(ascii: string): (r: Result<string, string>)
    ensures r.Success? ==> r.value == ascii && |ascii| <= MAX_DOMAIN_LENGTH
    ensures r.Failure? ==> r.error == NO_TLD_MESSAGE || r.error == INVALID_MESSAGE
  {
    var labels := Split(ascii, '.');
    if |labels| < 2 then Failure(NO_TLD_MESSAGE)
    else if exists i :: 0 <= i < |labels| && !LabelAccepted(labels[i]) then Failure(INVALID_MESSAGE)
    else if |ascii| > MAX_DOMAIN_LENGTH then Failure(INVALID_MESSAGE)
    else Success(ascii)
  }

  /** The specification of `_extract_domain`: `Success(name)` for the returned
      name, `Failure(message)` for the `ValueError` raised. */
  function Normalize(c: Codecs, value: string): Result<string, string>
  {
    var raw := Prepare(value);
    if raw == "" then Failure(EMPTY_MESSAGE)
    else match Candidate(c, raw)
      case Failure(e) => Failure(e)
      case Success(candidate) =>
        if candidate == "" then Failure(INVALID_MESSAGE)
        else match c.toAscii(candidate)
          case None => Failure(INVALID_MESSAGE)
          case Some(ascii) => Validate(ascii)
  }

  /** A name is refused for lacking a TLD exactly when it has no dot. */
  lemma NoTldExactlyWithoutDot(ascii: string)
    ensures Validate(ascii) == Failure(NO_TLD_MESSAGE) <==> '.' !in ascii
  {
    if '.' !in ascii {
      assert Split(ascii, '.') == [ascii];
    }
  }

  /** A returned name has a dot and at most 253 characters; a refusal
      carries one of the three messages of lines 40-63, or the message of
      `urlparse`'s own `ValueError`. */
  lemma NormalizeOutcome(c: Codecs, value: string)
    ensures Normalize(c, value).Success? ==> '.' in Normalize(c, value).value && |Normalize(c, value).value| <= MAX_DOMAIN_LENGTH
    ensures Normalize(c, value).Failure? ==>
      || Normalize(c, value).error in {EMPTY_MESSAGE, INVALID_MESSAGE, NO_TLD_MESSAGE}
      || c.hostname(HostUrl(Prepare(value))) == Failure(Normalize(c, value).error)
  {
    var raw := Prepare(value);
    if raw != "" && Candidate(c, raw).Success? {
      var candidate := Candidate(c, raw).value;
      if candidate != "" && c.toAscii(candidate).Some? {
        NoTldExactlyWithoutDot(c.toAscii(candidate).value);
      }
    }
  }

  /** `_extract_domain(value)`, label loop and early raises included. */
  method ExtractDomain(c: Codecs, value: string) returns (r: Result<string, string>)
    ensures r == Normalize(c, value)
  {
    var raw := Lower(RStrip(Strip(value), '.'));
    assert raw == Prepare(value);
    if raw == "" {
      return Failure(EMPTY_MESSAGE);
    }
    var parsed := c.hostname(HostUrl(raw));
    if parsed.Failure? {
      return Failure(parsed.error);
    }
    var candidate := if parsed.value.Some? && parsed.value.value != "" then parsed.value.value else raw;
    if candidate == "" {
      return Failure(INVALID_MESSAGE);
    }
    var encoded := c.toAscii(candidate);
    if encoded.None? {
      return Failure(INVALID_MESSAGE);
    }
    var ascii := encoded.value;
    assert Candidate(c, raw) == Success(candidate);
    NormalizeVia(c, value, raw, candidate, ascii);
    r := CheckAscii(ascii);
  }

  /** Lines 52-65 on the IDNA-encoded name. */
  method CheckAscii(ascii: string) returns (r: Result<string, string>)
    ensures r == Validate(ascii)
  {
    var labels := Split(ascii, '.');
    if |labels| < 2 {
      return Failure(NO_TLD_MESSAGE);
    }
    var accepted := CheckLabels(labels);
    if !accepted {
      return Failure(INVALID_MESSAGE);
    }
    if |ascii| > MAX_DOMAIN_LENGTH {
      return Failure(INVALID_MESSAGE);
    }
    return Success(ascii);
  }

  /** Lines 56-60: the labels are checked in order and the first refused
      one stops the loop. */
  method CheckLabels(labels: seq<string>) returns (accepted: bool)
    ensures accepted <==> forall j :: 0 <= j < |labels| ==> LabelAccepted(labels[j])
  {
    var i := 0;
    while i < |labels|
      invariant 0 <= i <= |labels|
      invariant forall j :: 0 <= j < i ==> LabelAccepted(labels[j])
    {
      var lab := labels[i];
      if !MatchesLabelRe(lab) {
        return false;
      }
      if StartsWith(lab, "-") || EndsWith(lab, "-") {
        return false;
      }
      i := i + 1;
    }
    return true;
  }

  /** What the codecs do to a name already in the output format: nothing. */
  ghost predicate KeepsFqdns(c: Codecs)
  {
    forall name :: IsFqdn(name) ==> c.hostname("//" + name) == Success(Some(name)) && c.toAscii(name) == Some(name)
  }

  /** A returned name has at least two labels, each of 1 to 63 characters of
      `a-z`, `0-9`, `-` (Python's `$` letting one trailing newline through),
      none starting or ending with `-`, and at most 253 characters in all; a
      returned name without a newline is in the output format. */
  lemma NormalizedShape(c: Codecs, value: string)
    requires Normalize(c, value).Success?
    ensures var name := Normalize(c, value).value; var labels := Split(name, '.');
      && |labels| >= 2
      && |name| <= MAX_DOMAIN_LENGTH
      && (forall i :: 0 <= i < |labels| ==> LabelAccepted(labels[i]))
      && ('\n' !in name ==> IsFqdn(name))
  {
    var candidate := Candidate(c, Prepare(value)).value;
    var ascii := c.toAscii(candidate).value;
    assert Normalize(c, value) == Validate(ascii);
    ValidatedShape(ascii);
  }

  /** The same for the checks of lines 52-65 alone. */
  lemma ValidatedShape(name: string)
    requires Validate(name).Success?
    ensures Validate(name).value == name
    ensures var labels := Split(name, '.');
      && |labels| >= 2
      && |name| <= MAX_DOMAIN_LENGTH
      && (forall i :: 0 <= i < |labels| ==> LabelAccepted(labels[i]))
      && ('\n' !in name ==> IsFqdn(name))
  {
    var labels := Split(name, '.');
    assert forall i :: 0 <= i < |labels| ==> LabelAccepted(labels[i]);
    if '\n' !in name {
      forall i | 0 <= i < |labels|
        ensures IsLdhLabel(labels[i])
      {
        AcceptedWithoutNewline(labels, i);
      }
    }
  }

  /** An accepted label of a name without a newline is an LDH label. */
  lemma AcceptedWithoutNewline(labels: seq<string>, i: nat)
    requires i < |labels| && LabelAccepted(labels[i]) && '\n' !in Join(labels, ".")
    ensures IsLdhLabel(labels[i])
  {
    var lab := labels[i];
    if !IsLdhRun(lab) {
      PartCharInJoin(labels, i, lab[|lab| - 1]);
      assert false;
    }
    AcceptedLdh(lab);
  }

  /** The hyphen checks of line 59 on an LDH run. */
  lemma AcceptedLdh(lab: string)
    requires IsLdhRun(lab) && !StartsWith(lab, "-") && !EndsWith(lab, "-")
    ensures IsLdhLabel(lab)
  {
    assert lab[..1] == [lab[0]];
    assert lab[|lab| - 1..] == [lab[|lab| - 1]];
  }

  /** A character of one part is a character of the parts joined with dots. */
  lemma PartCharInJoin(labels: seq<string>, i: nat, ch: char)
    requires i < |labels| && ch in labels[i]
    ensures ch == '.' || ch in Join(labels, ".")
  {
    if |labels| > 1 {
      var rest := Join(labels[1..], ".");
      assert Join(labels, ".") == labels[0] + "." + rest;
      if i > 0 {
        PartCharInJoin(labels[1..], i - 1, ch);
      }
    }
  }

  /** Every character of a name in the output format is an LDH character or a dot. */
  lemma FqdnChars(name: string)
    requires IsFqdn(name)
    ensures forall i :: 0 <= i < |name| ==> IsLdhChar(name[i]) || name[i] == '.'
  {
    var labels := Split(name, '.');
    forall i | 0 <= i < |name|
      ensures IsLdhChar(name[i]) || name[i] == '.'
    {
      JoinChars(labels, '.', i);
      if name[i] != '.' {
        var j, k :| 0 <= j < |labels| && 0 <= k < |labels[j]| && labels[j][k] == name[i];
        assert IsLdhLabel(labels[j]);
      }
    }
  }

  /** A name in the output format comes through line 38 unchanged. */
  lemma PrepareFqdn(name: string)
    requires IsFqdn(name)
    ensures Prepare(name) == name && name != ""
  {
    FqdnChars(name);
    var labels := Split(name, '.');
    assert IsLdhLabel(labels[|labels| - 1]);
    JoinLastChar(labels, ".");
    PrepareUnchanged(name);
  }

  /** Line 38 changes nothing in a string with no whitespace or dot at its
      ends and no upper-case ASCII letter. */
  lemma PrepareUnchanged(s: string)
    requires s != [] && !IsSpace(s[0]) && !IsSpace(s[|s| - 1]) && s[|s| - 1] != '.'
    requires forall i :: 0 <= i < |s| ==> !('A' <= s[i] <= 'Z')
    ensures Prepare(s) == s
  {
    assert TrimStart(s) == s;
    assert TrimEnd(s) == s;
    assert RStrip(s, '.') == s;
    LowerOfLowercase(s);
  }

  /** `lower()` leaves a string without upper-case ASCII letters alone. */
  lemma LowerOfLowercase(s: string)
    requires forall i :: 0 <= i < |s| ==> !('A' <= s[i] <= 'Z')
    ensures Lower(s) == s
  {
    assert forall i :: 0 <= i < |s| ==> Lower(s)[i] == s[i];
  }

  /** Idempotence: a name the normaliser returns (without a newline) is
      returned unchanged when normalised again, given codecs that leave names
      in the output format alone. */
  lemma {:induction false} NormalizeIdempotent(c: Codecs, value: string)
    requires KeepsFqdns(c)
    requires Normalize(c, value).Success? && '\n' !in Normalize(c, value).value
    ensures Normalize(c, Normalize(c, value).value) == Normalize(c, value)
  {
    var name := Normalize(c, value).value;
    NormalizedShape(c, value);
    NormalizeFqdn(c, name);
  }

  /** Completeness: every name in the output format normalises to itself. */
  lemma NormalizeFqdn(c: Codecs, name: string)
    requires KeepsFqdns(c) && IsFqdn(name)
    ensures Normalize(c, name) == Success(name)
  {
    PrepareFqdn(name);
    NoSchemeInFqdn(name);
    assert HostUrl(name) == "//" + name;
    assert Candidate(c, name) == Success(name);
    ValidateFqdn(name);
  }

  lemma NoSchemeInFqdn(name: string)
    requires IsFqdn(name)
    ensures !Contains(name, "://")
  {
    FqdnChars(name);
    if Contains(name, "://") {
      ContainsFirstChar(name, "://");
      assert false;
    }
  }

  /** The checks of lines 52-65 accept every name in the output format. */
  lemma ValidateFqdn(name: string)
    requires IsFqdn(name)
    ensures Validate(name) == Success(name)
  {
    var labels := Split(name, '.');
    forall i | 0 <= i < |labels|
      ensures LabelAccepted(labels[i])
    {
      assert IsLdhLabel(labels[i]);
    }
  }

  /** "Domain is empty" is raised for input that is empty after line 38, and
      otherwise only if `urlparse` itself raised that message. */
  lemma EmptyMessage(c: Codecs, value: string)
    ensures Prepare(value) == "" ==> Normalize(c, value) == Failure(EMPTY_MESSAGE)
    ensures Normalize(c, value) == Failure(EMPTY_MESSAGE) ==>
      Prepare(value) == "" || c.hostname(HostUrl(Prepare(value))) == Failure(EMPTY_MESSAGE)
  {
  }

  /** A host with no dot after IDNA encoding is refused for lacking a TLD. */
  lemma SingleLabelHasNoTld(c: Codecs, value: string, ascii: string)
    requires Prepare(value) != ""
    requires Candidate(c, Prepare(value)).Success?
    requires c.toAscii(Candidate(c, Prepare(value)).value) == Some(ascii)
    requires '.' !in ascii
    ensures Normalize(c, value) == Failure(NO_TLD_MESSAGE)
  {
  }

  /** No scheme separator can occur in a string without a colon. */
  lemma NoColonNoScheme(s: string)
    requires ':' !in s
    ensures !Contains(s, "://")
  {
    if Contains(s, "://") {
      ContainsFirstChar(s, "://");
      assert false;
    }
  }

  /** The pipeline of lines 38-50, from the prepared input to the IDNA output. */
  lemma NormalizeVia(c: Codecs, value: string, raw: string, candidate: string, ascii: string)
    requires Prepare(value) == raw && raw != ""
    requires Candidate(c, raw) == Success(candidate) && c.toAscii(candidate) == Some(ascii)
    ensures Normalize(c, value) == Validate(ascii)
  {
  }

  /** A host-only input is looked up as `//` followed by itself. */
  lemma HostOnly(c: Codecs, raw: string)
    requires ':' !in raw && raw != ""
    requires c.hostname("//" + raw) == Success(Some(raw))
    ensures Candidate(c, raw) == Success(raw)
  {
    NoColonNoScheme(raw);
  }

  /** Letter case and trailing dots do not matter: any spelling of a name in
      the output format, in any mix of cases and followed by any number of
      dots, normalises to that name. */
  lemma CaseAndTrailingDots(c: Codecs, spelling: string, dots: string, name: string)
    requires KeepsFqdns(c) && IsFqdn(name) && Lower(spelling) == name
    requires forall i :: 0 <= i < |dots| ==> dots[i] == '.'
    ensures Normalize(c, spelling + dots) == Success(name)
  {
    PreparedSpelling(spelling, dots, name);
    PreparedToFqdn(c, spelling + dots, name);
  }

  /** An input that line 38 turns into a name in the output format
      normalises to that name. */
  lemma PreparedToFqdn(c: Codecs, v: string, name: string)
    requires KeepsFqdns(c) && IsFqdn(name) && Prepare(v) == name
    ensures Normalize(c, v) == Success(name)
  {
    PrepareFqdn(name);
    NormalizeFqdn(c, name);
    SamePrepared(c, v, name);
  }

  /** The normaliser sees its input only through line 38. */
  lemma SamePrepared(c: Codecs, v: string, w: string)
    requires Prepare(v) == Prepare(w)
    ensures Normalize(c, v) == Normalize(c, w)
  {
  }

  /** Line 38 on a spelling of a name followed by dots gives the name. */
  lemma PreparedSpelling(spelling: string, dots: string, name: string)
    requires IsFqdn(name) && Lower(spelling) == name
    requires forall i :: 0 <= i < |dots| ==> dots[i] == '.'
    ensures Prepare(spelling + dots) == name
  {
    SpellingEnds(spelling, name);
    var s := spelling + dots;
    assert s[0] == spelling[0];
    if dots == [] {
      assert s == spelling;
    } else {
      assert s[|s| - 1] == '.';
    }
    NoSpaceAtEnds(s);
    RStripDots(spelling, dots, '.');
    assert Strip(s) == s;
  }

  /** A spelling of a name in the output format starts and ends with a
      letter, digit or hyphen in some case, so neither end is whitespace
      and it does not end with a dot. */
  lemma SpellingEnds(spelling: string, name: string)
    requires IsFqdn(name) && Lower(spelling) == name
    ensures spelling != [] && !IsSpace(spelling[0]) && !IsSpace(spelling[|spelling| - 1]) && spelling[|spelling| - 1] != '.'
  {
    FqdnChars(name);
    FqdnLastChar(name);
    var n := |spelling|;
    assert LowerChar(spelling[0]) == name[0];
    assert LowerChar(spelling[n - 1]) == name[n - 1];
  }

  /** The last character of a name in the output format is a letter, digit or hyphen. */
  lemma FqdnLastChar(name: string)
    requires IsFqdn(name)
    ensures name != [] && IsLdhChar(name[|name| - 1])
  {
    var labels := Split(name, '.');
    assert IsLdhLabel(labels[|labels| - 1]);
    JoinLastChar(labels, ".");
  }

  /** `rstrip(ch)` removes every one of a run of trailing `ch`. */
  lemma {:induction false} RStripDots(a: string, dots: string, ch: char)
    requires a != [] && a[|a| - 1] != ch
    requires forall i :: 0 <= i < |dots| ==> dots[i] == ch
    ensures RStrip(a + dots, ch) == a
    decreases |dots|
  {
    if dots == [] {
      assert a + dots == a;
    } else {
      var shorter := dots[..|dots| - 1];
      assert (a + dots)[..|a + dots| - 1] == a + shorter;
      RStripDots(a, shorter, ch);
    }
  }

  /** A URL is reduced to its host: input with a scheme separator is parsed
      as it is, and a host in the output format is the result. */
  lemma UrlReducedToHost(c: Codecs, value: string, name: string)
    requires KeepsFqdns(c) && IsFqdn(name)
    requires Contains(Prepare(value), "://") && c.hostname(Prepare(value)) == Success(Some(name))
    ensures Normalize(c, value) == Success(name)
  {
    PrepareFqdn(name);
    ValidateFqdn(name);
    assert Prepare(value) != "";
  }

  /** A label holding a character outside `a-z`, `0-9`, `-` (other than the
      one trailing newline Python's `$` admits) is refused. */
  lemma ForeignCharRefused(lab: string, k: nat)
    requires k < |lab| && !IsLdhChar(lab[k]) && lab[k] != '\n'
    ensures !LabelAccepted(lab)
  {
    if |lab| >= 2 && k < |lab| - 1 {
      assert lab[..|lab| - 1][k] == lab[k];
    }
  }

  /** So a name with such a label among two or more is invalid, whatever
      its other labels are. */
  lemma ForeignCharInvalid(ascii: string, i: nat, k: nat)
    requires |Split(ascii, '.')| >= 2 && i < |Split(ascii, '.')|
    requires k < |Split(ascii, '.')[i]| && !IsLdhChar(Split(ascii, '.')[i][k]) && Split(ascii, '.')[i][k] != '\n'
    ensures Validate(ascii) == Failure(INVALID_MESSAGE)
  {
    ForeignCharRefused(Split(ascii, '.')[i], k);
  }

  /** `strip()` leaves a string with no whitespace at either end alone. */
  lemma NoSpaceAtEnds(s: string)
    requires s != [] && !IsSpace(s[0]) && !IsSpace(s[|s| - 1])
    ensures Strip(s) == s
  {
    assert TrimStart(s) == s;
  }

  /** Two LDH labels joined by a dot form a name in the output format. */
  lemma TwoLabels(a: string, b: string)
    requires IsLdhLabel(a) && IsLdhLabel(b) && '.' !in a && '.' !in b && |a| + |b| < MAX_DOMAIN_LENGTH
    ensures IsFqdn(a + "." + b)
  {
    SplitFirst(a, b, '.');
  }

  /** A refused first label makes a two-label name invalid. */
  lemma FirstLabelRefused(a: string, b: string)
    requires '.' !in a && '.' !in b && !LabelAccepted(a)
    ensures Validate(a + "." + b) == Failure(INVALID_MESSAGE)
  {
    SplitFirst(a, b, '.');
    assert Split(a + "." + b, '.')[0] == a;
  }
}
