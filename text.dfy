/** The Python `str` operations the domain checker uses, on `seq<char>`. */
module Text {

  /** Python's `str.isspace()`: the characters `str.strip()` removes. */
  predicate IsSpace(c: char)
  {
    ('\t' <= c <= '\r') || ('\U{1C}' <= c <= '\U{1F}') || c == ' ' || c == '\U{85}' || c == '\U{A0}'
    || c == '\U{1680}' || ('\U{2000}' <= c <= '\U{200A}') || c == '\U{2028}' || c == '\U{2029}'
    || c == '\U{202F}' || c == '\U{205F}' || c == '\U{3000}'
  }

  function TrimStart(s: string): (r: string)
    ensures |r| <= |s| && r == s[|s| - |r|..]
    ensures r == [] || !IsSpace(r[0])
    ensures forall i :: 0 <= i < |s| - |r| ==> IsSpace(s[i])
  {
    if s != [] && IsSpace(s[0]) then TrimStart(s[1..]) else s
  }

  function TrimEnd(s: string): (r: string)
    ensures |r| <= |s| && r == s[..|r|]
    ensures r == [] || !IsSpace(r[|r| - 1])
    ensures forall i :: |r| <= i < |s| ==> IsSpace(s[i])
  {
    if s != [] && IsSpace(s[|s| - 1]) then TrimEnd(s[..|s| - 1]) else s
  }

  /** `s.strip()`: whitespace removed from both ends. */
  function Strip(s: string): string
  {
    TrimEnd(TrimStart(s))
  }

  /** `s.rstrip(c)`: every trailing `c` removed, not just one. */
  function RStrip(s: string, c: char): (r: string)
    ensures |r| <= |s| && r == s[..|r|]
    ensures r == [] || r[|r| - 1] != c
    ensures forall i :: |r| <= i < |s| ==> s[i] == c
  {
    if s != [] && s[|s| - 1] == c then RStrip(s[..|s| - 1], c) else s
  }

  /** `str.lower()` on one character; only ASCII letters are mapped. */
  function LowerChar(c: char): char
  {
    if 'A' <= c <= 'Z' then (c as int + 32) as char else c
  }

  function Lower(s: string): (r: string)
    ensures |r| == |s|
    ensures forall i :: 0 <= i < |s| ==> r[i] == LowerChar(s[i])
  {
    seq(|s|, i requires 0 <= i < |s| => LowerChar(s[i]))
  }

  lemma LowerConcat(a: string, b: string)
    ensures Lower(a + b) == Lower(a) + Lower(b)
  {
    assert forall i :: 0 <= i < |a + b| ==> Lower(a + b)[i] == (Lower(a) + Lower(b))[i];
  }

  predicate StartsWith(s: string, p: string)
  {
    |p| <= |s| && s[..|p|] == p
  }

  predicate EndsWith(s: string, p: string)
  {
    |p| <= |s| && s[|s| - |p|..] == p
  }

  /** `sub in s`. */
  predicate Contains(s: string, sub: string)
    decreases |s|
  {
    StartsWith(s, sub) || (s != [] && Contains(s[1..], sub))
  }

  /** A non-empty `sub` can only occur in `s` if its first character does. */
  lemma {:induction false} ContainsFirstChar(s: string, sub: string)
    requires sub != [] && Contains(s, sub)
    ensures sub[0] in s
    decreases |s|
  {
    if StartsWith(s, sub) {
      assert s[0] == sub[0];
    } else {
      ContainsFirstChar(s[1..], sub);
      assert sub[0] in s[1..];
    }
  }

  /** An occurrence at position `k` makes `sub in s` true. */
  lemma {:induction false} ContainsAt(s: string, sub: string, k: nat)
    requires k <= |s| && StartsWith(s[k..], sub)
    ensures Contains(s, sub)
    decreases k
  {
    if k > 0 {
      assert s[1..][k - 1..] == s[k..];
      ContainsAt(s[1..], sub, k - 1);
    }
  }

  /** A part that contains `sub` makes the joined text contain it. */
  lemma {:induction false} JoinKeepsParts(parts: seq<string>, sep: string, k: nat, sub: string)
    requires k < |parts| && Contains(parts[k], sub)
    ensures Contains(Join(parts, sep), sub)
    decreases k
  {
    if |parts| > 1 {
      var rest := Join(parts[1..], sep);
      assert Join(parts, sep) == parts[0] + (sep + rest);
      if k == 0 {
        ContainsPrefix(parts[0], sep + rest, sub);
      } else {
        JoinKeepsParts(parts[1..], sep, k - 1, sub);
        ContainsSuffix(parts[0] + sep, rest, sub);
        assert parts[0] + sep + rest == parts[0] + (sep + rest);
      }
    }
  }

  lemma {:induction false} ContainsPrefix(a: string, b: string, sub: string)
    requires Contains(a, sub)
    ensures Contains(a + b, sub)
    decreases |a|
  {
    if StartsWith(a, sub) {
      assert (a + b)[..|sub|] == a[..|sub|];
    } else {
      ContainsPrefix(a[1..], b, sub);
      assert (a + b)[1..] == a[1..] + b;
    }
  }

  lemma {:induction false} ContainsSuffix(a: string, b: string, sub: string)
    requires Contains(b, sub)
    ensures Contains(a + b, sub)
    decreases |a|
  {
    if a == [] {
      assert a + b == b;
    } else {
      ContainsSuffix(a[1..], b, sub);
      assert (a + b)[1..] == a[1..] + b;
    }
  }

  /** `sub in s` names a position where `sub` occurs. */
  lemma {:induction false} ContainsWitness(s: string, sub: string) returns (k: nat)
    requires Contains(s, sub)
    ensures k + |sub| <= |s| && s[k..k + |sub|] == sub
    decreases |s|
  {
    if StartsWith(s, sub) {
      k := 0;
    } else {
      var k' := ContainsWitness(s[1..], sub);
      k := k' + 1;
      assert s[k..k + |sub|] == s[1..][k'..k' + |sub|];
    }
  }

  /** Containment is transitive. */
  lemma ContainsTrans(a: string, b: string, c: string)
    requires Contains(a, b) && Contains(b, c)
    ensures Contains(a, c)
  {
    var i := ContainsWitness(a, b);
    var j := ContainsWitness(b, c);
    assert b == a[i..i + |b|];
    var x := a[i + j..][..|c|];
    var y := b[j..j + |c|];
    forall m | 0 <= m < |c|
      ensures x[m] == y[m]
    {
      assert x[m] == a[i + j + m] && y[m] == b[j + m];
    }
    assert x == y;
    ContainsAt(a, c, i + j);
  }

  /** Lower-casing keeps an occurrence, lower-cased. */
  lemma LowerContains(s: string, sub: string)
    requires Contains(s, sub)
    ensures Contains(Lower(s), Lower(sub))
  {
    var k := ContainsWitness(s, sub);
    assert Lower(s)[k..][..|sub|] == Lower(sub);
    ContainsAt(Lower(s), Lower(sub), k);
  }

  /** The first position of `c` in `s`. */
  function IndexOf(s: string, c: char): (k: nat)
    requires c in s
    ensures k < |s| && s[k] == c && c !in s[..k]
  {
    if s[0] == c then 0 else 1 + IndexOf(s[1..], c)
  }

  /** `sep.join(parts)`. */
  function Join(parts: seq<string>, sep: string): string
  {
    if |parts| == 0 then "" else if |parts| == 1 then parts[0] else parts[0] + sep + Join(parts[1..], sep)
  }

  /** `s.split(sep)`: always at least one part, no part contains `sep`, and
      joining the parts back with `sep` gives `s`. */
  function Split(s: string, sep: char): (parts: seq<string>)
    ensures |parts| >= 1
    ensures forall i :: 0 <= i < |parts| ==> sep !in parts[i]
    ensures Join(parts, [sep]) == s
    decreases |s|
  {
    if sep !in s then [s]
    else
      var k := IndexOf(s, sep);
      var rest := Split(s[k + 1..], sep);
      assert s == s[..k] + [sep] + s[k + 1..];
      [s[..k]] + rest
  }

  /** Splitting at the first separator: `(a + sep + b).split(sep) == [a] + b.split(sep)`. */
  lemma SplitFirst(a: string, b: string, sep: char)
    requires sep !in a
    ensures Split(a + [sep] + b, sep) == [a] + Split(b, sep)
  {
    var s := a + [sep] + b;
    assert s[|a|] == sep;
    var k := IndexOf(s, sep);
    assert forall i :: 0 <= i < |a| ==> s[i] == a[i];
    assert forall i :: 0 <= i < k ==> s[..k][i] == s[i];
    assert k == |a|;
    assert s[..k] == a;
    assert s[k + 1..] == b;
    assert Split(s, sep) == [s[..k]] + Split(s[k + 1..], sep);
  }

  /** Every character of `Join(parts, [sep])` is `sep` or a character of some part. */
  lemma {:induction false} JoinChars(parts: seq<string>, sep: char, i: nat)
    requires i < |Join(parts, [sep])|
    ensures Join(parts, [sep])[i] == sep || exists j, k :: 0 <= j < |parts| && 0 <= k < |parts[j]| && parts[j][k] == Join(parts, [sep])[i]
  {
    var joined := Join(parts, [sep]);
    if |parts| == 1 {
      assert parts[0][i] == joined[i];
    } else if |parts| > 1 {
      var rest := Join(parts[1..], [sep]);
      assert joined == parts[0] + [sep] + rest;
      if i < |parts[0]| {
        assert parts[0][i] == joined[i];
      } else if i > |parts[0]| {
        var i' := i - |parts[0]| - 1;
        assert joined[i] == rest[i'];
        JoinChars(parts[1..], sep, i');
        if rest[i'] != sep {
          var j, k :| 0 <= j < |parts[1..]| && 0 <= k < |parts[1..][j]| && parts[1..][j][k] == rest[i'];
          assert parts[j + 1][k] == joined[i];
        }
      }
    }
  }

  /** A join whose last part is non-empty ends with that part's last character. */
  lemma {:induction false} JoinLastChar(parts: seq<string>, sep: string)
    requires |parts| >= 1 && parts[|parts| - 1] != []
    ensures var joined := Join(parts, sep); |joined| > 0 && joined[|joined| - 1] == parts[|parts| - 1][|parts[|parts| - 1]| - 1]
  {
    if |parts| > 1 {
      JoinLastChar(parts[1..], sep);
    }
  }

  /** `s.rsplit(sep, 1)[-1]`: the text after the last `sep`, or all of `s`. */
  function AfterLast(s: string, sep: char): (r: string)
    ensures sep !in r && EndsWith(s, r)
    ensures sep !in s ==> r == s
    ensures sep in s ==> |r| < |s| && s[|s| - |r| - 1] == sep
  {
    var parts := Split(s, sep);
    LastPartIsSuffix(parts, [sep]);
    parts[|parts| - 1]
  }

  lemma {:induction false} LastPartIsSuffix(parts: seq<string>, sep: string)
    requires |parts| >= 1
    ensures EndsWith(Join(parts, sep), parts[|parts| - 1])
    ensures |parts| > 1 && sep != [] ==>
      var joined := Join(parts, sep); var last := parts[|parts| - 1];
      |joined| > |last| && joined[|joined| - |last| - 1] == sep[|sep| - 1]
  {
    if |parts| > 1 {
      LastPartIsSuffix(parts[1..], sep);
      var rest := Join(parts[1..], sep);
      var head := parts[0] + sep;
      assert Join(parts, sep) == head + rest;
      if sep != [] {
        var last := parts[|parts| - 1];
        var joined := head + rest;
        if |parts| == 2 {
          assert rest == last;
          assert joined[|joined| - |last| - 1] == head[|head| - 1];
        } else {
          assert joined[|joined| - |last| - 1] == rest[|rest| - |last| - 1];
        }
      }
    }
  }

  function DigitChar(d: nat): char
    requires d < 10
  {
    "0123456789"[d]
  }

  function NatToString(n: nat): (r: string)
    ensures r != []
    ensures forall i :: 0 <= i < |r| ==> '0' <= r[i] <= '9'
  {
    if n < 10 then [DigitChar(n)] else NatToString(n / 10) + [DigitChar(n % 10)]
  }

  /** `str(i)` for a Python `int`. */
  function IntToString(i: int): string
  {
    if i < 0 then "-" + NatToString(-i) else NatToString(i)
  }

  /** The characters `urllib.parse.quote` leaves alone with its default `safe='/'`. */
  predicate IsQuoteSafe(c: char)
  {
    'a' <= c <= 'z' || 'A' <= c <= 'Z' || '0' <= c <= '9' || c == '_' || c == '.' || c == '-' || c == '~' || c == '/'
  }

  /** The UTF-8 encoding of one code point. */
  function Utf8(c: char): (bytes: seq<nat>)
    ensures 1 <= |bytes| <= 4
    ensures forall i :: 0 <= i < |bytes| ==> bytes[i] < 256
  {
    var n := c as int;
    if n < 0x80 then [n]
    else if n < 0x800 then [0xC0 + n / 0x40, 0x80 + n % 0x40]
    else if n < 0x10000 then [0xE0 + n / 0x1000, 0x80 + (n / 0x40) % 0x40, 0x80 + n % 0x40]
    else [0xF0 + n / 0x40000, 0x80 + (n / 0x1000) % 0x40, 0x80 + (n / 0x40) % 0x40, 0x80 + n % 0x40]
  }

  /** `%XX` with upper-case hex digits, as `quote` writes them. */
  function PercentEncode(bytes: seq<nat>): string
    requires forall i :: 0 <= i < |bytes| ==> bytes[i] < 256
  {
    if bytes == [] then ""
    else ['%', "0123456789ABCDEF"[bytes[0] / 16], "0123456789ABCDEF"[bytes[0] % 16]] + PercentEncode(bytes[1..])
  }

  /** `urllib.parse.quote(s)`: every unsafe character replaced by its percent-encoded UTF-8 bytes. */
  function Quote(s: string): string
  {
    if s == [] then "" else (if IsQuoteSafe(s[0]) then [s[0]] else PercentEncode(Utf8(s[0]))) + Quote(s[1..])
  }

  /** `quote` changes nothing in a string made only of safe characters. */
  lemma {:induction false} QuoteSafe(s: string)
    requires forall i :: 0 <= i < |s| ==> IsQuoteSafe(s[i])
    ensures Quote(s) == s
  {
    if s != [] {
      QuoteSafe(s[1..]);
    }
  }

  const HEX_DIGITS := "0123456789abcdef"

  /** The quote `repr` puts around a string: a double quote when the text
      holds a single quote and no double quote, a single quote otherwise. */
  function ReprQuote(s: string): char
  {
    if '\'' in s && '"' !in s then '"' else '\''
  }

  /** One character as `repr` writes it inside quotes `q`. */
  function EscapeChar(c: char, q: char): string
  {
    if c == q || c == '\\' then ['\\', c]
    else if c == '\t' then "\\t"
    else if c == '\n' then "\\n"
    else if c == '\r' then "\\r"
    else if c < ' ' || c == '\U{7F}' then ['\\', 'x', HEX_DIGITS[c as int / 16], HEX_DIGITS[c as int % 16]]
    else [c]
  }

  function Escape(s: string, q: char): string
  {
    if s == [] then "" else EscapeChar(s[0], q) + Escape(s[1..], q)
  }

  /** `repr(s)` of a Python `str`. */
  function Repr(s: string): (r: string)
    ensures |r| >= 2 && r[0] == r[|r| - 1] == ReprQuote(s)
  {
    var q := ReprQuote(s);
    [q] + Escape(s, q) + [q]
  }

  /** A string of printable ASCII without quote or backslash is written
      between single quotes as it is. */
  lemma {:induction false} ReprPlain(s: string)
    requires forall i :: 0 <= i < |s| ==> ' ' <= s[i] <= '~' && s[i] != '\'' && s[i] != '\\'
    ensures Repr(s) == "'" + s + "'"
  {
    assert '\'' !in s;
    EscapePlain(s);
  }

  lemma {:induction false} EscapePlain(s: string)
    requires forall i :: 0 <= i < |s| ==> ' ' <= s[i] <= '~' && s[i] != '\'' && s[i] != '\\'
    ensures Escape(s, '\'') == s
  {
    if s != [] {
      EscapePlain(s[1..]);
    }
  }
}
