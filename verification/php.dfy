/**
 * `Php::isEncoded`: does a string look like the output of PHP's `serialize`?
 *
 * The check trims the string, accepts `N;`, and otherwise reads a one-letter
 * type tag and a colon. The tags `a`, `O` and `s` (array, object, string) need
 * the pattern `^X:[0-9]+:.*[;}]$` in which the dot also matches line breaks;
 * the tags `b`, `i` and `d` (boolean, integer, float) need `^X:[0-9.E-]+;$`.
 * Trimming removes trailing line breaks, so `$` can only match at the very end.
 */
module Php {
  import opened PhpStrings
  import opened PhpValues

  /** The tags whose payload is a length, a colon and a body. */
  const SizedTags: set<char> := {'a', 'O', 's'}

  /** The tags whose payload is a number. */
  const NumberTags: set<char> := {'b', 'i', 'd'}

  /** The characters of `[0-9.E-]`. */
  const NumberChars: set<char> := {'0', '1', '2', '3', '4', '5', '6', '7', '8', '9', '.', 'E', '-'}

  /** The length of the run of decimal digits that `s` starts with. */
  function LeadingDigits(s: string): (n: nat)
    ensures n <= |s| && AllDigits(s[..n])
    ensures n < |s| ==> !IsDigit(s[n])
    decreases |s|
  {
    if s != [] && IsDigit(s[0]) then
      var n := 1 + LeadingDigits(s[1..]);
      assert s[..n] == [s[0]] + s[1..][..n - 1];
      n
    else 0
  }

  /** `[0-9]+:.*[;}]$` on what follows `X:`, read left to right: the digits,
      then a colon, then at least one character, the last being `;` or `}`. */
  predicate Sized(rest: string) {
    var n := LeadingDigits(rest);
    n >= 1 && n + 1 < |rest| && rest[n] == ':' && rest[|rest| - 1] in {';', '}'}
  }

  /** The same pattern as the set of strings it matches: some non-empty digit
      string, a colon, anything, and a final `;` or `}`. */
  ghost predicate SizedShape(rest: string) {
    exists i :: 1 <= i && i + 1 < |rest| && CtypeDigit(rest[..i]) && rest[i] == ':' && rest[|rest| - 1] in {';', '}'}
  }

  /** `[0-9.E-]+;$` on what follows `X:`. */
  predicate Numeric(rest: string) {
    |rest| >= 2 && rest[|rest| - 1] == ';' && AllIn(rest[..|rest| - 1], NumberChars)
  }

  /** The checks after trimming. */
  predicate Encoded(t: string) {
    || t == "N;"
    || (|t| >= 2 && t[1] == ':' && t[0] in SizedTags && Sized(t[2..]))
    || (|t| >= 2 && t[1] == ':' && t[0] in NumberTags && Numeric(t[2..]))
  }

  /** `isEncoded($data)`: only strings can be encoded, and an encoded string
      ends, once trimmed, with `;` or `}`. */
  predicate IsEncoded(v: Value): (r: bool)
    ensures r ==> v.Str? && |Trim(v.s)| >= 2 && Trim(v.s)[|Trim(v.s)| - 1] in {';', '}'}
  {
    v.Str? && Encoded(Trim(v.s))
  }

  /** The leading digit run is the only digit prefix followed by a non-digit. */
  lemma LeadingDigitsUnique(s: string, i: nat)
    requires i < |s| && AllDigits(s[..i]) && !IsDigit(s[i])
    ensures LeadingDigits(s) == i
  {
    var n := LeadingDigits(s);
    assert forall j :: 0 <= j < i ==> s[..i][j] == s[j];
    assert forall j :: 0 <= j < n ==> s[..n][j] == s[j];
  }

  /** The left-to-right reading of the sized pattern accepts exactly the strings
      the pattern matches. */
  lemma SizedMatchesPattern(rest: string)
    ensures Sized(rest) <==> SizedShape(rest)
  {
    if SizedShape(rest) {
      var i :| 1 <= i && i + 1 < |rest| && CtypeDigit(rest[..i]) && rest[i] == ':' && rest[|rest| - 1] in {';', '}'};
      LeadingDigitsUnique(rest, i);
    }
    if Sized(rest) {
      var n := LeadingDigits(rest);
      assert CtypeDigit(rest[..n]);
    }
  }

  /** Anything but a string is not encoded. */
  lemma OnlyStrings(v: Value)
    requires !v.Str?
    ensures !IsEncoded(v)
  {
  }

  /** Whitespace around the string does not change the answer. */
  lemma IgnoresPadding(w1: string, s: string, w2: string)
    requires AllIn(w1, TrimChars) && AllIn(w2, TrimChars)
    ensures IsEncoded(Str(w1 + s + w2)) == IsEncoded(Str(s))
  {
    TrimIgnoresPadding(w1, s, w2);
  }

  /** An accepted string is, once trimmed, `N;` or starts with a known tag and a colon. */
  lemma NeedsTag(s: string)
    requires IsEncoded(Str(s))
    ensures var t := Trim(s);
      t == "N;" || (|t| >= 2 && t[0] in {'a', 'd', 'O', 'b', 'i', 's'} && t[1] == ':')
  {
  }

  /** The whole condition as patterns: a trimmed `N;`, a sized form
      or a numeric form. */
  lemma EncodedIff(s: string)
    ensures var t := Trim(s);
      IsEncoded(Str(s)) <==>
        || t == "N;"
        || (|t| >= 2 && t[1] == ':' && t[0] in SizedTags && SizedShape(t[2..]))
        || (|t| >= 2 && t[1] == ':' && t[0] in NumberTags && Numeric(t[2..]))
  {
    var t := Trim(s);
    if |t| >= 2 {
      SizedMatchesPattern(t[2..]);
    }
  }

  /** PHP's `serialize` of the values modelled here (the length of a string is
      its number of characters). */
  function Serialize(v: Value): (r: string)
    ensures |r| >= 2 && r[0] in {'N', 'b', 'i', 's', 'a'} && r[|r| - 1] in {';', '}'}
    decreases Depth(v), 1
  {
    match v
    case Null => "N;"
    case Bool(b) => if b then "b:1;" else "b:0;"
    case Int(n) => "i:" + IntToString(n) + ";"
    case Str(s) => SerializeString(s)
    case Arr(es) => "a:" + NatToString(|es|) + ":{" + SerializeEntries(es, 0) + "}"
  }

  function SerializeString(s: string): (r: string)
    ensures |r| >= 2 && r[0] == 's' && r[|r| - 1] == ';'
  {
    "s:" + NatToString(|s|) + ":\"" + s + "\";"
  }

  function SerializeKey(k: Key): string {
    match k
    case IntKey(n) => "i:" + IntToString(n) + ";"
    case StrKey(s) => SerializeString(s)
  }

  /** The keys and values of the entries from `i` on, one after the other. */
  function SerializeEntries(es: seq<Entry>, i: nat): string
    requires i <= |es|
    decreases Depth(Arr(es)), 0, |es| - i
  {
    if i == |es| then ""
    else SerializeKey(es[i].key) + Serialize(es[i].val) + SerializeEntries(es, i + 1)
  }

  /** The characters of a decimal integer are allowed in the numeric form. */
  lemma IntToStringIsNumeric(n: int)
    ensures AllIn(IntToString(n), NumberChars)
  {
    var s := IntToString(n);
    var d := NatToString(if n < 0 then -n else n);
    forall i | 0 <= i < |d| ensures d[i] in NumberChars {
      assert IsDigit(d[i]);
    }
  }

  /** A sized form `X:<length>:<body>` followed by `;` or `}` is recognised. */
  lemma SizedForm(len: nat, body: string, last: char)
    requires last in {';', '}'}
    ensures Sized(NatToString(len) + ":" + body + [last])
  {
    var d := NatToString(len);
    var rest := d + ":" + body + [last];
    assert rest[..|d|] == d && rest[|d|] == ':';
    LeadingDigitsUnique(rest, |d|);
  }

  /** Everything `serialize` produces for these values is recognised: the
      check accepts what `Php::encode` writes. */
  lemma AcceptsSerialized(v: Value)
    ensures IsEncoded(Str(Serialize(v)))
  {
    SerializedIsTrimmed(v);
    if v.Bool? {
      AcceptsBool(v.b);
    } else if v.Int? {
      AcceptsInt(v.n);
    } else if v.Str? {
      AcceptsString(v.s);
    } else if v.Arr? {
      AcceptsArray(v.entries);
    }
  }

  lemma SerializedIsTrimmed(v: Value)
    ensures Trim(Serialize(v)) == Serialize(v)
  {
    var r := Serialize(v);
    assert r[0] !in TrimChars && r[|r| - 1] !in TrimChars;
    TrimOfTrimmed(r);
  }

  lemma AcceptsBool(b: bool)
    ensures Encoded(Serialize(Bool(b)))
  {
    var r := Serialize(Bool(b));
    assert r[2..][..1] == [if b then '1' else '0'];
  }

  lemma AcceptsInt(n: int)
    ensures Encoded(Serialize(Int(n)))
  {
    var s := IntToString(n);
    var r := Serialize(Int(n));
    IntToStringIsNumeric(n);
    assert r[2..] == s + ";";
    assert r[2..][..|s|] == s;
  }

  /** A sized tag, a colon and a sized form make an accepted string. */
  lemma SizedEncoded(tag: char, len: nat, body: string, last: char)
    requires tag in SizedTags && last in {';', '}'}
    ensures Encoded([tag, ':'] + (NatToString(len) + ":" + body + [last]))
  {
    var rest := NatToString(len) + ":" + body + [last];
    var t := [tag, ':'] + rest;
    assert t[0] == tag && t[1] == ':' && t[2..] == rest;
    SizedForm(len, body, last);
  }

  lemma AcceptsString(s: string)
    ensures Encoded(Serialize(Str(s)))
  {
    var d, body := NatToString(|s|), "\"" + s + "\"";
    assert Serialize(Str(s)) == ['s', ':'] + (d + ":" + body + [';']);
    SizedEncoded('s', |s|, body, ';');
  }

  lemma AcceptsArray(es: seq<Entry>)
    ensures Encoded(Serialize(Arr(es)))
  {
    var d, s := NatToString(|es|), SerializeEntries(es, 0);
    ArrayShape(d, s);
    SizedEncoded('a', |es|, "{" + s, '}');
  }

  lemma ArrayShape(d: string, s: string)
    ensures "a:" + d + ":{" + s + "}" == ['a', ':'] + (d + ":" + ("{" + s) + ['}'])
  {
  }

  /** A string with an unknown tag is refused. */
  lemma RejectsUnknownTag()
    ensures !IsEncoded(Str("x:1;"))
  {
    TrimOfTrimmed("x:1;");
  }

  /** A number form needs at least one character before the `;`. */
  lemma RejectsEmptyNumber()
    ensures !IsEncoded(Str("i:;"))
  {
    TrimOfTrimmed("i:;");
  }

  /** A number form must end with `;`. */
  lemma RejectsUnterminatedNumber()
    ensures !IsEncoded(Str("b:1"))
  {
    TrimOfTrimmed("b:1");
  }

  /** A sized form needs a body ending in `;` or `}` after the length. */
  lemma RejectsMissingBody()
    ensures !IsEncoded(Str("s:3:"))
  {
    TrimOfTrimmed("s:3:");
  }

  /** A sized form needs at least one digit of length. */
  lemma RejectsMissingLength()
    ensures !IsEncoded(Str("s::\"\";"))
  {
    var t := "s::\"\";";
    TrimOfTrimmed(t);
    assert t[2..][0] == ':';
  }
}
