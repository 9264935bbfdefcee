/**
 * The string primitives of PHP that the array and value helpers lean on:
 * `ctype_digit`, decimal conversion of integers, `trim`/`ltrim`/`rtrim`
 * with a character mask, and `explode`/`implode`.
 */
module PhpStrings {

  /** The characters `trim` strips when given no mask: space, tab, line feed,
      carriage return, NUL and vertical tab. */
  const TrimChars: set<char> := {' ', '\t', '\n', '\r', '\0', '\U{000B}'}

  predicate IsDigit(c: char) {
    '0' <= c <= '9'
  }

  predicate AllDigits(s: string) {
    forall i :: 0 <= i < |s| ==> IsDigit(s[i])
  }

  /** `ctype_digit` on a string: non-empty and made of decimal digits only. */
  predicate CtypeDigit(s: string) {
    |s| > 0 && AllDigits(s)
  }

  function DigitValue(c: char): (d: nat)
    requires IsDigit(c)
    ensures d < 10
  {
    (c as int) - ('0' as int)
  }

  function DigitChar(d: nat): (c: char)
    requires d < 10
    ensures IsDigit(c) && DigitValue(c) == d
  {
    (('0' as int) + d) as char
  }

  /** The number a string of decimal digits denotes (`(int)` of a digit string). */
  function DigitsValue(s: string): nat
    requires AllDigits(s)
    decreases |s|
  {
    if s == [] then 0 else 10 * DigitsValue(s[..|s| - 1]) + DigitValue(s[|s| - 1])
  }

  /** Decimal rendering of a natural number, as `(string)` and `sprintf('%s')` print it. */
  function NatToString(n: nat): (s: string)
    ensures CtypeDigit(s) && DigitsValue(s) == n
    ensures s[0] == '0' ==> s == "0"
    decreases n
  {
    if n < 10 then [DigitChar(n)]
    else
      var prefix := NatToString(n / 10);
      var s := prefix + [DigitChar(n % 10)];
      assert s[..|s| - 1] == prefix;
      s
  }

  /** Decimal rendering of an integer, with a leading minus sign when negative. */
  function IntToString(i: int): string {
    if i < 0 then "-" + NatToString(-i) else NatToString(i)
  }

  /** A canonical decimal integer: the strings PHP turns into integer array keys
      ("0", "17", "-3", but not "017", "-0", "+3" or "1.0"). */
  predicate IsCanonicalInt(s: string) {
    || (CtypeDigit(s) && (s[0] != '0' || |s| == 1))
    || (|s| >= 2 && s[0] == '-' && CtypeDigit(s[1..]) && s[1] != '0')
  }

  function ParseInt(s: string): int
    requires IsCanonicalInt(s)
  {
    if s[0] == '-' then -(DigitsValue(s[1..]) as int) else DigitsValue(s)
  }

  lemma {:induction false} DigitsValuePositive(s: string)
    requires CtypeDigit(s) && s[0] != '0'
    ensures DigitsValue(s) > 0
    decreases |s|
  {
    if |s| > 1 {
      DigitsValuePositive(s[..|s| - 1]);
    } else {
      assert s[..|s| - 1] == [];
    }
  }

  /** A digit string without a leading zero is worth more than any proper prefix of it. */
  lemma {:induction false} DigitsPrefixSmaller(s: string, n: nat)
    requires CtypeDigit(s) && s[0] != '0' && 0 < n < |s|
    ensures AllDigits(s[..n]) && DigitsValue(s[..n]) < DigitsValue(s)
    decreases |s|
  {
    var init := s[..|s| - 1];
    assert init[..n] == s[..n];
    DigitsValuePositive(s[..n]);
    if n < |s| - 1 {
      DigitsPrefixSmaller(init, n);
    }
  }

  /** Printing a natural number and reading it back gives the number, and
      reading a canonical digit string and printing it gives the string back. */
  lemma {:induction false} NatToStringOfDigits(s: string)
    requires CtypeDigit(s) && (s[0] != '0' || |s| == 1)
    ensures NatToString(DigitsValue(s)) == s
    decreases |s|
  {
    var prefix := s[..|s| - 1];
    if |s| == 1 {
      assert prefix == [];
    } else {
      assert prefix[0] == s[0];
      DigitsValuePositive(prefix);
      NatToStringOfDigits(prefix);
      var n := DigitsValue(s);
      assert n / 10 == DigitsValue(prefix) && n % 10 == DigitValue(s[|s| - 1]);
      assert s == prefix + [s[|s| - 1]];
    }
  }

  lemma IntToStringCanonical(i: int)
    ensures IsCanonicalInt(IntToString(i)) && ParseInt(IntToString(i)) == i
  {
    if i < 0 {
      var t := NatToString(-i);
      assert IntToString(i)[1..] == t;
    }
  }

  lemma CanonicalIntToString(s: string)
    requires IsCanonicalInt(s)
    ensures IntToString(ParseInt(s)) == s
  {
    if s[0] == '-' {
      DigitsValuePositive(s[1..]);
      NatToStringOfDigits(s[1..]);
      assert s == "-" + s[1..];
    } else {
      NatToStringOfDigits(s);
    }
  }

  predicate AllIn(s: string, mask: set<char>) {
    forall i :: 0 <= i < |s| ==> s[i] in mask
  }

  /** `ltrim($s, mask)`. */
  function LTrim(s: string, mask: set<char>): string
    decreases |s|
  {
    if s != [] && s[0] in mask then LTrim(s[1..], mask) else s
  }

  /** `rtrim($s, mask)`. */
  function RTrim(s: string, mask: set<char>): string
    decreases |s|
  {
    if s != [] && s[|s| - 1] in mask then RTrim(s[..|s| - 1], mask) else s
  }

  /** `trim($s)` with the default character list. */
  function Trim(s: string): string {
    RTrim(LTrim(s, TrimChars), TrimChars)
  }

  lemma {:induction false} LTrimSkipsPad(w: string, s: string, mask: set<char>)
    requires AllIn(w, mask)
    ensures LTrim(w + s, mask) == LTrim(s, mask)
    decreases |w|
  {
    if w != [] {
      assert w[0] in mask && (w + s)[0] == w[0] && (w + s)[1..] == w[1..] + s;
      assert AllIn(w[1..], mask);
      LTrimSkipsPad(w[1..], s, mask);
    } else {
      assert w + s == s;
    }
  }

  lemma {:induction false} RTrimSkipsPad(s: string, w: string, mask: set<char>)
    requires AllIn(w, mask)
    ensures RTrim(s + w, mask) == RTrim(s, mask)
    decreases |w|
  {
    if w != [] {
      assert w[|w| - 1] in mask && (s + w)[|s + w| - 1] == w[|w| - 1] && (s + w)[..|s + w| - 1] == s + w[..|w| - 1];
      assert AllIn(w[..|w| - 1], mask);
      RTrimSkipsPad(s, w[..|w| - 1], mask);
    } else {
      assert s + w == s;
    }
  }

  /** Trailing padding never reaches `ltrim` unless everything before it is trimmed too. */
  lemma {:induction false} LTrimThenPad(s: string, w: string, mask: set<char>)
    requires AllIn(w, mask)
    ensures RTrim(LTrim(s + w, mask), mask) == RTrim(LTrim(s, mask), mask)
    decreases |s|
  {
    if s == [] {
      assert s + w == w + [];
      LTrimSkipsPad(w, [], mask);
    } else if s[0] in mask {
      assert (s + w)[1..] == s[1..] + w;
      LTrimThenPad(s[1..], w, mask);
    } else {
      RTrimSkipsPad(s, w, mask);
    }
  }

  /** `trim` ignores any whitespace padding around its argument. */
  lemma TrimIgnoresPadding(w1: string, s: string, w2: string)
    requires AllIn(w1, TrimChars) && AllIn(w2, TrimChars)
    ensures Trim(w1 + s + w2) == Trim(s)
  {
    assert w1 + s + w2 == w1 + (s + w2);
    LTrimSkipsPad(w1, s + w2, TrimChars);
    LTrimThenPad(s, w2, TrimChars);
  }

  /** A string that neither starts nor ends with a `trim` character is left alone. */
  lemma TrimOfTrimmed(s: string)
    requires s == [] || (s[0] !in TrimChars && s[|s| - 1] !in TrimChars)
    ensures Trim(s) == s
  {
  }

  /** Does `sep` occur in `s` at position `i`? */
  predicate OccursAt(s: string, sep: string, i: nat) {
    i + |sep| <= |s| && s[i..i + |sep|] == sep
  }

  /** `explode($sep, $s)`: the pieces between the leftmost non-overlapping
      occurrences of a non-empty separator. */
  function Split(s: string, sep: string): (parts: seq<string>)
    requires |sep| > 0
    ensures |parts| >= 1
    decreases |s|
  {
    if |s| < |sep| then [s]
    else if s[..|sep|] == sep then [""] + Split(s[|sep|..], sep)
    else
      var rest := Split(s[1..], sep);
      [[s[0]] + rest[0]] + rest[1..]
  }

  /** `implode($sep, $parts)`. */
  function Join(parts: seq<string>, sep: string): string {
    if parts == [] then ""
    else if |parts| == 1 then parts[0]
    else parts[0] + sep + Join(parts[1..], sep)
  }

  /** Putting a character in front of the first piece puts it in front of the join. */
  lemma JoinConsHead(x: char, parts: seq<string>, sep: string)
    requires |parts| >= 1
    ensures Join([[x] + parts[0]] + parts[1..], sep) == [x] + Join(parts, sep)
  {
    var q := [[x] + parts[0]] + parts[1..];
    assert q[1..] == parts[1..];
    if |parts| > 1 {
      assert [x] + parts[0] + sep + Join(parts[1..], sep) == [x] + (parts[0] + sep + Join(parts[1..], sep));
    }
  }

  /** Putting a character after the last piece puts it after the join. */
  lemma {:induction false} JoinSnocLast(parts: seq<string>, x: char, sep: string)
    requires |parts| >= 1
    ensures var n := |parts| - 1;
      Join(parts[..n] + [parts[n] + [x]], sep) == Join(parts, sep) + [x]
    decreases |parts|
  {
    var n := |parts| - 1;
    var q := parts[..n] + [parts[n] + [x]];
    if n > 0 {
      var tail := parts[1..];
      assert q[0] == parts[0];
      assert q[1..] == tail[..n - 1] + [tail[n - 1] + [x]];
      JoinSnocLast(tail, x, sep);
      assert parts[0] + sep + (Join(tail, sep) + [x]) == parts[0] + sep + Join(tail, sep) + [x];
    }
  }

  /** A string in which `sep` never occurs splits into itself alone. */
  lemma {:induction false} SplitWithoutSeparator(s: string, sep: string)
    requires |sep| > 0
    requires forall i: nat :: !OccursAt(s, sep, i)
    ensures Split(s, sep) == [s]
    decreases |s|
  {
    if |s| >= |sep| {
      assert !OccursAt(s, sep, 0);
      forall i: nat ensures !OccursAt(s[1..], sep, i) {
        assert !OccursAt(s, sep, i + 1);
      }
      SplitWithoutSeparator(s[1..], sep);
      assert [s[0]] + s[1..] == s;
    }
  }

  /** When the first occurrence of `sep` in `a + sep + b` is the one after `a`,
      exploding cuts there. */
  lemma {:induction false} SplitAtFirst(a: string, sep: string, b: string)
    requires |sep| > 0
    requires forall i: nat :: i < |a| ==> !OccursAt(a + sep + b, sep, i)
    ensures Split(a + sep + b, sep) == [a] + Split(b, sep)
    decreases |a|
  {
    var s := a + sep + b;
    if a == [] {
      assert s == sep + b;
      assert s[..|sep|] == sep && s[|sep|..] == b;
    } else {
      assert !OccursAt(s, sep, 0);
      assert s[1..] == a[1..] + sep + b;
      forall i: nat | i < |a[1..]| ensures !OccursAt(a[1..] + sep + b, sep, i) {
        assert !OccursAt(s, sep, i + 1);
      }
      SplitAtFirst(a[1..], sep, b);
      assert [a[0]] + a[1..] == a;
    }
  }

  /** Exploding what was imploded from pieces free of the separator gives the pieces back. */
  lemma {:induction false} SplitJoin(parts: seq<string>, sep: string)
    requires |sep| > 0 && |parts| >= 1
    requires forall k, i: nat :: 0 <= k < |parts| ==> !OccursAt(parts[k] + sep, sep, i) || i == |parts[k]|
    ensures Split(Join(parts, sep), sep) == parts
    decreases |parts|
  {
    if |parts| == 1 {
      forall i: nat ensures !OccursAt(parts[0], sep, i) {
        assert !OccursAt(parts[0] + sep, sep, i) || i == |parts[0]|;
      }
      SplitWithoutSeparator(parts[0], sep);
    } else {
      var a, b := parts[0], Join(parts[1..], sep);
      forall i: nat | i < |a| ensures !OccursAt(a + sep + b, sep, i) {
        assert !OccursAt(a + sep, sep, i) || i == |a|;
      }
      SplitAtFirst(a, sep, b);
      SplitJoin(parts[1..], sep);
    }
  }

  /** Exploding on a one-character separator splits a joined pair of strings
      into the pieces of each. */
  lemma {:induction false} SplitConcat(a: string, b: string, c: char)
    ensures Split(a + [c] + b, [c]) == Split(a, [c]) + Split(b, [c])
    decreases |a|
  {
    if a == [] {
      assert a + [c] + b == [c] + b;
      SplitCons(c, b, c);
    } else {
      var x, t := a[0], a[1..];
      assert a == [x] + t;
      assert a + [c] + b == [x] + (t + [c] + b);
      SplitCons(x, t + [c] + b, c);
      SplitCons(x, t, c);
      SplitConcat(t, b, c);
      ConsPieces(x, c, Split(t, [c]), Split(b, [c]));
    }
  }

  /** The pieces of `[x] + t` as `SplitCons` builds them, when the pieces of `t`
      are followed by more pieces. */
  lemma ConsPieces(x: char, c: char, l: seq<string>, r: seq<string>)
    requires |l| >= 1
    ensures (if x == c then [""] + (l + r) else [[x] + (l + r)[0]] + (l + r)[1..]) ==
      (if x == c then [""] + l else [[x] + l[0]] + l[1..]) + r
  {
    assert (l + r)[0] == l[0] && (l + r)[1..] == l[1..] + r;
  }

  /** Exploding a string on a one-character separator, one character at a time. */
  lemma SplitCons(x: char, t: string, c: char)
    ensures Split([x] + t, [c]) ==
      if x == c then [""] + Split(t, [c])
      else [[x] + Split(t, [c])[0]] + Split(t, [c])[1..]
  {
    var s := [x] + t;
    assert s[..1] == [x] && s[1..] == t;
  }
}
