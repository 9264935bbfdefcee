/**
 * `Arrays::parse` and `Arrays::compose`: an array written as text, one
 * "key => value" record per line, and read back.
 */
module ArraysText {
  import opened PhpStrings
  import opened PhpValues

  /** What separates a key from its value on a line. */
  const TextDelimiter: string := "=>"

  /** `PHP_EOL`, the line separator (a line feed on the platforms modelled). */
  const LineBreak: string := "\n"

  /** One line read into the array built so far: a line with exactly one
      delimiter stores its trimmed right side under its trimmed left side;
      any other line is stored, untrimmed, under its line number. */
  function ParseLine(es: seq<Entry>, index: nat, line: string): seq<Entry> {
    var parts := Split(line, TextDelimiter);
    if |parts| == 2 then Put(es, ToKey(Trim(parts[0])), Str(Trim(parts[1])))
    else Put(es, IntKey(index), Str(line))
  }

  /** Storing a string keeps an array of strings with distinct keys so. */
  lemma PutString(es: seq<Entry>, k: Key, t: string)
    requires DistinctKeys(es) && forall i :: 0 <= i < |es| ==> es[i].val.Str?
    ensures var r := Put(es, k, Str(t));
      && |r| <= |es| + 1 && DistinctKeys(r) && forall i :: 0 <= i < |r| ==> r[i].val.Str?
  {
    PutKeepsDistinct(es, k, Str(t));
    PutEntries(es, k, Str(t));
    var r := Put(es, k, Str(t));
    forall i | 0 <= i < |r| ensures r[i].val.Str? {
      assert r[i] in r;
    }
  }

  /** Reading a line adds at most one entry and keeps the keys distinct. */
  lemma ParseLineKeeps(es: seq<Entry>, index: nat, line: string)
    requires DistinctKeys(es) && forall i :: 0 <= i < |es| ==> es[i].val.Str?
    ensures var r := ParseLine(es, index, line);
      && |r| <= |es| + 1 && DistinctKeys(r) && forall i :: 0 <= i < |r| ==> r[i].val.Str?
  {
    var parts := Split(line, TextDelimiter);
    if |parts| == 2 {
      PutString(es, ToKey(Trim(parts[0])), Trim(parts[1]));
    } else {
      PutString(es, IntKey(index), line);
    }
  }

  /** The array read from a sequence of lines: distinct keys, string values, at
      most one entry per line. */
  function ParseLines(lines: seq<string>): (es: seq<Entry>)
    ensures |es| <= |lines|
    ensures DistinctKeys(es)
    ensures forall i :: 0 <= i < |es| ==> es[i].val.Str?
    decreases |lines|
  {
    if lines == [] then []
    else
      var n := |lines| - 1;
      var prev := ParseLines(lines[..n]);
      ParseLineKeeps(prev, n, lines[n]);
      ParseLine(prev, n, lines[n])
  }

  /** What `parse` returns: an array is returned as is, a scalar is trimmed and
      read line by line (empty text gives the empty array), and anything else
      is refused. */
  function ParseResult(v: Value): Result<Value> {
    if v.Arr? then Ok(v)
    else if !IsScalar(v) then Err(NotScalar)
    else
      var text := Trim(ScalarString(v));
      if !Truthy(Str(text)) then Ok(Arr([]))
      else Ok(Arr(ParseLines(Split(text, LineBreak))))
  }

  /** `parse`'s loop over the lines. */
  method Parse(v: Value) returns (r: Result<Value>)
    ensures r == ParseResult(v)
  {
    if v.Arr? {
      return Ok(v);
    } else if !IsScalar(v) {
      return Err(NotScalar);
    }
    var text := Trim(ScalarString(v));
    if !Truthy(Str(text)) {
      return Ok(Arr([]));
    }
    var lines := Split(text, LineBreak);
    var data: seq<Entry> := [];
    var index := 0;
    while index < |lines|
      invariant 0 <= index <= |lines|
      invariant data == ParseLines(lines[..index])
    {
      assert lines[..index + 1][..index] == lines[..index];
      data := ParseLine(data, index, lines[index]);
      index := index + 1;
    }
    assert lines[..index] == lines;
    return Ok(Arr(data));
  }

  predicate AllScalar(es: seq<Entry>) {
    forall i :: 0 <= i < |es| ==> IsScalar(es[i].val)
  }

  /** The line `compose` writes for one entry: `sprintf('%s %s %s', key, '=>', value)`. */
  function ComposeLine(e: Entry): string
    requires IsScalar(e.val)
  {
    KeyString(e.key) + " " + TextDelimiter + " " + ScalarString(e.val)
  }

  function ComposeLines(es: seq<Entry>): (lines: seq<string>)
    requires AllScalar(es)
    ensures |lines| == |es| && forall i :: 0 <= i < |es| ==> lines[i] == ComposeLine(es[i])
  {
    seq(|es|, i requires 0 <= i < |es| => ComposeLine(es[i]))
  }

  /** What `compose` returns: "" for any falsy input, an error for anything
      else that is not an array or for an array holding a non-scalar value,
      and otherwise one line per entry, in order. */
  function ComposeResult(v: Value): Result<string> {
    if !Truthy(v) then Ok("")
    else if !v.Arr? then Err(NotAnArray)
    else if !AllScalar(v.entries) then Err(NotScalar)
    else Ok(Join(ComposeLines(v.entries), LineBreak))
  }

  /** `compose`'s loop: stop at the first non-scalar value, otherwise collect the lines. */
  method Compose(v: Value) returns (r: Result<string>)
    ensures r == ComposeResult(v)
  {
    if !Truthy(v) {
      return Ok("");
    }
    if !v.Arr? {
      return Err(NotAnArray);
    }
    var es := v.entries;
    var lines: seq<string> := [];
    var i := 0;
    while i < |es|
      invariant 0 <= i <= |es|
      invariant AllScalar(es[..i])
      invariant lines == ComposeLines(es[..i])
    {
      if !IsScalar(es[i].val) {
        return Err(NotScalar);
      }
      assert es[..i + 1] == es[..i] + [es[i]];
      lines := lines + [ComposeLine(es[i])];
      i := i + 1;
    }
    assert es[..i] == es;
    return Ok(Join(lines, LineBreak));
  }

  /** `compose` fails exactly on a truthy non-array or an array with a non-scalar value. */
  lemma ComposeFails(v: Value)
    ensures ComposeResult(v).Err? <==> Truthy(v) && (!v.Arr? || exists i :: 0 <= i < |v.entries| && !IsScalar(v.entries[i].val))
  {
  }

  /** `parse` fails exactly on a value that is neither an array nor a scalar. */
  lemma ParseFails(v: Value)
    ensures ParseResult(v).Err? <==> !v.Arr? && !IsScalar(v)
  {
  }

  /** A text `compose` can write so that `parse` reads back the same keys:
      no line break and no delimiter inside, nothing `trim` removes at the ends. */
  predicate Clean(s: string) {
    && (forall i :: 0 <= i < |s| ==> s[i] != '\n')
    && (forall i :: 0 <= i < |s| - 1 ==> !(s[i] == '=' && s[i + 1] == '>'))
    && (s == [] || (s[0] !in TrimChars && s[|s| - 1] !in TrimChars))
  }

  /** An array whose every key and scalar value prints as clean text. */
  predicate Composable(es: seq<Entry>) {
    forall i :: 0 <= i < |es| ==>
      && IsScalar(es[i].val) && ValidKey(es[i].key)
      && Clean(KeyString(es[i].key)) && Clean(ScalarString(es[i].val))
  }

  /** The array with each value replaced by its string form: what a round trip
      through text gives back. */
  function Stringified(es: seq<Entry>): (r: seq<Entry>)
    requires AllScalar(es)
    ensures |r| == |es|
    ensures forall i :: 0 <= i < |es| ==> r[i] == Entry(es[i].key, Str(ScalarString(es[i].val)))
  {
    seq(|es|, i requires 0 <= i < |es| => Entry(es[i].key, Str(ScalarString(es[i].val))))
  }

  /** The delimiter occurs only where an '=' is followed by a '>'. */
  lemma NoDelimiterAt(s: string, i: nat)
    requires i + 1 < |s| ==> s[i] != '=' || s[i + 1] != '>'
    ensures !OccursAt(s, TextDelimiter, i)
  {
    if i + 2 <= |s| {
      assert s[i..i + 2][0] == s[i] && s[i..i + 2][1] == s[i + 1];
    }
  }

  /** The line of entry `e` with the spaces around the delimiter present or
      not: `compose` writes both, and `trim` on the whole text takes off the
      one before the delimiter of the first line when its key is empty, and
      the one after the delimiter of the last line when its value is empty. */
  function TextLine(e: Entry, front: bool, back: bool): string
    requires IsScalar(e.val)
  {
    (KeyString(e.key) + (if front then " " else "")) + TextDelimiter + ((if back then " " else "") + ScalarString(e.val))
  }

  /** `l` is the line of `e`, a space missing only next to an empty key or value. */
  predicate LineOf(l: string, e: Entry) {
    && IsScalar(e.val)
    && exists front: bool, back: bool ::
         && (front || KeyString(e.key) == "")
         && (back || ScalarString(e.val) == "")
         && l == TextLine(e, front, back)
  }

  /** A line with its key part `a` and value part `b` explodes on the
      delimiter into exactly those two parts. */
  lemma SplitComposedLine(a: string, b: string, k: string, v: string)
    requires Clean(k) && Clean(v)
    requires a == k + " " || (k == "" && a == "")
    requires b == " " + v || (v == "" && b == "")
    ensures Split(a + TextDelimiter + b, TextDelimiter) == [a, b]
  {
    var s := a + TextDelimiter + b;
    forall i: nat | i < |a| ensures !OccursAt(s, TextDelimiter, i) {
      if i + 1 < |k| {
        assert s[i] == k[i] && s[i + 1] == k[i + 1];
      } else if i + 1 == |k| {
        assert s[i + 1] == ' ';
      } else {
        assert s[i] == ' ';
      }
      NoDelimiterAt(s, i);
    }
    SplitAtFirst(a, TextDelimiter, b);
    forall i: nat ensures !OccursAt(b, TextDelimiter, i) {
      if b != "" {
        if i == 0 {
          assert b[0] == ' ';
        } else if i + 1 < |b| {
          assert b[i] == v[i - 1] && b[i + 1] == v[i];
        }
      }
      NoDelimiterAt(b, i);
    }
    SplitWithoutSeparator(b, TextDelimiter);
  }

  /** The two parts of such a line trim back to the key and the value. */
  lemma TrimComposedParts(a: string, b: string, k: string, v: string)
    requires Clean(k) && Clean(v)
    requires a == k + " " || (k == "" && a == "")
    requires b == " " + v || (v == "" && b == "")
    ensures Trim(a) == k && Trim(b) == v
  {
    if a == k + " " {
      TrimIgnoresPadding("", k, " ");
      assert "" + k + " " == a;
    }
    TrimOfTrimmed(k);
    if b == " " + v {
      TrimIgnoresPadding(" ", v, "");
      assert " " + v + "" == b;
    }
    TrimOfTrimmed(v);
  }

  /** `parse` reads a line of an entry back as that entry, its value as a string. */
  lemma ParseComposedLine(prev: seq<Entry>, index: nat, e: Entry, l: string)
    requires ValidKey(e.key) && LineOf(l, e) && Clean(KeyString(e.key)) && Clean(ScalarString(e.val))
    requires !HasKey(prev, e.key)
    ensures ParseLine(prev, index, l) == prev + [Entry(e.key, Str(ScalarString(e.val)))]
  {
    var k, v := KeyString(e.key), ScalarString(e.val);
    var front: bool, back: bool :| (front || k == "") && (back || v == "") && l == TextLine(e, front, back);
    var a, b := k + (if front then " " else ""), (if back then " " else "") + v;
    assert l == a + TextDelimiter + b;
    SplitComposedLine(a, b, k, v);
    TrimComposedParts(a, b, k, v);
    ToKeyOfKeyString(e.key);
    PutAbsent(prev, e.key, Str(v));
  }

  /** Stringifying keeps the keys, so the last key is new to the stringified prefix. */
  lemma StringifiedLast(es: seq<Entry>)
    requires AllScalar(es) && DistinctKeys(es) && es != []
    ensures var n := |es| - 1;
      && !HasKey(Stringified(es[..n]), es[n].key)
      && Stringified(es) == Stringified(es[..n]) + [Entry(es[n].key, Str(ScalarString(es[n].val)))]
  {
    var n := |es| - 1;
    forall i | 0 <= i < n ensures Stringified(es[..n])[i].key != es[n].key {
      assert Stringified(es[..n])[i].key == es[i].key;
    }
  }

  /** Lines of the entries, one each and in order, read back as the array
      with its values as strings. */
  lemma {:induction false} ParseComposedLines(es: seq<Entry>, lines: seq<string>)
    requires Composable(es) && DistinctKeys(es)
    requires |lines| == |es| && forall i :: 0 <= i < |es| ==> LineOf(lines[i], es[i])
    ensures ParseLines(lines) == Stringified(es)
    decreases |es|
  {
    if es != [] {
      var n := |es| - 1;
      var init := es[..n];
      LinesPrefix(es, lines, n);
      ParseComposedLines(init, lines[..n]);
      StringifiedLast(es);
      ParseComposedLast(lines, Stringified(init), es[n]);
    }
  }

  /** Reading one more line of an entry with a new key appends that entry. */
  lemma ParseComposedLast(lines: seq<string>, prev: seq<Entry>, e: Entry)
    requires lines != [] && ParseLines(lines[..|lines| - 1]) == prev
    requires ValidKey(e.key) && LineOf(lines[|lines| - 1], e)
    requires Clean(KeyString(e.key)) && Clean(ScalarString(e.val)) && !HasKey(prev, e.key)
    ensures ParseLines(lines) == prev + [Entry(e.key, Str(ScalarString(e.val)))]
  {
    ParseComposedLine(prev, |lines| - 1, e, lines[|lines| - 1]);
  }

  /** A prefix of the entries, with the same prefix of their lines, keeps
      every requirement of the round trip. */
  lemma LinesPrefix(es: seq<Entry>, lines: seq<string>, n: nat)
    requires Composable(es) && DistinctKeys(es) && n <= |es|
    requires |lines| == |es| && forall i :: 0 <= i < |es| ==> LineOf(lines[i], es[i])
    ensures Composable(es[..n]) && DistinctKeys(es[..n])
    ensures |lines[..n]| == |es[..n]| && forall i :: 0 <= i < n ==> LineOf(lines[..n][i], es[..n][i])
  {
    assert forall i :: 0 <= i < n ==> lines[..n][i] == lines[i] && es[..n][i] == es[i];
  }

  /** Imploded lines start where the first line starts. */
  lemma JoinFirst(lines: seq<string>, sep: string)
    requires |lines| >= 1 && |lines[0]| > 0
    ensures |Join(lines, sep)| > 0 && Join(lines, sep)[0] == lines[0][0]
  {
  }

  /** Imploded lines end where the last line ends. */
  lemma {:induction false} JoinLast(lines: seq<string>, sep: string)
    requires |lines| >= 1 && |lines[|lines| - 1]| > 0
    ensures var t := Join(lines, sep); |t| > 0 && t[|t| - 1] == lines[|lines| - 1][|lines[|lines| - 1]| - 1]
    decreases |lines|
  {
    if |lines| > 1 {
      JoinLast(lines[1..], sep);
    }
  }

  lemma NoLineBreakSplits(lines: seq<string>)
    requires forall k, i :: 0 <= k < |lines| && 0 <= i < |lines[k]| ==> lines[k][i] != '\n'
    ensures forall k, i: nat :: 0 <= k < |lines| ==> !OccursAt(lines[k] + LineBreak, LineBreak, i) || i == |lines[k]|
  {
    forall k, i: nat | 0 <= k < |lines| && OccursAt(lines[k] + LineBreak, LineBreak, i)
      ensures i == |lines[k]|
    {
      assert (lines[k] + LineBreak)[i] == '\n';
    }
  }

  /** A line of clean text has no line break. */
  lemma ComposedLineHasNoBreak(e: Entry, front: bool, back: bool)
    requires IsScalar(e.val) && Clean(KeyString(e.key)) && Clean(ScalarString(e.val))
    ensures forall i :: 0 <= i < |TextLine(e, front, back)| ==> TextLine(e, front, back)[i] != '\n'
  {
    var k, v := KeyString(e.key), ScalarString(e.val);
    var pre, post := if front then " " else "", if back then " " else "";
    NoBreakConcat(k, pre);
    NoBreakConcat(k + pre, TextDelimiter);
    NoBreakConcat(post, v);
    NoBreakConcat(k + pre + TextDelimiter, post + v);
  }

  /** Two strings without a line break concatenate to one without. */
  lemma NoBreakConcat(a: string, b: string)
    requires forall i :: 0 <= i < |a| ==> a[i] != '\n'
    requires forall i :: 0 <= i < |b| ==> b[i] != '\n'
    ensures forall i :: 0 <= i < |a + b| ==> (a + b)[i] != '\n'
  {
    forall i | 0 <= i < |a + b| ensures (a + b)[i] != '\n' {
      if i >= |a| {
        assert (a + b)[i] == b[i - |a|];
      }
    }
  }

  /** `compose` writes a line with both spaces. */
  lemma ComposeLineIsTextLine(e: Entry)
    requires IsScalar(e.val)
    ensures ComposeLine(e) == TextLine(e, true, true)
  {
    assert KeyString(e.key) + " " + TextDelimiter + " " + ScalarString(e.val)
      == (KeyString(e.key) + " ") + TextDelimiter + (" " + ScalarString(e.val));
  }

  /** The lines `parse` sees after trimming composed text: the first line
      loses the space before the delimiter when its key is empty, the last
      line the space after the delimiter when its value is empty. */
  function ReadLines(es: seq<Entry>): (lines: seq<string>)
    requires AllScalar(es) && es != []
    ensures |lines| == |es|
  {
    var n := |es| - 1;
    seq(|es|, i requires 0 <= i < |es| =>
      TextLine(es[i], i > 0 || KeyString(es[0].key) != "", i < n || ScalarString(es[n].val) != ""))
  }

  /** The spaces `trim` removes from composed text. */
  function LeadPad(es: seq<Entry>): string
    requires es != []
  {
    if KeyString(es[0].key) == "" then " " else ""
  }

  function TrailPad(es: seq<Entry>): string
    requires AllScalar(es) && es != []
  {
    if ScalarString(es[|es| - 1].val) == "" then " " else ""
  }

  /** The composed lines with only the first one trimmed. */
  function FrontTrimmed(es: seq<Entry>): (lines: seq<string>)
    requires AllScalar(es) && es != []
    ensures |lines| == |es|
  {
    seq(|es|, i requires 0 <= i < |es| => TextLine(es[i], i > 0 || KeyString(es[0].key) != "", true))
  }

  /** `compose` writes the trimmed lines with at most one space in front and
      one at the end. */
  lemma ComposedTextPadding(es: seq<Entry>)
    requires AllScalar(es) && es != []
    ensures Join(ComposeLines(es), LineBreak) == LeadPad(es) + Join(ReadLines(es), LineBreak) + TrailPad(es)
  {
    LeadPadding(es);
    TrailPadding(es);
    Pads(Join(ComposeLines(es), LineBreak), Join(FrontTrimmed(es), LineBreak),
      Join(ReadLines(es), LineBreak), LeadPad(es), TrailPad(es));
  }

  lemma Pads(a: string, b: string, c: string, p: string, t: string)
    requires a == p + b && b == c + t
    ensures a == p + c + t
  {
  }

  lemma LeadPadding(es: seq<Entry>)
    requires AllScalar(es) && es != []
    ensures Join(ComposeLines(es), LineBreak) == LeadPad(es) + Join(FrontTrimmed(es), LineBreak)
  {
    var l0, l1 := ComposeLines(es), FrontTrimmed(es);
    LeadLines(es);
    if KeyString(es[0].key) == "" {
      JoinConsHead(' ', l1, LineBreak);
    }
  }

  /** The composed lines are the front-trimmed lines, with a space put back
      in front of the first one when its key is empty. */
  lemma LeadLines(es: seq<Entry>)
    requires AllScalar(es) && es != []
    ensures var l1 := FrontTrimmed(es);
      ComposeLines(es) == if KeyString(es[0].key) == "" then [[' '] + l1[0]] + l1[1..] else l1
  {
    var l0, l1 := ComposeLines(es), FrontTrimmed(es);
    LaterLines(es);
    ComposeLineIsTextLine(es[0]);
    if KeyString(es[0].key) == "" {
      EmptyKeyLine(es[0]);
      ConsHeadLines(l0, l1, ' ');
    } else {
      ConsHeadLines(l0, l1, ' ');
    }
  }

  /** After the first, composed and front-trimmed lines agree. */
  lemma LaterLines(es: seq<Entry>)
    requires AllScalar(es) && es != []
    ensures ComposeLines(es)[1..] == FrontTrimmed(es)[1..]
  {
    var l0, l1 := ComposeLines(es), FrontTrimmed(es);
    forall i | 1 <= i < |es| ensures l0[i] == l1[i] {
      ComposeLineIsTextLine(es[i]);
    }
  }

  /** Two line lists that agree after the first line agree entirely when their
      first lines do, and differ by a character put in front otherwise. */
  lemma ConsHeadLines(l0: seq<string>, l1: seq<string>, x: char)
    requires |l0| == |l1| >= 1 && l0[1..] == l1[1..]
    ensures l0[0] == [x] + l1[0] ==> l0 == [[x] + l1[0]] + l1[1..]
    ensures l0[0] == l1[0] ==> l0 == l1
  {
    assert l0 == [l0[0]] + l0[1..];
    assert l1 == [l1[0]] + l1[1..];
  }

  /** With an empty key, the line with both spaces is the line without the
      first one, behind a space. */
  lemma EmptyKeyLine(e: Entry)
    requires IsScalar(e.val) && KeyString(e.key) == ""
    ensures TextLine(e, true, true) == [' '] + TextLine(e, false, true)
  {
  }

  lemma TrailPadding(es: seq<Entry>)
    requires AllScalar(es) && es != []
    ensures Join(FrontTrimmed(es), LineBreak) == Join(ReadLines(es), LineBreak) + TrailPad(es)
  {
    var n := |es| - 1;
    TrailLines(es);
    if ScalarString(es[n].val) == "" {
      JoinSnocLast(ReadLines(es), ' ', LineBreak);
    }
  }

  /** The front-trimmed lines are the read lines, with the space put back
      after the last one when its value is empty. */
  lemma TrailLines(es: seq<Entry>)
    requires AllScalar(es) && es != []
    ensures var n, l2 := |es| - 1, ReadLines(es);
      FrontTrimmed(es) == if ScalarString(es[n].val) == "" then l2[..n] + [l2[n] + [' ']] else l2
  {
    var n, l1, l2 := |es| - 1, FrontTrimmed(es), ReadLines(es);
    var l := if ScalarString(es[n].val) == "" then l2[..n] + [l2[n] + [' ']] else l2;
    forall i | 0 <= i < |es| ensures l1[i] == l[i] {
      if i == n && ScalarString(es[n].val) == "" {
        EmptyValueLine(es[n], i > 0 || KeyString(es[0].key) != "");
      }
    }
  }

  /** With an empty value, the line with its trailing space is the line
      without it, followed by a space. */
  lemma EmptyValueLine(e: Entry, front: bool)
    requires IsScalar(e.val) && ScalarString(e.val) == ""
    ensures TextLine(e, front, true) == TextLine(e, front, false) + [' ']
  {
  }

  /** A line whose key is clean text starts with no `trim` character when
      the space before the delimiter is left out exactly when the key is empty. */
  lemma TextLineStart(e: Entry, front: bool, back: bool)
    requires IsScalar(e.val) && Clean(KeyString(e.key)) && front == (KeyString(e.key) != "")
    ensures |TextLine(e, front, back)| >= 2 && TextLine(e, front, back)[0] !in TrimChars
  {
    var k := KeyString(e.key);
    if k != "" {
      assert TextLine(e, front, back)[0] == k[0];
    }
  }

  /** A line whose value is clean text ends with no `trim` character when the
      space after the delimiter is left out exactly when the value is empty. */
  lemma TextLineEnd(e: Entry, front: bool, back: bool)
    requires IsScalar(e.val) && Clean(ScalarString(e.val)) && back == (ScalarString(e.val) != "")
    ensures var l := TextLine(e, front, back); |l| >= 2 && l[|l| - 1] !in TrimChars
  {
    var v, l := ScalarString(e.val), TextLine(e, front, back);
    if v != "" {
      assert l[|l| - 1] == v[|v| - 1];
    }
  }

  /** Lines whose first line has two characters and whose text starts and
      ends with no `trim` character. */
  predicate CleanEnds(lines: seq<string>)
  {
    && |lines| >= 1 && |lines[0]| >= 2 && |lines[|lines| - 1]| >= 1
    && lines[0][0] !in TrimChars && lines[|lines| - 1][|lines[|lines| - 1]| - 1] !in TrimChars
  }

  /** Joined lines that start and end with no `trim` character, padded
      with `trim` characters, trim to the joined lines, which are not falsy
      when the first line has two characters. */
  lemma TrimPaddedJoin(lines: seq<string>, sep: string, pre: string, post: string)
    requires CleanEnds(lines)
    requires AllIn(pre, TrimChars) && AllIn(post, TrimChars)
    ensures Trim(pre + Join(lines, sep) + post) == Join(lines, sep)
    ensures Truthy(Str(Join(lines, sep)))
  {
    var text := Join(lines, sep);
    TrimIgnoresPadding(pre, text, post);
    JoinFirst(lines, sep);
    JoinLast(lines, sep);
    TrimOfTrimmed(text);
    JoinLength(lines, sep);
  }

  /** The trimmed lines start and end with no `trim` character. */
  lemma ReadLinesEnds(es: seq<Entry>)
    requires AllScalar(es) && es != []
    requires var n := |es| - 1; Clean(KeyString(es[0].key)) && Clean(ScalarString(es[n].val))
    ensures CleanEnds(ReadLines(es))
  {
    var n := |es| - 1;
    var lines := ReadLines(es);
    var k, v := KeyString(es[0].key), ScalarString(es[n].val);
    assert lines[0] == TextLine(es[0], k != "", 0 < n || v != "");
    assert lines[n] == TextLine(es[n], n > 0 || k != "", v != "");
    TextLineStart(es[0], k != "", 0 < n || v != "");
    TextLineEnd(es[n], n > 0 || k != "", v != "");
  }

  /** `trim` turns composed text into the joined trimmed lines, which are
      never falsy. */
  lemma ComposedTextTrimmed(es: seq<Entry>)
    requires AllScalar(es) && es != []
    requires Clean(KeyString(es[0].key)) && Clean(ScalarString(es[|es| - 1].val))
    ensures var text := Join(ReadLines(es), LineBreak);
      Trim(Join(ComposeLines(es), LineBreak)) == text && Truthy(Str(text))
  {
    ComposedTextPadding(es);
    TrimReadLines(es);
  }

  /** `trim` takes exactly the padding off the joined trimmed lines. */
  lemma TrimReadLines(es: seq<Entry>)
    requires AllScalar(es) && es != []
    requires Clean(KeyString(es[0].key)) && Clean(ScalarString(es[|es| - 1].val))
    ensures var text := Join(ReadLines(es), LineBreak);
      Trim(LeadPad(es) + text + TrailPad(es)) == text && Truthy(Str(text))
  {
    ReadLinesEnds(es);
    PadsAreTrimmed(es);
    TrimPaddedJoin(ReadLines(es), LineBreak, LeadPad(es), TrailPad(es));
  }

  lemma PadsAreTrimmed(es: seq<Entry>)
    requires AllScalar(es) && es != []
    ensures AllIn(LeadPad(es), TrimChars) && AllIn(TrailPad(es), TrimChars)
  {
  }

  /** The trimmed text explodes back into its lines. */
  lemma ComposedTextSplits(es: seq<Entry>)
    requires Composable(es) && es != []
    ensures Split(Join(ReadLines(es), LineBreak), LineBreak) == ReadLines(es)
  {
    var n := |es| - 1;
    var lines := ReadLines(es);
    forall k | 0 <= k < |lines| ensures forall i :: 0 <= i < |lines[k]| ==> lines[k][i] != '\n' {
      ComposedLineHasNoBreak(es[k], k > 0 || KeyString(es[0].key) != "", k < n || ScalarString(es[n].val) != "");
    }
    NoLineBreakSplits(lines);
    SplitJoin(lines, LineBreak);
  }

  /** Round trip: `parse(compose(a))` gives `a` back with every value in its
      string form, provided keys and values print as clean text. */
  lemma ParseCompose(es: seq<Entry>)
    requires Composable(es) && DistinctKeys(es)
    ensures ComposeResult(Arr(es)).Ok?
    ensures ParseResult(Str(ComposeResult(Arr(es)).value)) == Ok(Arr(Stringified(es)))
  {
    if es != [] {
      var lines := ReadLines(es);
      ComposedText(es);
      assert Clean(KeyString(es[0].key)) && Clean(ScalarString(es[|es| - 1].val));
      ComposedTextTrimmed(es);
      ComposedTextSplits(es);
      ParseTrimmedText(Join(ComposeLines(es), LineBreak), lines);
      ReadLinesAreLines(es);
      ParseComposedLines(es, lines);
    }
  }

  /** `compose` of a non-empty array of scalars is its lines joined. */
  lemma ComposedText(es: seq<Entry>)
    requires AllScalar(es) && es != []
    ensures ComposeResult(Arr(es)) == Ok(Join(ComposeLines(es), LineBreak))
  {
  }

  /** `parse` of text that trims to non-empty joined lines, which explode back
      into those lines, reads the lines. */
  lemma ParseTrimmedText(text: string, lines: seq<string>)
    requires Trim(text) == Join(lines, LineBreak) && Truthy(Str(Join(lines, LineBreak)))
    requires Split(Join(lines, LineBreak), LineBreak) == lines
    ensures ParseResult(Str(text)) == Ok(Arr(ParseLines(lines)))
  {
  }

  /** Each trimmed line is a line of its entry. */
  lemma ReadLinesAreLines(es: seq<Entry>)
    requires AllScalar(es) && es != []
    ensures forall i :: 0 <= i < |es| ==> LineOf(ReadLines(es)[i], es[i])
  {
    var n := |es| - 1;
    var lines := ReadLines(es);
    forall i | 0 <= i < |es| ensures LineOf(lines[i], es[i]) {
      var front, back := i > 0 || KeyString(es[0].key) != "", i < n || ScalarString(es[n].val) != "";
      assert lines[i] == TextLine(es[i], front, back);
    }
  }

  lemma {:induction false} JoinLength(lines: seq<string>, sep: string)
    requires |lines| >= 1
    ensures |Join(lines, sep)| >= |lines[0]|
    decreases |lines|
  {
    if |lines| > 1 {
      JoinLength(lines[1..], sep);
    }
  }
}
