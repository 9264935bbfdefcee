/**
 * The helpers of `Arrays` that build one array out of others: `glue`, which
 * flattens nested arrays into one level with joined keys, and `extend`, a
 * recursive merge that appends integer-keyed values and overwrites
 * string-keyed ones.
 */
module ArraysMerge {
  import opened PhpStrings
  import opened PhpValues

  // ------------------------------------------------------------------- glue

  /** No value is an array. */
  predicate Flat(es: seq<Entry>) {
    forall i :: 0 <= i < |es| ==> !es[i].val.Arr?
  }

  /** Every key is one PHP can hold. */
  predicate ValidKeys(es: seq<Entry>) {
    forall i :: 0 <= i < |es| ==> ValidKey(es[i].key)
  }

  /** `glue_recursive($array, $prefix, $glue)` over the first `i` entries. */
  function GlueEntries(es: seq<Entry>, i: nat, prefix: string, glue: string): seq<Entry>
    requires i <= |es|
    decreases Depth(Arr(es)), i
  {
    if i == 0 then [] else GlueEntry(GlueEntries(es, i - 1, prefix, glue), es[i - 1], prefix, glue)
  }

  /** One turn of `glue_recursive`'s loop: a nested array is flattened under
      the prefix extended by its key and the glue, then merged with
      `array_merge`; any other value is stored under the prefix followed by
      its key. */
  function GlueEntry(acc: seq<Entry>, e: Entry, prefix: string, glue: string): seq<Entry>
    decreases Depth(e.val) + 1, 0
  {
    var name := prefix + KeyString(e.key);
    if e.val.Arr? then ArrayMerge(acc, GlueEntries(e.val.entries, |e.val.entries|, name + glue, glue))
    else Put(acc, ToKey(name), e.val)
  }

  /** `glue($data, $glue)`: one level deep, with distinct keys PHP can hold. */
  function Glue(es: seq<Entry>, glue: string): (r: seq<Entry>)
    ensures Flat(r) && DistinctKeys(r) && ValidKeys(r)
  {
    GlueIsFlat(es, |es|, "", glue);
    GlueEntries(es, |es|, "", glue)
  }

  /** What `glue` returns is one level deep, with distinct keys PHP can hold. */
  lemma {:induction false} GlueIsFlat(es: seq<Entry>, i: nat, prefix: string, glue: string)
    requires i <= |es|
    ensures var r := GlueEntries(es, i, prefix, glue);
      Flat(r) && DistinctKeys(r) && ValidKeys(r)
    decreases Depth(Arr(es)), i
  {
    if i > 0 {
      GlueIsFlat(es, i - 1, prefix, glue);
      GlueEntryIsFlat(GlueEntries(es, i - 1, prefix, glue), es[i - 1], prefix, glue);
    }
  }

  lemma {:induction false} GlueEntryIsFlat(acc: seq<Entry>, e: Entry, prefix: string, glue: string)
    requires Flat(acc) && DistinctKeys(acc) && ValidKeys(acc)
    ensures var r := GlueEntry(acc, e, prefix, glue);
      Flat(r) && DistinctKeys(r) && ValidKeys(r)
    decreases Depth(e.val) + 1, 0
  {
    var name := prefix + KeyString(e.key);
    if e.val.Arr? {
      GlueIsFlat(e.val.entries, |e.val.entries|, name + glue, glue);
      MergeFlatArrays(acc, GlueEntries(e.val.entries, |e.val.entries|, name + glue, glue));
    } else {
      PutStaysFlat(acc, ToKey(name), e.val);
      PutKeepsDistinct(acc, ToKey(name), e.val);
    }
  }

  lemma MergeFlatArrays(a: seq<Entry>, b: seq<Entry>)
    requires Flat(a) && ValidKeys(a) && Flat(b) && ValidKeys(b) && DistinctKeys(b)
    ensures var r := ArrayMerge(a, b); Flat(r) && DistinctKeys(r) && ValidKeys(r)
  {
    MergeStaysFlat([], a);
    MergeKeepsDistinct([], a);
    MergeStaysFlat(MergeInto([], a), b);
    MergeKeepsDistinct(MergeInto([], a), b);
  }

  lemma PutStaysFlat(es: seq<Entry>, k: Key, v: Value)
    requires Flat(es) && ValidKeys(es) && !v.Arr? && ValidKey(k)
    ensures Flat(Put(es, k, v)) && ValidKeys(Put(es, k, v))
  {
    PutEntries(es, k, v);
    var r := Put(es, k, v);
    forall i | 0 <= i < |r| ensures !r[i].val.Arr? && ValidKey(r[i].key) {
      assert r[i] in r;
    }
  }

  /** Merging flat arrays with valid keys gives a flat array with valid keys. */
  lemma {:induction false} MergeStaysFlat(acc: seq<Entry>, b: seq<Entry>)
    requires Flat(acc) && ValidKeys(acc) && Flat(b) && ValidKeys(b)
    ensures Flat(MergeInto(acc, b)) && ValidKeys(MergeInto(acc, b))
    decreases |b|
  {
    if b != [] {
      var e := b[0];
      if e.key.IntKey? {
        assert Append(acc, e.val) == acc + [Entry(IntKey(NextIndex(acc)), e.val)];
      } else {
        PutStaysFlat(acc, e.key, e.val);
      }
      MergeStaysFlat(if e.key.IntKey? then Append(acc, e.val) else Put(acc, e.key, e.val), b[1..]);
    }
  }

  /** A flat array with distinct, valid keys is its own flattening. */
  lemma {:induction false} GlueOfFlat(es: seq<Entry>, i: nat, glue: string)
    requires i <= |es| && Flat(es) && DistinctKeys(es) && ValidKeys(es)
    ensures GlueEntries(es, i, "", glue) == es[..i]
    decreases i
  {
    if i > 0 {
      var before := es[..i - 1];
      assert es[..i] == before + [es[i - 1]];
      GlueOfFlat(es, i - 1, glue);
      PrefixLacksKey(es, i - 1);
      GlueScalarEntry(before, es[i - 1], glue);
    }
  }

  /** A scalar entry under a valid key new to the result is appended as it is. */
  lemma GlueScalarEntry(acc: seq<Entry>, e: Entry, glue: string)
    requires !e.val.Arr? && ValidKey(e.key) && !HasKey(acc, e.key)
    ensures GlueEntry(acc, e, "", glue) == acc + [e]
  {
    assert "" + KeyString(e.key) == KeyString(e.key);
    ToKeyOfKeyString(e.key);
    PutAbsent(acc, e.key, e.val);
  }

  /** Flattening twice is flattening once. */
  lemma GlueIdempotent(es: seq<Entry>, glue: string)
    ensures Glue(Glue(es, glue), glue) == Glue(es, glue)
  {
    var r := Glue(es, glue);
    GlueIsFlat(es, |es|, "", glue);
    GlueOfFlat(r, |r|, glue);
    assert r[..|r|] == r;
  }

  /** The reference flattening: every value that is not an array, in
      depth-first order, under the keys on its way down printed and joined
      with the glue. Plain concatenation, no merge and no key normalisation. */
  function LeavesFrom(es: seq<Entry>, i: nat, prefix: string, glue: string): seq<Entry>
    requires i <= |es|
    decreases Depth(Arr(es)), 0, |es| - i
  {
    if i == |es| then []
    else EntryLeaves(es[i], prefix, glue) + LeavesFrom(es, i + 1, prefix, glue)
  }

  function EntryLeaves(e: Entry, prefix: string, glue: string): seq<Entry>
    decreases Depth(e.val), 1
  {
    var name := prefix + KeyString(e.key);
    if e.val.Arr? then LeavesFrom(e.val.entries, 0, name + glue, glue)
    else [Entry(StrKey(name), e.val)]
  }

  function Leaves(es: seq<Entry>, glue: string): seq<Entry> {
    LeavesFrom(es, 0, "", glue)
  }

  /** Joined names that are distinct and none of them an integer in decimal,
      so that neither `$result[...] = ...` nor `array_merge` changes them. */
  predicate StringNamed(ls: seq<Entry>) {
    && DistinctKeys(ls)
    && forall i :: 0 <= i < |ls| ==> ls[i].key.StrKey? && !IsCanonicalInt(ls[i].key.s)
  }

  lemma StringNamedParts(a: seq<Entry>, b: seq<Entry>)
    requires StringNamed(a + b)
    ensures StringNamed(a) && StringNamed(b)
  {
    assert forall i :: 0 <= i < |a| ==> a[i] == (a + b)[i];
    assert forall i :: 0 <= i < |b| ==> b[i] == (a + b)[|a| + i];
  }

  /** Merging string-keyed entries under keys not yet taken appends them. */
  lemma {:induction false} MergeStrings(acc: seq<Entry>, b: seq<Entry>)
    requires StringNamed(acc + b)
    ensures MergeInto(acc, b) == acc + b
    decreases |b|
  {
    if b != [] {
      var e := b[0];
      StringNamedHead(acc, b);
      PutAbsent(acc, e.key, e.val);
      MergeStrings(acc + [e], b[1..]);
    }
  }

  /** The first entry of `b` is a string key new to `acc`, and moving it over
      keeps the names distinct strings. */
  lemma StringNamedHead(acc: seq<Entry>, b: seq<Entry>)
    requires StringNamed(acc + b) && b != []
    ensures b[0].key.StrKey? && !HasKey(acc, b[0].key)
    ensures acc + b == (acc + [b[0]]) + b[1..]
  {
    assert (acc + b)[|acc|] == b[0];
    forall i | 0 <= i < |acc| ensures acc[i].key != b[0].key {
      assert (acc + b)[i] == acc[i];
    }
  }

  /** `array_merge` of string-keyed arrays with no key in common is their concatenation. */
  lemma MergeStringArrays(a: seq<Entry>, b: seq<Entry>)
    requires StringNamed(a + b)
    ensures ArrayMerge(a, b) == a + b
  {
    StringNamedParts(a, b);
    assert [] + a == a;
    MergeStrings([], a);
    MergeStrings(a, b);
  }

  /** The loop of `glue_recursive` over the first `i` entries has produced the
      leaves of those entries, when all joined names are distinct strings. */
  lemma {:induction false} GlueEntriesLeaves(es: seq<Entry>, i: nat, prefix: string, glue: string)
    requires i <= |es| && StringNamed(LeavesFrom(es, 0, prefix, glue))
    ensures GlueEntries(es, i, prefix, glue) + LeavesFrom(es, i, prefix, glue) == LeavesFrom(es, 0, prefix, glue)
    decreases Depth(Arr(es)), i
  {
    if i == 0 {
      assert GlueEntries(es, 0, prefix, glue) == [];
    } else {
      GlueEntriesLeaves(es, i - 1, prefix, glue);
      var acc := GlueEntries(es, i - 1, prefix, glue);
      var here := EntryLeaves(es[i - 1], prefix, glue);
      var rest := LeavesFrom(es, i, prefix, glue);
      assert LeavesFrom(es, i - 1, prefix, glue) == here + rest;
      assert acc + (here + rest) == (acc + here) + rest;
      StringNamedParts(acc + here, rest);
      GlueEntryLeaves(acc, es[i - 1], prefix, glue);
    }
  }

  /** One turn of `glue_recursive` appends the leaves of its entry. */
  lemma {:induction false} GlueEntryLeaves(acc: seq<Entry>, e: Entry, prefix: string, glue: string)
    requires StringNamed(acc + EntryLeaves(e, prefix, glue))
    ensures GlueEntry(acc, e, prefix, glue) == acc + EntryLeaves(e, prefix, glue)
    decreases Depth(e.val) + 1, 0
  {
    var name := prefix + KeyString(e.key);
    var here := EntryLeaves(e, prefix, glue);
    StringNamedParts(acc, here);
    if e.val.Arr? {
      var cs := e.val.entries;
      GlueEntriesLeaves(cs, |cs|, name + glue, glue);
      assert LeavesFrom(cs, |cs|, name + glue, glue) == [];
      assert GlueEntries(cs, |cs|, name + glue, glue) + [] == GlueEntries(cs, |cs|, name + glue, glue);
      MergeStringArrays(acc, here);
    } else {
      assert (acc + here)[|acc|] == Entry(StrKey(name), e.val);
      assert !HasKey(acc, StrKey(name)) by {
        forall i | 0 <= i < |acc| ensures acc[i].key != StrKey(name) {
          assert (acc + here)[i] == acc[i];
        }
      }
      PutAbsent(acc, ToKey(name), e.val);
    }
  }

  /** `glue` is the reference flattening when the joined names are distinct
      strings: each value that is not an array appears under the keys leading
      to it, joined with the glue, in depth-first order, and nothing else does. */
  lemma GlueLeaves(es: seq<Entry>, glue: string)
    requires StringNamed(Leaves(es, glue))
    ensures Glue(es, glue) == Leaves(es, glue)
  {
    GlueEntriesLeaves(es, |es|, "", glue);
    assert LeavesFrom(es, |es|, "", glue) == [];
    assert Glue(es, glue) + [] == Glue(es, glue);
  }

  /** Each entry's leaves lie among the leaves of the entries from `j` on. */
  lemma {:induction false} LeavesFromHas(es: seq<Entry>, j: nat, i: nat, prefix: string, glue: string, x: Entry)
    requires j <= i < |es| && x in EntryLeaves(es[i], prefix, glue)
    ensures x in LeavesFrom(es, j, prefix, glue)
    decreases i - j
  {
    if j < i {
      LeavesFromHas(es, j + 1, i, prefix, glue, x);
    }
  }

  /** A value two levels down, reached by keys `k1` and `k2`, is found in the
      glued array under `k1`, the glue and `k2`. */
  lemma GlueFindsNested(es: seq<Entry>, glue: string, i: nat, j: nat)
    requires StringNamed(Leaves(es, glue))
    requires i < |es| && es[i].val.Arr? && j < |es[i].val.entries| && !es[i].val.entries[j].val.Arr?
    ensures var inner := es[i].val.entries[j];
      Find(Glue(es, glue), ToKey(KeyString(es[i].key) + glue + KeyString(inner.key))) == Some(inner.val)
  {
    var cs, inner := es[i].val.entries, es[i].val.entries[j];
    var name := KeyString(es[i].key) + glue + KeyString(inner.key);
    var x := Entry(StrKey(name), inner.val);
    assert "" + KeyString(es[i].key) + glue == KeyString(es[i].key) + glue;
    assert EntryLeaves(inner, KeyString(es[i].key) + glue, glue) == [x];
    LeavesFromHas(cs, 0, j, KeyString(es[i].key) + glue, glue, x);
    LeavesFromHas(es, 0, i, "", glue, x);
    GlueLeaves(es, glue);
    var ls := Leaves(es, glue);
    var n :| 0 <= n < |ls| && ls[n] == x;
    FindEntry(ls, n);
  }

  /** Integer keys of the top level are renumbered by the `array_merge` of a
      later nested array: `[5 => 'a', 'b' => ['c' => 1]]` glues to
      `[0 => 'a', 'b.c' => 1]`. */
  lemma GlueRenumbers()
    ensures Glue([Entry(IntKey(5), Str("a")), Entry(StrKey("b"), Arr([Entry(StrKey("c"), Int(1))]))], ".")
      == [Entry(IntKey(0), Str("a")), Entry(StrKey("b.c"), Int(1))]
  {
    var es := [Entry(IntKey(5), Str("a")), Entry(StrKey("b"), Arr([Entry(StrKey("c"), Int(1))]))];
    var cs := [Entry(StrKey("c"), Int(1))];
    var first := [Entry(IntKey(5), Str("a"))];
    var inner := [Entry(StrKey("b.c"), Int(1))];
    assert IntToString(5) == "5" by {
      assert NatToString(5) == "5";
    }
    assert "" + "5" == "5";
    assert ToKey("5") == IntKey(5) by {
      assert IsCanonicalInt("5");
      assert DigitsValue("5") == 5;
    }
    assert GlueEntries(es, 1, "", ".") == first;
    assert "b." + "c" == "b.c" && "" + "b" + "." == "b.";
    assert ToKey("b.c") == StrKey("b.c") by {
      assert "b.c"[0] == 'b' && !IsDigit('b');
    }
    assert GlueEntries(cs, 1, "b.", ".") == inner;
    assert GlueEntries(es, 2, "", ".") == ArrayMerge(first, inner);
    assert MergeInto([], first) == [Entry(IntKey(0), Str("a"))];
    assert MergeInto([Entry(IntKey(0), Str("a"))], inner) == [Entry(IntKey(0), Str("a")), Entry(StrKey("b.c"), Int(1))];
  }

  // ----------------------------------------------------------------- extend

  /** `extend($arr1, $arr2)`: either argument empty gives the other; otherwise
      the entries of `$arr2` are folded into `$arr1`. */
  function Extend(a: seq<Entry>, b: seq<Entry>): Result<seq<Entry>>
    decreases Depth(Arr(b)), 1
  {
    if a == [] then Ok(b)
    else if b == [] then Ok(a)
    else ExtendSteps(a, b, |b|)
  }

  /** The first `i` turns of `extend`'s loop. */
  function ExtendSteps(a: seq<Entry>, b: seq<Entry>, i: nat): Result<seq<Entry>>
    requires i <= |b|
    decreases Depth(Arr(b)), 0, i
  {
    if i == 0 then Ok(a)
    else
      match ExtendSteps(a, b, i - 1)
      case Err(err) => Err(err)
      case Ok(acc) => ExtendEntry(acc, b[i - 1])
  }

  /** One turn of `extend`'s loop: an integer key appends its value; a string
      key holding an array is merged recursively into the array under that key
      (an empty one when the key is not set), which must be an array; a string
      key holding anything else overwrites. */
  function ExtendEntry(acc: seq<Entry>, e: Entry): Result<seq<Entry>>
    decreases Depth(e.val), 2
  {
    if e.key.IntKey? then Ok(Append(acc, e.val))
    else if e.val.Arr? then
      var cur := if IsSet(acc, e.key) then Lookup(acc, e.key) else Arr([]);
      if !cur.Arr? then Err(NotAnArray)
      else
        match Extend(cur.entries, e.val.entries)
        case Err(err) => Err(err)
        case Ok(m) => Ok(Put(acc, e.key, Arr(m)))
    else Ok(Put(acc, e.key, e.val))
  }

  method ExtendArrays(a: seq<Entry>, b: seq<Entry>) returns (r: Result<seq<Entry>>)
    ensures r == Extend(a, b)
    decreases Depth(Arr(b)), 1
  {
    if a == [] {
      return Ok(b);
    } else if b == [] {
      return Ok(a);
    }
    var acc := a;
    var i := 0;
    while i < |b|
      invariant 0 <= i <= |b|
      invariant ExtendSteps(a, b, i) == Ok(acc)
    {
      var step := ExtendOne(acc, b[i]);
      if step.Err? {
        ExtendFailureSticks(a, b, i + 1, |b|);
        return step;
      }
      acc := step.value;
      i := i + 1;
    }
    return Ok(acc);
  }

  /** The body of `extend`'s loop for one entry of `$arr2`, writing into the
      array under a string key in place. */
  method ExtendOne(acc: seq<Entry>, e: Entry) returns (r: Result<seq<Entry>>)
    ensures r == ExtendEntry(acc, e)
    decreases Depth(e.val), 2
  {
    if e.key.IntKey? {
      return Ok(Append(acc, e.val));
    } else if !e.val.Arr? {
      return Ok(Put(acc, e.key, e.val));
    }
    var res := acc;
    if !IsSet(res, e.key) {
      res := Put(res, e.key, Arr([]));
    }
    var cur := Lookup(res, e.key);
    if !cur.Arr? {
      return Err(NotAnArray);
    }
    var m := ExtendArrays(cur.entries, e.val.entries);
    if m.Err? {
      return Err(m.error);
    }
    PutTwice(acc, e.key, Arr([]), Arr(m.value));
    return Ok(Put(res, e.key, Arr(m.value)));
  }

  /** Once a turn of the loop fails, `extend` fails with that error. */
  lemma {:induction false} ExtendFailureSticks(a: seq<Entry>, b: seq<Entry>, i: nat, j: nat)
    requires i <= j <= |b| && ExtendSteps(a, b, i).Err?
    ensures ExtendSteps(a, b, j) == ExtendSteps(a, b, i)
    decreases j
  {
    if i < j {
      ExtendFailureSticks(a, b, i, j - 1);
    }
  }

  /** The values under integer keys, in order. */
  function IntValues(es: seq<Entry>): seq<Value>
    decreases |es|
  {
    if es == [] then []
    else (if es[0].key.IntKey? then [es[0].val] else []) + IntValues(es[1..])
  }

  lemma {:induction false} IntValuesConcat(xs: seq<Entry>, ys: seq<Entry>)
    ensures IntValues(xs + ys) == IntValues(xs) + IntValues(ys)
    decreases |xs|
  {
    if xs != [] {
      assert (xs + ys)[1..] == xs[1..] + ys;
      IntValuesConcat(xs[1..], ys);
    } else {
      assert xs + ys == ys;
    }
  }

  lemma {:induction false} IntValuesOfPut(es: seq<Entry>, s: string, v: Value)
    ensures IntValues(Put(es, StrKey(s), v)) == IntValues(es)
    decreases |es|
  {
    if es == [] {
      assert IntValues([Entry(StrKey(s), v)]) == [] + IntValues([]);
    } else if es[0].key == StrKey(s) {
      assert Put(es, StrKey(s), v)[1..] == es[1..];
    } else {
      IntValuesOfPut(es[1..], s, v);
      assert Put(es, StrKey(s), v)[1..] == Put(es[1..], StrKey(s), v);
    }
  }

  /** The values under integer keys of the result are those of `$arr1`
      followed by those of `$arr2`, in order. */
  lemma {:induction false} ExtendAppendsIntValues(a: seq<Entry>, b: seq<Entry>, i: nat)
    requires i <= |b| && ExtendSteps(a, b, i).Ok?
    ensures IntValues(ExtendSteps(a, b, i).value) == IntValues(a) + IntValues(b[..i])
    decreases i
  {
    if i > 0 {
      ExtendAppendsIntValues(a, b, i - 1);
      var e := b[i - 1];
      ExtendEntryIntValues(ExtendSteps(a, b, i - 1).value, e);
      IntValuesConcat(b[..i - 1], [e]);
      assert b[..i] == b[..i - 1] + [e];
    }
  }

  lemma ExtendEntryIntValues(acc: seq<Entry>, e: Entry)
    requires ExtendEntry(acc, e).Ok?
    ensures IntValues(ExtendEntry(acc, e).value) == IntValues(acc) + IntValues([e])
  {
    if e.key.IntKey? {
      IntValuesConcat(acc, [Entry(IntKey(NextIndex(acc)), e.val)]);
      assert IntValues([Entry(IntKey(NextIndex(acc)), e.val)]) == [e.val] + IntValues([]);
      assert IntValues([e]) == [e.val] + IntValues([]);
    } else {
      assert IntValues([e]) == [] + IntValues([]);
      if e.val.Arr? {
        var cur := if IsSet(acc, e.key) then Lookup(acc, e.key) else Arr([]);
        IntValuesOfPut(acc, e.key.s, Arr(Extend(cur.entries, e.val.entries).value));
      } else {
        IntValuesOfPut(acc, e.key.s, e.val);
      }
    }
  }

  lemma ExtendIntValues(a: seq<Entry>, b: seq<Entry>)
    requires Extend(a, b).Ok?
    ensures IntValues(Extend(a, b).value) == IntValues(a) + IntValues(b)
  {
    if a == [] {
      assert IntValues(a) == [];
    } else if b == [] {
      assert IntValues(b) == [];
    } else {
      ExtendAppendsIntValues(a, b, |b|);
      assert b[..|b|] == b;
    }
  }

  /** No key of `$arr1` is removed. */
  lemma {:induction false} ExtendKeepsKeys(a: seq<Entry>, b: seq<Entry>, i: nat, k: Key)
    requires i <= |b| && ExtendSteps(a, b, i).Ok? && HasKey(a, k)
    ensures HasKey(ExtendSteps(a, b, i).value, k)
    decreases i
  {
    if i > 0 {
      ExtendKeepsKeys(a, b, i - 1, k);
      ExtendEntryKeepsKeys(ExtendSteps(a, b, i - 1).value, b[i - 1], k);
    }
  }

  lemma ExtendEntryKeepsKeys(acc: seq<Entry>, e: Entry, k: Key)
    requires ExtendEntry(acc, e).Ok? && HasKey(acc, k)
    ensures HasKey(ExtendEntry(acc, e).value, k)
  {
    var r := ExtendEntry(acc, e).value;
    if e.key.IntKey? {
      var i :| 0 <= i < |acc| && acc[i].key == k;
      assert r[i].key == k;
    } else {
      assert Find(acc, k).Some?;
    }
  }

  /** A string key of `$arr2` ends up holding its value from `$arr2` when that
      value is not an array, or when it is one and `$arr1` has no value set
      under the key. */
  lemma ExtendOverwrites(a: seq<Entry>, b: seq<Entry>, j: nat)
    requires Extend(a, b).Ok? && DistinctKeys(b) && j < |b|
    requires b[j].key.StrKey? && (!b[j].val.Arr? || !IsSet(a, b[j].key))
    ensures Find(Extend(a, b).value, b[j].key) == Some(b[j].val)
  {
    if a == [] {
      FindEntry(b, j);
    } else {
      ExtendFinds(a, b, |b|, j);
    }
  }

  lemma {:induction false} ExtendFinds(a: seq<Entry>, b: seq<Entry>, i: nat, j: nat)
    requires a != [] && i <= |b| && ExtendSteps(a, b, i).Ok? && DistinctKeys(b) && j < |b|
    requires b[j].key.StrKey? && (!b[j].val.Arr? || !IsSet(a, b[j].key))
    ensures Find(ExtendSteps(a, b, i).value, b[j].key) == if i <= j then Find(a, b[j].key) else Some(b[j].val)
    decreases i
  {
    if i > 0 {
      ExtendFinds(a, b, i - 1, j);
      var acc := ExtendSteps(a, b, i - 1).value;
      var e, k := b[i - 1], b[j].key;
      if i - 1 == j {
        ExtendEntryStores(acc, e);
      } else {
        assert e.key != k;
        ExtendEntryLeaves(acc, e, k);
      }
    }
  }

  /** Before the turn of entry `j`, the loop has not touched its string key. */
  lemma {:induction false} ExtendUntouched(a: seq<Entry>, b: seq<Entry>, i: nat, j: nat)
    requires i <= j < |b| && ExtendSteps(a, b, i).Ok? && DistinctKeys(b) && b[j].key.StrKey?
    ensures Find(ExtendSteps(a, b, i).value, b[j].key) == Find(a, b[j].key)
    decreases i
  {
    if i > 0 {
      ExtendUntouched(a, b, i - 1, j);
      assert b[i - 1].key != b[j].key;
      ExtendEntryLeaves(ExtendSteps(a, b, i - 1).value, b[i - 1], b[j].key);
    }
  }

  /** A string key under which both arrays hold an array ends up holding
      the recursive `extend` of the two. */
  lemma ExtendMerges(a: seq<Entry>, b: seq<Entry>, j: nat, inner: seq<Entry>)
    requires Extend(a, b).Ok? && DistinctKeys(b) && j < |b|
    requires b[j].key.StrKey? && b[j].val.Arr? && Find(a, b[j].key) == Some(Arr(inner))
    ensures Extend(inner, b[j].val.entries).Ok?
    ensures Find(Extend(a, b).value, b[j].key) == Some(Arr(Extend(inner, b[j].val.entries).value))
  {
    var k := b[j].key;
    assert Extend(a, b) == ExtendSteps(a, b, |b|);
    ExtendLeavesAfter(a, b, j + 1, |b|, k);
    ExtendUntouched(a, b, j, j);
    var acc := ExtendSteps(a, b, j).value;
    ExtendEntryMerges(acc, b[j], inner);
  }

  /** The turns after that of a string key's only entry leave that key alone. */
  lemma {:induction false} ExtendLeavesAfter(a: seq<Entry>, b: seq<Entry>, i: nat, n: nat, k: Key)
    requires 0 < i <= n <= |b| && ExtendSteps(a, b, n).Ok? && DistinctKeys(b) && k.StrKey?
    requires b[i - 1].key == k
    ensures ExtendSteps(a, b, i).Ok?
    ensures Find(ExtendSteps(a, b, n).value, k) == Find(ExtendSteps(a, b, i).value, k)
    decreases n
  {
    if ExtendSteps(a, b, i).Err? {
      ExtendFailureSticks(a, b, i, n);
    }
    if i < n {
      ExtendLeavesAfter(a, b, i, n - 1, k);
      assert b[n - 1].key != k;
      ExtendEntryLeaves(ExtendSteps(a, b, n - 1).value, b[n - 1], k);
    }
  }

  /** One turn merges an array into the array already under its string key. */
  lemma ExtendEntryMerges(acc: seq<Entry>, e: Entry, inner: seq<Entry>)
    requires e.key.StrKey? && e.val.Arr? && Find(acc, e.key) == Some(Arr(inner))
    ensures ExtendEntry(acc, e).Ok? <==> Extend(inner, e.val.entries).Ok?
    ensures ExtendEntry(acc, e).Ok? ==>
      Find(ExtendEntry(acc, e).value, e.key) == Some(Arr(Extend(inner, e.val.entries).value))
  {
  }

  /** An array in `$arr2` under a string key where `$arr1` holds a scalar
      other than null makes `extend` fail. */
  lemma ExtendRefusesScalar(a: seq<Entry>, b: seq<Entry>, j: nat)
    requires a != [] && DistinctKeys(b) && j < |b|
    requires b[j].key.StrKey? && b[j].val.Arr? && IsSet(a, b[j].key) && !Lookup(a, b[j].key).Arr?
    ensures Extend(a, b).Err?
  {
    if ExtendSteps(a, b, j).Err? {
      ExtendFailureSticks(a, b, j, |b|);
    } else {
      ExtendUntouched(a, b, j, j);
      ExtendFailureSticks(a, b, j + 1, |b|);
    }
  }

  /** One turn stores a string key's value when it is no array or the key is not set yet. */
  lemma ExtendEntryStores(acc: seq<Entry>, e: Entry)
    requires ExtendEntry(acc, e).Ok? && e.key.StrKey? && (!e.val.Arr? || !IsSet(acc, e.key))
    ensures Find(ExtendEntry(acc, e).value, e.key) == Some(e.val)
  {
    if e.val.Arr? {
      assert Extend([], e.val.entries) == Ok(e.val.entries);
    }
  }

  /** One turn leaves every other key already present, and every other string key, as it was. */
  lemma ExtendEntryLeaves(acc: seq<Entry>, e: Entry, k: Key)
    requires ExtendEntry(acc, e).Ok? && e.key != k && (k.StrKey? || HasKey(acc, k))
    ensures Find(ExtendEntry(acc, e).value, k) == Find(acc, k)
  {
    if e.key.IntKey? {
      if k.IntKey? {
        var i :| 0 <= i < |acc| && acc[i].key == k;
      }
      FindSnoc(acc, Entry(IntKey(NextIndex(acc)), e.val), k);
    }
  }
}
