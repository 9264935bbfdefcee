/**
 * The ordered-map helpers of `Arrays` that take one array apart: `isAssoc`,
 * `replace`, `clear`, `filter`, `skip` and `sliceEquinum`.
 *
 * Arrays are the entry sequences of `PhpValues`; callbacks are total
 * functions of the value and the key.
 */
module Arrays {
  import opened PhpValues

  // ---------------------------------------------------------------- isAssoc

  function Keys(es: seq<Entry>): seq<Key> {
    seq(|es|, i requires 0 <= i < |es| => es[i].key)
  }

  /** `isAssoc`: `array_keys` of the keys differs from the keys, that is the
      keys are not 0, 1, 2, ... in order. */
  function IsAssoc(es: seq<Entry>): (r: bool)
    ensures r <==> !IsList(es)
  {
    KeysOfList(es);
    Keys(es) != seq(|es|, i => IntKey(i))
  }

  lemma KeysOfList(es: seq<Entry>)
    ensures Keys(es) == seq(|es|, i => IntKey(i)) <==> IsList(es)
  {
    if !IsList(es) {
      var i :| 0 <= i < |es| && es[i].key != IntKey(i);
      assert Keys(es)[i] != seq(|es|, i => IntKey(i))[i];
    }
  }

  /** A list is not associative, and an array that is not associative is the
      list of its values. */
  lemma ListsAreNotAssoc(vs: seq<Value>, es: seq<Entry>)
    ensures !IsAssoc(AsList(vs))
    ensures !IsAssoc(es) ==> es == AsList(Values(es))
  {
  }

  // ---------------------------------------------------------------- replace

  /** `replace` over the first entries: each value is looked up as a key of
      `$map`; entries whose value is not a set key of `$map` are dropped. */
  function Replaced(es: seq<Entry>, table: seq<Entry>): Result<seq<Entry>>
    decreases |es|
  {
    if es == [] then Ok([])
    else
      match Replaced(es[..|es| - 1], table)
      case Err(err) => Err(err)
      case Ok(res) =>
        var last := es[|es| - 1];
        match OffsetKey(last.val)
        case None => Err(IllegalOffset)
        case Some(k) => Ok(if IsSet(table, k) then Put(res, last.key, Lookup(table, k)) else res)
  }

  /** `replace($values, $map)`: throws when the values are no array. */
  function ReplaceResult(values: Value, table: seq<Entry>): Result<seq<Entry>> {
    if values.Arr? then Replaced(values.entries, table) else Err(NotAnArray)
  }

  method Replace(values: Value, table: seq<Entry>) returns (r: Result<seq<Entry>>)
    ensures r == ReplaceResult(values, table)
  {
    if !values.Arr? {
      return Err(NotAnArray);
    }
    var es := values.entries;
    var res: seq<Entry> := [];
    var i := 0;
    while i < |es|
      invariant 0 <= i <= |es|
      invariant Replaced(es[..i], table) == Ok(res)
    {
      assert es[..i + 1][..i] == es[..i];
      var k := OffsetKey(es[i].val);
      if k.None? {
        ReplaceFails(es, table);
        return Err(IllegalOffset);
      }
      if IsSet(table, k.value) {
        res := Put(res, es[i].key, Lookup(table, k.value));
      }
      i := i + 1;
    }
    assert es[..i] == es;
    return Ok(res);
  }

  /** `replace` fails exactly when some value is an array, which cannot be
      used as a key. */
  lemma {:induction false} ReplaceFails(es: seq<Entry>, table: seq<Entry>)
    ensures Replaced(es, table).Err? <==> exists i :: 0 <= i < |es| && es[i].val.Arr?
    ensures Replaced(es, table).Err? ==> Replaced(es, table).error == IllegalOffset
    decreases |es|
  {
    if es != [] {
      var init := es[..|es| - 1];
      ReplaceFails(init, table);
      if exists i :: 0 <= i < |init| && init[i].val.Arr? {
        var i :| 0 <= i < |init| && init[i].val.Arr?;
        assert es[i] == init[i];
      }
      if exists i :: 0 <= i < |es| && es[i].val.Arr? {
        var i :| 0 <= i < |es| && es[i].val.Arr?;
        if i < |init| {
          assert init[i] == es[i];
        }
      }
    }
  }

  /** What `replace` maps a key to: the `$map` entry named by the value that key
      held, when that entry is set, and nothing otherwise. */
  lemma {:induction false} ReplaceFinds(es: seq<Entry>, table: seq<Entry>)
    requires DistinctKeys(es) && Replaced(es, table).Ok?
    ensures forall i :: 0 <= i < |es| ==>
      && OffsetKey(es[i].val).Some?
      && var k := OffsetKey(es[i].val).value;
         Find(Replaced(es, table).value, es[i].key) == (if IsSet(table, k) then Some(Lookup(table, k)) else None)
    ensures forall k :: !HasKey(es, k) ==> Find(Replaced(es, table).value, k) == None
    decreases |es|
  {
    if es != [] {
      var init, last := es[..|es| - 1], es[|es| - 1];
      ReplaceFinds(init, table);
      forall k | !HasKey(es, k) ensures !HasKey(init, k) {
      }
      forall i | 0 <= i < |init| ensures es[i] == init[i] && es[i].key != last.key { }
      assert !HasKey(init, last.key);
    }
  }

  // ------------------------------------------------------------------ clear

  /** Unsetting each of `ks` in turn; an array names no key. */
  function Unsets(data: seq<Entry>, ks: seq<Value>): Result<seq<Entry>>
    decreases |ks|
  {
    if ks == [] then Ok(data)
    else
      match Unsets(data, ks[..|ks| - 1])
      case Err(err) => Err(err)
      case Ok(d) =>
        match OffsetKey(ks[|ks| - 1])
        case None => Err(IllegalOffset)
        case Some(k) => Ok(Unset(d, k))
  }

  /** `clear($data, $keys)`: an empty `$keys` leaves the data alone, a single
      key is treated as a one-element list. */
  function ClearResult(data: seq<Entry>, keys: Value): Result<seq<Entry>> {
    if !Truthy(keys) then Ok(data)
    else Unsets(data, if keys.Arr? then Values(keys.entries) else [keys])
  }

  method Clear(data: seq<Entry>, keys: Value) returns (r: Result<seq<Entry>>)
    ensures r == ClearResult(data, keys)
  {
    if !Truthy(keys) {
      return Ok(data);
    }
    var ks := if keys.Arr? then Values(keys.entries) else [keys];
    var d := data;
    var i := 0;
    while i < |ks|
      invariant 0 <= i <= |ks|
      invariant Unsets(data, ks[..i]) == Ok(d)
    {
      assert ks[..i + 1][..i] == ks[..i];
      var k := OffsetKey(ks[i]);
      if k.None? {
        UnsetsFails(data, ks);
        return Err(IllegalOffset);
      }
      d := Unset(d, k.value);
      i := i + 1;
    }
    assert ks[..i] == ks;
    return Ok(d);
  }

  /** Clearing fails exactly when some listed key is an array. */
  lemma {:induction false} UnsetsFails(data: seq<Entry>, ks: seq<Value>)
    ensures Unsets(data, ks).Err? <==> exists j :: 0 <= j < |ks| && ks[j].Arr?
    ensures Unsets(data, ks).Err? ==> Unsets(data, ks).error == IllegalOffset
    decreases |ks|
  {
    if ks != [] {
      var init := ks[..|ks| - 1];
      UnsetsFails(data, init);
      if exists j :: 0 <= j < |init| && init[j].Arr? {
        var j :| 0 <= j < |init| && init[j].Arr?;
        assert ks[j] == init[j];
      }
      if exists j :: 0 <= j < |ks| && ks[j].Arr? {
        var j :| 0 <= j < |ks| && ks[j].Arr?;
        if j < |init| {
          assert init[j] == ks[j];
        }
      }
    }
  }

  /** After clearing, every listed key is gone and every other key is untouched. */
  lemma {:induction false} UnsetsRemoves(data: seq<Entry>, ks: seq<Value>)
    requires Unsets(data, ks).Ok?
    ensures forall j :: 0 <= j < |ks| ==>
      OffsetKey(ks[j]).Some? && Find(Unsets(data, ks).value, OffsetKey(ks[j]).value) == None
    ensures forall k :: (forall j :: 0 <= j < |ks| ==> OffsetKey(ks[j]) != Some(k)) ==>
      Find(Unsets(data, ks).value, k) == Find(data, k)
    decreases |ks|
  {
    if ks != [] {
      var init := ks[..|ks| - 1];
      UnsetsRemoves(data, init);
      forall j | 0 <= j < |init| ensures init[j] == ks[j] { }
    }
  }

  // ----------------------------------------------------------------- filter

  /** The entries whose value and key the callback accepts, in order. */
  function Filtered(es: seq<Entry>, keep: (Value, Key) -> Value): (r: seq<Entry>)
    ensures |r| <= |es|
    ensures forall e :: e in r ==> e in es
    decreases |es|
  {
    if es == [] then []
    else
      var last := es[|es| - 1];
      Filtered(es[..|es| - 1], keep) + (if Truthy(keep(last.val, last.key)) then [last] else [])
  }

  /** `filter($arr, $callback)`: unsets, while walking the array, every entry
      the callback rejects. */
  method Filter(arr: seq<Entry>, keep: (Value, Key) -> Value) returns (r: seq<Entry>)
    requires DistinctKeys(arr)
    ensures r == Filtered(arr, keep)
  {
    r := arr;
    var i := 0;
    while i < |arr|
      invariant 0 <= i <= |arr|
      invariant r == Filtered(arr[..i], keep) + arr[i..]
    {
      FilterStep(arr, i, keep);
      if !Truthy(keep(arr[i].val, arr[i].key)) {
        r := Unset(r, arr[i].key);
      }
      i := i + 1;
    }
    assert arr[..i] == arr;
  }

  /** One turn of `filter`'s loop: unsetting a rejected entry removes exactly
      that entry. */
  lemma FilterStep(arr: seq<Entry>, i: int, keep: (Value, Key) -> Value)
    requires DistinctKeys(arr) && 0 <= i < |arr|
    ensures var e, r := arr[i], Filtered(arr[..i], keep) + arr[i..];
      Filtered(arr[..i + 1], keep) + arr[i + 1..] == if Truthy(keep(e.val, e.key)) then r else Unset(r, e.key)
  {
    var e, f := arr[i], Filtered(arr[..i], keep);
    assert arr[..i + 1][..i] == arr[..i] && arr[..i + 1][i] == e;
    assert arr[i..] == [e] + arr[i + 1..];
    if !Truthy(keep(e.val, e.key)) {
      KeyOnlyAt(arr, i, f);
      UnsetEntry(f, e, arr[i + 1..]);
      assert Filtered(arr[..i + 1], keep) == f;
      assert f + arr[i..] == f + [e] + arr[i + 1..];
    }
  }

  /** With distinct keys, the key of entry `i` occurs neither after it nor in
      any selection of the entries before it. */
  lemma KeyOnlyAt(arr: seq<Entry>, i: int, f: seq<Entry>)
    requires DistinctKeys(arr) && 0 <= i < |arr|
    requires forall e :: e in f ==> e in arr[..i]
    ensures !HasKey(f, arr[i].key) && !HasKey(arr[i + 1..], arr[i].key)
  {
    forall j | 0 <= j < |f| ensures f[j].key != arr[i].key {
      assert f[j] in arr[..i];
    }
    var after := arr[i + 1..];
    forall j | 0 <= j < |after| ensures after[j].key != arr[i].key {
      assert after[j] == arr[i + 1 + j];
    }
  }

  /** `filter` keeps exactly the entries the callback accepts. */
  lemma {:induction false} FilteredMembers(es: seq<Entry>, keep: (Value, Key) -> Value, e: Entry)
    ensures e in Filtered(es, keep) <==> e in es && Truthy(keep(e.val, e.key))
    decreases |es|
  {
    if es != [] {
      var init := es[..|es| - 1];
      FilteredMembers(init, keep, e);
      assert es == init + [es[|es| - 1]];
    }
  }

  // ------------------------------------------------------------------- skip

  /** The entries whose key is not an integer in `[lo, hi)`, in order. */
  function Without(es: seq<Entry>, lo: int, hi: int): (r: seq<Entry>)
    ensures |r| <= |es|
    decreases |es|
  {
    if es == [] then []
    else
      var drop := es[0].key.IntKey? && lo <= es[0].key.i < hi;
      (if drop then [] else [es[0]]) + Without(es[1..], lo, hi)
  }

  /** An entry survives exactly when it is in the array and its key is not
      an integer in `[lo, hi)`. */
  lemma {:induction false} WithoutMembers(es: seq<Entry>, lo: int, hi: int, e: Entry)
    ensures e in Without(es, lo, hi) <==> e in es && !(e.key.IntKey? && lo <= e.key.i < hi)
    decreases |es|
  {
    if es != [] {
      WithoutMembers(es[1..], lo, hi, e);
      assert es == [es[0]] + es[1..];
    }
  }

  /** `skip($array, $n, $tail)`: unsets the integer keys `count - n .. count - 1`
      when `$tail` is set, and `0 .. n - 1` otherwise. */
  function SkipResult(es: seq<Entry>, n: int, tail: bool): seq<Entry> {
    if tail then Without(es, |es| - n, |es|) else Without(es, 0, n)
  }

  method Skip(arr: seq<Entry>, n: int, tail: bool) returns (r: seq<Entry>)
    ensures r == SkipResult(arr, n, tail)
  {
    var c := |arr|;
    var lo, hi := if tail then c - n else 0, if tail then c else n;
    r := arr;
    WithoutNothing(arr, lo, lo);
    var i := lo;
    while i < hi
      invariant lo <= i <= (if lo <= hi then hi else lo)
      invariant r == Without(arr, lo, i)
    {
      UnsetWithout(arr, lo, i);
      r := Unset(r, IntKey(i));
      i := i + 1;
    }
    WithoutNothing(arr, lo, hi);
  }

  /** An empty or reversed range removes nothing. */
  lemma {:induction false} WithoutNothing(es: seq<Entry>, lo: int, hi: int)
    ensures hi <= lo ==> Without(es, lo, hi) == es
    decreases |es|
  {
    if es != [] {
      WithoutNothing(es[1..], lo, hi);
      assert es == [es[0]] + es[1..];
    }
  }

  /** Unsetting the next integer key grows the removed range by one. */
  lemma {:induction false} UnsetWithout(es: seq<Entry>, lo: int, i: int)
    requires lo <= i
    ensures Unset(Without(es, lo, i), IntKey(i)) == Without(es, lo, i + 1)
    decreases |es|
  {
    if es != [] {
      UnsetWithout(es[1..], lo, i);
      var x, rest := es[0], Without(es[1..], lo, i);
      if x.key.IntKey? && lo <= x.key.i < i {
        assert Without(es, lo, i) == rest;
        assert Without(es, lo, i + 1) == Without(es[1..], lo, i + 1);
      } else {
        assert Without(es, lo, i) == [x] + rest;
        assert ([x] + rest)[1..] == rest;
        if x.key == IntKey(i) {
          assert Without(es, lo, i + 1) == Without(es[1..], lo, i + 1);
        } else {
          assert Without(es, lo, i + 1) == [x] + Without(es[1..], lo, i + 1);
        }
      }
    }
  }

  /** On consecutive integer keys from `off`, removing a range that starts at
      or before `off` drops a prefix. */
  lemma {:induction false} WithoutFront(es: seq<Entry>, off: int, lo: int, hi: int)
    requires lo <= off
    requires forall j :: 0 <= j < |es| ==> es[j].key == IntKey(off + j)
    ensures Without(es, lo, hi) == es[Clamp(hi - off, |es|)..]
    decreases |es|
  {
    if es != [] {
      forall j | 0 <= j < |es[1..]| ensures es[1..][j].key == IntKey(off + 1 + j) {
        assert es[1..][j] == es[j + 1];
      }
      WithoutFront(es[1..], off + 1, lo, hi);
      if off < hi {
        assert es[1..][Clamp(hi - off - 1, |es| - 1)..] == es[Clamp(hi - off, |es|)..];
      } else {
        assert es == [es[0]] + es[1..];
      }
    }
  }

  /** On consecutive integer keys from `off`, removing a range that reaches
      past the last key drops a suffix. */
  lemma {:induction false} WithoutBack(es: seq<Entry>, off: int, lo: int, hi: int)
    requires off + |es| <= hi
    requires forall j :: 0 <= j < |es| ==> es[j].key == IntKey(off + j)
    ensures Without(es, lo, hi) == es[..Clamp(lo - off, |es|)]
    decreases |es|
  {
    if es != [] {
      forall j | 0 <= j < |es[1..]| ensures es[1..][j].key == IntKey(off + 1 + j) {
        assert es[1..][j] == es[j + 1];
      }
      WithoutBack(es[1..], off + 1, lo, hi);
      if off < lo {
        assert [es[0]] + es[1..][..Clamp(lo - off - 1, |es| - 1)] == es[..Clamp(lo - off, |es|)];
      }
    }
  }

  function Clamp(x: int, n: nat): (r: nat)
    ensures r <= n
  {
    if x < 0 then 0 else if x > n then n else x
  }

  /** On a list and for `0 <= n <= count`, `skip` drops the first `n` values,
      or the last `n` with `$tail`. */
  lemma SkipList(es: seq<Entry>, n: int)
    requires IsList(es) && 0 <= n <= |es|
    ensures SkipResult(es, n, false) == es[n..]
    ensures SkipResult(es, n, true) == es[..|es| - n]
  {
    WithoutFront(es, 0, 0, n);
    WithoutBack(es, 0, |es| - n, |es|);
  }

  // ----------------------------------------------------------- sliceEquinum

  /** PHP's `floor($a / $b)` for integers. */
  function FloorDiv(a: int, b: int): int
    requires b != 0
  {
    if b > 0 then a / b else (-a) / (-b)
  }

  /** `array_slice($es, $offset, $length)` for a non-negative offset: a
      negative length stops that many entries before the end; integer keys
      are renumbered, string keys kept. */
  function ArraySlice(es: seq<Entry>, offset: nat, length: int): seq<Entry> {
    var end := if length >= 0 then (if offset + length < |es| then offset + length else |es|) else |es| + length;
    MergeInto([], if offset < end then es[offset..end] else [])
  }

  /** The part index `sliceEquinum` uses: `$which` clamped to `[0, parts]`. */
  function PartIndex(n: nat, count: int, which: int): (w: nat)
    requires count != 0
    ensures count < 0 ==> w == 0
  {
    var parts := FloorDiv(n, count);
    if which < parts then (if which < 0 then 0 else which) else (if parts < 0 then 0 else parts)
  }

  /** `sliceEquinum($array, $count, $which)`: the `$which`-th run of `$count`
      entries; a zero count divides by zero. */
  function SliceEquinum(es: seq<Entry>, count: int, which: int): Result<seq<Entry>> {
    if count == 0 then Err(DivisionByZero)
    else Ok(ArraySlice(es, count * PartIndex(|es|, count, which), count))
  }

  /** Where the chosen part lies for a positive count. */
  lemma PartBounds(n: nat, count: int, which: int)
    requires count > 0
    ensures var w := PartIndex(n, count, which);
      && w <= n / count && count * w <= n
      && (0 <= which < n / count ==> count * w + count <= n)
      && (which >= n / count ==> n - count * w == n % count)
  {
    var w := PartIndex(n, count, which);
    var q := n / count;
    assert n == count * q + n % count;
    MulMono(count, w, q);
    if 0 <= which < q {
      MulMono(count, w + 1, q);
    }
  }

  lemma MulMono(a: int, b: int, c: int)
    requires a > 0 && b <= c
    ensures a * b <= a * c
  {
  }

  /** For a positive count, the values `sliceEquinum` returns are the
      `$which`-th run of `$count` values (`$which` clamped to the parts there
      are), shorter for the last part. */
  lemma SliceEquinumValues(es: seq<Entry>, count: int, which: int)
    requires DistinctKeys(es) && count > 0
    ensures var off := count * PartIndex(|es|, count, which);
      && SliceEquinum(es, count, which).Ok?
      && off <= |es|
      && Values(SliceEquinum(es, count, which).value) == Values(es)[off..if off + count < |es| then off + count else |es|]
  {
    PartBounds(|es|, count, which);
    ArraySliceValues(es, count * PartIndex(|es|, count, which), count);
  }

  /** For a negative count, `sliceEquinum` returns all but the last `-$count`
      values. */
  lemma SliceEquinumNegative(es: seq<Entry>, count: int, which: int)
    requires DistinctKeys(es) && count < 0
    ensures SliceEquinum(es, count, which).Ok?
    ensures Values(SliceEquinum(es, count, which).value) == Values(es)[..if |es| + count > 0 then |es| + count else 0]
  {
    assert PartIndex(|es|, count, which) == 0;
    ArraySliceValues(es, 0, count);
  }

  /** `array_slice` of an array with distinct keys keeps the values of the run it cuts. */
  lemma ArraySliceValues(es: seq<Entry>, off: nat, length: int)
    requires DistinctKeys(es)
    ensures var end := if length >= 0 then (if off + length < |es| then off + length else |es|) else |es| + length;
      Values(ArraySlice(es, off, length)) == if off < end then Values(es)[off..end] else []
  {
    var end := if length >= 0 then (if off + length < |es| then off + length else |es|) else |es| + length;
    SliceKeepsValues(es, off, end);
  }

  /** Renumbering a run of entries with distinct keys keeps its values. */
  lemma SliceKeepsValues(es: seq<Entry>, off: int, end: int)
    requires DistinctKeys(es) && 0 <= off && end <= |es|
    ensures Values(MergeInto([], if off < end then es[off..end] else []))
      == if off < end then Values(es)[off..end] else []
  {
    var seg := if off < end then es[off..end] else [];
    assert DistinctKeys(seg);
    MergeKeepsValues([], seg);
    assert Values([]) == [];
    if off < end {
      assert Values(seg) == Values(es)[off..end];
    }
  }

  /** Every part before the last has exactly `$count` entries; the last has the
      remainder. */
  lemma SliceEquinumSizes(es: seq<Entry>, count: int, which: int)
    requires DistinctKeys(es) && count > 0
    ensures 0 <= which < |es| / count ==> |SliceEquinum(es, count, which).value| == count
    ensures which >= |es| / count ==> |SliceEquinum(es, count, which).value| == |es| % count
  {
    SliceEquinumValues(es, count, which);
    PartBounds(|es|, count, which);
    var r := SliceEquinum(es, count, which).value;
    assert |Values(r)| == |r|;
  }
}
