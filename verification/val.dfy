/**
 * The value helpers `Val::test`, `Val::specified` and `Val::nulls`.
 *
 * `nulls` walks a list of keys and, for each key present in the data whose
 * value is empty (falsy), overwrites that value with null. With no list it
 * takes every key of the data; a single non-array key is a one-element list.
 */
module Val {
  import opened PhpValues

  /** `test($flag, $arg1, $arg2)`: the flag itself when the first argument is
      null, otherwise one of the two arguments chosen by the flag's truth. */
  function Test(flag: Value, arg1: Value, arg2: Value): (r: Value)
    ensures r == flag || r == arg1 || r == arg2
    ensures arg1 == Null ==> r == flag
    ensures arg1 != Null ==> (r == arg1 <==> Truthy(flag) || arg1 == arg2)
  {
    if arg1 == Null then flag
    else if Truthy(flag) then arg1 else arg2
  }

  /** With a boolean flag and a non-null first argument, `test` is the
      conditional; with a null first argument it is the flag, whatever the
      second argument. */
  lemma TestOfBool(b: bool, x: Value, y: Value)
    ensures x != Null ==> Test(Bool(b), x, y) == (if b then x else y)
    ensures Test(Bool(b), Null, y) == Bool(b)
  {
  }

  /** `specified($value)`: not null and not the empty string, compared strictly. */
  predicate Specified(v: Value): (r: bool)
    ensures Truthy(v) ==> r
  {
    v != Null && v != Str("")
  }

  /** Every truthy value is specified; the specified values that are empty are
      exactly false, 0, "0" and the empty array. */
  lemma SpecifiedAndTruthy(v: Value)
    ensures Truthy(v) ==> Specified(v)
    ensures Specified(v) && !Truthy(v) <==> v in {Bool(false), Int(0), Str("0"), Arr([])}
  {
  }

  /** An element of `array_keys($data)`. */
  function KeyValue(k: Key): (v: Value)
    ensures ValidKey(k) ==> OffsetKey(v) == Some(k)
  {
    match k
    case IntKey(n) => Int(n)
    case StrKey(s) => Str(s)
  }

  /** The keys `nulls` walks: those of the data when none are given, the
      values of a given array, or the single value given. */
  function ListedKeys(data: seq<Entry>, keys: Value): seq<Value> {
    if keys == Null then seq(|data|, i requires 0 <= i < |data| => KeyValue(data[i].key))
    else if keys.Arr? then Values(keys.entries)
    else [keys]
  }

  /** One turn of the loop of `nulls`: a present key holding an empty value is
      set to null; an array used as a key is refused. */
  function NullsStep(data: seq<Entry>, kv: Value): Result<seq<Entry>> {
    match OffsetKey(kv)
    case None => Err(IllegalOffset)
    case Some(k) => if HasKey(data, k) && !Truthy(Lookup(data, k)) then Ok(Put(data, k, Null)) else Ok(data)
  }

  /** The loop of `nulls` over the keys `ks`. */
  function NullsFrom(data: seq<Entry>, ks: seq<Value>): Result<seq<Entry>>
    decreases |ks|
  {
    if ks == [] then Ok(data)
    else
      match NullsStep(data, ks[0])
      case Err(e) => Err(e)
      case Ok(d) => NullsFrom(d, ks[1..])
  }

  /** What `nulls($data, $keys)` returns. */
  function NullsResult(data: seq<Entry>, keys: Value): Result<seq<Entry>> {
    NullsFrom(data, ListedKeys(data, keys))
  }

  /** `nulls`, overwriting entries of its copy of the data in a loop. */
  method Nulls(data: seq<Entry>, keys: Value) returns (r: Result<seq<Entry>>)
    ensures r == NullsResult(data, keys)
  {
    var ks := ListedKeys(data, keys);
    var cur := data;
    var i := 0;
    while i < |ks|
      invariant 0 <= i <= |ks|
      invariant NullsFrom(cur, ks[i..]) == NullsResult(data, keys)
    {
      assert ks[i..][0] == ks[i] && ks[i..][1..] == ks[i + 1..];
      var key := OffsetKey(ks[i]);
      if key.None? {
        return Err(IllegalOffset);
      }
      if HasKey(cur, key.value) && !Truthy(Lookup(cur, key.value)) {
        cur := Put(cur, key.value, Null);
      }
      i := i + 1;
    }
    r := Ok(cur);
  }

  /** The reference: the data with every empty value under a key of `ks`
      replaced by null, nothing else touched. */
  function Nulled(data: seq<Entry>, ks: set<Key>): seq<Entry> {
    seq(|data|, i requires 0 <= i < |data| =>
      if data[i].key in ks && !Truthy(data[i].val) then Entry(data[i].key, Null) else data[i])
  }

  /** None of the listed keys is an array. */
  predicate AllOffsets(ks: seq<Value>) {
    forall j :: 0 <= j < |ks| ==> OffsetKey(ks[j]).Some?
  }

  /** The array keys the listed values name. */
  function OffsetKeys(ks: seq<Value>): set<Key>
    decreases |ks|
  {
    if ks == [] then {}
    else (if OffsetKey(ks[0]).Some? then {OffsetKey(ks[0]).value} else {}) + OffsetKeys(ks[1..])
  }

  lemma {:induction false} OffsetKeysHas(ks: seq<Value>, j: int)
    requires 0 <= j < |ks| && OffsetKey(ks[j]).Some?
    ensures OffsetKey(ks[j]).value in OffsetKeys(ks)
    decreases j
  {
    if j > 0 {
      assert ks[1..][j - 1] == ks[j];
      OffsetKeysHas(ks[1..], j - 1);
    }
  }

  /** With distinct keys one turn of the loop nulls the one key it is given. */
  lemma NullsStepNulls(data: seq<Entry>, kv: Value, k: Key)
    requires DistinctKeys(data) && OffsetKey(kv) == Some(k)
    ensures NullsStep(data, kv) == Ok(Nulled(data, {k}))
  {
    var n := Nulled(data, {k});
    if HasKey(data, k) && !Truthy(Lookup(data, k)) {
      var r := Put(data, k, Null);
      PutPresent(data, k, Null);
      PutKeepsDistinct(data, k, Null);
      forall i | 0 <= i < |data| ensures r[i] == n[i] {
        FindEntry(data, i);
        FindEntry(r, i);
      }
      assert r == n;
    } else {
      forall i | 0 <= i < |data| ensures data[i] == n[i] {
        FindEntry(data, i);
      }
      assert n == data;
    }
  }

  /** Nulling by two key sets in turn is nulling by their union. */
  lemma NulledTwice(data: seq<Entry>, s: set<Key>, t: set<Key>)
    ensures Nulled(Nulled(data, s), t) == Nulled(data, s + t)
  {
  }

  lemma NulledKeepsKeys(data: seq<Entry>, s: set<Key>)
    requires DistinctKeys(data)
    ensures DistinctKeys(Nulled(data, s))
  {
    var n := Nulled(data, s);
    assert forall i :: 0 <= i < |data| ==> n[i].key == data[i].key;
  }

  /** The loop of `nulls` fails exactly when an array is listed, and otherwise
      nulls the empty values under the listed keys. */
  lemma {:induction false} NullsFromNulls(data: seq<Entry>, ks: seq<Value>)
    requires DistinctKeys(data)
    ensures NullsFrom(data, ks) == if AllOffsets(ks) then Ok(Nulled(data, OffsetKeys(ks))) else Err(IllegalOffset)
    decreases |ks|
  {
    if ks == [] {
      assert Nulled(data, {}) == data;
    } else {
      var tail := ks[1..];
      assert forall j :: 0 <= j < |tail| ==> tail[j] == ks[j + 1];
      match OffsetKey(ks[0]) {
        case None =>
        case Some(k) =>
          NullsStepNulls(data, ks[0], k);
          var d := Nulled(data, {k});
          NulledKeepsKeys(data, {k});
          NullsFromNulls(d, tail);
          NulledTwice(data, {k}, OffsetKeys(tail));
      }
    }
  }

  /** `nulls` on an array: it fails only when an array is listed as a key;
      otherwise it keeps every key in its place, adds none, sets to null the
      empty values under listed keys and leaves every other value alone. */
  lemma NullsSpec(data: seq<Entry>, keys: Value)
    requires DistinctKeys(data)
    ensures var r := NullsResult(data, keys);
      var listed := OffsetKeys(ListedKeys(data, keys));
      && (r.Ok? <==> AllOffsets(ListedKeys(data, keys)))
      && (r.Ok? ==> |r.value| == |data| && forall i :: 0 <= i < |data| ==>
            && r.value[i].key == data[i].key
            && r.value[i].val == if data[i].key in listed && !Truthy(data[i].val) then Null else data[i].val)
  {
    NullsFromNulls(data, ListedKeys(data, keys));
  }

  /** Without a key list every empty value of the array becomes null. */
  lemma NullsEveryKey(data: seq<Entry>)
    requires DistinctKeys(data) && forall i :: 0 <= i < |data| ==> ValidKey(data[i].key)
    ensures NullsResult(data, Null) ==
      Ok(seq(|data|, i requires 0 <= i < |data| => if Truthy(data[i].val) then data[i] else Entry(data[i].key, Null)))
  {
    var ks := ListedKeys(data, Null);
    NullsFromNulls(data, ks);
    assert AllOffsets(ks);
    forall i | 0 <= i < |data| ensures data[i].key in OffsetKeys(ks) {
      OffsetKeysHas(ks, i);
    }
    var n := Nulled(data, OffsetKeys(ks));
    var m := seq(|data|, i requires 0 <= i < |data| => if Truthy(data[i].val) then data[i] else Entry(data[i].key, Null));
    assert forall i :: 0 <= i < |data| ==> n[i] == m[i];
    assert n == m;
  }

  /** A single key that is not an array is the list holding just that key. */
  lemma NullsSingleKey(data: seq<Entry>, key: Value)
    requires key != Null && !key.Arr?
    ensures NullsResult(data, key) == NullsResult(data, Arr([Entry(IntKey(0), key)]))
  {
    assert Values([Entry(IntKey(0), key)]) == [key];
  }

  /** Applying `nulls` twice with the same keys is applying it once. */
  lemma NullsIdempotent(data: seq<Entry>, keys: Value)
    requires DistinctKeys(data)
    ensures NullsResult(data, keys).Ok? ==> NullsResult(NullsResult(data, keys).value, keys) == NullsResult(data, keys)
  {
    var ks := ListedKeys(data, keys);
    NullsFromNulls(data, ks);
    if AllOffsets(ks) {
      var s := OffsetKeys(ks);
      var r := Nulled(data, s);
      NulledKeepsKeys(data, s);
      assert ListedKeys(r, keys) == ks;
      NullsFromNulls(r, ks);
      NulledTwice(data, s, s);
      assert s + s == s;
    }
  }
}
