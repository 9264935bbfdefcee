/**
 * PHP values and PHP arrays.
 *
 * A PHP array is an ordered map whose keys are integers or strings; it is
 * modelled as the sequence of its entries in iteration order. Assigning to
 * an existing key keeps its position, assigning to a new key appends, and
 * `$a[] = $v` appends under the next free integer key. A string used as a key
 * is normalised first: a canonical decimal string ("7", "-3") names an
 * integer key.
 */
module PhpValues {
  import opened PhpStrings

  datatype Option<T> = None | Some(value: T) {
    function GetOr(default: T): T {
      if Some? then value else default
    }
  }

  /** What the helpers throw (an exception of the library, or an error PHP itself raises). */
  datatype Error =
    | NotAnArray        // an array was expected
    | NotScalar         // a scalar was expected
    | IllegalOffset     // an array was used as an array key
    | ScalarAsArray     // a scalar was written into as if it were an array
    | DivisionByZero
    | EmptyChain        // a property chain that is empty
    | ChainNotString    // a property chain that is not a string
    | InvalidChainType  // a property chain that runs into a scalar

  datatype Result<T> = Ok(value: T) | Err(error: Error)

  datatype Key = IntKey(i: int) | StrKey(s: string)

  /** The PHP values the helpers handle (objects, resources and floats aside). */
  datatype Value =
    | Null
    | Bool(b: bool)
    | Int(n: int)
    | Str(s: string)
    | Arr(entries: seq<Entry>)

  datatype Entry = Entry(key: Key, val: Value)

  /** PHP's conversion to boolean; `empty($v)` is its negation. The falsy values
      are null, false, 0, "", "0" and the empty array. */
  predicate Truthy(v: Value) {
    match v
    case Null => false
    case Bool(b) => b
    case Int(n) => n != 0
    case Str(s) => s != "" && s != "0"
    case Arr(es) => es != []
  }

  /** `is_scalar` (floats are not modelled). */
  predicate IsScalar(v: Value) {
    v.Bool? || v.Int? || v.Str?
  }

  /** The key a string names when used as an array key. */
  function ToKey(s: string): (k: Key)
    ensures k.IntKey? <==> IsCanonicalInt(s)
    ensures k.StrKey? ==> k.s == s
  {
    if IsCanonicalInt(s) then IntKey(ParseInt(s)) else StrKey(s)
  }

  /** A key PHP can hold: a string key is never a canonical decimal integer. */
  predicate ValidKey(k: Key) {
    k.StrKey? ==> !IsCanonicalInt(k.s)
  }

  /** `(string)$key`. */
  function KeyString(k: Key): string {
    match k
    case IntKey(i) => IntToString(i)
    case StrKey(s) => s
  }

  /** Printing a key and using the text as a key again names the same key. */
  lemma ToKeyOfKeyString(k: Key)
    requires ValidKey(k)
    ensures ToKey(KeyString(k)) == k
  {
    if k.IntKey? {
      IntToStringCanonical(k.i);
    }
  }

  /** Two strings name the same key only if they are equal. */
  lemma ToKeyInjective(s: string, t: string)
    requires ToKey(s) == ToKey(t)
    ensures s == t
  {
    if IsCanonicalInt(s) {
      CanonicalIntToString(s);
      CanonicalIntToString(t);
    }
  }

  /** The key a value names when used as an array offset; arrays name none. */
  function OffsetKey(v: Value): Option<Key> {
    match v
    case Null => Some(StrKey(""))
    case Bool(b) => Some(IntKey(if b then 1 else 0))
    case Int(n) => Some(IntKey(n))
    case Str(s) => Some(ToKey(s))
    case Arr(_) => None
  }

  /** `(string)$v` of a scalar. */
  function ScalarString(v: Value): string
    requires IsScalar(v)
  {
    match v
    case Bool(b) => if b then "1" else ""
    case Int(n) => IntToString(n)
    case Str(s) => s
  }

  predicate HasKey(es: seq<Entry>, k: Key) {
    exists i :: 0 <= i < |es| && es[i].key == k
  }

  predicate DistinctKeys(es: seq<Entry>) {
    forall i, j :: 0 <= i < j < |es| ==> es[i].key != es[j].key
  }

  /** The value stored under a key (`array_key_exists` tells whether there is one). */
  function Find(es: seq<Entry>, k: Key): (r: Option<Value>)
    ensures r.Some? <==> HasKey(es, k)
    ensures r.Some? ==> exists i :: 0 <= i < |es| && es[i] == Entry(k, r.value)
  {
    if es == [] then None
    else if es[0].key == k then Some(es[0].val)
    else
      var r := Find(es[1..], k);
      assert HasKey(es[1..], k) ==> HasKey(es, k);
      assert HasKey(es, k) ==> HasKey(es[1..], k) by {
        if HasKey(es, k) {
          var i :| 0 <= i < |es| && es[i].key == k;
          assert es[1..][i - 1].key == k;
        }
      }
      r
  }

  /** With distinct keys, each entry is what its key finds. */
  lemma {:induction false} FindEntry(es: seq<Entry>, i: int)
    requires DistinctKeys(es) && 0 <= i < |es|
    ensures Find(es, es[i].key) == Some(es[i].val)
  {
    if i > 0 {
      assert es[0].key != es[i].key;
      assert es[1..][i - 1] == es[i];
      FindEntry(es[1..], i - 1);
    }
  }

  /** With distinct keys, no entry before entry `i` has its key. */
  lemma PrefixLacksKey(es: seq<Entry>, i: int)
    requires DistinctKeys(es) && 0 <= i < |es|
    ensures !HasKey(es[..i], es[i].key)
  {
    var before := es[..i];
    forall j | 0 <= j < |before| ensures before[j].key != es[i].key {
      assert before[j] == es[j];
    }
  }

  /** `isset($a[$k])`: the key is present and does not hold null. */
  predicate IsSet(es: seq<Entry>, k: Key) {
    Find(es, k).Some? && Find(es, k).value != Null
  }

  function Lookup(es: seq<Entry>, k: Key): Value
    requires HasKey(es, k)
  {
    Find(es, k).value
  }

  /** `$a[$k] = $v`: overwrite in place, or append when the key is new. */
  function Put(es: seq<Entry>, k: Key, v: Value): (r: seq<Entry>)
    ensures Find(r, k) == Some(v)
    ensures forall k' :: k' != k ==> Find(r, k') == Find(es, k')
  {
    if es == [] then [Entry(k, v)]
    else if es[0].key == k then [Entry(k, v)] + es[1..]
    else
      var r := [es[0]] + Put(es[1..], k, v);
      assert r[1..] == Put(es[1..], k, v);
      r
  }

  /** An assignment to a present key keeps every key in place. */
  lemma {:induction false} PutPresent(es: seq<Entry>, k: Key, v: Value)
    requires HasKey(es, k)
    ensures var r := Put(es, k, v); |r| == |es| && forall i :: 0 <= i < |es| ==> r[i].key == es[i].key
    decreases |es|
  {
    if es[0].key != k {
      var i :| 0 <= i < |es| && es[i].key == k;
      assert es[1..][i - 1].key == k;
      PutPresent(es[1..], k, v);
      assert Put(es, k, v) == [es[0]] + Put(es[1..], k, v);
    }
  }

  /** Appending an entry and then more is appending them all at once. */
  lemma Regroup(a: seq<Entry>, e: Entry, b: seq<Entry>)
    ensures a + ([e] + b) == (a + [e]) + b
  {
  }

  /** An assignment to a new key appends an entry at the end. */
  lemma {:induction false} PutAbsent(es: seq<Entry>, k: Key, v: Value)
    requires !HasKey(es, k)
    ensures Put(es, k, v) == es + [Entry(k, v)]
    decreases |es|
  {
    if es != [] {
      var tail := es[1..];
      assert es[0].key != k;
      assert forall i :: 0 <= i < |tail| ==> tail[i] == es[i + 1];
      PutAbsent(tail, k, v);
      assert es + [Entry(k, v)] == [es[0]] + (tail + [Entry(k, v)]);
    }
  }

  lemma PutShape(es: seq<Entry>, k: Key, v: Value)
    ensures var r := Put(es, k, v);
      && (HasKey(es, k) ==> |r| == |es| && forall i :: 0 <= i < |es| ==> r[i].key == es[i].key)
      && (!HasKey(es, k) ==> r == es + [Entry(k, v)])
  {
    if HasKey(es, k) {
      PutPresent(es, k, v);
    } else {
      PutAbsent(es, k, v);
    }
  }

  lemma PutKeepsDistinct(es: seq<Entry>, k: Key, v: Value)
    requires DistinctKeys(es)
    ensures DistinctKeys(Put(es, k, v))
  {
    PutShape(es, k, v);
  }

  /** Assigning a key adds or replaces only that key's entry. */
  lemma {:induction false} PutEntries(es: seq<Entry>, k: Key, v: Value)
    ensures forall e :: e in Put(es, k, v) ==> e == Entry(k, v) || e in es
  {
    if es != [] && es[0].key != k {
      PutEntries(es[1..], k, v);
    }
  }

  /** Appending an entry under another key does not change what a key finds. */
  lemma {:induction false} FindSnoc(es: seq<Entry>, x: Entry, k: Key)
    requires x.key != k
    ensures Find(es + [x], k) == Find(es, k)
    decreases |es|
  {
    if es != [] {
      assert (es + [x])[1..] == es[1..] + [x];
      FindSnoc(es[1..], x, k);
    }
  }

  /** Assigning a key twice is assigning it the second value. */
  lemma {:induction false} PutTwice(es: seq<Entry>, k: Key, v: Value, w: Value)
    ensures Put(Put(es, k, v), k, w) == Put(es, k, w)
    decreases |es|
  {
    if es != [] && es[0].key != k {
      PutTwice(es[1..], k, v, w);
      assert Put(es, k, v)[1..] == Put(es[1..], k, v);
    }
  }

  /** `unset($a[$k])`. */
  function Unset(es: seq<Entry>, k: Key): (r: seq<Entry>)
    ensures Find(r, k) == None
    ensures forall k' :: k' != k ==> Find(r, k') == Find(es, k')
  {
    if es == [] then []
    else if es[0].key == k then Unset(es[1..], k)
    else
      var r := [es[0]] + Unset(es[1..], k);
      assert r[1..] == Unset(es[1..], k);
      r
  }

  /** Unsetting the key of one entry among distinct keys removes exactly that entry. */
  lemma {:induction false} UnsetEntry(a: seq<Entry>, e: Entry, b: seq<Entry>)
    requires !HasKey(a, e.key) && !HasKey(b, e.key)
    ensures Unset(a + [e] + b, e.key) == a + b
    decreases |a|
  {
    if a == [] {
      assert (a + [e] + b)[1..] == b;
      UnsetAbsent(b, e.key);
    } else {
      assert (a + [e] + b)[1..] == a[1..] + [e] + b;
      UnsetEntry(a[1..], e, b);
      assert a + b == [a[0]] + (a[1..] + b);
    }
  }

  lemma {:induction false} UnsetAbsent(es: seq<Entry>, k: Key)
    requires !HasKey(es, k)
    ensures Unset(es, k) == es
  {
    if es != [] {
      UnsetAbsent(es[1..], k);
      assert es == [es[0]] + es[1..];
    }
  }

  /** The key `$a[] = $v` uses: one past the greatest integer key, and at least 0. */
  function NextIndex(es: seq<Entry>): (n: int)
    ensures n >= 0
    ensures forall i :: 0 <= i < |es| && es[i].key.IntKey? ==> es[i].key.i < n
  {
    if es == [] then 0
    else
      var last := es[|es| - 1];
      var m := NextIndex(es[..|es| - 1]);
      assert forall i :: 0 <= i < |es| - 1 ==> es[..|es| - 1][i] == es[i];
      if last.key.IntKey? && last.key.i + 1 > m then last.key.i + 1 else m
  }

  /** `$a[] = $v`. */
  function Append(es: seq<Entry>, v: Value): seq<Entry> {
    es + [Entry(IntKey(NextIndex(es)), v)]
  }

  /** `$a[] = $v` is the assignment to the next index, which is not yet a key. */
  lemma AppendIsPut(es: seq<Entry>, v: Value)
    ensures Append(es, v) == Put(es, IntKey(NextIndex(es)), v)
    ensures Find(Append(es, v), IntKey(NextIndex(es))) == Some(v)
    ensures forall k :: k != IntKey(NextIndex(es)) ==> Find(Append(es, v), k) == Find(es, k)
  {
    PutAbsent(es, IntKey(NextIndex(es)), v);
  }

  /** `$a[] = $v` never overwrites a key that is already there. */
  lemma AppendKeepsFind(es: seq<Entry>, v: Value, k: Key)
    requires HasKey(es, k)
    ensures Find(Append(es, v), k) == Find(es, k)
  {
    AppendIsPut(es, v);
    var i :| 0 <= i < |es| && es[i] == Entry(k, Find(es, k).value);
  }

  lemma AppendKeepsDistinct(es: seq<Entry>, v: Value)
    requires DistinctKeys(es)
    ensures DistinctKeys(Append(es, v))
  {
  }

  function Values(es: seq<Entry>): (vs: seq<Value>)
    ensures |vs| == |es| && forall i :: 0 <= i < |es| ==> vs[i] == es[i].val
  {
    seq(|es|, i requires 0 <= i < |es| => es[i].val)
  }

  /** The keys 0, 1, 2, ... in order: an array that `isAssoc` rejects. */
  predicate IsList(es: seq<Entry>) {
    forall i :: 0 <= i < |es| ==> es[i].key == IntKey(i)
  }

  /** The list `[v0, v1, ...]`. */
  function AsList(vs: seq<Value>): (es: seq<Entry>)
    ensures IsList(es) && Values(es) == vs
  {
    seq(|vs|, i requires 0 <= i < |vs| => Entry(IntKey(i), vs[i]))
  }

  lemma {:induction false} ListNextIndex(es: seq<Entry>)
    requires IsList(es)
    ensures NextIndex(es) == |es|
  {
    if es != [] {
      ListNextIndex(es[..|es| - 1]);
    }
  }

  /** Nesting depth, the measure recursion over nested arrays decreases. */
  function Depth(v: Value): (d: nat)
    ensures v.Arr? ==> forall i :: 0 <= i < |v.entries| ==> Depth(v.entries[i].val) < d
    decreases v, 1
  {
    if v.Arr? then 1 + DepthFrom(v, 0) else 0
  }

  /** The greatest depth among the entries of `v` from index `i` on. */
  function DepthFrom(v: Value, i: nat): (d: nat)
    requires v.Arr? && i <= |v.entries|
    ensures forall j :: i <= j < |v.entries| ==> Depth(v.entries[j].val) <= d
    decreases v, 0, |v.entries| - i
  {
    if i == |v.entries| then 0
    else
      var here, rest := Depth(v.entries[i].val), DepthFrom(v, i + 1);
      if here > rest then here else rest
  }

  lemma FindDepth(es: seq<Entry>, k: Key)
    requires HasKey(es, k)
    ensures Depth(Lookup(es, k)) < Depth(Arr(es))
  {
  }

  /** Exact-key descent (`array_key_exists` at every step). */
  function KeyReach(v: Value, ks: seq<Key>): Option<Value>
    decreases |ks|
  {
    if ks == [] then Some(v)
    else if v.Arr? && HasKey(v.entries, ks[0]) then KeyReach(Lookup(v.entries, ks[0]), ks[1..])
    else None
  }

  /** The entries of `b` added one by one the way `array_merge` adds them:
      an integer key is renumbered to the next free index, a string key
      overwrites. */
  function MergeInto(acc: seq<Entry>, b: seq<Entry>): seq<Entry>
    decreases |b|
  {
    if b == [] then acc
    else
      var e := b[0];
      MergeInto(if e.key.IntKey? then Append(acc, e.val) else Put(acc, e.key, e.val), b[1..])
  }

  /** `array_merge($a, $b)`: the integer keys of both arrays are renumbered. */
  function ArrayMerge(a: seq<Entry>, b: seq<Entry>): seq<Entry> {
    MergeInto(MergeInto([], a), b)
  }

  /** Merging keeps keys distinct. */
  lemma {:induction false} MergeKeepsDistinct(acc: seq<Entry>, b: seq<Entry>)
    requires DistinctKeys(acc)
    ensures DistinctKeys(MergeInto(acc, b))
    decreases |b|
  {
    if b != [] {
      var e := b[0];
      if !e.key.IntKey? {
        PutKeepsDistinct(acc, e.key, e.val);
      }
      MergeKeepsDistinct(if e.key.IntKey? then Append(acc, e.val) else Put(acc, e.key, e.val), b[1..]);
    }
  }

  /** When no string key of `b` is already taken, merging loses no value and
      keeps their order. */
  lemma {:induction false} MergeKeepsValues(acc: seq<Entry>, b: seq<Entry>)
    requires DistinctKeys(b)
    requires forall j :: 0 <= j < |b| && b[j].key.StrKey? ==> !HasKey(acc, b[j].key)
    ensures Values(MergeInto(acc, b)) == Values(acc) + Values(b)
    decreases |b|
  {
    if b != [] {
      var e := b[0];
      var k := if e.key.IntKey? then IntKey(NextIndex(acc)) else e.key;
      var next := acc + [Entry(k, e.val)];
      MergeStep(acc, b);
      MergeStaysFresh(acc, b, k);
      MergeKeepsValues(next, b[1..]);
      ValuesShift(acc, Entry(k, e.val), b);
    }
  }

  lemma ValuesShift(acc: seq<Entry>, x: Entry, b: seq<Entry>)
    requires b != [] && x.val == b[0].val
    ensures Values(acc + [x]) + Values(b[1..]) == Values(acc) + Values(b)
  {
    var l, r := Values(acc + [x]) + Values(b[1..]), Values(acc) + Values(b);
    assert |l| == |r|;
    forall i | 0 <= i < |l| ensures l[i] == r[i] {
      if i > |acc| {
        assert l[i] == b[1..][i - |acc| - 1].val;
      }
    }
  }

  /** After the first entry of `b` is merged under key `k`, the string keys
      of the rest are still free. */
  lemma MergeStaysFresh(acc: seq<Entry>, b: seq<Entry>, k: Key)
    requires b != [] && DistinctKeys(b) && (k.IntKey? || k == b[0].key)
    requires forall j :: 0 <= j < |b| && b[j].key.StrKey? ==> !HasKey(acc, b[j].key)
    ensures DistinctKeys(b[1..])
    ensures forall j :: 0 <= j < |b[1..]| && b[1..][j].key.StrKey? ==> !HasKey(acc + [Entry(k, b[0].val)], b[1..][j].key)
  {
    forall j | 0 <= j < |b[1..]| && b[1..][j].key.StrKey?
      ensures !HasKey(acc + [Entry(k, b[0].val)], b[1..][j].key)
    {
      assert b[1..][j] == b[j + 1];
      HasKeySnoc(acc, Entry(k, b[0].val), b[j + 1].key);
    }
  }

  /** One step of a merge appends when the key is new. */
  lemma MergeStep(acc: seq<Entry>, b: seq<Entry>)
    requires b != [] && (b[0].key.StrKey? ==> !HasKey(acc, b[0].key))
    ensures MergeInto(acc, b)
      == MergeInto(acc + [Entry(if b[0].key.IntKey? then IntKey(NextIndex(acc)) else b[0].key, b[0].val)], b[1..])
  {
    PutShape(acc, b[0].key, b[0].val);
  }

  lemma HasKeySnoc(es: seq<Entry>, x: Entry, k: Key)
    ensures HasKey(es + [x], k) <==> HasKey(es, k) || x.key == k
  {
    if HasKey(es + [x], k) && x.key != k {
      var i :| 0 <= i < |es + [x]| && (es + [x])[i].key == k;
      assert es[i].key == k;
    }
    if x.key == k {
      assert (es + [x])[|es|].key == k;
    }
    if HasKey(es, k) {
      var i :| 0 <= i < |es| && es[i].key == k;
      assert (es + [x])[i].key == k;
    }
  }

  /** An array PHP can build: distinct, normalised keys at every level. */
  predicate WellFormed(v: Value)
    decreases Depth(v)
  {
    v.Arr? ==>
      && DistinctKeys(v.entries)
      && forall i :: 0 <= i < |v.entries| ==> ValidKey(v.entries[i].key) && WellFormed(v.entries[i].val)
  }
}
