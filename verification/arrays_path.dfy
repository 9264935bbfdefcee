/**
 * `Arrays::getPath` and `Arrays::setPath`: reading and writing a value inside
 * nested arrays along a key path such as "user.address.city".
 */
module ArraysPath {
  import opened PhpStrings
  import opened PhpValues

  /** The default path delimiter, and the one the wildcard re-joins with. */
  const PathDelimiter: char := '.'

  /** A key path: already split into segments, or one string to be split. */
  datatype Path = Segments(segs: seq<string>) | Text(s: string)

  /** The key a path segment names: a `ctype_digit` segment is cast to an
      integer (so "007" names 7), any other segment is an ordinary string key. */
  function SegmentKey(seg: string): Key {
    if CtypeDigit(seg) then IntKey(DigitsValue(seg)) else ToKey(seg)
  }

  /** Shifting an empty key queue yields null, which names the key "". */
  function HeadKey(segs: seq<string>): Key {
    if segs == [] then StrKey("") else SegmentKey(segs[0])
  }

  function Tail(segs: seq<string>): seq<string> {
    if segs == [] then [] else segs[1..]
  }

  /** The segments getPath reads from a string path: delimiters and spaces are
      trimmed from the start, delimiters, spaces and `*` from the end, and the
      rest is exploded on the delimiter. */
  function ReadSegments(s: string, delim: char): seq<string> {
    Split(RTrim(LTrim(s, {delim, ' '}), {delim, ' ', '*'}), [delim])
  }

  /** The value getPath returns for container `c`, path `p` and default `dflt`. */
  function PathValue(c: Value, p: Path, dflt: Value, delim: char): Value
    decreases Depth(c), 2
  {
    if !c.Arr? then dflt
    else match p
      case Segments(segs) => Walk(c.entries, segs, dflt)
      case Text(s) =>
        if HasKey(c.entries, ToKey(s)) then Lookup(c.entries, ToKey(s))
        else Walk(c.entries, ReadSegments(s, delim), dflt)
  }

  /** One round of getPath's loop and the rounds after it, at array `es`. */
  function Walk(es: seq<Entry>, segs: seq<string>, dflt: Value): Value
    decreases Depth(Arr(es)), 1
  {
    var key, rest := HeadKey(segs), Tail(segs);
    if IsSet(es, key) then
      var v := Lookup(es, key);
      if rest == [] then v
      else if v.Arr? then
        FindDepth(es, key);
        Walk(v.entries, rest, dflt)
      else dflt
    else if key == StrKey("*") then
      var found := TruthyOnly(Lookups(es, Join(rest, [PathDelimiter])));
      if found == [] then dflt else Arr(AsList(found))
    else dflt
  }

  /** The results of looking `sub` up in each element of `es`, in iteration order. */
  function Lookups(es: seq<Entry>, sub: string): seq<Value>
    decreases Depth(Arr(es)), 0
  {
    seq(|es|, j requires 0 <= j < |es| => PathValue(es[j].val, Text(sub), Null, PathDelimiter))
  }

  /** The truthy elements of `xs`, in order: what the wildcard keeps. */
  function TruthyOnly(xs: seq<Value>): (ys: seq<Value>)
    ensures |ys| <= |xs|
    ensures forall y :: y in ys ==> Truthy(y)
    ensures ys == [] <==> forall j :: 0 <= j < |xs| ==> !Truthy(xs[j])
    ensures forall j :: 0 <= j < |xs| && Truthy(xs[j]) ==> xs[j] in ys
    decreases |xs|
  {
    if xs == [] then []
    else
      var init, last := xs[..|xs| - 1], xs[|xs| - 1];
      assert forall j :: 0 <= j < |xs| - 1 ==> xs[j] == init[j];
      TruthyOnly(init) + (if Truthy(last) then [last] else [])
  }

  /** Keeping the truthy elements distributes over concatenation: with
      `TruthyOnlySingle`, the elements kept keep their order. */
  lemma {:induction false} TruthyOnlyConcat(a: seq<Value>, b: seq<Value>)
    ensures TruthyOnly(a + b) == TruthyOnly(a) + TruthyOnly(b)
    decreases |b|
  {
    if b == [] {
      assert a + b == a;
    } else {
      var n := |b| - 1;
      TruthyOnlyConcat(a, b[..n]);
      TruthyOnlyConcatStep(a, b[..n], b[n]);
      SplitLast(a, b);
    }
  }

  lemma SplitLast(a: seq<Value>, b: seq<Value>)
    requires b != []
    ensures var n := |b| - 1; b == b[..n] + [b[n]] && a + b == a + b[..n] + [b[n]]
  {
  }

  lemma Regroup3(p: seq<Value>, q: seq<Value>, r: seq<Value>)
    ensures p + q + r == p + (q + r)
  {
  }

  lemma TruthyOnlyConcatStep(a: seq<Value>, init: seq<Value>, x: Value)
    requires TruthyOnly(a + init) == TruthyOnly(a) + TruthyOnly(init)
    ensures TruthyOnly(a + init + [x]) == TruthyOnly(a) + TruthyOnly(init + [x])
  {
    var last := if Truthy(x) then [x] else [];
    TruthyOnlySnoc(a + init, x);
    TruthyOnlySnoc(init, x);
    Regroup3(TruthyOnly(a), TruthyOnly(init), last);
  }

  /** One more element at the end is kept at the end when it is truthy. */
  lemma TruthyOnlySnoc(xs: seq<Value>, x: Value)
    ensures TruthyOnly(xs + [x]) == TruthyOnly(xs) + if Truthy(x) then [x] else []
  {
    assert (xs + [x])[..|xs|] == xs;
  }

  /** A single element is kept exactly when it is truthy. */
  lemma TruthyOnlySingle(x: Value)
    ensures TruthyOnly([x]) == if Truthy(x) then [x] else []
  {
    assert [x][..0] == [];
  }

  /** Each truthy value is kept as often as it occurs, and no falsy value is kept. */
  lemma {:induction false} TruthyOnlyCounts(xs: seq<Value>, v: Value)
    ensures multiset(TruthyOnly(xs))[v] == if Truthy(v) then multiset(xs)[v] else 0
    decreases |xs|
  {
    if xs != [] {
      var n := |xs| - 1;
      TruthyOnlyCounts(xs[..n], v);
      assert xs == xs[..n] + [xs[n]];
    }
  }

  /** getPath's loop: the key path is consumed one segment per round, the
      wildcard recurses into every element. */
  method GetPath(c: Value, p: Path, dflt: Value, delim: char) returns (r: Value)
    ensures r == PathValue(c, p, dflt, delim)
    decreases Depth(c), 1
  {
    if !c.Arr? {
      return dflt;
    }
    var segs: seq<string>;
    match p {
      case Segments(ss) =>
        segs := ss;
      case Text(s) =>
        if HasKey(c.entries, ToKey(s)) {
          return Lookup(c.entries, ToKey(s));
        }
        segs := ReadSegments(s, delim);
    }
    var cur := c.entries;
    while true
      invariant Depth(Arr(cur)) <= Depth(c)
      invariant Walk(cur, segs, dflt) == PathValue(c, p, dflt, delim)
      decreases |segs|
    {
      var key, rest := HeadKey(segs), Tail(segs);
      if IsSet(cur, key) {
        var v := Lookup(cur, key);
        if rest == [] {
          return v;
        } else if v.Arr? {
          FindDepth(cur, key);
          cur, segs := v.entries, rest;
        } else {
          return dflt;
        }
      } else if key == StrKey("*") {
        var found := CollectTruthy(cur, Join(rest, [PathDelimiter]));
        if found == [] {
          return dflt;
        }
        return Arr(AsList(found));
      } else {
        return dflt;
      }
    }
  }

  /** The wildcard's loop: look `sub` up in every element, keep the truthy results. */
  method CollectTruthy(es: seq<Entry>, sub: string) returns (found: seq<Value>)
    ensures found == TruthyOnly(Lookups(es, sub))
    decreases Depth(Arr(es)), 0
  {
    found := [];
    var i := 0;
    while i < |es|
      invariant 0 <= i <= |es|
      invariant found == TruthyOnly(Lookups(es, sub)[..i])
    {
      var x := GetPath(es[i].val, Text(sub), Null, PathDelimiter);
      assert Lookups(es, sub)[..i + 1] == Lookups(es, sub)[..i] + [x];
      TruthyOnlySnoc(Lookups(es, sub)[..i], x);
      if Truthy(x) {
        found := found + [x];
      }
      i := i + 1;
    }
    assert Lookups(es, sub)[..i] == Lookups(es, sub);
  }

  /** Plain descent along a segment path with `isset` at every step: the
      reference reading of a path without wildcards. */
  function Reach(v: Value, segs: seq<string>): Option<Value>
    decreases |segs|
  {
    if segs == [] then Some(v)
    else if v.Arr? && IsSet(v.entries, SegmentKey(segs[0])) then
      Reach(Lookup(v.entries, SegmentKey(segs[0])), segs[1..])
    else None
  }

  /** A path that descends to a value makes getPath's loop return that value,
      whatever wildcards its segments spell. */
  lemma {:induction false} WalkFindsReached(es: seq<Entry>, segs: seq<string>, dflt: Value)
    requires |segs| >= 1 && Reach(Arr(es), segs).Some?
    ensures Walk(es, segs, dflt) == Reach(Arr(es), segs).value
    decreases |segs|
  {
    var v := Lookup(es, SegmentKey(segs[0]));
    if |segs| > 1 {
      assert segs[1..] != [] && Reach(v, segs[1..]).Some?;
      WalkFindsReached(v.entries, segs[1..], dflt);
    }
  }

  lemma SegmentKeyOfStar(seg: string)
    requires SegmentKey(seg) == StrKey("*")
    ensures seg == "*"
  {
  }

  /** Without wildcard segments, a path that does not descend all the way
      makes getPath's loop give the default. */
  lemma {:induction false} WalkMissesUnreached(es: seq<Entry>, segs: seq<string>, dflt: Value)
    requires |segs| >= 1 && Reach(Arr(es), segs).None?
    requires forall i :: 0 <= i < |segs| ==> segs[i] != "*"
    ensures Walk(es, segs, dflt) == dflt
    decreases |segs|
  {
    var key := SegmentKey(segs[0]);
    if IsSet(es, key) {
      var v := Lookup(es, key);
      if |segs| > 1 && v.Arr? {
        WalkMissesUnreached(v.entries, segs[1..], dflt);
      }
    } else if key == StrKey("*") {
      SegmentKeyOfStar(segs[0]);
      assert false;
    }
  }

  /** getPath on a pre-split path without wildcards is plain descent, falling
      back to the default when the descent fails. */
  lemma GetPathIsDescent(c: Value, segs: seq<string>, dflt: Value, delim: char)
    requires |segs| >= 1 && forall i :: 0 <= i < |segs| ==> segs[i] != "*"
    ensures PathValue(c, Segments(segs), dflt, delim) == Reach(c, segs).GetOr(dflt)
  {
    if c.Arr? {
      if Reach(c, segs).Some? {
        WalkFindsReached(c.entries, segs, dflt);
      } else {
        WalkMissesUnreached(c.entries, segs, dflt);
      }
    }
  }

  /** The descent fails exactly when, at some step, the value reached is not an
      array, or its key for the next segment is absent or holds null. */
  lemma {:induction false} ReachFailsAt(v: Value, segs: seq<string>)
    ensures Reach(v, segs).None? <==>
      exists i :: 0 <= i < |segs| && Reach(v, segs[..i]).Some? &&
        (!Reach(v, segs[..i]).value.Arr? || !IsSet(Reach(v, segs[..i]).value.entries, SegmentKey(segs[i])))
    decreases |segs|
  {
    if segs != [] {
      assert segs[..0] == [];
      if v.Arr? && IsSet(v.entries, SegmentKey(segs[0])) {
        var w := Lookup(v.entries, SegmentKey(segs[0]));
        ReachFailsAt(w, segs[1..]);
        forall i | 0 <= i < |segs| - 1
          ensures Reach(v, segs[..i + 1]) == Reach(w, segs[1..][..i])
        {
          assert segs[..i + 1][1..] == segs[1..][..i];
        }
        var fails := Reach(w, segs[1..]).None?;
        if fails {
          var i :| 0 <= i < |segs| - 1 && Reach(w, segs[1..][..i]).Some? &&
            (!Reach(w, segs[1..][..i]).value.Arr? || !IsSet(Reach(w, segs[1..][..i]).value.entries, SegmentKey(segs[1..][i])));
          assert segs[1..][i] == segs[i + 1];
          assert Reach(v, segs[..i + 1]) == Reach(w, segs[1..][..i]);
        } else {
          forall i | 0 <= i < |segs| && Reach(v, segs[..i]).Some?
            ensures Reach(v, segs[..i]).value.Arr? && IsSet(Reach(v, segs[..i]).value.entries, SegmentKey(segs[i]))
          {
            if i > 0 {
              assert Reach(v, segs[..i]) == Reach(w, segs[1..][..i - 1]);
              assert segs[1..][i - 1] == segs[i];
            }
          }
        }
      }
    }
  }

  /** getPath with no wildcard in play gives the default in exactly three
      situations: the container is not an array, a segment's key is absent or
      holds null, or a non-final segment leads to something other than an array. */
  lemma GetPathDefaultCases(c: Value, segs: seq<string>, dflt: Value, delim: char, i: nat)
    requires |segs| >= 1 && forall j :: 0 <= j < |segs| ==> segs[j] != "*"
    requires i < |segs| && Reach(c, segs[..i]).Some?
    requires var x := Reach(c, segs[..i]).value; !x.Arr? || !IsSet(x.entries, SegmentKey(segs[i]))
    ensures PathValue(c, Segments(segs), dflt, delim) == dflt
  {
    ReachFailsAt(c, segs);
    GetPathIsDescent(c, segs, dflt, delim);
  }

  /** A string path that is itself a key of the container is looked up as is:
      before any trimming or splitting, and even when it holds null. */
  lemma GetPathLiteralKey(es: seq<Entry>, s: string, dflt: Value, delim: char, v: Value)
    requires Find(es, ToKey(s)) == Some(v)
    ensures PathValue(Arr(es), Text(s), dflt, delim) == v
  {
  }

  /** A wildcard segment that is not itself a set key collects, in order, the
      truthy results of looking the rest of the path (re-joined with ".") up
      in each element, each as often as it occurs; with none, the default is
      returned. */
  lemma WildcardCollects(es: seq<Entry>, rest: seq<string>, dflt: Value)
    requires !IsSet(es, StrKey("*"))
    ensures var r := Walk(es, ["*"] + rest, dflt);
      var xs := Lookups(es, Join(rest, [PathDelimiter]));
      && ((forall j :: 0 <= j < |xs| ==> !Truthy(xs[j])) ==> r == dflt)
      && ((exists j :: 0 <= j < |xs| && Truthy(xs[j])) ==>
            && r.Arr? && IsList(r.entries) && |r.entries| <= |es|
            && Values(r.entries) == TruthyOnly(xs)
            && (forall k :: 0 <= k < |r.entries| ==> Truthy(r.entries[k].val))
            && (forall v :: multiset(Values(r.entries))[v] == if Truthy(v) then multiset(xs)[v] else 0))
  {
    WalkStar(es, rest, dflt);
    var xs := Lookups(es, Join(rest, [PathDelimiter]));
    var found := TruthyOnly(xs);
    if found != [] {
      var r := Arr(AsList(found));
      assert Values(r.entries) == found;
      forall k | 0 <= k < |r.entries| ensures Truthy(r.entries[k].val) {
        assert r.entries[k].val == found[k];
      }
      forall v ensures multiset(Values(r.entries))[v] == if Truthy(v) then multiset(xs)[v] else 0 {
        TruthyOnlyCounts(xs, v);
      }
    }
  }

  /** The segments setPath writes along: a string path is exploded, not trimmed. */
  function WriteSegments(p: Path, delim: char): seq<string> {
    match p
    case Segments(segs) => segs
    case Text(s) => Split(s, [delim])
  }

  /** The entries of an array, or none for null (which PHP turns into an array on write). */
  function Container(c: Value): seq<Entry> {
    if c.Arr? then c.entries else []
  }

  /** The final segment is assigned as an ordinary key, without the digit cast. */
  function LastKey(segs: seq<string>): Key {
    if segs == [] then StrKey("") else ToKey(segs[0])
  }

  /** The keys setPath writes along. */
  function WrittenKeys(segs: seq<string>): (ks: seq<Key>)
    ensures |ks| == if segs == [] then 1 else |segs|
    decreases |segs|
  {
    if |segs| <= 1 then [LastKey(segs)] else [SegmentKey(segs[0])] + WrittenKeys(segs[1..])
  }

  /** A path setPath can write along: the target and every existing intermediate
      is an array or null. */
  predicate Writable(c: Value, segs: seq<string>)
    decreases |segs|
  {
    && (c.Null? || c.Arr?)
    && (|segs| > 1 && IsSet(Container(c), SegmentKey(segs[0])) ==>
          Writable(Lookup(Container(c), SegmentKey(segs[0])), segs[1..]))
  }

  /** The array setPath leaves behind. */
  function Assigned(c: Value, segs: seq<string>, v: Value): (r: Value)
    requires Writable(c, segs)
    ensures r.Arr?
    decreases |segs|
  {
    var es := Container(c);
    if |segs| <= 1 then Arr(Put(es, LastKey(segs), v))
    else
      var k := SegmentKey(segs[0]);
      var child := if IsSet(es, k) then Lookup(es, k) else Arr([]);
      Arr(Put(es, k, Assigned(child, segs[1..], v)))
  }

  /** The arrays passed on the way down, rebuilt around a new innermost array. */
  ghost function Rebuild(levels: seq<seq<Entry>>, keys: seq<Key>, inner: Value): Value
    requires |levels| == |keys|
    decreases |levels|
  {
    if levels == [] then inner
    else
      var n := |levels| - 1;
      Rebuild(levels[..n], keys[..n], Arr(Put(levels[n], keys[n], inner)))
  }

  lemma RebuildStep(levels: seq<seq<Entry>>, keys: seq<Key>, es: seq<Entry>, k: Key, inner: Value)
    requires |levels| == |keys|
    ensures Rebuild(levels + [es], keys + [k], inner) == Rebuild(levels, keys, Arr(Put(es, k, inner)))
  {
    assert (levels + [es])[..|levels|] == levels && (keys + [k])[..|keys|] == keys;
  }

  /** One level of setPath's descent: the rest of the path is writable from
      the child exactly when the whole is from the parent, and rebuilding
      around the child's result gives the same array. */
  lemma DescendStep(levels: seq<seq<Entry>>, keys: seq<Key>, cur: Value, segs: seq<string>, v: Value)
    requires |levels| == |keys| && |segs| > 1 && (cur.Null? || cur.Arr?)
    ensures var k := SegmentKey(segs[0]);
      var es := Container(cur);
      var child := if IsSet(es, k) then Lookup(es, k) else Arr([]);
      && Writable(cur, segs) == Writable(child, segs[1..])
      && (Writable(cur, segs) ==>
            Rebuild(levels + [es], keys + [k], Assigned(child, segs[1..], v)) == Rebuild(levels, keys, Assigned(cur, segs, v)))
  {
    var k := SegmentKey(segs[0]);
    var es := Container(cur);
    var child := if IsSet(es, k) then Lookup(es, k) else Arr([]);
    WritableFresh(segs[1..]);
    if Writable(cur, segs) {
      RebuildStep(levels, keys, es, k, Assigned(child, segs[1..], v));
    }
  }

  /** A freshly created intermediate array can be written along any path. */
  lemma WritableFresh(segs: seq<string>)
    ensures Writable(Arr([]), segs)
  {
  }

  /** What setPath does: the updated array, or the error PHP raises when the
      target or an existing intermediate is a scalar. */
  function SetPathResult(c: Value, p: Path, v: Value, delim: char): Result<Value> {
    var segs := WriteSegments(p, delim);
    if Writable(c, segs) then Ok(Assigned(c, segs, v)) else Err(ScalarAsArray)
  }

  /** setPath's loop: descend segment by segment, creating an empty array where
      an intermediate key is absent or null, then assign the final key. The
      write through the reference is carried back up level by level. */
  method SetPath(c: Value, p: Path, v: Value, delim: char) returns (r: Result<Value>)
    ensures r == SetPathResult(c, p, v, delim)
  {
    var segs := WriteSegments(p, delim);
    ghost var all := segs;
    var cur := c;
    var levels: seq<seq<Entry>> := [];
    var keys: seq<Key> := [];
    while |segs| > 1
      invariant |levels| == |keys|
      invariant Writable(cur, segs) == Writable(c, all)
      invariant Writable(cur, segs) ==> Rebuild(levels, keys, Assigned(cur, segs, v)) == Assigned(c, all, v)
      decreases |segs|
    {
      if !(cur.Null? || cur.Arr?) {
        return Err(ScalarAsArray);
      }
      var k := SegmentKey(segs[0]);
      var es := Container(cur);
      var child := if IsSet(es, k) then Lookup(es, k) else Arr([]);
      DescendStep(levels, keys, cur, segs, v);
      levels, keys := levels + [es], keys + [k];
      cur, segs := child, segs[1..];
    }
    if !(cur.Null? || cur.Arr?) {
      return Err(ScalarAsArray);
    }
    var inner := Arr(Put(Container(cur), LastKey(segs), v));
    assert Writable(cur, segs) && inner == Assigned(cur, segs, v);
    var top := WriteBack(levels, keys, inner);
    r := Ok(top);
  }

  /** The assignment through the chain of references, carried back up to the
      outermost array one level at a time. */
  method WriteBack(levels: seq<seq<Entry>>, keys: seq<Key>, inner: Value) returns (r: Value)
    requires |levels| == |keys|
    ensures r == Rebuild(levels, keys, inner)
  {
    var ls, ks := levels, keys;
    r := inner;
    while ls != []
      invariant |ls| == |ks|
      invariant Rebuild(ls, ks, r) == Rebuild(levels, keys, inner)
      decreases |ls|
    {
      var n := |ls| - 1;
      r := Arr(Put(ls[n], ks[n], r));
      ls, ks := ls[..n], ks[..n];
    }
  }

  /** setPath stores the value at the keys it writes along, null included. */
  lemma {:induction false} AssignedStores(c: Value, segs: seq<string>, v: Value)
    requires Writable(c, segs)
    ensures KeyReach(Assigned(c, segs, v), WrittenKeys(segs)) == Some(v)
    decreases |segs|
  {
    if |segs| > 1 {
      var es := Container(c);
      var k := SegmentKey(segs[0]);
      var child := if IsSet(es, k) then Lookup(es, k) else Arr([]);
      AssignedStores(child, segs[1..], v);
    }
  }

  /** setPath changes nothing off its own path: any key path that leaves the
      written one at some level reaches the same thing before and after. */
  lemma {:induction false} AssignedLeavesOthers(c: Value, segs: seq<string>, v: Value, q: seq<Key>, j: nat)
    requires Writable(c, segs)
    requires j < |q| && j < |WrittenKeys(segs)|
    requires q[..j] == WrittenKeys(segs)[..j] && q[j] != WrittenKeys(segs)[j]
    ensures KeyReach(Assigned(c, segs, v), q) == KeyReach(c, q)
    decreases |segs|
  {
    var es := Container(c);
    var ws := WrittenKeys(segs);
    if j > 0 {
      assert q[0] == ws[0];
      var k := SegmentKey(segs[0]);
      var child := if IsSet(es, k) then Lookup(es, k) else Arr([]);
      assert ws[1..] == WrittenKeys(segs[1..]);
      assert q[1..][..j - 1] == q[..j][1..] && ws[1..][..j - 1] == ws[..j][1..];
      AssignedLeavesOthers(child, segs[1..], v, q[1..], j - 1);
    }
  }

  /** A final segment setPath and getPath read as the same key: not a digit
      string with a leading zero. */
  predicate PlainFinal(seg: string) {
    SegmentKey(seg) == ToKey(seg)
  }

  lemma {:induction false} AssignedReached(c: Value, segs: seq<string>, v: Value)
    requires Writable(c, segs) && |segs| >= 1 && v != Null
    requires PlainFinal(segs[|segs| - 1])
    ensures Reach(Assigned(c, segs, v), segs) == Some(v)
    decreases |segs|
  {
    if |segs| > 1 {
      var es := Container(c);
      var k := SegmentKey(segs[0]);
      var child := if IsSet(es, k) then Lookup(es, k) else Arr([]);
      assert segs[1..][|segs[1..]| - 1] == segs[|segs| - 1];
      AssignedReached(child, segs[1..], v);
      AssignedDescends(c, segs, v);
    } else {
      assert LastKey(segs) == SegmentKey(segs[0]);
    }
  }

  /** Reaching along the written path enters the rewritten child. */
  lemma AssignedDescends(c: Value, segs: seq<string>, v: Value)
    requires Writable(c, segs) && |segs| > 1
    ensures var es := Container(c);
      var k := SegmentKey(segs[0]);
      var child := if IsSet(es, k) then Lookup(es, k) else Arr([]);
      Reach(Assigned(c, segs, v), segs) == Reach(Assigned(child, segs[1..], v), segs[1..])
  {
    var es := Container(c);
    var k := SegmentKey(segs[0]);
    var child := if IsSet(es, k) then Lookup(es, k) else Arr([]);
    WritableFresh(segs[1..]);
    var w := Assigned(child, segs[1..], v);
    assert Assigned(c, segs, v) == Arr(Put(es, k, w));
    assert Lookup(Put(es, k, w), k) == w;
  }

  /** Round trip on a pre-split path: what setPath stores, getPath returns. */
  lemma SetThenGetSegments(c: Value, segs: seq<string>, v: Value, dflt: Value, delim: char)
    requires Writable(c, segs) && |segs| >= 1 && v != Null
    requires PlainFinal(segs[|segs| - 1])
    ensures PathValue(Assigned(c, segs, v), Segments(segs), dflt, delim) == v
  {
    AssignedReached(c, segs, v);
    WalkFindsReached(Assigned(c, segs, v).entries, segs, dflt);
  }

  lemma {:induction false} JoinSplit(s: string, sep: string)
    requires |sep| > 0
    ensures Join(Split(s, sep), sep) == s
    decreases |s|
  {
    if |s| >= |sep| {
      if s[..|sep|] == sep {
        var rest := s[|sep|..];
        var p := Split(rest, sep);
        assert Split(s, sep) == [""] + p;
        assert ([""] + p)[1..] == p;
        JoinSplit(rest, sep);
        assert s == "" + sep + rest;
      } else {
        JoinSplit(s[1..], sep);
        JoinConsHead(s[0], Split(s[1..], sep), sep);
        assert s == [s[0]] + s[1..];
      }
    }
  }

  /** Exploding a string on a character it contains gives more than one piece,
      the first ending just before that character. */
  lemma SplitFirstPiece(s: string, delim: char)
    requires |Split(s, [delim])| > 1
    ensures |Split(s, [delim])[0]| < |s| && s[|Split(s, [delim])[0]|] == delim
    ensures s[..|Split(s, [delim])[0]|] == Split(s, [delim])[0]
  {
    var parts := Split(s, [delim]);
    JoinSplit(s, [delim]);
    assert s == parts[0] + [delim] + Join(parts[1..], [delim]);
  }

  lemma SinglePieceIsWhole(s: string, delim: char)
    requires |Split(s, [delim])| == 1
    ensures Split(s, [delim]) == [s]
  {
    JoinSplit(s, [delim]);
  }

  /** The first piece of a multi-piece path names a different key than the whole
      path, whatever the delimiter: a canonical integer path that contains a digit
      or minus delimiter is worth more than its first piece. */
  lemma FirstPieceKey(s: string, delim: char)
    requires |Split(s, [delim])| > 1
    ensures ToKey(s) != SegmentKey(Split(s, [delim])[0])
  {
    SplitFirstPiece(s, delim);
    var first := Split(s, [delim])[0];
    var n := |first|;
    assert first == s[..n];
    if ToKey(s).IntKey? && SegmentKey(first).IntKey? && n > 0 {
      if s[0] == '-' {
        assert !CtypeDigit(first) && first[1..] == s[1..][..n - 1];
        if 1 < n {
          DigitsPrefixSmaller(s[1..], n - 1);
        }
      } else {
        assert CtypeDigit(first);
        DigitsPrefixSmaller(s, n);
      }
    }
  }

  /** A multi-segment string path that is not a top-level key does not become one. */
  lemma TopKeyUntouched(c: Value, s: string, v: Value, delim: char)
    requires Writable(c, Split(s, [delim])) && |Split(s, [delim])| > 1
    requires !HasKey(Container(c), ToKey(s))
    ensures !HasKey(Assigned(c, Split(s, [delim]), v).entries, ToKey(s))
  {
    var segs := Split(s, [delim]);
    FirstPieceKey(s, delim);
    var es := Container(c);
    var k := SegmentKey(segs[0]);
    var child := if IsSet(es, k) then Lookup(es, k) else Arr([]);
    var e := Put(es, k, Assigned(child, segs[1..], v));
    assert Assigned(c, segs, v).entries == e;
    assert Find(e, ToKey(s)) == Find(es, ToKey(s));
  }

  /** getPath trims nothing from a path that starts and ends with ordinary characters. */
  lemma UntrimmedPath(s: string, delim: char)
    requires s == [] || (s[0] !in {delim, ' '} && s[|s| - 1] !in {delim, ' ', '*'})
    ensures ReadSegments(s, delim) == Split(s, [delim])
  {
    assert LTrim(s, {delim, ' '}) == s;
    assert RTrim(s, {delim, ' ', '*'}) == s;
  }

  lemma SetThenGetSingle(c: Value, s: string, v: Value, dflt: Value, delim: char)
    requires Writable(c, [s])
    ensures PathValue(Assigned(c, [s], v), Text(s), dflt, delim) == v
  {
    assert Assigned(c, [s], v).entries == Put(Container(c), ToKey(s), v);
  }

  /** Round trip on a string path: what setPath stores under a path, getPath
      returns for the same path, provided the path has nothing getPath trims
      at its ends, its final segment has no leading zero, and a multi-segment
      path is not itself a top-level key. */
  lemma SetThenGetText(c: Value, s: string, v: Value, dflt: Value, delim: char)
    requires Writable(c, Split(s, [delim])) && v != Null
    requires PlainFinal(Split(s, [delim])[|Split(s, [delim])| - 1])
    requires s == [] || (s[0] !in {delim, ' '} && s[|s| - 1] !in {delim, ' ', '*'})
    requires |Split(s, [delim])| > 1 ==> !HasKey(Container(c), ToKey(s))
    ensures PathValue(Assigned(c, Split(s, [delim]), v), Text(s), dflt, delim) == v
  {
    var segs := Split(s, [delim]);
    if |segs| == 1 {
      SinglePieceIsWhole(s, delim);
      SetThenGetSingle(c, s, v, dflt, delim);
    } else {
      SetThenGetMulti(c, s, v, dflt, delim);
    }
  }

  lemma SetThenGetMulti(c: Value, s: string, v: Value, dflt: Value, delim: char)
    requires Writable(c, Split(s, [delim])) && v != Null && |Split(s, [delim])| > 1
    requires PlainFinal(Split(s, [delim])[|Split(s, [delim])| - 1])
    requires s[0] !in {delim, ' '} && s[|s| - 1] !in {delim, ' ', '*'}
    requires !HasKey(Container(c), ToKey(s))
    ensures PathValue(Assigned(c, Split(s, [delim]), v), Text(s), dflt, delim) == v
  {
    var segs := Split(s, [delim]);
    TopKeyUntouched(c, s, v, delim);
    UntrimmedPath(s, delim);
    SetThenGetSegments(c, segs, v, dflt, delim);
    TextPathWalks(Assigned(c, segs, v), s, segs, dflt, delim);
  }

  lemma TextPathWalks(r: Value, s: string, segs: seq<string>, dflt: Value, delim: char)
    requires r.Arr? && !HasKey(r.entries, ToKey(s)) && ReadSegments(s, delim) == segs
    ensures PathValue(r, Text(s), dflt, delim) == PathValue(r, Segments(segs), dflt, delim)
  {
  }
  /** Descending through one array segment and then following the rest of a
      pre-split path is following the whole path. */
  lemma GetPathDescends(es: seq<Entry>, seg: string, rest: seq<string>, dflt: Value, delim: char)
    requires IsSet(es, SegmentKey(seg)) && rest != []
    ensures PathValue(Arr(es), Segments([seg] + rest), dflt, delim) ==
            PathValue(Lookup(es, SegmentKey(seg)), Segments(rest), dflt, delim)
  {
    assert ([seg] + rest)[1..] == rest;
  }

  /** A path whose first segment is absent (and not a wildcard) gives the default. */
  lemma GetPathFirstMissing(es: seq<Entry>, segs: seq<string>, dflt: Value, delim: char)
    requires |segs| >= 1 && segs[0] != "*" && !IsSet(es, SegmentKey(segs[0]))
    ensures PathValue(Arr(es), Segments(segs), dflt, delim) == dflt
  {
    if SegmentKey(segs[0]) == StrKey("*") {
      SegmentKeyOfStar(segs[0]);
    }
  }

  lemma SplitTwo(a: string, b: string)
    requires |a| == 1 && |b| == 1 && a != "." && b != "."
    ensures Split(a + "." + b, ".") == [a, b]
  {
    SplitAtFirst(a, ".", b);
    SplitWithoutSeparator(b, ".");
  }

  lemma SplitThree(a: string, b: string, c: string)
    requires |a| == 1 && |b| == 1 && |c| == 1 && a != "." && b != "." && c != "."
    ensures Split(a + "." + b + "." + c, ".") == [a, b, c]
  {
    assert a + "." + b + "." + c == a + "." + (b + "." + c);
    SplitAtFirst(a, ".", b + "." + c);
    SplitTwo(b, c);
  }

  /** Looking "n" up in {n: x} gives x. */
  lemma LookupN(x: Value)
    ensures PathValue(Arr([Entry(StrKey("n"), x)]), Text("n"), Null, '.') == x
  {
    assert !IsDigit('n');
    assert "n"[0] == 'n';
    assert ToKey("n") == StrKey("n");
    assert [Entry(StrKey("n"), x)][0].key == StrKey("n");
  }

  /** `getPath(c, "*.n")` over two elements {n: x}, {n: y} under keys that are not "*". */
  lemma WildcardOverTwo(kx: Key, ky: Key, x: Value, y: Value)
    requires kx !in {StrKey("*"), StrKey("*.n")} && ky !in {StrKey("*"), StrKey("*.n")}
    ensures var es := [Entry(kx, Arr([Entry(StrKey("n"), x)])), Entry(ky, Arr([Entry(StrKey("n"), y)]))];
            PathValue(Arr(es), Text("*.n"), Null, '.') == Walk(es, ["*", "n"], Null)
    ensures var es := [Entry(kx, Arr([Entry(StrKey("n"), x)])), Entry(ky, Arr([Entry(StrKey("n"), y)]))];
            Lookups(es, "n") == [x, y]
  {
    var es := [Entry(kx, Arr([Entry(StrKey("n"), x)])), Entry(ky, Arr([Entry(StrKey("n"), y)]))];
    StarDotN();
    assert !HasKey(es, ToKey("*.n"));
    LookupsOfTwo(kx, ky, x, y);
  }

  lemma LookupsOfTwo(kx: Key, ky: Key, x: Value, y: Value)
    ensures Lookups([Entry(kx, Arr([Entry(StrKey("n"), x)])), Entry(ky, Arr([Entry(StrKey("n"), y)]))], "n") == [x, y]
  {
    LookupN(x);
    LookupN(y);
  }

  /** The text "*.n" is a string key and reads as the segments "*", "n". */
  lemma StarDotN()
    ensures ToKey("*.n") == StrKey("*.n")
    ensures ReadSegments("*.n", '.') == ["*", "n"]
  {
    assert "*.n" == "*" + "." + "n";
    SplitTwo("*", "n");
    assert !IsDigit('*') && "*.n"[0] == '*' && "*.n"[2] == 'n';
    assert !IsCanonicalInt("*.n");
  }

  /** A wildcard segment that is not itself a set key keeps the truthy lookups. */
  lemma WalkStar(es: seq<Entry>, rest: seq<string>, dflt: Value)
    requires !IsSet(es, StrKey("*"))
    ensures var found := TruthyOnly(Lookups(es, Join(rest, [PathDelimiter])));
            Walk(es, ["*"] + rest, dflt) == if found == [] then dflt else Arr(AsList(found))
  {
    assert "*"[0] == '*' && !IsDigit('*');
    assert HeadKey(["*"] + rest) == StrKey("*") && Tail(["*"] + rest) == rest;
  }

  lemma WildcardExampleOne(x: Value)
    requires x == Int(1) || x == Int(0)
    ensures var es := [Entry(StrKey("x"), Arr([Entry(StrKey("n"), x)])), Entry(StrKey("y"), Arr([Entry(StrKey("n"), Int(2))]))];
            PathValue(Arr(es), Text("*.n"), Null, '.') ==
              var found := TruthyOnly([x, Int(2)]);
              if found == [] then Null else Arr(AsList(found))
  {
    var es := [Entry(StrKey("x"), Arr([Entry(StrKey("n"), x)])), Entry(StrKey("y"), Arr([Entry(StrKey("n"), Int(2))]))];
    WildcardOverTwo(StrKey("x"), StrKey("y"), x, Int(2));
    assert !IsSet(es, StrKey("*"));
    WalkStar(es, ["n"], Null);
    assert Join(["n"], [PathDelimiter]) == "n";
  }

  lemma TruthyPairs()
    ensures TruthyOnly([Int(1), Int(2)]) == [Int(1), Int(2)]
    ensures TruthyOnly([Int(0), Int(2)]) == [Int(2)]
  {
    assert [Int(1), Int(2)][..1] == [Int(1)];
    assert [Int(0), Int(2)][..1] == [Int(0)];
    assert [Int(1)][..0] == [] && [Int(0)][..0] == [];
  }

  lemma ListPairs()
    ensures AsList([Int(1), Int(2)]) == [Entry(IntKey(0), Int(1)), Entry(IntKey(1), Int(2))]
    ensures AsList([Int(2)]) == [Entry(IntKey(0), Int(2))]
  {
  }

  /** `getPath({x: {n: 1}, y: {n: 2}}, "*.n")` is `[1, 2]`; with `n: 0` under `x`
      the falsy 0 is dropped and the result is `[2]`. */
  lemma WildcardExample()
    ensures var c := Arr([Entry(StrKey("x"), Arr([Entry(StrKey("n"), Int(1))])),
                          Entry(StrKey("y"), Arr([Entry(StrKey("n"), Int(2))]))]);
            PathValue(c, Text("*.n"), Null, '.') == Arr([Entry(IntKey(0), Int(1)), Entry(IntKey(1), Int(2))])
    ensures var c := Arr([Entry(StrKey("x"), Arr([Entry(StrKey("n"), Int(0))])),
                          Entry(StrKey("y"), Arr([Entry(StrKey("n"), Int(2))]))]);
            PathValue(c, Text("*.n"), Null, '.') == Arr([Entry(IntKey(0), Int(2))])
  {
    WildcardExampleOne(Int(1));
    WildcardExampleOne(Int(0));
    TruthyPairs();
    ListPairs();
  }

  /** Writing along a path into an empty array builds a chain of one-entry arrays. */
  lemma AssignedIntoEmpty(seg: string, rest: seq<string>, v: Value)
    ensures rest == [] ==> Assigned(Arr([]), [seg] + rest, v) == Arr([Entry(ToKey(seg), v)])
    ensures rest != [] ==> Assigned(Arr([]), [seg] + rest, v) == Arr([Entry(SegmentKey(seg), Assigned(Arr([]), rest, v))])
  {
    WritableFresh([seg] + rest);
    WritableFresh(rest);
    assert ([seg] + rest)[1..] == rest;
  }

  lemma SetPathLettersPath()
    ensures SetPathResult(Arr([]), Text("a.b.c"), Int(5), '.') == Ok(Assigned(Arr([]), ["a", "b", "c"], Int(5)))
  {
    assert "a.b.c" == "a" + "." + "b" + "." + "c";
    SplitThree("a", "b", "c");
    WritableFresh(["a", "b", "c"]);
  }

  lemma SetPathDigitsPath()
    ensures SetPathResult(Arr([]), Text("0.1"), Str("v"), '.') == Ok(Assigned(Arr([]), ["0", "1"], Str("v")))
  {
    assert "0.1" == "0" + "." + "1";
    SplitTwo("0", "1");
    WritableFresh(["0", "1"]);
  }

  lemma AssignedLetters()
    ensures Assigned(Arr([]), ["a", "b", "c"], Int(5)) ==
      Arr([Entry(StrKey("a"), Arr([Entry(StrKey("b"), Arr([Entry(StrKey("c"), Int(5))]))]))])
  {
    assert SegmentKey("a") == StrKey("a") && SegmentKey("b") == StrKey("b") && ToKey("c") == StrKey("c") by {
      assert "a"[0] == 'a' && "b"[0] == 'b' && "c"[0] == 'c' && !IsDigit('a') && !IsDigit('b') && !IsDigit('c');
    }
    AssignedIntoEmpty("a", ["b", "c"], Int(5));
    AssignedIntoEmpty("b", ["c"], Int(5));
    AssignedIntoEmpty("c", [], Int(5));
  }

  lemma AssignedDigits()
    ensures Assigned(Arr([]), ["0", "1"], Str("v")) == Arr([Entry(IntKey(0), Arr([Entry(IntKey(1), Str("v"))]))])
  {
    assert SegmentKey("0") == IntKey(0) && ToKey("1") == IntKey(1) by {
      assert "0"[0] == '0' && "1"[0] == '1';
      assert DigitsValue("0") == 0 by { assert "0"[..0] == []; }
      assert DigitsValue("1") == 1 by { assert "1"[..0] == []; }
    }
    AssignedIntoEmpty("0", ["1"], Str("v"));
    AssignedIntoEmpty("1", [], Str("v"));
  }

  /** `setPath` on an empty array creates the intermediate arrays:
      "a.b.c" := 5 gives {a: {b: {c: 5}}}, and "0.1" := "v" uses integer keys. */
  lemma SetPathExample()
    ensures SetPathResult(Arr([]), Text("a.b.c"), Int(5), '.') ==
      Ok(Arr([Entry(StrKey("a"), Arr([Entry(StrKey("b"), Arr([Entry(StrKey("c"), Int(5))]))]))]))
    ensures SetPathResult(Arr([]), Text("0.1"), Str("v"), '.') ==
      Ok(Arr([Entry(IntKey(0), Arr([Entry(IntKey(1), Str("v"))]))]))
  {
    SetPathLettersPath();
    SetPathDigitsPath();
    AssignedLetters();
    AssignedDigits();
  }
}
