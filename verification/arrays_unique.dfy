/**
 * `Arrays::unique` and `Arrays::occurrences`.
 *
 * `occurrences` counts the entries whose value has the same `Val::hash` as the
 * one searched for. The hash is the MD5 digest of `serialize`, and `serialize`
 * writes distinct values of the kinds modelled here differently, so two values
 * hash alike exactly when they are equal.
 *
 * `unique` walks a copy of the array (a `foreach` iterates over the array as
 * it was when the loop began) and drops an entry whenever its value still
 * occurs more than once in the array as it stands, so the last occurrence of
 * each value is the one that survives.
 */
module ArraysUnique {
  import opened PhpValues

  /** How many entries of `es` hold `v`. */
  function Count(es: seq<Entry>, v: Value): nat {
    multiset(Values(es))[v]
  }

  /** `occurrences($arr, $search)`. */
  method Occurrences(es: seq<Entry>, search: Value) returns (count: nat)
    ensures count == Count(es, search)
  {
    count := 0;
    var i := 0;
    while i < |es|
      invariant 0 <= i <= |es|
      invariant count == multiset(Values(es)[..i])[search]
    {
      assert Values(es)[..i + 1] == Values(es)[..i] + [es[i].val];
      if es[i].val == search {
        count := count + 1;
      }
      i := i + 1;
    }
    assert Values(es)[..i] == Values(es);
  }

  /** The loop of `unique` from the entries `rest` of the copy on, `cur` being
      the array as it stands. */
  function UniqueFrom(cur: seq<Entry>, rest: seq<Entry>): seq<Entry>
    decreases |rest|
  {
    if rest == [] then cur
    else
      var e := rest[0];
      UniqueFrom(if Count(cur, e.val) > 1 then Unset(cur, e.key) else cur, rest[1..])
  }

  /** What `unique($arr)` returns. */
  function UniqueResult(es: seq<Entry>): seq<Entry> {
    UniqueFrom(es, es)
  }

  /** `unique`, unsetting entries of the array while it walks its copy. */
  method Unique(es: seq<Entry>) returns (r: seq<Entry>)
    ensures r == UniqueResult(es)
  {
    r := es;
    var i := 0;
    while i < |es|
      invariant 0 <= i <= |es|
      invariant UniqueFrom(r, es[i..]) == UniqueResult(es)
    {
      var e := es[i];
      assert es[i..][0] == e && es[i..][1..] == es[i + 1..];
      var n := Occurrences(r, e.val);
      if n > 1 {
        r := Unset(r, e.key);
      }
      i := i + 1;
    }
  }

  /** The reference: the entries whose value does not occur again later, in order. */
  function KeepLast(es: seq<Entry>): seq<Entry>
    decreases |es|
  {
    if es == [] then []
    else if es[0].val in Values(es[1..]) then KeepLast(es[1..])
    else [es[0]] + KeepLast(es[1..])
  }

  lemma ValuesConcat(a: seq<Entry>, b: seq<Entry>)
    ensures Values(a + b) == Values(a) + Values(b)
  {
  }

  /** One turn of the loop with the processed survivors `p` in front: the
      entry is dropped exactly when its value occurs again later. */
  lemma UniqueStep(p: seq<Entry>, rest: seq<Entry>)
    requires rest != [] && DistinctKeys(p + rest)
    requires forall x :: x in p ==> x.val !in Values(rest)
    ensures var e := rest[0];
      var cur := p + rest;
      && (Count(cur, e.val) > 1 <==> e.val in Values(rest[1..]))
      && (Count(cur, e.val) > 1 ==> Unset(cur, e.key) == p + rest[1..])
  {
    var e, tail := rest[0], rest[1..];
    assert rest == [e] + tail;
    assert p + rest == p + [e] + tail;
    ValuesConcat(p, rest);
    ValuesConcat([e], tail);
    assert e.val in Values(rest);
    assert multiset(Values(p))[e.val] == 0;
    if e.val in Values(tail) {
      forall i | 0 <= i < |p| ensures p[i].key != e.key {
        assert (p + rest)[i] == p[i] && (p + rest)[|p|] == e;
      }
      forall i | 0 <= i < |tail| ensures tail[i].key != e.key {
        assert (p + rest)[|p| + 1 + i] == tail[i] && (p + rest)[|p|] == e;
      }
      UnsetEntry(p, e, tail);
    }
  }

  /** With the survivors of the processed prefix in front, the rest of the
      loop keeps exactly the last occurrences among the remaining entries. */
  lemma {:induction false} UniqueFromKeepsLast(p: seq<Entry>, rest: seq<Entry>)
    requires DistinctKeys(p + rest)
    requires forall x :: x in p ==> x.val !in Values(rest)
    ensures UniqueFrom(p + rest, rest) == p + KeepLast(rest)
    decreases |rest|
  {
    if rest == [] {
      assert p + rest == p;
    } else {
      var e, tail := rest[0], rest[1..];
      UniqueStep(p, rest);
      if e.val in Values(tail) {
        DropFacts(p, rest);
        UniqueFromKeepsLast(p, tail);
      } else {
        KeepFacts(p, rest);
        UniqueFromKeepsLast(p + [e], tail);
      }
    }
  }

  /** When the first remaining entry is dropped, the invariant holds for the tail. */
  lemma DropFacts(p: seq<Entry>, rest: seq<Entry>)
    requires rest != [] && DistinctKeys(p + rest)
    requires forall x :: x in p ==> x.val !in Values(rest)
    ensures DistinctKeys(p + rest[1..])
    ensures forall x :: x in p ==> x.val !in Values(rest[1..])
  {
    KeepDistinct(p, rest, p + rest[1..]);
    forall x | x in p ensures x.val !in Values(rest[1..]) {
      assert x.val !in Values(rest);
    }
  }

  /** When the first remaining entry is kept, it joins the survivors. */
  lemma KeepFacts(p: seq<Entry>, rest: seq<Entry>)
    requires rest != [] && DistinctKeys(p + rest) && rest[0].val !in Values(rest[1..])
    requires forall x :: x in p ==> x.val !in Values(rest)
    ensures p + rest == (p + [rest[0]]) + rest[1..]
    ensures p + ([rest[0]] + KeepLast(rest[1..])) == (p + [rest[0]]) + KeepLast(rest[1..])
    ensures DistinctKeys((p + [rest[0]]) + rest[1..])
    ensures forall x :: x in p + [rest[0]] ==> x.val !in Values(rest[1..])
  {
    assert rest == [rest[0]] + rest[1..];
    Regroup(p, rest[0], rest[1..]);
    Regroup(p, rest[0], KeepLast(rest[1..]));
    forall x | x in p + [rest[0]] ensures x.val !in Values(rest[1..]) {
      if x in p {
        assert x.val !in Values(rest);
      }
    }
  }

  /** Dropping the first entry of `rest` keeps the keys distinct. */
  lemma KeepDistinct(p: seq<Entry>, rest: seq<Entry>, q: seq<Entry>)
    requires rest != [] && q == p + rest[1..] && DistinctKeys(p + rest)
    ensures DistinctKeys(q)
  {
    var all := p + rest;
    forall i, j | 0 <= i < j < |q| ensures q[i].key != q[j].key {
      var i', j' := if i < |p| then i else i + 1, if j < |p| then j else j + 1;
      assert q[i] == all[i'] && q[j] == all[j'];
    }
  }

  /** On an array (whose keys are distinct) `unique` keeps exactly the last
      occurrence of each value, in the original order. */
  lemma UniqueKeepsLast(es: seq<Entry>)
    requires DistinctKeys(es)
    ensures UniqueResult(es) == KeepLast(es)
  {
    assert [] + es == es;
    UniqueFromKeepsLast([], es);
    assert [] + KeepLast(es) == KeepLast(es);
  }

  /** Every value of the array survives, exactly once. */
  lemma {:induction false} KeepLastCounts(es: seq<Entry>, v: Value)
    ensures Count(KeepLast(es), v) == if v in Values(es) then 1 else 0
    decreases |es|
  {
    if es != [] {
      var e, tail := es[0], es[1..];
      KeepLastCounts(tail, v);
      assert es == [e] + tail;
      ValuesConcat([e], tail);
      if e.val !in Values(tail) {
        ValuesConcat([e], KeepLast(tail));
      }
    }
  }

  /** The result is made of entries of the array, in their order: it is a
      subsequence of it. */
  lemma {:induction false} KeepLastSubsequence(es: seq<Entry>)
    ensures |KeepLast(es)| <= |es|
    ensures forall x :: x in KeepLast(es) ==> x in es
    decreases |es|
  {
    if es != [] {
      KeepLastSubsequence(es[1..]);
      forall x | x in KeepLast(es) ensures x in es {
        if x != es[0] {
          assert x in KeepLast(es[1..]);
          assert x in es[1..];
        }
      }
    }
  }

  /** `unique` leaves each value of the array exactly once and no other value. */
  lemma UniqueValues(es: seq<Entry>, v: Value)
    requires DistinctKeys(es)
    ensures Count(UniqueResult(es), v) == if v in Values(es) then 1 else 0
    ensures forall x :: x in UniqueResult(es) ==> x in es
  {
    UniqueKeepsLast(es);
    KeepLastCounts(es, v);
    KeepLastSubsequence(es);
  }

  /** An array whose values are already distinct is left as it is. */
  lemma {:induction false} KeepLastOfDistinct(es: seq<Entry>)
    requires forall i, j :: 0 <= i < j < |es| ==> es[i].val != es[j].val
    ensures KeepLast(es) == es
    decreases |es|
  {
    if es != [] {
      var tail := es[1..];
      forall j | 0 <= j < |tail| ensures tail[j].val != es[0].val {
        assert tail[j] == es[j + 1];
      }
      KeepLastOfDistinct(tail);
      assert es == [es[0]] + tail;
    }
  }

  /** Applying `unique` twice is applying it once. */
  lemma UniqueIdempotent(es: seq<Entry>)
    requires DistinctKeys(es)
    ensures UniqueResult(UniqueResult(es)) == UniqueResult(es)
  {
    var r := UniqueResult(es);
    UniqueKeepsLast(es);
    KeepLastSubsequenceDistinct(es);
    UniqueKeepsLast(r);
    forall i, j | 0 <= i < j < |r| ensures r[i].val != r[j].val {
      KeepLastDistinctValues(es, i, j);
    }
    KeepLastOfDistinct(r);
  }

  /** The entries kept have distinct values. */
  lemma {:induction false} KeepLastDistinctValues(es: seq<Entry>, i: int, j: int)
    requires 0 <= i < j < |KeepLast(es)|
    ensures KeepLast(es)[i].val != KeepLast(es)[j].val
    decreases |es|
  {
    var tail := es[1..];
    KeepLastSubsequence(tail);
    if es[0].val in Values(tail) {
      KeepLastDistinctValues(tail, i, j);
    } else if i == 0 {
      var x := KeepLast(tail)[j - 1];
      assert x in KeepLast(tail);
      assert x in tail;
      var k :| 0 <= k < |tail| && tail[k] == x;
      assert Values(tail)[k] == x.val;
    } else {
      KeepLastDistinctValues(tail, i - 1, j - 1);
    }
  }

  /** The kept entries keep the array's distinct keys distinct. */
  lemma {:induction false} KeepLastSubsequenceDistinct(es: seq<Entry>)
    requires DistinctKeys(es)
    ensures DistinctKeys(KeepLast(es))
    decreases |es|
  {
    if es != [] {
      var tail := es[1..];
      assert DistinctKeys(tail) by {
        forall i, j | 0 <= i < j < |tail| ensures tail[i].key != tail[j].key {
          assert tail[i] == es[i + 1] && tail[j] == es[j + 1];
        }
      }
      KeepLastSubsequenceDistinct(tail);
      KeepLastSubsequence(tail);
      if es[0].val !in Values(tail) {
        var r := KeepLast(es);
        forall i, j | 0 <= i < j < |r| ensures r[i].key != r[j].key {
          if i == 0 {
            assert r[j] in KeepLast(tail);
            var k :| 0 <= k < |tail| && tail[k] == r[j];
            assert es[k + 1] == r[j];
          } else {
            assert r[i] == KeepLast(tail)[i - 1] && r[j] == KeepLast(tail)[j - 1];
          }
        }
      }
    }
  }
}
