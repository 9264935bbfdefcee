/**
 * `Arrays::search`: a depth-first search for a non-array value inside nested
 * arrays, recording in a by-reference list the keys that lead to it.
 *
 * The code as written empties the whole key list when a nested array does
 * not hold the needle, which also drops the keys of the enclosing levels;
 * `SearchFrom` is the intended search, which only forgets the key of the
 * subtree it gave up on, and `SearchAsWritten` is the code as it stands.
 */
module ArraysSearch {
  import opened PhpValues

  /** What `search` reports: its return value and the final key list. */
  datatype Outcome = Outcome(found: bool, indexes: seq<Key>)

  /** The loop of `search` over `es` from entry `i` on, as the code is written:
      a failed subtree resets the key list to the empty list. */
  function SearchAsWritten(needle: Value, es: seq<Entry>, i: nat, indexes: seq<Key>): Outcome
    requires i <= |es|
    decreases Depth(Arr(es)), |es| - i
  {
    if i == |es| then Outcome(false, indexes)
    else if es[i].val.Arr? then
      var inner := SearchAsWritten(needle, es[i].val.entries, 0, indexes + [es[i].key]);
      if inner.found then inner else SearchAsWritten(needle, es, i + 1, [])
    else if es[i].val == needle then Outcome(true, indexes + [es[i].key])
    else SearchAsWritten(needle, es, i + 1, indexes)
  }

  /** The intended search: a failed subtree gives back the key list it was handed. */
  function SearchFrom(needle: Value, es: seq<Entry>, i: nat, indexes: seq<Key>): Outcome
    requires i <= |es|
    decreases Depth(Arr(es)), |es| - i
  {
    if i == |es| then Outcome(false, indexes)
    else if es[i].val.Arr? then
      var inner := SearchFrom(needle, es[i].val.entries, 0, indexes + [es[i].key]);
      if inner.found then inner else SearchFrom(needle, es, i + 1, indexes)
    else if es[i].val == needle then Outcome(true, indexes + [es[i].key])
    else SearchFrom(needle, es, i + 1, indexes)
  }

  /** `search($needle, $haystack, $indexes)`, throwing when the haystack is no array. */
  function SearchResult(needle: Value, haystack: Value, indexes: seq<Key>): Result<Outcome> {
    if haystack.Arr? then Ok(SearchFrom(needle, haystack.entries, 0, indexes)) else Err(NotAnArray)
  }

  /** `search`, walking the entries in order and recursing into nested arrays
      with the key list passed along by reference. */
  method Search(needle: Value, haystack: Value, indexes: seq<Key>) returns (r: Result<Outcome>)
    ensures r == SearchResult(needle, haystack, indexes)
  {
    if !haystack.Arr? {
      return Err(NotAnArray);
    }
    var found, idx := SearchEntries(needle, haystack.entries, indexes);
    return Ok(Outcome(found, idx));
  }

  method SearchEntries(needle: Value, es: seq<Entry>, indexes: seq<Key>) returns (found: bool, idx: seq<Key>)
    ensures Outcome(found, idx) == SearchFrom(needle, es, 0, indexes)
    decreases Depth(Arr(es))
  {
    idx := indexes;
    var i := 0;
    while i < |es|
      invariant 0 <= i <= |es|
      invariant SearchFrom(needle, es, i, idx) == SearchFrom(needle, es, 0, indexes)
    {
      var e := es[i];
      if e.val.Arr? {
        var saved := idx;
        idx := idx + [e.key];
        found, idx := SearchEntries(needle, e.val.entries, idx);
        if found {
          return;
        }
        MissKeepsIndexes(needle, e.val.entries, 0, saved + [e.key]);
        idx := idx[..|idx| - 1];
        assert idx == saved;
      } else if e.val == needle {
        idx := idx + [e.key];
        return true, idx;
      }
      i := i + 1;
    }
    found := false;
  }

  /** A search that fails leaves the key list as it was. */
  lemma {:induction false} MissKeepsIndexes(needle: Value, es: seq<Entry>, i: nat, indexes: seq<Key>)
    requires i <= |es|
    ensures !SearchFrom(needle, es, i, indexes).found ==> SearchFrom(needle, es, i, indexes).indexes == indexes
    decreases |es| - i
  {
    if i < |es| {
      MissKeepsIndexes(needle, es, i + 1, indexes);
    }
  }

  /** A successful search extends the key list it was handed by a key path
      that leads to the needle, and the needle is not an array. */
  lemma {:induction false} SearchFinds(needle: Value, es: seq<Entry>, i: nat, indexes: seq<Key>)
    requires i <= |es| && WellFormed(Arr(es))
    ensures var r := SearchFrom(needle, es, i, indexes);
      r.found ==>
        && !needle.Arr?
        && |r.indexes| > |indexes| && r.indexes[..|indexes|] == indexes
        && KeyReach(Arr(es), r.indexes[|indexes|..]) == Some(needle)
    decreases Depth(Arr(es)), |es| - i
  {
    if i < |es| {
      var e := es[i];
      if e.val.Arr? {
        var inner := SearchFrom(needle, e.val.entries, 0, indexes + [e.key]);
        SearchFinds(needle, e.val.entries, 0, indexes + [e.key]);
        if inner.found {
          FoundBelow(needle, es, i, indexes, inner.indexes);
        } else {
          SearchFinds(needle, es, i + 1, indexes);
        }
      } else if e.val == needle {
        FindEntry(es, i);
        assert (indexes + [e.key])[|indexes|..] == [e.key];
      } else {
        SearchFinds(needle, es, i + 1, indexes);
      }
    }
  }

  /** A key path found below entry `i` extends to a path from the top through its key. */
  lemma FoundBelow(needle: Value, es: seq<Entry>, i: nat, indexes: seq<Key>, found: seq<Key>)
    requires i < |es| && DistinctKeys(es) && es[i].val.Arr?
    requires |found| > |indexes| + 1 && found[..|indexes| + 1] == indexes + [es[i].key]
    requires KeyReach(es[i].val, found[|indexes| + 1..]) == Some(needle)
    ensures found[..|indexes|] == indexes
    ensures KeyReach(Arr(es), found[|indexes|..]) == Some(needle)
  {
    FindEntry(es, i);
    var p := found[|indexes|..];
    assert found[..|indexes|] == (indexes + [es[i].key])[..|indexes|];
    assert p[0] == es[i].key && p[1..] == found[|indexes| + 1..];
  }

  /** A non-array needle reachable by a key path through an entry at or
      after `i` is found. */
  lemma {:induction false} SearchComplete(needle: Value, es: seq<Entry>, i: nat, j: nat, p: seq<Key>, indexes: seq<Key>)
    requires !needle.Arr? && WellFormed(Arr(es))
    requires i <= j < |es| && |p| >= 1 && es[j].key == p[0]
    requires KeyReach(Arr(es), p) == Some(needle)
    ensures SearchFrom(needle, es, i, indexes).found
    decreases Depth(Arr(es)), |es| - i
  {
    var e := es[i];
    if i < j {
      if e.val.Arr? {
        if !SearchFrom(needle, e.val.entries, 0, indexes + [e.key]).found {
          SearchComplete(needle, es, i + 1, j, p, indexes);
        }
      } else if e.val != needle {
        SearchComplete(needle, es, i + 1, j, p, indexes);
      }
    } else {
      FindEntry(es, i);
      assert HasKey(es, p[0]);
      var v := KeyReach(e.val, p[1..]);
      assert v == Some(needle);
      if |p| > 1 {
        var inner := e.val.entries;
        assert HasKey(inner, p[1]);
        var k :| 0 <= k < |inner| && inner[k].key == p[1];
        SearchComplete(needle, inner, 0, k, p[1..], indexes + [e.key]);
      } else {
        assert e.val == needle;
      }
    }
  }

  /** On an array PHP can build, `search` succeeds exactly when some key path
      leads to a value equal to the (non-array) needle, and then the keys it
      appends are such a path. */
  lemma SearchSpec(needle: Value, es: seq<Entry>, indexes: seq<Key>)
    requires WellFormed(Arr(es))
    ensures var r := SearchFrom(needle, es, 0, indexes);
      && (r.found <==> !needle.Arr? && exists p :: KeyReach(Arr(es), p) == Some(needle))
      && (r.found ==> |r.indexes| > |indexes| && r.indexes[..|indexes|] == indexes && KeyReach(Arr(es), r.indexes[|indexes|..]) == Some(needle))
      && (!r.found ==> r.indexes == indexes)
  {
    var r := SearchFrom(needle, es, 0, indexes);
    SearchFinds(needle, es, 0, indexes);
    MissKeepsIndexes(needle, es, 0, indexes);
    if !needle.Arr? && exists p :: KeyReach(Arr(es), p) == Some(needle) {
      var p :| KeyReach(Arr(es), p) == Some(needle);
      assert p != [];
      var j :| 0 <= j < |es| && es[j].key == p[0];
      SearchComplete(needle, es, 0, j, p, indexes);
    }
  }

  /** The code as written finds the needle exactly when the intended search
      does: only the recorded keys differ. */
  lemma {:induction false} AsWrittenFindsAlike(needle: Value, es: seq<Entry>, i: nat, indexes: seq<Key>, other: seq<Key>)
    requires i <= |es|
    ensures SearchAsWritten(needle, es, i, indexes).found == SearchFrom(needle, es, i, other).found
    decreases Depth(Arr(es)), |es| - i
  {
    if i < |es| {
      var e := es[i];
      if e.val.Arr? {
        AsWrittenFindsAlike(needle, e.val.entries, 0, indexes + [e.key], other + [e.key]);
        AsWrittenFindsAlike(needle, es, i + 1, [], other);
      } else {
        AsWrittenFindsAlike(needle, es, i + 1, indexes, other);
      }
    }
  }

  /** `['x' => ['p' => [], 'q' => 5]]` searched for 5: the empty array under 'p'
      resets the list, so the code reports `['q']` instead of `['x', 'q']`. */
  lemma AsWrittenLosesPrefix()
    ensures var es := ExampleHaystack();
      && SearchAsWritten(Int(5), es, 0, []) == Outcome(true, [StrKey("q")])
      && SearchFrom(Int(5), es, 0, []) == Outcome(true, [StrKey("x"), StrKey("q")])
  {
    var inner := [Entry(StrKey("p"), Arr([])), Entry(StrKey("q"), Int(5))];
    assert ExampleHaystack() == [Entry(StrKey("x"), Arr(inner))];
    InnerAsWritten(inner);
    InnerIntended(inner);
  }

  function ExampleHaystack(): seq<Entry> {
    [Entry(StrKey("x"), Arr([Entry(StrKey("p"), Arr([])), Entry(StrKey("q"), Int(5))]))]
  }

  lemma InnerAsWritten(inner: seq<Entry>)
    requires inner == [Entry(StrKey("p"), Arr([])), Entry(StrKey("q"), Int(5))]
    ensures SearchAsWritten(Int(5), inner, 0, [StrKey("x")]) == Outcome(true, [StrKey("q")])
  {
    assert SearchAsWritten(Int(5), [], 0, [StrKey("x"), StrKey("p")]) == Outcome(false, [StrKey("x"), StrKey("p")]);
    assert SearchAsWritten(Int(5), inner, 1, []) == Outcome(true, [StrKey("q")]);
  }

  lemma InnerIntended(inner: seq<Entry>)
    requires inner == [Entry(StrKey("p"), Arr([])), Entry(StrKey("q"), Int(5))]
    ensures SearchFrom(Int(5), inner, 0, [StrKey("x")]) == Outcome(true, [StrKey("x"), StrKey("q")])
  {
    assert SearchFrom(Int(5), [], 0, [StrKey("x"), StrKey("p")]) == Outcome(false, [StrKey("x"), StrKey("p")]);
    assert SearchFrom(Int(5), inner, 1, [StrKey("x")]) == Outcome(true, [StrKey("x"), StrKey("q")]);
  }
}
