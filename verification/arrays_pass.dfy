/**
 * `Arrays::pass`: `array_map` with the key as a second argument, where the
 * callback may also place its result in a group (and under a name within
 * that group) through two by-reference parameters.
 *
 * The code as written tests the loop's key, which is never null, where it
 * means to test the name: a grouped result without a name is stored under
 * the key "" of its group, each one overwriting the previous, instead of
 * being appended. `PassedAsWritten` is the code as it stands and `Passed`
 * the intended behaviour, which `PassArray` implements.
 */
module ArraysPass {
  import opened PhpStrings
  import opened PhpValues

  /** What one call of the callback hands back: its return value and what it
      left in `$group` and `$name` (null when it left them alone). */
  datatype PassOut = PassOut(value: Value, group: Value, name: Value)

  /** The group slot a grouped result goes into: created empty when not set,
      and required to be an array. Writing into a slot holding `false` turns
      it into an empty array first, as PHP 8.0 to 8.2 do. */
  function GroupSlot(res: seq<Entry>, g: Key): Value {
    if IsSet(res, g) && Lookup(res, g) != Bool(false) then Lookup(res, g) else Arr([])
  }

  /** One turn of the loop as the code is written: a grouped result is always
      assigned under its name, and a null name is the key "". */
  function PassStepAsWritten(res: seq<Entry>, out: PassOut): Result<seq<Entry>> {
    if out.group == Null then Ok(Append(res, out.value))
    else match OffsetKey(out.group)
      case None => Err(IllegalOffset)
      case Some(g) =>
        var slot := GroupSlot(res, g);
        if !slot.Arr? then Err(ScalarAsArray)
        else match OffsetKey(out.name)
          case None => Err(IllegalOffset)
          case Some(n) => Ok(Put(res, g, Arr(Put(slot.entries, n, out.value))))
  }

  /** One turn of the loop as intended: a grouped result without a name is
      appended to its group. */
  function PassStep(res: seq<Entry>, out: PassOut): Result<seq<Entry>> {
    if out.group == Null then Ok(Append(res, out.value))
    else match OffsetKey(out.group)
      case None => Err(IllegalOffset)
      case Some(g) =>
        var slot := GroupSlot(res, g);
        if !slot.Arr? then Err(ScalarAsArray)
        else if out.name == Null then Ok(Put(res, g, Arr(Append(slot.entries, out.value))))
        else match OffsetKey(out.name)
          case None => Err(IllegalOffset)
          case Some(n) => Ok(Put(res, g, Arr(Put(slot.entries, n, out.value))))
  }

  /** What the callback hands back for each entry, in iteration order. The
      callback sees only the entry, so its results do not depend on the
      array being built. */
  function Outs(es: seq<Entry>, f: (Value, Key) -> PassOut): (outs: seq<PassOut>)
    ensures |outs| == |es|
  {
    seq(|es|, j requires 0 <= j < |es| => f(es[j].val, es[j].key))
  }

  /** The remaining turns of the loop from array `res`, as the code is written. */
  function PassFromAsWritten(res: seq<Entry>, outs: seq<PassOut>): Result<seq<Entry>>
    decreases |outs|
  {
    if outs == [] then Ok(res)
    else match PassStepAsWritten(res, outs[0])
      case Err(e) => Err(e)
      case Ok(next) => PassFromAsWritten(next, outs[1..])
  }

  /** The remaining turns of the loop from array `res`, as intended. */
  function PassFrom(res: seq<Entry>, outs: seq<PassOut>): Result<seq<Entry>>
    decreases |outs|
  {
    if outs == [] then Ok(res)
    else match PassStep(res, outs[0])
      case Err(e) => Err(e)
      case Ok(next) => PassFrom(next, outs[1..])
  }

  /** `pass($array, $callback)`, as the code is written. */
  function PassResultAsWritten(es: seq<Entry>, f: (Value, Key) -> PassOut): Result<seq<Entry>> {
    PassFromAsWritten([], Outs(es, f))
  }

  /** `pass($array, $callback)`, as intended. */
  function PassResult(es: seq<Entry>, f: (Value, Key) -> PassOut): Result<seq<Entry>> {
    PassFrom([], Outs(es, f))
  }

  /** The values the callback returns. */
  function Returned(outs: seq<PassOut>): (vs: seq<Value>)
    ensures |vs| == |outs| && forall j :: 0 <= j < |outs| ==> vs[j] == outs[j].value
  {
    seq(|outs|, j requires 0 <= j < |outs| => outs[j].value)
  }

  /** `pass`, walking the array once and writing each result into the group
      it names. */
  method PassArray(es: seq<Entry>, f: (Value, Key) -> PassOut) returns (r: Result<seq<Entry>>)
    ensures r == PassResult(es, f)
  {
    ghost var outs := Outs(es, f);
    var res: seq<Entry> := [];
    var i := 0;
    while i < |es|
      invariant 0 <= i <= |es|
      invariant PassFrom(res, outs[i..]) == PassResult(es, f)
    {
      var out := f(es[i].val, es[i].key);
      assert outs[i..][0] == out && outs[i..][1..] == outs[i + 1..];
      var step := PassOne(res, out);
      if step.Err? {
        return step;
      }
      res := step.value;
      i := i + 1;
    }
    return Ok(res);
  }

  /** One turn of the loop: the group slot is created in place when it is not
      set, then written under the name or appended to. */
  method PassOne(res: seq<Entry>, out: PassOut) returns (r: Result<seq<Entry>>)
    ensures r == PassStep(res, out)
  {
    if out.group == Null {
      return Ok(Append(res, out.value));
    }
    var g := OffsetKey(out.group);
    if g.None? {
      return Err(IllegalOffset);
    }
    var acc := res;
    if !IsSet(acc, g.value) {
      acc := Put(acc, g.value, Arr([]));
    }
    var slot := Lookup(acc, g.value);
    if slot == Bool(false) {
      slot := Arr([]);
    }
    if !slot.Arr? {
      return Err(ScalarAsArray);
    }
    var grouped: seq<Entry>;
    if out.name == Null {
      grouped := Append(slot.entries, out.value);
    } else {
      var n := OffsetKey(out.name);
      if n.None? {
        return Err(IllegalOffset);
      }
      grouped := Put(slot.entries, n.value, out.value);
    }
    PutTwice(res, g.value, Arr([]), Arr(grouped));
    return Ok(Put(acc, g.value, Arr(grouped)));
  }

  /** A turn that succeeds hands its array on to the remaining turns. */
  lemma PassFromFirst(res: seq<Entry>, outs: seq<PassOut>)
    requires outs != [] && PassStep(res, outs[0]).Ok?
    ensures PassFrom(res, outs) == PassFrom(PassStep(res, outs[0]).value, outs[1..])
  {
  }

  lemma ReturnedFirst(vs: seq<Value>, outs: seq<PassOut>)
    requires outs != []
    ensures vs + [outs[0].value] + Returned(outs[1..]) == vs + Returned(outs)
  {
    var l, r := vs + [outs[0].value] + Returned(outs[1..]), vs + Returned(outs);
    assert |l| == |r|;
    forall j | 0 <= j < |l| ensures l[j] == r[j] {
      if j > |vs| {
        assert l[j] == Returned(outs[1..])[j - |vs| - 1] == outs[j - |vs|].value;
      }
    }
  }

  /** Appending to a list continues its numbering. */
  lemma AppendToList(vs: seq<Value>, v: Value)
    ensures Append(AsList(vs), v) == AsList(vs + [v])
  {
    ListNextIndex(AsList(vs));
    var l, r := Append(AsList(vs), v), AsList(vs + [v]);
    assert |l| == |r|;
    forall j | 0 <= j < |l| ensures l[j] == r[j] {
      if j < |vs| {
        assert l[j] == AsList(vs)[j];
      }
    }
  }

  /** When the callback never groups, `pass` is `array_map` with keys: the
      returned values, renumbered 0, 1, 2, ..., after those already listed. */
  lemma {:induction false} PassUngrouped(vs: seq<Value>, outs: seq<PassOut>)
    requires forall j :: 0 <= j < |outs| ==> outs[j].group == Null
    ensures PassFrom(AsList(vs), outs) == Ok(AsList(vs + Returned(outs)))
    decreases |outs|
  {
    if outs == [] {
      assert vs + Returned(outs) == vs;
    } else {
      AppendToList(vs, outs[0].value);
      PassFromFirst(AsList(vs), outs);
      PassUngrouped(vs + [outs[0].value], outs[1..]);
      ReturnedFirst(vs, outs);
    }
  }

  /** When the callback puts every result into the same group without a name,
      `pass` returns that one group holding the list of all results. */
  lemma {:induction false} PassOneGroup(vs: seq<Value>, outs: seq<PassOut>, g: Value, k: Key)
    requires g != Null && OffsetKey(g) == Some(k)
    requires forall j :: 0 <= j < |outs| ==> outs[j].group == g && outs[j].name == Null
    requires vs != [] || outs != []
    ensures PassFrom(if vs == [] then [] else [Entry(k, Arr(AsList(vs)))], outs)
         == Ok([Entry(k, Arr(AsList(vs + Returned(outs))))])
    decreases |outs|
  {
    if outs == [] {
      assert vs + Returned(outs) == vs;
    } else {
      var res := if vs == [] then [] else [Entry(k, Arr(AsList(vs)))];
      assert outs[0] == PassOut(outs[0].value, g, Null);
      GroupAppendStep(res, vs, outs[0].value, g, k);
      PassFromFirst(res, outs);
      PassOneGroup(vs + [outs[0].value], outs[1..], g, k);
      ReturnedFirst(vs, outs);
    }
  }

  /** An unnamed result is appended to its group's list. */
  lemma GroupAppendStep(res: seq<Entry>, vs: seq<Value>, v: Value, g: Value, k: Key)
    requires g != Null && OffsetKey(g) == Some(k)
    requires res == if vs == [] then [] else [Entry(k, Arr(AsList(vs)))]
    ensures PassStep(res, PassOut(v, g, Null)) == Ok([Entry(k, Arr(AsList(vs + [v])))])
  {
    AppendToList(vs, v);
    var grouped := Arr(AsList(vs + [v]));
    if res != [] {
      assert Find(res, k) == Some(Arr(AsList(vs)));
      assert GroupSlot(res, k) == Arr(AsList(vs));
      assert res[1..] == [];
      assert Put(res, k, grouped) == [Entry(k, grouped)];
    } else {
      assert AsList(vs) == [];
      assert Put(res, k, grouped) == [Entry(k, grouped)];
    }
  }

  /** As written, the same callback leaves only the last result, under "". */
  lemma {:induction false} PassOneGroupAsWritten(prev: Option<Value>, outs: seq<PassOut>, g: Value, k: Key)
    requires g != Null && OffsetKey(g) == Some(k)
    requires forall j :: 0 <= j < |outs| ==> outs[j].group == g && outs[j].name == Null
    requires outs != []
    ensures PassFromAsWritten(if prev.None? then [] else [Entry(k, Arr([Entry(StrKey(""), prev.value)]))], outs)
         == Ok([Entry(k, Arr([Entry(StrKey(""), outs[|outs| - 1].value)]))])
    decreases |outs|
  {
    var res := if prev.None? then [] else [Entry(k, Arr([Entry(StrKey(""), prev.value)]))];
    assert outs[0] == PassOut(outs[0].value, g, Null);
    GroupOverwriteStep(res, prev, outs[0].value, g, k);
    if |outs| > 1 {
      PassOneGroupAsWritten(Some(outs[0].value), outs[1..], g, k);
    }
  }

  /** As written, an unnamed result replaces whatever its group held under "". */
  lemma GroupOverwriteStep(res: seq<Entry>, prev: Option<Value>, v: Value, g: Value, k: Key)
    requires g != Null && OffsetKey(g) == Some(k)
    requires res == if prev.None? then [] else [Entry(k, Arr([Entry(StrKey(""), prev.value)]))]
    ensures PassStepAsWritten(res, PassOut(v, g, Null)) == Ok([Entry(k, Arr([Entry(StrKey(""), v)]))])
  {
    var grouped := Arr([Entry(StrKey(""), v)]);
    assert OffsetKey(Null) == Some(StrKey(""));
    if prev.Some? {
      var slot := [Entry(StrKey(""), prev.value)];
      assert Find(res, k) == Some(Arr(slot));
      assert GroupSlot(res, k) == Arr(slot);
      assert slot[1..] == [] && res[1..] == [];
      assert Put(slot, StrKey(""), v) == [Entry(StrKey(""), v)];
      assert Put(res, k, grouped) == [Entry(k, grouped)];
    } else {
      assert GroupSlot(res, k) == Arr([]);
      assert Put([], StrKey(""), v) == [Entry(StrKey(""), v)];
      assert Put(res, k, grouped) == [Entry(k, grouped)];
    }
  }

  /** The two readings agree whenever every grouped result is also named. */
  lemma {:induction false} AsWrittenAgreesWhenNamed(res: seq<Entry>, outs: seq<PassOut>)
    requires forall j :: 0 <= j < |outs| && outs[j].group != Null ==> outs[j].name != Null
    ensures PassFromAsWritten(res, outs) == PassFrom(res, outs)
    decreases |outs|
  {
    if outs != [] {
      StepAgreesWhenNamed(res, outs[0]);
      var step := PassStep(res, outs[0]);
      if step.Ok? {
        AsWrittenAgreesWhenNamed(step.value, outs[1..]);
      }
    }
  }

  lemma StepAgreesWhenNamed(res: seq<Entry>, out: PassOut)
    requires out.group != Null ==> out.name != Null
    ensures PassStepAsWritten(res, out) == PassStep(res, out)
  {
  }

  /** Two values put into group "g" without a name: the code as written
      returns `['g' => ['' => 2]]`, the intended result is `['g' => [1, 2]]`. */
  lemma AsWrittenDropsGroupMembers()
    ensures var outs := [PassOut(Int(1), Str("g"), Null), PassOut(Int(2), Str("g"), Null)];
      && PassFromAsWritten([], outs) == Ok([Entry(StrKey("g"), Arr([Entry(StrKey(""), Int(2))]))])
      && PassFrom([], outs) == Ok([Entry(StrKey("g"), Arr([Entry(IntKey(0), Int(1)), Entry(IntKey(1), Int(2))]))])
  {
    GroupExample(Int(1), Int(2), Str("g"), StrKey("g"));
  }

  /** Two unnamed values `x` and `y` put into the same group `g`. */
  lemma GroupExample(x: Value, y: Value, g: Value, k: Key)
    requires g != Null && OffsetKey(g) == Some(k)
    ensures var outs := [PassOut(x, g, Null), PassOut(y, g, Null)];
      && PassFromAsWritten([], outs) == Ok([Entry(k, Arr([Entry(StrKey(""), y)]))])
      && PassFrom([], outs) == Ok([Entry(k, Arr([Entry(IntKey(0), x), Entry(IntKey(1), y)]))])
  {
    var outs := [PassOut(x, g, Null), PassOut(y, g, Null)];
    assert PassFromAsWritten([], outs) == Ok([Entry(k, Arr([Entry(StrKey(""), y)]))]) by {
      PassOneGroupAsWritten(None, outs, g, k);
    }
    assert PassFrom([], outs) == Ok([Entry(k, Arr(AsList([] + Returned(outs))))]) by {
      PassOneGroup([], outs, g, k);
    }
    assert AsList([] + Returned(outs)) == [Entry(IntKey(0), x), Entry(IntKey(1), y)] by {
      assert [] + Returned(outs) == [x, y];
    }
  }

  /** A turn that writes its result into group `gk` under the name `nk`. */
  predicate Targets(out: PassOut, gk: Key, nk: Key) {
    && out.group != Null && OffsetKey(out.group) == Some(gk)
    && out.name != Null && OffsetKey(out.name) == Some(nk)
  }

  /** Group key `gk` of `res` holds an array. */
  predicate HoldsGroup(res: seq<Entry>, gk: Key) {
    Find(res, gk).Some? && Find(res, gk).value.Arr?
  }

  /** Group key `gk` of `res` holds an array in which name `nk` holds `v`. */
  predicate HoldsNamed(res: seq<Entry>, gk: Key, nk: Key, v: Value) {
    HoldsGroup(res, gk) && Find(Find(res, gk).value.entries, nk) == Some(v)
  }

  /** The turns before turn `j` succeed, and `pass` is turn `j` followed by
      the turns after it. */
  lemma {:induction false} PassFromAt(res: seq<Entry>, outs: seq<PassOut>, j: int)
    requires 0 <= j < |outs| && PassFrom(res, outs).Ok?
    ensures PassFrom(res, outs[..j]).Ok?
    ensures var mid := PassFrom(res, outs[..j]).value;
      PassStep(mid, outs[j]).Ok? && PassFrom(PassStep(mid, outs[j]).value, outs[j + 1..]) == PassFrom(res, outs)
    decreases j
  {
    if j == 0 {
      assert outs[..0] == [];
    } else {
      var next := PassStep(res, outs[0]).value;
      PassFromAt(next, outs[1..], j - 1);
      assert outs[..j][0] == outs[0] && outs[..j][1..] == outs[1..][..j - 1];
      assert outs[1..][j - 1] == outs[j] && outs[1..][j..] == outs[j + 1..];
    }
  }

  /** A turn aimed at group `gk` and name `nk` stores its result there. */
  lemma StepTargets(res: seq<Entry>, out: PassOut, gk: Key, nk: Key)
    requires Targets(out, gk, nk) && PassStep(res, out).Ok?
    ensures HoldsNamed(PassStep(res, out).value, gk, nk, out.value)
  {
  }

  /** A turn aimed elsewhere leaves name `nk` of group `gk` alone: an
      appended result takes a fresh index, and any other write names another
      key. */
  lemma StepKeepsNamed(res: seq<Entry>, out: PassOut, gk: Key, nk: Key, v: Value)
    requires HoldsNamed(res, gk, nk, v) && !Targets(out, gk, nk) && PassStep(res, out).Ok?
    ensures HoldsNamed(PassStep(res, out).value, gk, nk, v)
  {
    if out.group == Null {
      AppendKeepsFind(res, out.value, gk);
    } else if OffsetKey(out.group) == Some(gk) {
      var grouped := Find(res, gk).value.entries;
      assert GroupSlot(res, gk) == Arr(grouped);
      if out.name == Null {
        AppendKeepsFind(grouped, out.value, nk);
      }
    }
  }

  /** A turn that groups its result under `gk` leaves an array there. */
  lemma StepMakesGroup(res: seq<Entry>, out: PassOut, gk: Key)
    requires out.group != Null && OffsetKey(out.group) == Some(gk) && PassStep(res, out).Ok?
    ensures HoldsGroup(PassStep(res, out).value, gk)
  {
  }

  /** Once group key `gk` holds an array, every turn leaves an array there. */
  lemma StepKeepsGroup(res: seq<Entry>, out: PassOut, gk: Key)
    requires HoldsGroup(res, gk) && PassStep(res, out).Ok?
    ensures HoldsGroup(PassStep(res, out).value, gk)
  {
    if out.group == Null {
      AppendKeepsFind(res, out.value, gk);
    }
  }

  lemma {:induction false} PassFromKeepsNamed(res: seq<Entry>, outs: seq<PassOut>, gk: Key, nk: Key, v: Value)
    requires HoldsNamed(res, gk, nk, v) && PassFrom(res, outs).Ok?
    requires forall i :: 0 <= i < |outs| ==> !Targets(outs[i], gk, nk)
    ensures HoldsNamed(PassFrom(res, outs).value, gk, nk, v)
    decreases |outs|
  {
    if outs != [] {
      StepKeepsNamed(res, outs[0], gk, nk, v);
      PassFromKeepsNamed(PassStep(res, outs[0]).value, outs[1..], gk, nk, v);
    }
  }

  lemma {:induction false} PassFromKeepsGroup(res: seq<Entry>, outs: seq<PassOut>, gk: Key)
    requires HoldsGroup(res, gk) && PassFrom(res, outs).Ok?
    ensures HoldsGroup(PassFrom(res, outs).value, gk)
    decreases |outs|
  {
    if outs != [] {
      StepKeepsGroup(res, outs[0], gk);
      PassFromKeepsGroup(PassStep(res, outs[0]).value, outs[1..], gk);
    }
  }

  /** A result the callback puts into group `g` under name `n` is found there
      in the array `pass` returns, unless a later entry is put under the same
      group and name, whatever else the other entries do. */
  lemma PassNamedGroupFinds(es: seq<Entry>, f: (Value, Key) -> PassOut, r: seq<Entry>, j: int, gk: Key, nk: Key)
    requires PassResult(es, f) == Ok(r)
    requires 0 <= j < |es| && Targets(Outs(es, f)[j], gk, nk)
    requires forall i :: j < i < |es| ==> !Targets(Outs(es, f)[i], gk, nk)
    ensures Find(r, gk).Some? && Find(r, gk).value.Arr?
    ensures Find(Find(r, gk).value.entries, nk) == Some(Outs(es, f)[j].value)
  {
    var outs := Outs(es, f);
    PassFromAt([], outs, j);
    var mid := PassFrom([], outs[..j]).value;
    StepTargets(mid, outs[j], gk, nk);
    PassFromKeepsNamed(PassStep(mid, outs[j]).value, outs[j + 1..], gk, nk, outs[j].value);
  }

  /** Every group key some entry is put under holds an array in the result. */
  lemma PassGroupsAreArrays(es: seq<Entry>, f: (Value, Key) -> PassOut, r: seq<Entry>, j: int, gk: Key)
    requires PassResult(es, f) == Ok(r)
    requires 0 <= j < |es| && Outs(es, f)[j].group != Null && OffsetKey(Outs(es, f)[j].group) == Some(gk)
    ensures Find(r, gk).Some? && Find(r, gk).value.Arr?
  {
    var outs := Outs(es, f);
    PassFromAt([], outs, j);
    var mid := PassFrom([], outs[..j]).value;
    StepMakesGroup(mid, outs[j], gk);
    PassFromKeepsGroup(PassStep(mid, outs[j]).value, outs[j + 1..], gk);
  }

  /** A group slot holding `false` becomes an array: `false` returned without
      a group, then 7 in group 0 under `'n'`, gives `[0 => ['n' => 7]]`. */
  lemma FalseSlotBecomesGroup()
    ensures PassFrom([], [PassOut(Bool(false), Null, Null), PassOut(Int(7), Int(0), Str("n"))])
         == Ok([Entry(IntKey(0), Arr([Entry(StrKey("n"), Int(7))]))])
  {
    assert !IsDigit('n') && "n"[0] == 'n';
    assert OffsetKey(Str("n")) == Some(StrKey("n"));
    var outs := [PassOut(Bool(false), Null, Null), PassOut(Int(7), Int(0), Str("n"))];
    var first := [Entry(IntKey(0), Bool(false))];
    assert NextIndex([]) == 0;
    assert Append([], Bool(false)) == [] + first == first;
    assert PassStep([], outs[0]) == Ok(first);
    assert Find(first, IntKey(0)) == Some(Bool(false));
    assert GroupSlot(first, IntKey(0)) == Arr([]);
    var grouped := Arr([Entry(StrKey("n"), Int(7))]);
    assert Put([], StrKey("n"), Int(7)) == grouped.entries;
    assert first[1..] == [];
    assert Put(first, IntKey(0), grouped) == [Entry(IntKey(0), grouped)];
    assert PassStep(first, outs[1]) == Ok([Entry(IntKey(0), grouped)]);
    assert outs[1..][1..] == [];
  }
}
