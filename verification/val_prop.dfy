/**
 * `Val::prop` and `Val::props` on arrays, null and scalars.
 *
 * `prop` explodes a property chain on dots and walks the segments: inside an
 * array it steps to the value under the segment (used as an array key) while
 * that is set, and gives null as soon as it is not; on null it gives null; on
 * a scalar with segments left it throws. The chain itself must be a non-empty
 * string, and "0" counts as empty.
 */
module ValProp {
  import opened PhpStrings
  import opened PhpValues

  /** The array keys the segments of a chain name. */
  function Keys(segs: seq<string>): (ks: seq<Key>)
    ensures |ks| == |segs| && forall i :: 0 <= i < |segs| ==> ks[i] == ToKey(segs[i])
  {
    seq(|segs|, i requires 0 <= i < |segs| => ToKey(segs[i]))
  }

  /** The loop of `prop` over the keys `ks`, from the value `v`. */
  function PropWalk(v: Value, ks: seq<Key>): Result<Value>
    decreases |ks|
  {
    if ks == [] then Ok(v)
    else
      match v
      case Arr(es) => if IsSet(es, ks[0]) then PropWalk(Lookup(es, ks[0]), ks[1..]) else Ok(Null)
      case Null => Ok(Null)
      case _ => Err(InvalidChainType)
  }

  /** What `prop($value, $chain)` returns or throws. */
  function PropResult(v: Value, chain: Value): (r: Result<Value>)
    ensures r.Ok? ==> chain.Str? && Truthy(chain)
  {
    if !Truthy(chain) then Err(EmptyChain)
    else if !chain.Str? then Err(ChainNotString)
    else PropWalk(v, Keys(Split(chain.s, ".")))
  }

  /** `prop`, rebinding the current value segment by segment. */
  method Prop(v: Value, chain: Value) returns (r: Result<Value>)
    ensures r == PropResult(v, chain)
  {
    if !Truthy(chain) {
      return Err(EmptyChain);
    }
    if !chain.Str? {
      return Err(ChainNotString);
    }
    var segs := Split(chain.s, ".");
    ghost var ks := Keys(segs);
    var cur := v;
    var i := 0;
    while i < |segs|
      invariant 0 <= i <= |segs|
      invariant PropWalk(cur, ks[i..]) == PropResult(v, chain)
    {
      assert ks[i..][0] == ToKey(segs[i]) && ks[i..][1..] == ks[i + 1..];
      match cur {
        case Arr(es) =>
          var k := ToKey(segs[i]);
          if !IsSet(es, k) {
            return Ok(Null);
          }
          cur := Lookup(es, k);
        case Null =>
          return Ok(Null);
        case _ =>
          return Err(InvalidChainType);
      }
      i := i + 1;
    }
    assert ks[i..] == [];
    r := Ok(cur);
  }

  /** The chain "0" is refused as empty, although "0" is a usable segment. */
  lemma ZeroChainIsEmpty(v: Value)
    ensures PropResult(v, Str("0")) == Err(EmptyChain)
    ensures PropResult(Arr([Entry(IntKey(0), Arr([Entry(StrKey("x"), Int(7))]))]), Str("0.x")) == Ok(Int(7))
  {
    ZeroXKeys();
  }

  lemma ZeroXKeys()
    ensures Keys(Split("0.x", ".")) == [IntKey(0), StrKey("x")]
  {
    var c := "0.x";
    assert c == "0" + ['.'] + "x";
    SplitConcat("0", "x", '.');
    SplitSingle('0');
    SplitSingle('x');
    assert Split(c, ".") == ["0", "x"];
    CanonicalZero();
    assert !IsCanonicalInt("x");
  }

  lemma SplitSingle(c: char)
    requires c != '.'
    ensures Split([c], ".") == [[c]]
  {
    assert [c][..1] != "." && [c][1..] == "";
    assert Split("", ".") == [""];
    assert [c] + "" == [c];
  }

  lemma CanonicalZero()
    ensures ToKey("0") == IntKey(0)
  {
    assert IsCanonicalInt("0");
    assert DigitsValue("0") == 0;
  }

  /** A non-null result is exactly what the segments reach by exact key
      descent: `prop` returns a value other than null precisely when the keys
      lead to it. */
  lemma {:induction false} PropWalkReaches(v: Value, ks: seq<Key>, w: Value)
    requires w != Null
    ensures PropWalk(v, ks) == Ok(w) <==> KeyReach(v, ks) == Some(w)
    decreases |ks|
  {
    if ks != [] && v.Arr? && HasKey(v.entries, ks[0]) {
      var x := Lookup(v.entries, ks[0]);
      PropWalkReaches(x, ks[1..], w);
    }
  }

  /** Where the walk reaches with the first `j` keys, when it reaches a scalar. */
  predicate ScalarAt(v: Value, ks: seq<Key>, j: int)
    requires 0 <= j <= |ks|
  {
    var x := KeyReach(v, ks[..j]);
    x.Some? && IsScalar(x.value)
  }

  /** `prop` throws exactly when a proper prefix of the segments reaches a
      scalar, and what it throws is the invalid-type error. */
  lemma {:induction false} PropWalkFails(v: Value, ks: seq<Key>)
    ensures PropWalk(v, ks).Err? <==> exists j :: 0 <= j < |ks| && ScalarAt(v, ks, j)
    ensures PropWalk(v, ks).Err? ==> PropWalk(v, ks).error == InvalidChainType
    decreases |ks|
  {
    if ks != [] {
      assert ks[..0] == [];
      if IsScalar(v) {
        assert ScalarAt(v, ks, 0);
      } else {
        var tail := ks[1..];
        forall j | 1 <= j <= |ks| ensures KeyReach(v, ks[..j]) == ReachAfterFirst(v, ks, j) {
          ReachStep(v, ks, j);
        }
        if v.Arr? && IsSet(v.entries, ks[0]) {
          var x := Lookup(v.entries, ks[0]);
          PropWalkFails(x, tail);
          forall j | 0 <= j < |tail| ensures ScalarAt(x, tail, j) <==> ScalarAt(v, ks, j + 1) {
            assert tail[..j] == ks[..j + 1][1..];
          }
          if exists j :: 0 <= j < |ks| && ScalarAt(v, ks, j) {
            var j :| 0 <= j < |ks| && ScalarAt(v, ks, j);
            assert ScalarAt(x, tail, j - 1);
          }
        } else {
          forall j | 0 <= j < |ks| ensures !ScalarAt(v, ks, j) {
            if j > 0 {
              NoScalarPast(v, ks, j);
            }
          }
        }
      }
    }
  }

  /** What the keys after the first reach, once the first has been followed. */
  function ReachAfterFirst(v: Value, ks: seq<Key>, j: int): Option<Value>
    requires 1 <= j <= |ks|
  {
    if v.Arr? && HasKey(v.entries, ks[0]) then KeyReach(Lookup(v.entries, ks[0]), ks[1..j]) else None
  }

  lemma ReachStep(v: Value, ks: seq<Key>, j: int)
    requires 1 <= j <= |ks|
    ensures KeyReach(v, ks[..j]) == ReachAfterFirst(v, ks, j)
  {
    assert ks[..j][0] == ks[0] && ks[..j][1..] == ks[1..j];
  }

  /** When the first key is unset in an array, or the value is null, nothing
      past it is a scalar. */
  lemma NoScalarPast(v: Value, ks: seq<Key>, j: int)
    requires 1 <= j < |ks|
    requires !IsScalar(v) && !(v.Arr? && IsSet(v.entries, ks[0]))
    ensures !ScalarAt(v, ks, j)
  {
    ReachStep(v, ks, j);
    if v.Arr? && HasKey(v.entries, ks[0]) {
      assert Lookup(v.entries, ks[0]) == Null;
      if j > 1 {
        assert ks[1..j] != [];
      }
    }
  }

  /** Walking two lists of keys one after the other is walking their
      concatenation: a walk that stops early with null stays null. */
  lemma {:induction false} PropWalkConcat(v: Value, xs: seq<Key>, ys: seq<Key>)
    ensures PropWalk(v, xs + ys) == match PropWalk(v, xs) case Err(e) => Err(e) case Ok(w) => PropWalk(w, ys)
    decreases |xs|
  {
    if xs == [] {
      assert xs + ys == ys;
    } else {
      assert (xs + ys)[0] == xs[0] && (xs + ys)[1..] == xs[1..] + ys;
      if v.Arr? && IsSet(v.entries, xs[0]) {
        PropWalkConcat(Lookup(v.entries, xs[0]), xs[1..], ys);
      } else if v == Null || v.Arr? {
        NullWalk(ys);
      }
    }
  }

  lemma NullWalk(ks: seq<Key>)
    ensures PropWalk(Null, ks) == Ok(Null)
  {
  }

  /** A chain `a.b` reads `b` from what `a` reads, for non-empty chains. */
  lemma PropChains(v: Value, a: string, b: string)
    requires Truthy(Str(a)) && Truthy(Str(b))
    ensures PropResult(v, Str(a + "." + b)) ==
      match PropResult(v, Str(a)) case Err(e) => Err(e) case Ok(w) => PropResult(w, Str(b))
  {
    var c := a + "." + b;
    assert c == a + ['.'] + b;
    assert |c| >= 2;
    SplitConcat(a, b, '.');
    var sa, sb := Split(a, "."), Split(b, ".");
    assert Keys(sa + sb) == Keys(sa) + Keys(sb);
    PropWalkConcat(v, Keys(sa), Keys(sb));
  }

  /** The loop of `props` from the accumulated array `acc` on. */
  function PropsFrom(v: Value, acc: seq<Entry>, chains: seq<Value>): Result<seq<Entry>>
    decreases |chains|
  {
    if chains == [] then Ok(acc)
    else
      match PropResult(v, chains[0])
      case Err(e) => Err(e)
      case Ok(w) => PropsFrom(v, Put(acc, ToKey(chains[0].s), w), chains[1..])
  }

  /** What `props($value, $chains)` returns, `chains` being the values of the array. */
  function PropsResult(v: Value, chains: seq<Value>): Result<seq<Entry>> {
    PropsFrom(v, [], chains)
  }

  /** `props`, filling its result array chain by chain. */
  method Props(v: Value, chains: seq<Value>) returns (r: Result<seq<Entry>>)
    ensures r == PropsResult(v, chains)
  {
    var acc: seq<Entry> := [];
    var i := 0;
    while i < |chains|
      invariant 0 <= i <= |chains|
      invariant PropsFrom(v, acc, chains[i..]) == PropsResult(v, chains)
    {
      assert chains[i..][0] == chains[i] && chains[i..][1..] == chains[i + 1..];
      var p := Prop(v, chains[i]);
      if p.Err? {
        return Err(p.error);
      }
      acc := Put(acc, ToKey(chains[i].s), p.value);
      i := i + 1;
    }
    assert chains[i..] == [];
    r := Ok(acc);
  }

  /** `props` fails exactly when some chain fails, and with the error of the
      first chain that fails. */
  lemma {:induction false} PropsFails(v: Value, acc: seq<Entry>, chains: seq<Value>)
    ensures PropsFrom(v, acc, chains).Ok? <==> forall j :: 0 <= j < |chains| ==> PropResult(v, chains[j]).Ok?
    ensures PropsFrom(v, acc, chains).Err? ==>
      exists j :: 0 <= j < |chains| && PropResult(v, chains[j]) == Err(PropsFrom(v, acc, chains).error)
        && forall i :: 0 <= i < j ==> PropResult(v, chains[i]).Ok?
    decreases |chains|
  {
    if chains != [] {
      var tail := chains[1..];
      assert forall j :: 0 <= j < |tail| ==> tail[j] == chains[j + 1];
      var p := PropResult(v, chains[0]);
      if p.Ok? {
        PropsFails(v, Put(acc, ToKey(chains[0].s), p.value), tail);
        if PropsFrom(v, acc, chains).Err? {
          var j :| 0 <= j < |tail| && PropResult(v, tail[j]) == Err(PropsFrom(v, acc, chains).error)
            && forall i :: 0 <= i < j ==> PropResult(v, tail[i]).Ok?;
          assert forall i :: 1 <= i < j + 1 ==> chains[i] == tail[i - 1];
        }
      }
    }
  }

  /** Whether some chain of the list names the key `k`. */
  predicate Named(chains: seq<Value>, k: Key) {
    exists j :: 0 <= j < |chains| && chains[j].Str? && ToKey(chains[j].s) == k
  }

  /** Each chain finds its own `prop` under its key in the result, and a key
      no chain names keeps what it held before the loop. */
  lemma {:induction false} PropsFinds(v: Value, acc: seq<Entry>, chains: seq<Value>)
    requires PropsFrom(v, acc, chains).Ok?
    ensures var r := PropsFrom(v, acc, chains).value;
      && (forall j :: 0 <= j < |chains| ==>
            PropResult(v, chains[j]).Ok? && chains[j].Str? && Find(r, ToKey(chains[j].s)) == Some(PropResult(v, chains[j]).value))
      && (forall k :: !Named(chains, k) ==> Find(r, k) == Find(acc, k))
    decreases |chains|
  {
    PropsFails(v, acc, chains);
    if chains != [] {
      var tail := chains[1..];
      assert forall j :: 0 <= j < |tail| ==> tail[j] == chains[j + 1];
      var c := chains[0];
      var w := PropResult(v, c).value;
      var next := Put(acc, ToKey(c.s), w);
      PropsFinds(v, next, tail);
      var r := PropsFrom(v, acc, chains).value;
      assert r == PropsFrom(v, next, tail).value;
      if Named(tail, ToKey(c.s)) {
        var j :| 0 <= j < |tail| && tail[j].Str? && ToKey(tail[j].s) == ToKey(c.s);
        ToKeyInjective(tail[j].s, c.s);
        assert tail[j] == c;
      }
      forall k | !Named(chains, k) ensures Find(r, k) == Find(acc, k) {
        assert !Named(tail, k);
        assert k != ToKey(c.s);
      }
    }
  }

  /** Every chain of the list reads successfully. */
  predicate AllRead(v: Value, chains: seq<Value>) {
    forall j :: 0 <= j < |chains| ==> PropResult(v, chains[j]).Ok?
  }

  /** One entry per chain: its key, and what `prop` reads for it. */
  function ChainEntries(v: Value, chains: seq<Value>): seq<Entry>
    requires AllRead(v, chains)
  {
    seq(|chains|, j requires 0 <= j < |chains| => Entry(ToKey(chains[j].s), PropResult(v, chains[j]).value))
  }

  lemma ChainEntriesCons(v: Value, chains: seq<Value>)
    requires chains != [] && AllRead(v, chains)
    ensures AllRead(v, chains[1..])
    ensures ChainEntries(v, chains) ==
      [Entry(ToKey(chains[0].s), PropResult(v, chains[0]).value)] + ChainEntries(v, chains[1..])
  {
    var tail := chains[1..];
    assert forall j :: 0 <= j < |tail| ==> tail[j] == chains[j + 1];
  }

  /** A key new to the accumulated array and not named by the later chains
      keeps the later keys fresh once it is added. */
  lemma FreshAfterPut(acc: seq<Entry>, chains: seq<Value>, w: Value)
    requires chains != [] && chains[0].Str?
    requires forall i, j :: 0 <= i < j < |chains| ==> chains[i] != chains[j]
    requires forall i :: 0 <= i < |acc| ==> !Named(chains, acc[i].key)
    ensures !HasKey(acc, ToKey(chains[0].s))
    ensures var next := acc + [Entry(ToKey(chains[0].s), w)];
      forall i :: 0 <= i < |next| ==> !Named(chains[1..], next[i].key)
    ensures forall i, j :: 0 <= i < j < |chains[1..]| ==> chains[1..][i] != chains[1..][j]
  {
    var tail, k := chains[1..], ToKey(chains[0].s);
    var next := acc + [Entry(k, w)];
    assert forall j :: 0 <= j < |tail| ==> tail[j] == chains[j + 1];
    assert Named(chains, k);
    if Named(tail, k) {
      var j :| 0 <= j < |tail| && tail[j].Str? && ToKey(tail[j].s) == k;
      ToKeyInjective(tail[j].s, chains[0].s);
    }
    assert forall i :: 0 <= i < |acc| ==> next[i] == acc[i];
  }

  /** With distinct chains, `props` appends one entry per chain, in order. */
  lemma {:induction false} PropsOfDistinct(v: Value, acc: seq<Entry>, chains: seq<Value>)
    requires AllRead(v, chains)
    requires forall i, j :: 0 <= i < j < |chains| ==> chains[i] != chains[j]
    requires forall i :: 0 <= i < |acc| ==> !Named(chains, acc[i].key)
    ensures PropsFrom(v, acc, chains) == Ok(acc + ChainEntries(v, chains))
    decreases |chains|
  {
    if chains == [] {
      assert ChainEntries(v, chains) == [];
      assert acc + [] == acc;
    } else {
      var tail := chains[1..];
      var e := Entry(ToKey(chains[0].s), PropResult(v, chains[0]).value);
      ChainEntriesCons(v, chains);
      FreshAfterPut(acc, chains, e.val);
      PutAbsent(acc, e.key, e.val);
      var next := acc + [e];
      PropsOfDistinct(v, next, tail);
      Regroup(acc, e, ChainEntries(v, tail));
    }
  }

  /** `props` over distinct chains: one entry per chain, in order, each
      holding what `prop` reads for that chain. */
  lemma PropsMapsChains(v: Value, chains: seq<Value>)
    requires PropsResult(v, chains).Ok?
    requires forall i, j :: 0 <= i < j < |chains| ==> chains[i] != chains[j]
    ensures var r := PropsResult(v, chains).value;
      |r| == |chains| && forall j :: 0 <= j < |chains| ==>
        PropResult(v, chains[j]).Ok? && chains[j].Str? && r[j] == Entry(ToKey(chains[j].s), PropResult(v, chains[j]).value)
  {
    PropsFails(v, [], chains);
    PropsOfDistinct(v, [], chains);
    assert [] + ChainEntries(v, chains) == ChainEntries(v, chains);
  }
}
