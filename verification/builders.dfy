/** The top-level builders: `jsObjectOf`, `jsArrayOf`, `JSArray(size, init)`,
    `Map.toJSObject` and `Collection/Array.toJSArray`, in both lineages.
    A vararg of pairs is the sequence of its members in argument order, a
    vararg of items or a host collection the sequence of its elements. */
module Builders {
  import opened Base
  import opened Values
  import opened Conversion
  import opened Objects
  import opened Accessors
  import Arrays
  import Numbers
  import Rendering

  // ---------------------------------------------------------------------
  // jsObjectOf

  /** `jsObjectOf(vararg pairs)`: `associateByTo` puts every pair in order
      into a new JSObject, the value converted first (and `put` converting
      it again, which changes nothing). */
  function ObjectOf(h: Host, pairs: seq<Member>): (r: Result<seq<Member>>)
    ensures r.Ok? <==> forall i | 0 <= i < |pairs| :: ConvertValue(h, pairs[i].val).Ok?
    ensures r.Ok? ==> DistinctKeys(r.value)
  {
    PutAllValues(h, [], pairs)
  }

  /** A key of the built object is a key of some pair, and its value the
      converted value of the LAST pair with that key. */
  lemma ObjectOfLastWins(h: Host, pairs: seq<Member>, k: Text)
    requires ObjectOf(h, pairs).Ok?
    ensures Lookup(ObjectOf(h, pairs).value, k).Some? <==> exists i | 0 <= i < |pairs| :: pairs[i].key == k
    ensures LastFor(pairs, k).Some? ==>
      ConvertValue(h, LastFor(pairs, k).value) == Ok(Lookup(ObjectOf(h, pairs).value, k).value)
  {
    PutAllValuesLastWins(h, [], pairs, k);
    if LastFor(pairs, k).Some? {
      var i :| 0 <= i < |pairs| && pairs[i] == Member(k, LastFor(pairs, k).value);
      assert pairs[i].key == k;
    }
  }

  // ---------------------------------------------------------------------
  // jsArrayOf, JSArray(vararg), Collection.toJSArray

  /** `jsArrayOf(vararg items)`: the converted items, in order, in a new
      JSArray. `JSArray(vararg items)` builds exactly this; so does the
      newer `Array.toJSArray()`, and the newer `Collection.toJSArray()`
      builds the same elements (`ToArrayPathsAgree`). */
  function ArrayOf(h: Host, items: seq<Value>): (r: Result<seq<Value>>)
    ensures r.Ok? <==> forall i | 0 <= i < |items| :: ConvertValue(h, items[i]).Ok?
    ensures r.Ok? ==> |r.value| == |items|
    ensures r.Ok? ==> forall i | 0 <= i < |items| :: ConvertValue(h, items[i]) == Ok(r.value[i])
  {
    ConvertAll(h, items)
  }

  /** A built array is already converted: converting its elements again
      gives the same elements. */
  lemma ArrayOfConverted(h: Host, items: seq<Value>)
    requires ArrayOf(h, items).Ok?
    ensures ConvertAll(h, ArrayOf(h, items).value) == Ok(ArrayOf(h, items).value)
  {
    var es := ArrayOf(h, items).value;
    forall i | 0 <= i < |es|
      ensures ConvertValue(h, es[i]) == Ok(es[i])
    {
      ConvertIdempotent(h, items[i]);
    }
    var again := ConvertAll(h, es);
    assert again.Ok?;
    assert forall i | 0 <= i < |es| :: again.value[i] == es[i];
    assert again.value == es;
  }

  /** The newer `Collection.toJSArray()` (and so `List.toJSArray()`):
      `mapTo(JSArrayImpl()) { it }` adds every element in turn with the
      converting `add`, stopping at the first that cannot be converted. */
  function AddEach(h: Host, acc: seq<Value>, items: seq<Value>): (r: Result<seq<Value>>)
    decreases |items|
  {
    if |items| == 0 then Ok(acc)
    else
      var acc' :- Arrays.Add(h, acc, items[0]);
      AddEach(h, acc', items[1..])
  }

  /** The result of appending a conversion's outcome to `acc`. */
  function AppendTo(acc: seq<Value>, c: Result<seq<Value>>): Result<seq<Value>>
  {
    if c.Ok? then Ok(acc + c.value) else Fail(c.error)
  }

  /** Adding one by one is converting all and appending, with the same
      failure: the first element that cannot be converted. */
  lemma {:induction false} AddEachConverts(h: Host, acc: seq<Value>, items: seq<Value>)
    ensures AddEach(h, acc, items) == AppendTo(acc, ConvertAll(h, items))
    decreases |items|
  {
    if |items| > 0 {
      var c := ConvertValue(h, items[0]);
      AddEachStep(h, acc, items);
      ConvertAllStep(h, items);
      if c.Ok? {
        AddEachConverts(h, acc + [c.value], items[1..]);
        AppendRegroup(acc, c.value, ConvertAll(h, items[1..]));
      }
    } else {
      assert acc + [] == acc;
    }
  }

  lemma AddEachStep(h: Host, acc: seq<Value>, items: seq<Value>)
    requires |items| > 0
    ensures var c := ConvertValue(h, items[0]);
      AddEach(h, acc, items) == if c.Ok? then AddEach(h, acc + [c.value], items[1..]) else Fail(c.error)
  {
  }

  lemma ConvertAllStep(h: Host, items: seq<Value>)
    requires |items| > 0
    ensures var c := ConvertValue(h, items[0]);
      ConvertAll(h, items) == if c.Ok? then AppendTo([c.value], ConvertAll(h, items[1..])) else Fail(c.error)
  {
  }

  lemma AppendRegroup(acc: seq<Value>, v: Value, rest: Result<seq<Value>>)
    ensures AppendTo(acc + [v], rest) == AppendTo(acc, AppendTo([v], rest))
  {
    if rest.Ok? {
      assert acc + [v] + rest.value == acc + ([v] + rest.value);
    }
  }

  /** Every way of building an array from a collection or an array gives
      the same elements and the same failure: `jsArrayOf`, the newer
      Collection's `mapTo` with `add`, and the newer Array's constructor
      `JSArrayImpl(array)` with `addAll`. */
  lemma ToArrayPathsAgree(h: Host, items: seq<Value>)
    ensures AddEach(h, [], items) == ArrayOf(h, items)
    ensures Arrays.AddAll(h, [], items) == ArrayOf(h, items)
  {
    AddEachConverts(h, [], items);
    var r := ConvertAll(h, items);
    if r.Ok? {
      assert [] + r.value == r.value;
    }
    assert AppendTo([], r) == r;
  }

  // ---------------------------------------------------------------------
  // JSArray(size, init)

  /** The items `init` gives for `0 until size`: none when size <= 0. */
  function Generated(size: int, init: int -> Value): (items: seq<Value>)
    ensures |items| == if size < 0 then 0 else size
    ensures forall i | 0 <= i < |items| :: items[i] == init(i)
  {
    seq(if size < 0 then 0 else size, i => init(i))
  }

  /** `JSArray(size, init)`: starts from an empty array and sets
      `array[i] = init(i)` for `i` in `0 until size`; at `i == size` the
      `set` appends the converted element. The first element that cannot
      be converted aborts the build with its failure. */
  method BuildArray(h: Host, size: int, init: int -> Value) returns (r: Result<seq<Value>>)
    ensures r.Ok? <==> forall i | 0 <= i < size :: ConvertValue(h, init(i)).Ok?
    ensures r.Ok? ==> |r.value| == (if size < 0 then 0 else size)
    ensures r.Ok? ==> forall i | 0 <= i < |r.value| :: ConvertValue(h, init(i)) == Ok(r.value[i])
    ensures r.Fail? ==> exists i | 0 <= i < size ::
      ConvertValue(h, init(i)) == Fail(r.error) && forall j | 0 <= j < i :: ConvertValue(h, init(j)).Ok?
    ensures r.Ok? ==> r == ArrayOf(h, Generated(size, init))
  {
    var es: seq<Value> := [];
    var i := 0;
    while i < size
      invariant 0 <= i && (size < 0 ==> i == 0) && (size >= 0 ==> i <= size)
      invariant |es| == i
      invariant forall j | 0 <= j < i :: ConvertValue(h, init(j)) == Ok(es[j])
    {
      var s := Arrays.Set(h, es, i, init(i));
      if s.Fail? {
        assert ConvertValue(h, init(i)) == Fail(s.error);
        return Fail(s.error);
      }
      es := s.value.0;
      i := i + 1;
    }
    r := Ok(es);
    var items := Generated(size, init);
    var built := ArrayOf(h, items);
    assert built.Ok?;
    assert es == built.value;
  }

  // ---------------------------------------------------------------------
  // The older lineage

  /** The older `jsObjectOf(vararg pairs)`: the same `associateByTo`, with
      the older `convertValue` and the older JSObjectImpl's `put`, which is
      the plain `put` of the map it delegates to. */
  function LegacyObjectOf(h: Host, pairs: seq<Member>): (r: Result<seq<Member>>)
    ensures r.Ok? <==> forall i | 0 <= i < |pairs| :: LegacyConvertValue(h, pairs[i].val).Ok?
    ensures r.Ok? ==> DistinctKeys(r.value)
  {
    LegacyPutEach(h, [], pairs)
  }

  /** Every pair in order: its value converted the older way, then put
      under its key as it is. */
  function LegacyPutEach(h: Host, ms: seq<Member>, from: seq<Member>): (r: Result<seq<Member>>)
    ensures r.Ok? <==> forall i | 0 <= i < |from| :: LegacyConvertValue(h, from[i].val).Ok?
    ensures r.Ok? && DistinctKeys(ms) ==> DistinctKeys(r.value)
    decreases |from|
  {
    if |from| == 0 then Ok(ms)
    else
      var ms' :- LegacyPutValue(h, ms, from[0].key, from[0].val);
      var r := LegacyPutEach(h, ms', from[1..]);
      assert forall i | 1 <= i < |from| :: from[i] == from[1..][i - 1];
      r
  }

  /** One pair of the older build: the value converted the older way, then
      put as it is. */
  function LegacyPutValue(h: Host, ms: seq<Member>, k: Text, v: Value): (r: Result<seq<Member>>)
    ensures r.Ok? <==> LegacyConvertValue(h, v).Ok?
    ensures r.Ok? ==> r.value == Put(ms, k, LegacyConvertValue(h, v).value)
    ensures r.Ok? && DistinctKeys(ms) ==> DistinctKeys(r.value)
  {
    var cv :- LegacyConvertValue(h, v);
    PutDistinctIf(ms, k, cv);
    Ok(Put(ms, k, cv))
  }

  /** After the older build, a key holds the older conversion of its LAST
      pair's value, and keys no pair mentions keep their value. */
  lemma {:induction false} LegacyPutEachLastWins(h: Host, ms: seq<Member>, from: seq<Member>, k: Text)
    requires LegacyPutEach(h, ms, from).Ok?
    ensures LastFor(from, k).Some? ==>
      Lookup(LegacyPutEach(h, ms, from).value, k).Some? &&
      LegacyConvertValue(h, LastFor(from, k).value) == Ok(Lookup(LegacyPutEach(h, ms, from).value, k).value)
    ensures LastFor(from, k).None? ==> Lookup(LegacyPutEach(h, ms, from).value, k) == Lookup(ms, k)
    decreases |from|
  {
    if |from| > 0 {
      var ms' := Put(ms, from[0].key, LegacyConvertValue(h, from[0].val).value);
      assert LegacyPutEach(h, ms, from) == LegacyPutEach(h, ms', from[1..]);
      LegacyPutEachLastWins(h, ms', from[1..], k);
      LastForSplit(from, k);
    }
  }

  /** A key of the older built object is a key of some pair, and its value
      the older conversion of the LAST pair with that key. */
  lemma LegacyObjectOfLastWins(h: Host, pairs: seq<Member>, k: Text)
    requires LegacyObjectOf(h, pairs).Ok?
    ensures Lookup(LegacyObjectOf(h, pairs).value, k).Some? <==> exists i | 0 <= i < |pairs| :: pairs[i].key == k
    ensures LastFor(pairs, k).Some? ==>
      LegacyConvertValue(h, LastFor(pairs, k).value) == Ok(Lookup(LegacyObjectOf(h, pairs).value, k).value)
  {
    LegacyPutEachLastWins(h, [], pairs, k);
    if LastFor(pairs, k).Some? {
      var i :| 0 <= i < |pairs| && pairs[i] == Member(k, LastFor(pairs, k).value);
      assert pairs[i].key == k;
    }
  }

  /** The older `jsArrayOf(vararg items)`, and so the older `JSArray(vararg
      items)`, `Collection/List.toJSArray()` (`mapTo` with the older
      `convertValue` into a list the array then copies) and
      `Array.toJSArray()`: the items converted the older way, in order. */
  function LegacyArrayOf(h: Host, items: seq<Value>): (r: Result<seq<Value>>)
    ensures r.Ok? <==> forall i | 0 <= i < |items| :: LegacyConvertValue(h, items[i]).Ok?
    ensures r.Ok? ==> |r.value| == |items|
    ensures r.Ok? ==> forall i | 0 <= i < |items| :: LegacyConvertValue(h, items[i]) == Ok(r.value[i])
  {
    LegacyConvertAll(h, items)
  }

  /** Building from one item converts that item, either way. */
  lemma SingleItem(h: Host, v: Value)
    ensures var c := ConvertValue(h, v);
      ArrayOf(h, [v]) == if c.Ok? then Ok([c.value]) else Fail(c.error)
    ensures var c := LegacyConvertValue(h, v);
      LegacyArrayOf(h, [v]) == if c.Ok? then Ok([c.value]) else Fail(c.error)
  {
    assert [v][1..] == [];
    ConvertAllStep(h, [v]);
    LegacyConvertAllStep(h, [v]);
    var c, lc := ConvertValue(h, v), LegacyConvertValue(h, v);
    if c.Ok? {
      assert [c.value] + [] == [c.value];
    }
    if lc.Ok? {
      assert [lc.value] + [] == [lc.value];
    }
  }

  lemma LegacyConvertAllStep(h: Host, items: seq<Value>)
    requires |items| > 0
    ensures var c := LegacyConvertValue(h, items[0]);
      LegacyConvertAll(h, items) == if c.Ok? then AppendTo([c.value], LegacyConvertAll(h, items[1..])) else Fail(c.error)
  {
  }

  /** Items that are JSON values already are kept as they are by the older
      builder. */
  lemma LegacyArrayOfPassesThrough(h: Host, items: seq<Value>)
    requires forall i | 0 <= i < |items| :: PassesThrough(items[i])
    ensures LegacyArrayOf(h, items) == Ok(items)
  {
    forall i | 0 <= i < |items|
      ensures LegacyConvertValue(h, items[i]) == Ok(items[i])
    {
    }
    var r := LegacyArrayOf(h, items);
    assert r.Ok?;
    assert forall i | 0 <= i < |items| :: r.value[i] == items[i];
    assert r.value == items;
  }

  /** `jsArrayOf(mapOf(1 to 2))`: the newer builder gives `[{"1":2}]`, the
      older one `[{"1=2":2}]`. */
  lemma ArrayOfMapKeys(h: Host)
    ensures ArrayOf(h, [HostMap([Entry(Int(1), Int(2))])]) == Ok([Obj([Member(Lit("1"), Int(2))])])
    ensures LegacyArrayOf(h, [HostMap([Entry(Int(1), Int(2))])]) == Ok([Obj([Member(Lit("1=2"), Int(2))])])
  {
    MapKeyDivergence(h);
    SingleItem(h, HostMap([Entry(Int(1), Int(2))]));
  }

  /** The newer conversion rejects a map holding an object of a class JSON
      does not know. */
  lemma UnsupportedInMapRejected(h: Host, tag: nat)
    ensures ConvertValue(h, HostMap([Entry(Int(1), Unsupported(tag))])) == Fail(IllegalArgument)
  {
    var e := Entry(Int(1), Unsupported(tag));
    assert Conversion.KeyText(h, e.key).Ok?;
    assert ConvertEntries(h, [e]) == Fail(IllegalArgument);
  }

  /** The older conversion keys that map's entry by its text and keeps the
      object itself. */
  lemma UnsupportedInMapKept(h: Host, tag: nat)
    ensures LegacyConvertValue(h, HostMap([Entry(Int(1), Unsupported(tag))])) ==
      Ok(Obj([Member(Lit("1=") + h.hostText(Unsupported(tag)), Unsupported(tag))]))
  {
    var e := Entry(Int(1), Unsupported(tag));
    assert Numbers.Decimal(1) == Lit("1");
    assert Rendering.EntryText(h, e) == Ok(Lit("1") + [EQ] + h.hostText(Unsupported(tag)));
    assert Lit("1") + [EQ] == Lit("1=");
    EntryKeyedSingle(h, e);
    var key := Lit("1=") + h.hostText(Unsupported(tag));
    assert PutAll([], [Member(key, Unsupported(tag))]) == [Member(key, Unsupported(tag))];
  }

  /** A map value holding an object of a class JSON does not know: the newer
      `jsObjectOf` fails with IllegalArgument, while the older one keys the
      map's entry by its text and keeps the object itself. */
  lemma ObjectOfUnsupportedInMap(h: Host, k: Text, tag: nat)
    ensures ObjectOf(h, [Member(k, HostMap([Entry(Int(1), Unsupported(tag))]))]) == Fail(IllegalArgument)
    ensures LegacyObjectOf(h, [Member(k, HostMap([Entry(Int(1), Unsupported(tag))]))]) ==
      Ok([Member(k, Obj([Member(Lit("1=") + h.hostText(Unsupported(tag)), Unsupported(tag))]))])
  {
    var m := HostMap([Entry(Int(1), Unsupported(tag))]);
    UnsupportedInMapRejected(h, tag);
    UnsupportedInMapKept(h, tag);
    var pairs := [Member(k, m)];
    assert pairs[1..] == [];
    assert PutValue(h, [], k, m) == Fail(IllegalArgument);
    assert ObjectOf(h, pairs) == PutValue(h, [], k, m);
    var v := LegacyConvertValue(h, m).value;
    assert LegacyPutEach(h, Put([], k, v), pairs[1..]) == Ok(Put([], k, v));
    assert Put([], k, v) == [Member(k, v)];
  }

  /** `for (i in from until size) array[i] = init(i)` with the older `set`. */
  function LegacyFill(es: seq<Value>, from: int, size: int, init: int -> Value): (r: Result<seq<Value>>)
    decreases size - from
  {
    if from >= size then Ok(es)
    else
      var es' :- Arrays.LegacySet(es, from, init(from));
      LegacyFill(es', from + 1, size, init)
  }

  /** The older `JSArray(size, init)` as written: it sets `array[i]` on the
      empty `jsArrayOf()` with the older `set`, which throws at index 0, so
      any size of 1 or more fails with IndexOutOfBounds and only a size of
      0 or less gives an (empty) array. */
  function LegacyBuildArray(size: int, init: int -> Value): (r: Result<seq<Value>>)
    ensures r.Ok? <==> size <= 0
    ensures r.Ok? ==> r.value == []
    ensures r.Fail? ==> r.error == IndexOutOfBounds
  {
    LegacyFill([], 0, size, init)
  }

  /** The older `set` as the newer lineage corrected it: at `index == size`
      it appends, here with the older conversion that `jsArrayOf` applies. */
  function LegacySetIntended(h: Host, es: seq<Value>, i: int, e: Value): (r: Result<seq<Value>>)
    ensures i == |es| ==> r.Ok? == LegacyConvertValue(h, e).Ok?
    ensures i == |es| && r.Ok? ==> r.value == es + [LegacyConvertValue(h, e).value]
    ensures i != |es| ==> r == Arrays.LegacySet(es, i, e)
  {
    if i == |es| then
      var ce :- LegacyConvertValue(h, e);
      Ok(es + [ce])
    else Arrays.LegacySet(es, i, e)
  }

  /** The older `JSArray(size, init)` as evidently intended: the array of
      `init(0)`, ..., `init(size - 1)`, each converted as `jsArrayOf`
      converts its items, the first that cannot be converted aborting the
      build. */
  method LegacyBuildArrayIntended(h: Host, size: int, init: int -> Value) returns (r: Result<seq<Value>>)
    ensures r.Ok? <==> forall i | 0 <= i < size :: LegacyConvertValue(h, init(i)).Ok?
    ensures r.Ok? ==> |r.value| == (if size < 0 then 0 else size)
    ensures r.Ok? ==> forall i | 0 <= i < |r.value| :: LegacyConvertValue(h, init(i)) == Ok(r.value[i])
    ensures r.Fail? ==> exists i | 0 <= i < size ::
      LegacyConvertValue(h, init(i)) == Fail(r.error) && forall j | 0 <= j < i :: LegacyConvertValue(h, init(j)).Ok?
    ensures r.Ok? ==> r == LegacyArrayOf(h, Generated(size, init))
  {
    var es: seq<Value> := [];
    var i := 0;
    while i < size
      invariant 0 <= i && (size < 0 ==> i == 0) && (size >= 0 ==> i <= size)
      invariant |es| == i
      invariant forall j | 0 <= j < i :: LegacyConvertValue(h, init(j)) == Ok(es[j])
    {
      var s := LegacySetIntended(h, es, i, init(i));
      if s.Fail? {
        assert LegacyConvertValue(h, init(i)) == Fail(s.error);
        return Fail(s.error);
      }
      es := s.value;
      i := i + 1;
    }
    r := Ok(es);
    var items := Generated(size, init);
    var built := LegacyArrayOf(h, items);
    assert built.Ok?;
    assert es == built.value;
  }

  /** The items of `JSArray(4) { if (it == 1) "bar" else null }`. */
  function BarAtOne(i: int): (v: Value)
  {
    if i == 1 then Str(Lit("bar")) else Null
  }

  /** `JSArray(4) { if (it == 1) "bar" else null }`: as written the older
      builder throws IndexOutOfBounds; as intended it gives
      `[null, "bar", null, null]`. */
  lemma SizedArrayOfFour(h: Host)
    ensures LegacyBuildArray(4, BarAtOne) == Fail(IndexOutOfBounds)
    ensures LegacyArrayOf(h, Generated(4, BarAtOne)) == Ok([Null, Str(Lit("bar")), Null, Null])
  {
    var items := Generated(4, BarAtOne);
    assert items == [Null, Str(Lit("bar")), Null, Null];
    LegacyArrayOfPassesThrough(h, items);
  }

  // ---------------------------------------------------------------------
  // Map.toJSObject

  /** `containsValue(v)` of a map. */
  predicate ContainsValue(ms: seq<Member>, v: Value)
  {
    exists i | 0 <= i < |ms| :: ms[i].val == v
  }

  /** `Map<String, *>.toJSObject()`: `mapValuesTo(JSObjectImpl())` puts
      every key with the value `containsValue(it.value)`, asked of the map
      about one of its own values. */
  function ToObject(ms: seq<Member>): (r: seq<Member>)
  {
    PutAll([], seq(|ms|, i requires 0 <= i < |ms| => Member(ms[i].key, Bool(ContainsValue(ms, ms[i].val)))))
  }

  /** The built object has exactly the map's keys, and every one of them
      holds `true`: the map's own values are lost. */
  lemma ToObjectAllTrue(ms: seq<Member>, k: Text)
    ensures Lookup(ToObject(ms), k) ==
      (if exists i | 0 <= i < |ms| :: ms[i].key == k then Some(Bool(true)) else None)
  {
    var pairs := seq(|ms|, i requires 0 <= i < |ms| => Member(ms[i].key, Bool(ContainsValue(ms, ms[i].val))));
    forall i | 0 <= i < |ms|
      ensures pairs[i] == Member(ms[i].key, Bool(true))
    {
      assert ms[i].val == ms[i].val;
    }
    PutAllLastWins([], pairs, k);
    if LastFor(pairs, k).Some? {
      var i :| 0 <= i < |pairs| && pairs[i] == Member(k, LastFor(pairs, k).value);
      assert ms[i].key == k;
    } else {
      assert forall i | 0 <= i < |ms| :: ms[i].key == pairs[i].key;
    }
  }

  // ---------------------------------------------------------------------
  // The deprecated JSArray.opt<T>(index)

  /** `JSArray.opt<T>(index)`: `getOrNull(index) as? T` with a reified T,
      null outside the array or when the element is not exactly a T. */
  function ArrayOpt(es: seq<Value>, i: int, kind: Kind): (r: Option<Typed>)
    ensures r.Some? <==> 0 <= i < |es| && Exact(kind, es[i])
    ensures r.Some? ==> AsValue(r.value) == es[i] && KindOf(r.value) == kind
  {
    if 0 <= i < |es| then Typing(es[i], kind) else None
  }

  /** Whatever the deprecated `opt<T>` finds, the member `opt*` accessor of
      the same kind finds too; the member accessors also widen and parse. */
  lemma ArrayOptAgrees(h: Host, es: seq<Value>, i: int, kind: Kind)
    requires ArrayOpt(es, i, kind).Some?
    ensures Arrays.Opt(h, es, i, kind) == Ok(ArrayOpt(es, i, kind))
  {
  }
}
