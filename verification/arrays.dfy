/** JSArray by index: the strict and `opt*` accessors with their bounds
    behaviour, `isNull`, and the converting `add`/`addAll`/`set`. An array
    is the sequence of its elements; an index is a Kotlin `Int`. */
module Arrays {
  import opened Base
  import opened Values
  import opened Conversion
  import opened Accessors
  import opened Failures
  import Objects

  predicate InRange(es: seq<Value>, i: int)
  {
    0 <= i < |es|
  }

  /** `getValueFor(index)`: the element, IndexOutOfBounds outside
      `0 until size` (never a JSException), a JSException on null. */
  function GetValueFor(es: seq<Value>, i: int): (r: Result<Value>)
    ensures !InRange(es, i) ==> r == Fail(IndexOutOfBounds)
    ensures InRange(es, i) ==> r == (if es[i] == Null then Fail(JSE) else Ok(es[i]))
  {
    if i < 0 || i >= |es| then Fail(IndexOutOfBounds)
    else if es[i] == Null then Fail(JSE)
    else Ok(es[i])
  }

  /** `optValueFor(index)`: the element, or null outside the array. */
  function OptValueFor(es: seq<Value>, i: int): (v: Value)
    ensures InRange(es, i) ==> v == es[i]
    ensures !InRange(es, i) ==> v == Null
  {
    if i < 0 || i >= |es| then Null else es[i]
  }

  /** The strict accessors `boolean/string/long/int/double/float/obj/array(index)`.
      As written, `double(index)` calls `convertDouble` but discards its
      result and throws whenever the element is present and not null. */
  function Get(h: Host, es: seq<Value>, i: int, kind: Kind): (r: Result<Typed>)
    ensures !InRange(es, i) ==> r == Fail(IndexOutOfBounds)
    ensures InRange(es, i) ==> r.Fail? ==> r.error == JSE
    ensures InRange(es, i) && es[i] == Null ==> r == Fail(JSE)
    ensures kind == KDouble ==> r.Fail?
    ensures r.Ok? ==> InRange(es, i) && StrictCoerce(h, es[i], kind) == Some(r.value)
    ensures InRange(es, i) && kind != KDouble && StrictCoerce(h, es[i], kind).Some? ==> r.Ok?
  {
    var v :- GetValueFor(es, i);
    if kind == KDouble then Fail(JSE)
    else CheckNotNull(StrictCoerce(h, v, kind))
  }

  /** The strict accessors as evidently intended: `double(index)` returns
      what `convertDouble` gives, like every other accessor returns what its
      coercion gives. */
  function GetIntended(h: Host, es: seq<Value>, i: int, kind: Kind): (r: Result<Typed>)
    ensures !InRange(es, i) ==> r == Fail(IndexOutOfBounds)
    ensures InRange(es, i) ==> (r.Ok? <==> es[i] != Null && StrictCoerce(h, es[i], kind).Some?)
    ensures r.Ok? ==> StrictCoerce(h, es[i], kind) == Some(r.value)
    ensures InRange(es, i) && r.Fail? ==> r.error == JSE
  {
    var v :- GetValueFor(es, i);
    CheckNotNull(StrictCoerce(h, v, kind))
  }

  /** The intended accessors read an element as the accessors by key read
      the same value stored under a key; as written they differ only on
      `double`. */
  lemma GetIntendedByKey(h: Host, es: seq<Value>, i: int, k: Text, kind: Kind)
    requires InRange(es, i)
    ensures GetIntended(h, es, i, kind) == Objects.Get(h, [Member(k, es[i])], k, kind)
    ensures kind != KDouble ==> Get(h, es, i, kind) == GetIntended(h, es, i, kind)
  {
  }

  /** The soft accessors `optString/optBoolean/.../optArray(index)`: outside
      the array they see null, so `optString` gives "null" and the others
      give null. */
  function Opt(h: Host, es: seq<Value>, i: int, kind: Kind): (r: Result<Option<Typed>>)
    ensures !InRange(es, i) ==>
      r == (if kind == KString then Ok(Some(TText(NULL_WORD))) else Ok(None))
    ensures GetIntended(h, es, i, kind).Ok? ==> r == Ok(Some(GetIntended(h, es, i, kind).value))
    ensures r.Fail? ==> kind == KString && InRange(es, i)
  {
    OptCoerce(h, OptValueFor(es, i), kind)
  }

  /** `isNull(index)`: true outside the array and for a stored null. */
  function IsNull(es: seq<Value>, i: int): (b: bool)
    ensures b <==> !InRange(es, i) || es[i] == Null
  {
    OptValueFor(es, i) == Null
  }

  /** The older `JSArrayImpl.isNull(index)`: `list[index] === null`, which
      throws outside the array. */
  function LegacyIsNull(es: seq<Value>, i: int): (r: Result<bool>)
    ensures r.Fail? <==> !InRange(es, i)
    ensures r.Fail? ==> r.error == IndexOutOfBounds
    ensures r.Ok? ==> r.value == IsNull(es, i)
  {
    if i < 0 || i >= |es| then Fail(IndexOutOfBounds) else Ok(es[i] == Null)
  }

  /** The older JSArray's `set(index, element)`: the `set` of the list it
      delegates to, which replaces an element in place, unconverted, and
      throws IndexOutOfBounds at every other index, the end included. */
  function LegacySet(es: seq<Value>, i: int, e: Value): (r: Result<seq<Value>>)
    ensures r.Ok? <==> InRange(es, i)
    ensures r.Fail? ==> r.error == IndexOutOfBounds
    ensures r.Ok? ==> |r.value| == |es| && r.value[i] == e
    ensures r.Ok? ==> forall j | 0 <= j < |es| && j != i :: r.value[j] == es[j]
  {
    if i < 0 || i >= |es| then Fail(IndexOutOfBounds) else Ok(es[i := e])
  }

  // ---------------------------------------------------------------------
  // Mutation

  /** `add(element)`: appends the converted element. */
  function Add(h: Host, es: seq<Value>, e: Value): (r: Result<seq<Value>>)
    ensures r.Ok? <==> ConvertValue(h, e).Ok?
    ensures r.Ok? ==> |r.value| == |es| + 1 && r.value[..|es|] == es
    ensures r.Ok? ==> ConvertValue(h, e) == Ok(r.value[|es|])
  {
    var ce :- ConvertValue(h, e);
    Ok(es + [ce])
  }

  /** `add(index, element)`: the element is converted first, then inserted
      at `index`, which must lie in `0..size`. */
  function AddAt(h: Host, es: seq<Value>, i: int, e: Value): (r: Result<seq<Value>>)
    ensures ConvertValue(h, e).Fail? ==> r == Fail(ConvertValue(h, e).error)
    ensures ConvertValue(h, e).Ok? && !(0 <= i <= |es|) ==> r == Fail(IndexOutOfBounds)
    ensures r.Ok? ==> 0 <= i <= |es| && |r.value| == |es| + 1
    ensures r.Ok? ==> ConvertValue(h, e) == Ok(r.value[i])
    ensures r.Ok? ==> forall j | 0 <= j < i :: r.value[j] == es[j]
    ensures r.Ok? ==> forall j | i < j < |r.value| :: r.value[j] == es[j - 1]
    ensures ConvertValue(h, e).Ok? && 0 <= i <= |es| ==> r.Ok?
  {
    var ce :- ConvertValue(h, e);
    if i < 0 || i > |es| then Fail(IndexOutOfBounds)
    else Ok(es[..i] + [ce] + es[i..])
  }

  /** `addAll(elements)`: every element is converted, then all are appended. */
  function AddAll(h: Host, es: seq<Value>, items: seq<Value>): (r: Result<seq<Value>>)
    ensures r.Ok? <==> forall j | 0 <= j < |items| :: ConvertValue(h, items[j]).Ok?
    ensures r.Ok? ==> |r.value| == |es| + |items| && r.value[..|es|] == es
    ensures r.Ok? ==> forall j | 0 <= j < |items| :: ConvertValue(h, items[j]) == Ok(r.value[|es| + j])
  {
    var cs :- ConvertAll(h, items);
    Ok(es + cs)
  }

  /** `addAll(index, elements)`: every element is converted first, then all
      are inserted at `index`, which must lie in `0..size`. */
  function AddAllAt(h: Host, es: seq<Value>, i: int, items: seq<Value>): (r: Result<seq<Value>>)
    ensures ConvertAll(h, items).Ok? && !(0 <= i <= |es|) ==> r == Fail(IndexOutOfBounds)
    ensures r.Ok? ==> 0 <= i <= |es| && |r.value| == |es| + |items|
    ensures r.Ok? ==> forall j | 0 <= j < i :: r.value[j] == es[j]
    ensures r.Ok? ==> forall j | 0 <= j < |items| :: ConvertValue(h, items[j]) == Ok(r.value[i + j])
    ensures r.Ok? ==> forall j | i <= j < |es| :: r.value[j + |items|] == es[j]
  {
    var cs :- ConvertAll(h, items);
    if i < 0 || i > |es| then Fail(IndexOutOfBounds)
    else Ok(es[..i] + cs + es[i..])
  }

  /** `set(index, element)`, returning the new elements and the old value:
      at `index == size` it appends the CONVERTED element and returns null;
      inside the array it stores the element UNCONVERTED and returns the
      old one; anywhere else it throws IndexOutOfBounds. */
  function Set(h: Host, es: seq<Value>, i: int, e: Value): (r: Result<(seq<Value>, Value)>)
    ensures i == |es| ==> r.Ok? == ConvertValue(h, e).Ok?
    ensures i == |es| && r.Ok? ==> r.value.0 == Add(h, es, e).value && r.value.1 == Null
    ensures InRange(es, i) ==> r == Ok((es[i := e], es[i]))
    ensures i != |es| && !InRange(es, i) ==> r == Fail(IndexOutOfBounds)
  {
    if i == |es| then
      var es' :- Add(h, es, e);
      Ok((es', Null))
    else if 0 <= i < |es| then Ok((es[i := e], es[i]))
    else Fail(IndexOutOfBounds)
  }

  /** `set` treats the same host value differently depending on the index:
      appended at the end, a list becomes a JSArray that `array(index)`
      reads; stored over an existing element, it stays a raw list that
      `array(index)` rejects. */
  lemma SetConversionDivergence(h: Host)
    ensures Set(h, [], 0, HostList([])).Ok?
    ensures Get(h, Set(h, [], 0, HostList([])).value.0, 0, KArray) == Ok(TArray([]))
    ensures Set(h, [Null], 0, HostList([])) == Ok(([HostList([])], Null))
    ensures Get(h, [HostList([])], 0, KArray) == Fail(JSE)
  {
    AppendedListConverted(h);
    StoredListRaw(h);
  }

  lemma AppendedListConverted(h: Host)
    ensures Set(h, [], 0, HostList([])) == Ok(([Arr([])], Null))
    ensures Get(h, [Arr([])], 0, KArray) == Ok(TArray([]))
  {
    assert ConvertAll(h, []) == Ok([]);
    assert ConvertValue(h, HostList([])) == Ok(Arr([]));
    assert Add(h, [], HostList([])) == Ok([Arr([])]);
  }

  lemma StoredListRaw(h: Host)
    ensures Set(h, [Null], 0, HostList([])) == Ok(([HostList([])], Null))
    ensures Get(h, [HostList([])], 0, KArray) == Fail(JSE)
  {
    var one: seq<Value> := [Null];
    assert one[0 := HostList([])] == [HostList([])];
  }

  /** Every in-range element that `double(index)` should return makes it
      throw instead, although the coercion `double(key)` applies accepts it. */
  lemma DoubleAlwaysFails(h: Host, es: seq<Value>, i: int)
    requires InRange(es, i) && (es[i].Double? || es[i].Float?)
    ensures Get(h, es, i, KDouble) == Fail(JSE)
    ensures StrictCoerce(h, es[i], KDouble).Some?
  {
  }
}
