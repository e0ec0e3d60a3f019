/** JSObject by key: the strict and `opt*` accessors, `isNull`, the
    converting `put`/`putAll` (and the builder's infix `to`), and the older
    `castTo`-based accessors with `opt<T>`. An object is its members with
    distinct keys. */
module Objects {
  import opened Base
  import opened Values
  import opened Conversion
  import opened Accessors
  import opened Failures

  /** The stored value for a key, null when the key is absent (`map[key]`). */
  function ValueOrNull(ms: seq<Member>, k: Text): Value
  {
    match Lookup(ms, k)
    case Some(v) => v
    case None => Null
  }

  /** `getValueFor(key)`: the stored value, or a JSException when the key is
      absent or holds null. */
  function GetValueFor(ms: seq<Member>, k: Text): (r: Result<Value>)
    ensures r.Ok? <==> Lookup(ms, k).Some? && Lookup(ms, k).value != Null
    ensures r.Ok? ==> Lookup(ms, k) == Some(r.value)
    ensures r.Fail? ==> r.error == JSE
  {
    match Lookup(ms, k)
    case None => Fail(JSE)
    case Some(v) => if v == Null then Fail(JSE) else Ok(v)
  }

  /** The strict accessors `boolean/string/long/int/double/float/obj/array(key)`. */
  function Get(h: Host, ms: seq<Member>, k: Text, kind: Kind): (r: Result<Typed>)
    ensures Lookup(ms, k).None? ==> r == Fail(JSE)
    ensures Lookup(ms, k) == Some(Null) ==> r == Fail(JSE)
    ensures r.Fail? ==> r.error == JSE
    ensures r.Ok? ==> Lookup(ms, k).Some? && StrictCoerce(h, Lookup(ms, k).value, kind) == Some(r.value)
    ensures Lookup(ms, k).Some? && StrictCoerce(h, Lookup(ms, k).value, kind).Some? ==> r.Ok?
  {
    var v :- GetValueFor(ms, k);
    CheckNotNull(StrictCoerce(h, v, kind))
  }

  /** The soft accessors `optString/optBoolean/.../optArray(key)`: the
      stored value, or null when the key is absent, coerced with string
      parsing. `optString` of an absent key is "null", since
      `convertString(null)` is `null.toString()`. */
  function Opt(h: Host, ms: seq<Member>, k: Text, kind: Kind): (r: Result<Option<Typed>>)
    ensures Lookup(ms, k).None? ==>
      r == (if kind == KString then Ok(Some(TText(NULL_WORD))) else Ok(None))
    ensures Get(h, ms, k, kind).Ok? ==> r == Ok(Some(Get(h, ms, k, kind).value))
    ensures r.Fail? ==> kind == KString
  {
    OptCoerce(h, ValueOrNull(ms, k), kind)
  }

  /** `isNull(key)`: the key is absent or holds null. */
  function IsNull(ms: seq<Member>, k: Text): (b: bool)
    ensures b <==> Lookup(ms, k).None? || Lookup(ms, k) == Some(Null)
  {
    ValueOrNull(ms, k) == Null
  }

  /** `put(key, value)`, `this[key] = value` and `key to value`: stores the
      converted value under the key. */
  function PutValue(h: Host, ms: seq<Member>, k: Text, v: Value): (r: Result<seq<Member>>)
    ensures r.Ok? <==> ConvertValue(h, v).Ok?
    ensures r.Fail? ==> r.error == ConvertValue(h, v).error
    ensures r.Ok? ==> Some(ConvertValue(h, v).value) == Lookup(r.value, k)
    ensures r.Ok? ==> forall k' | k' != k :: Lookup(r.value, k') == Lookup(ms, k')
    ensures r.Ok? && DistinctKeys(ms) ==> DistinctKeys(r.value)
  {
    var cv :- ConvertValue(h, v);
    PutDistinctIf(ms, k, cv);
    Ok(Put(ms, k, cv))
  }

  lemma PutDistinctIf(ms: seq<Member>, k: Text, v: Value)
    ensures DistinctKeys(ms) ==> DistinctKeys(Put(ms, k, v))
  {
    if DistinctKeys(ms) {
      PutDistinct(ms, k, v);
    }
  }

  /** `putAll(from)`: `put` of every pair in order. */
  function PutAllValues(h: Host, ms: seq<Member>, from: seq<Member>): (r: Result<seq<Member>>)
    ensures r.Ok? <==> forall i | 0 <= i < |from| :: ConvertValue(h, from[i].val).Ok?
    ensures r.Ok? && DistinctKeys(ms) ==> DistinctKeys(r.value)
    decreases |from|
  {
    if |from| == 0 then Ok(ms)
    else
      var ms' :- PutValue(h, ms, from[0].key, from[0].val);
      var r := PutAllValues(h, ms', from[1..]);
      assert forall i | 1 <= i < |from| :: from[i] == from[1..][i - 1];
      r
  }

  /** After `putAll`, a key holds the converted value of its last pair, and
      keys no pair mentions keep their value. */
  lemma {:induction false} PutAllValuesLastWins(h: Host, ms: seq<Member>, from: seq<Member>, k: Text)
    requires PutAllValues(h, ms, from).Ok?
    ensures LastFor(from, k).Some? ==>
      Lookup(PutAllValues(h, ms, from).value, k).Some? &&
      ConvertValue(h, LastFor(from, k).value) == Ok(Lookup(PutAllValues(h, ms, from).value, k).value)
    ensures LastFor(from, k).None? ==> Lookup(PutAllValues(h, ms, from).value, k) == Lookup(ms, k)
    decreases |from|
  {
    if |from| > 0 {
      var ms' := PutValue(h, ms, from[0].key, from[0].val).value;
      assert PutAllValues(h, ms, from) == PutAllValues(h, ms', from[1..]);
      PutAllValuesLastWins(h, ms', from[1..], k);
      LastForSplit(from, k);
    }
  }

  /** A value put under a key is what the strict accessor of its kind reads
      back (after conversion), e.g. an Int put is readable as a Long. */
  lemma PutThenGet(h: Host, ms: seq<Member>, k: Text, v: Value, kind: Kind)
    requires ConvertValue(h, v).Ok? && v != Null
    ensures var cv := ConvertValue(h, v).value;
      Get(h, PutValue(h, ms, k, v).value, k, kind) ==
        (if StrictCoerce(h, cv, kind).Some? then Ok(StrictCoerce(h, cv, kind).value) else Fail(JSE))
  {
    var cv := ConvertValue(h, v).value;
    assert cv != Null by {
      if v.AtomicInt? || v.AtomicLong? || v.HostPair? || v.HostMap? || v.HostList? || v.HostSet? || v.HostArray? {
        assert !PassesThrough(v);
      }
    }
  }

  // ---------------------------------------------------------------------
  // The older lineage

  /** The older `castTo<T>(key)` behind `string/long/int/double/float/obj/
      array(key)`: absent, null and any value that is not exactly a T fail
      with a JSException; nothing is widened. */
  function LegacyGet(ms: seq<Member>, k: Text, kind: Kind): (r: Result<Typed>)
    ensures r.Ok? <==> Lookup(ms, k).Some? && Exact(kind, Lookup(ms, k).value)
    ensures r.Ok? ==> AsValue(r.value) == Lookup(ms, k).value
    ensures r.Fail? ==> r.error == JSE
  {
    var v :- CheckNotNull(Lookup(ms, k));
    var _ :- CheckJson(v != Null);
    CheckNotNull(Typing(v, kind))
  }

  /** The older `opt<T>(key)`: `this[key] as? T`, never failing. */
  function LegacyOpt(ms: seq<Member>, k: Text, kind: Kind): (r: Option<Typed>)
    ensures r.Some? <==> Lookup(ms, k).Some? && Exact(kind, Lookup(ms, k).value)
    ensures LegacyGet(ms, k, kind).Ok? ==> r == Some(LegacyGet(ms, k, kind).value)
  {
    Typing(ValueOrNull(ms, k), kind)
  }

  /** The two lineages differ on numbers: a stored Int is a Long for the
      newer `long(key)` but not for the older one, and likewise a Float for
      `double(key)`. */
  lemma WideningDivergence(h: Host, ms: seq<Member>, k: Text)
    ensures Lookup(ms, k).Some? && Lookup(ms, k).value.Int? ==>
      Get(h, ms, k, KLong) == Ok(TLong(Lookup(ms, k).value.i)) && LegacyGet(ms, k, KLong).Fail?
    ensures Lookup(ms, k).Some? && Lookup(ms, k).value.Float? ==>
      Get(h, ms, k, KDouble) == Ok(TDouble(h.floatToDouble(Lookup(ms, k).value.f))) && LegacyGet(ms, k, KDouble).Fail?
  {
  }
}
