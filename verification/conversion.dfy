/** The conversions applied when values enter a JSObject or JSArray
    (`convertValue`), and the coercion table the typed accessors use
    (`convertString/Boolean/Long/Int/Double/Float`). */
module Conversion {
  import opened Base
  import opened Numbers
  import opened Values
  import opened Rendering

  // ---------------------------------------------------------------------
  // convertValue, newer lineage (recursive)

  /** `convertValue(value)`:
      - null stays null, the atomics are unwrapped to Int/Long, and Strings,
        Numbers, Booleans, JSObjects and JSArrays pass through;
      - a Pair becomes a one-member object keyed by `"${first}"` with the
        converted second component;
      - a Map becomes an object with String keys kept, other keys
        stringified, values converted and the last of colliding keys winning;
      - a Collection or Array becomes a JSArray of the converted elements;
      - anything else throws IllegalArgumentException.
      Stringifying a key can itself fail (a nested container that cannot be
      rendered), so the result is a Result with that failure too. */
  function ConvertValue(h: Host, v: Value): (r: Result<Value>)
    ensures PassesThrough(v) ==> r == Ok(v)
    ensures r.Ok? ==> PassesThrough(r.value)
    ensures v.AtomicInt? ==> r == Ok(Int(v.ai))
    ensures v.AtomicLong? ==> r == Ok(Long(v.al))
    ensures v.Unsupported? ==> r == Fail(IllegalArgument)
    ensures r.Fail? ==> r.error == IllegalArgument || r.error == IllegalState || r.error == ClassCast
    decreases v, 1
  {
    match v
    case AtomicInt(i) => Ok(Int(i))
    case AtomicLong(l) => Ok(Long(l))
    case HostPair(a, b) => ConvertPair(h, a, b)
    case HostMap(es) => ConvertMap(h, es)
    case HostList(es) =>
      var cs :- ConvertAll(h, es);
      Ok(Arr(cs))
    case HostSet(es) =>
      var cs :- ConvertAll(h, es);
      Ok(Arr(cs))
    case HostArray(es) =>
      var cs :- ConvertAll(h, es);
      Ok(Arr(cs))
    case Unsupported(_) => Fail(IllegalArgument)
    case _ => Ok(v)
  }

  /** What the host containers become: a Collection or Array an array of
      as many elements, a Pair a one-member object, a Map an object with
      distinct keys. */
  lemma ConvertShapes(h: Host, v: Value)
    requires ConvertValue(h, v).Ok?
    ensures var r := ConvertValue(h, v).value;
      && (v.HostList? || v.HostSet? || v.HostArray? ==> r.Arr? && |r.elems| == |v.items|)
      && (v.HostPair? ==> r.Obj? && |r.members| == 1)
      && (v.HostMap? ==> r.Obj? && DistinctKeys(r.members))
  {
  }

  /** A Pair: a one-member object keyed by the first component's text. */
  function ConvertPair(h: Host, a: Value, b: Value): (r: Result<Value>)
    ensures r.Ok? ==> r.value.Obj? && |r.value.members| == 1
    ensures r.Fail? ==> r.error == IllegalArgument || r.error == IllegalState || r.error == ClassCast
    decreases HostPair(a, b), 0
  {
    var k :- ToText(h, a);
    var cb :- ConvertValue(h, b);
    Ok(Obj([Member(k, cb)]))
  }

  /** A Map: an object with distinct keys, the last entry of a key text
      winning. */
  function ConvertMap(h: Host, es: seq<Entry>): (r: Result<Value>)
    ensures r.Ok? ==> r.value.Obj? && DistinctKeys(r.value.members)
    ensures r.Fail? ==> r.error == IllegalArgument || r.error == IllegalState || r.error == ClassCast
    decreases HostMap(es), 0
  {
    var pairs :- ConvertEntries(h, es);
    PutAllDistinct([], pairs);
    Ok(Obj(PutAll([], pairs)))
  }

  /** The key a Map entry gets: `key as? String ?: "${key}"`. */
  function KeyText(h: Host, k: Value): (r: Result<Text>)
    ensures k.Str? ==> r == Ok(k.s)
    ensures r.Fail? ==> r.error == IllegalState || r.error == ClassCast
  {
    if k.Str? then Ok(k.s) else ToText(h, k)
  }

  /** The entries of a Map as key text and converted value, in order. */
  function ConvertEntries(h: Host, es: seq<Entry>): (r: Result<seq<Member>>)
    ensures r.Ok? ==> |r.value| == |es|
    ensures r.Ok? ==> forall i | 0 <= i < |es| :: KeyText(h, es[i].key) == Ok(r.value[i].key)
    ensures r.Fail? ==> r.error == IllegalArgument || r.error == IllegalState || r.error == ClassCast
    decreases es, 0
  {
    if |es| == 0 then Ok([])
    else
      var e := es[0];
      assert e.val < e;
      var k :- KeyText(h, e.key);
      var cv :- ConvertValue(h, e.val);
      var rest :- ConvertEntries(h, es[1..]);
      assert forall i | 1 <= i < |es| :: es[i] == es[1..][i - 1];
      Ok([Member(k, cv)] + rest)
  }

  /** The value paired with each Map key is that entry's converted value. */
  lemma {:induction false} ConvertEntriesValues(h: Host, es: seq<Entry>, i: nat)
    requires ConvertEntries(h, es).Ok? && i < |es|
    ensures ConvertValue(h, es[i].val) == Ok(ConvertEntries(h, es).value[i].val)
    decreases |es|
  {
    if i > 0 {
      assert es[1..][i - 1] == es[i];
      ConvertEntriesValues(h, es[1..], i - 1);
    }
  }

  /** Element-wise conversion preserving length and order. */
  function ConvertAll(h: Host, es: seq<Value>): (r: Result<seq<Value>>)
    ensures r.Ok? ==> |r.value| == |es|
    ensures r.Ok? ==> forall i | 0 <= i < |es| :: ConvertValue(h, es[i]) == Ok(r.value[i])
    ensures r.Fail? ==> exists i | 0 <= i < |es| :: ConvertValue(h, es[i]) == Fail(r.error)
    ensures (forall i | 0 <= i < |es| :: ConvertValue(h, es[i]).Ok?) ==> r.Ok?
    decreases es, 0
  {
    if |es| == 0 then Ok([])
    else
      var first :- ConvertValue(h, es[0]);
      var rest :- ConvertAll(h, es[1..]);
      assert forall i | 1 <= i < |es| :: es[i] == es[1..][i - 1];
      Ok([first] + rest)
  }

  /** Converting twice is converting once: every result passes through. */
  lemma ConvertIdempotent(h: Host, v: Value)
    requires ConvertValue(h, v).Ok?
    ensures ConvertValue(h, ConvertValue(h, v).value) == ConvertValue(h, v)
  {
  }

  /** A Map's object holds, for every key text, the converted value of the
      last entry with that key text, and no other keys. */
  lemma ConvertMapLastWins(h: Host, es: seq<Entry>, k: Text)
    requires ConvertEntries(h, es).Ok?
    ensures ConvertValue(h, HostMap(es)).Ok?
    ensures var pairs := ConvertEntries(h, es).value;
      Lookup(ConvertValue(h, HostMap(es)).value.members, k) == LastFor(pairs, k)
  {
    var pairs := ConvertEntries(h, es).value;
    PutAllLastWins([], pairs, k);
  }

  // ---------------------------------------------------------------------
  // convertValue, older lineage

  /** The older `convertValue`. It differs from the newer one in two ways:
      - a Map becomes an object keyed by each whole ENTRY's text "k=v"
        (`mapKeys { "$it" }` stringifies the entry, not the key), with the
        values copied unconverted;
      - a Pair's second component is stored unconverted. */
  function LegacyConvertValue(h: Host, v: Value): (r: Result<Value>)
    ensures PassesThrough(v) ==> r == Ok(v)
    ensures v.AtomicInt? ==> r == Ok(Int(v.ai))
    ensures v.AtomicLong? ==> r == Ok(Long(v.al))
    ensures v.Unsupported? ==> r == Fail(IllegalArgument)
    ensures r.Ok? && v.HostPair? ==> r.value.Obj? && |r.value.members| == 1 && r.value.members[0].val == v.second
    ensures r.Ok? && v.HostMap? ==> r.value.Obj? && DistinctKeys(r.value.members)
    ensures r.Ok? && (v.HostList? || v.HostSet? || v.HostArray?) ==>
      r.value.Arr? && |r.value.elems| == |v.items|
    decreases v, 1
  {
    match v
    case AtomicInt(i) => Ok(Int(i))
    case AtomicLong(l) => Ok(Long(l))
    case HostPair(a, b) =>
      var k :- ToText(h, a);
      Ok(Obj([Member(k, b)]))
    case HostMap(es) =>
      var pairs :- EntryKeyed(h, es);
      PutAllDistinct([], pairs);
      Ok(Obj(PutAll([], pairs)))
    case HostList(es) =>
      var cs :- LegacyConvertAll(h, es);
      Ok(Arr(cs))
    case HostSet(es) =>
      var cs :- LegacyConvertAll(h, es);
      Ok(Arr(cs))
    case HostArray(es) =>
      var cs :- LegacyConvertAll(h, es);
      Ok(Arr(cs))
    case Unsupported(_) => Fail(IllegalArgument)
    case _ => Ok(v)
  }

  /** `mapKeys { "$it" }`: each entry keyed by its own text "k=v", value kept. */
  function EntryKeyed(h: Host, es: seq<Entry>): (r: Result<seq<Member>>)
    ensures r.Ok? ==> |r.value| == |es|
    ensures r.Ok? ==> forall i | 0 <= i < |es| ::
      EntryText(h, es[i]) == Ok(r.value[i].key) && r.value[i].val == es[i].val
  {
    if |es| == 0 then Ok([])
    else
      var k :- EntryText(h, es[0]);
      var rest :- EntryKeyed(h, es[1..]);
      assert forall i | 1 <= i < |es| :: es[i] == es[1..][i - 1];
      Ok([Member(k, es[0].val)] + rest)
  }

  /** Element-wise older conversion, stopping at the first failure. */
  function LegacyConvertAll(h: Host, es: seq<Value>): (r: Result<seq<Value>>)
    ensures r.Ok? ==> |r.value| == |es|
    ensures r.Ok? ==> forall i | 0 <= i < |es| :: LegacyConvertValue(h, es[i]) == Ok(r.value[i])
    ensures r.Fail? ==> exists i | 0 <= i < |es| :: LegacyConvertValue(h, es[i]) == Fail(r.error)
    ensures (forall i | 0 <= i < |es| :: LegacyConvertValue(h, es[i]).Ok?) ==> r.Ok?
    decreases es, 0
  {
    if |es| == 0 then Ok([])
    else
      var first :- LegacyConvertValue(h, es[0]);
      var rest :- LegacyConvertAll(h, es[1..]);
      assert forall i | 1 <= i < |es| :: es[i] == es[1..][i - 1];
      Ok([first] + rest)
  }

  /** The two lineages disagree on maps: for `mapOf(1 to 2)` the newer
      conversion keys the object by "1" with value 2, the older one by
      "1=2" with value 2. */
  lemma MapKeyDivergence(h: Host)
    ensures ConvertValue(h, HostMap([Entry(Int(1), Int(2))])) == Ok(Obj([Member(Lit("1"), Int(2))]))
    ensures LegacyConvertValue(h, HostMap([Entry(Int(1), Int(2))])) == Ok(Obj([Member(Lit("1=2"), Int(2))]))
  {
    NewerMapKey(h);
    OlderMapKey(h);
  }

  lemma NewerMapKey(h: Host)
    ensures ConvertValue(h, HostMap([Entry(Int(1), Int(2))])) == Ok(Obj([Member(Lit("1"), Int(2))]))
  {
    var one := Lit("1");
    assert Decimal(1) == one;
    assert KeyText(h, Int(1)) == Ok(one);
    var es := [Entry(Int(1), Int(2))];
    assert es[1..] == [];
    assert ConvertEntries(h, es[1..]) == Ok([]);
    assert ConvertValue(h, es[0].val) == Ok(Int(2));
    assert ConvertEntries(h, es) == Ok([Member(one, Int(2))] + []);
    assert PutAll([], [Member(one, Int(2))]) == [Member(one, Int(2))];
  }

  lemma OlderMapKey(h: Host)
    ensures LegacyConvertValue(h, HostMap([Entry(Int(1), Int(2))])) == Ok(Obj([Member(Lit("1=2"), Int(2))]))
  {
    var e := Entry(Int(1), Int(2));
    OneTwoEntryText(h);
    EntryKeyedSingle(h, e);
    assert PutAll([], [Member(Lit("1=2"), Int(2))]) == [Member(Lit("1=2"), Int(2))];
  }

  /** The text of the entry 1 to 2 is "1=2". */
  lemma OneTwoEntryText(h: Host)
    ensures EntryText(h, Entry(Int(1), Int(2))) == Ok(Lit("1=2"))
  {
    var one, two := Lit("1"), Lit("2");
    assert Decimal(1) == one && Decimal(2) == two;
    assert ToText(h, Int(1)) == Ok(one) && ToText(h, Int(2)) == Ok(two);
    assert one + [EQ] + two == Lit("1=2");
  }

  /** A single entry is keyed by its text, its value kept. */
  lemma EntryKeyedSingle(h: Host, e: Entry)
    requires EntryText(h, e).Ok?
    ensures EntryKeyed(h, [e]) == Ok([Member(EntryText(h, e).value, e.val)])
  {
    assert [e][1..] == [];
    assert [Member(EntryText(h, e).value, e.val)] + [] == [Member(EntryText(h, e).value, e.val)];
  }

  // ---------------------------------------------------------------------
  // The coercion table

  /** `convertString(value)`: a String as itself, no text for a JSObject or
      JSArray, and `toString()` for anything else ("null" for null). */
  function ConvertString(h: Host, v: Value): (r: Result<Option<Text>>)
    ensures v.Str? ==> r == Ok(Some(v.s))
    ensures v.Obj? || v.Arr? ==> r == Ok(None)
    ensures v.Null? ==> r == Ok(Some(NULL_WORD))
    ensures r.Ok? && r.value.None? ==> v.Obj? || v.Arr?
    ensures r.Fail? ==> v.HostPair? || v.HostMap? || v.HostList? || v.HostSet?
  {
    if v.Str? then Ok(Some(v.s))
    else if v.Obj? || v.Arr? then Ok(None)
    else
      var t :- ToText(h, v);
      Ok(Some(t))
  }

  /** `convertBoolean(value, fromString)`. */
  function ConvertBoolean(v: Value, fromString: bool): (r: Option<bool>)
    ensures v.Bool? ==> r == Some(v.b)
    ensures r.Some? ==> v.Bool? || (fromString && v.Str? && (v.s == TRUE_WORD || v.s == FALSE_WORD))
    ensures fromString && v.Str? ==>
      r == (if v.s == TRUE_WORD then Some(true) else if v.s == FALSE_WORD then Some(false) else None)
  {
    if v.Bool? then Some(v.b)
    else if fromString && v.Str? && v.s == TRUE_WORD then Some(true)
    else if fromString && v.Str? && v.s == FALSE_WORD then Some(false)
    else None
  }

  /** `convertLong(value, fromString)`: a Long, or an Int widened. */
  function ConvertLong(v: Value, fromString: bool): (r: Option<Int64>)
    ensures v.Long? ==> r == Some(v.l)
    ensures v.Int? ==> r == Some(v.i)
    ensures r.Some? ==> v.Long? || v.Int? || (fromString && v.Str? && ParseLong(v.s) == Some(r.value as int))
    ensures fromString && v.Str? ==> (r.Some? <==> ParseLong(v.s).Some?)
  {
    match v
    case Long(l) => Some(l)
    case Int(i) => Some(i)
    case Str(s) =>
      if fromString then
        match ParseLong(s)
        case Some(n) => Some(n)
        case None => None
      else None
    case _ => None
  }

  /** `convertInt(value, fromString)`: only an Int; a Long is never narrowed. */
  function ConvertInt(v: Value, fromString: bool): (r: Option<Int32>)
    ensures v.Int? ==> r == Some(v.i)
    ensures r.Some? ==> v.Int? || (fromString && v.Str? && ParseInt(v.s) == Some(r.value as int))
    ensures fromString && v.Str? ==> (r.Some? <==> ParseInt(v.s).Some?)
  {
    match v
    case Int(i) => Some(i)
    case Str(s) =>
      if fromString then
        match ParseInt(s)
        case Some(n) => Some(n)
        case None => None
      else None
    case _ => None
  }

  /** `convertDouble(value, fromString)`: a Double, or a Float widened. */
  function ConvertDouble(h: Host, v: Value, fromString: bool): (r: Option<nat>)
    ensures v.Double? ==> r == Some(v.d)
    ensures v.Float? ==> r == Some(h.floatToDouble(v.f))
    ensures r.Some? ==> v.Double? || v.Float? || (fromString && v.Str? && h.parseDouble(v.s) == r)
    ensures fromString && v.Str? ==> r == h.parseDouble(v.s)
  {
    match v
    case Double(d) => Some(d)
    case Float(f) => Some(h.floatToDouble(f))
    case Str(s) => if fromString then h.parseDouble(s) else None
    case _ => None
  }

  /** `convertFloat(value, fromString)`: only a Float. */
  function ConvertFloat(h: Host, v: Value, fromString: bool): (r: Option<nat>)
    ensures v.Float? ==> r == Some(v.f)
    ensures r.Some? ==> v.Float? || (fromString && v.Str? && h.parseFloat(v.s) == r)
    ensures fromString && v.Str? ==> r == h.parseFloat(v.s)
  {
    match v
    case Float(f) => Some(f)
    case Str(s) => if fromString then h.parseFloat(s) else None
    case _ => None
  }

  /** The integer and floating families never mix: no integer coercion
      accepts a Float or Double and no floating coercion accepts an Int,
      Long or any other integer kind. */
  lemma NumericFamiliesSeparate(h: Host, v: Value, fromString: bool)
    ensures v.Float? || v.Double? ==> ConvertLong(v, fromString).None? && ConvertInt(v, fromString).None?
    ensures v.Int? || v.Long? || v.BigInteger? || v.AtomicInt? || v.AtomicLong? ==>
      ConvertDouble(h, v, fromString).None? && ConvertFloat(h, v, fromString).None?
    ensures v.Long? ==> ConvertInt(v, fromString).None?
    ensures v.Double? ==> ConvertFloat(h, v, fromString).None?
  {
  }

  /** Coercing from text reads back what rendering wrote: the decimal text of
      an Int or Long is accepted by `convertLong`/`convertInt` with
      `fromString` and gives the same number. */
  lemma CoerceDecimalText(n: int)
    ensures IsInt64(n) ==> ConvertLong(Str(Decimal(n)), true) == Some(n)
    ensures IsInt32(n) ==> ConvertInt(Str(Decimal(n)), true) == Some(n)
  {
    if IsInt64(n) { DecimalRoundTrip(n, -0x8000_0000_0000_0000, 0x7FFF_FFFF_FFFF_FFFF); }
    if IsInt32(n) { DecimalRoundTrip(n, -0x8000_0000, 0x7FFF_FFFF); }
  }
}
