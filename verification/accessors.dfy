/** What the typed accessors of JSObject and JSArray return, and the two
    coercion regimes they share:
    - the strict accessors (`boolean`, `string`, `long`, `int`, `double`,
      `float`, `obj`, `array`) use the coercion table without string
      parsing: only the exact variant is accepted, except that `long`
      widens an Int and `double` widens a Float;
    - the `opt*` accessors use the table WITH string parsing, and
      `optString` is `convertString` (the `toString()` of anything but an
      object or array).
    The older lineage's `castTo`/`opt<T>` accept the exact variant only. */
module Accessors {
  import opened Base
  import opened Values
  import opened Numbers
  import opened Conversion

  /** The type an accessor asks for. */
  datatype Kind = KBoolean | KString | KLong | KInt | KDouble | KFloat | KObject | KArray

  /** A value returned by an accessor, tagged with its Kotlin type. */
  datatype Typed =
    | TBool(b: bool)
    | TText(s: Text)
    | TLong(l: Int64)
    | TInt(i: Int32)
    | TDouble(d: nat)
    | TFloat(f: nat)
    | TObject(members: seq<Member>)
    | TArray(elems: seq<Value>)

  function KindOf(t: Typed): Kind
  {
    match t
    case TBool(_) => KBoolean
    case TText(_) => KString
    case TLong(_) => KLong
    case TInt(_) => KInt
    case TDouble(_) => KDouble
    case TFloat(_) => KFloat
    case TObject(_) => KObject
    case TArray(_) => KArray
  }

  /** The stored value a typed result stands for. */
  function AsValue(t: Typed): Value
  {
    match t
    case TBool(b) => Bool(b)
    case TText(s) => Str(s)
    case TLong(l) => Long(l)
    case TInt(i) => Int(i)
    case TDouble(d) => Double(d)
    case TFloat(f) => Float(f)
    case TObject(ms) => Obj(ms)
    case TArray(es) => Arr(es)
  }

  /** `value is T`: the value is exactly of the requested type. */
  predicate Exact(kind: Kind, v: Value)
  {
    match kind
    case KBoolean => v.Bool?
    case KString => v.Str?
    case KLong => v.Long?
    case KInt => v.Int?
    case KDouble => v.Double?
    case KFloat => v.Float?
    case KObject => v.Obj?
    case KArray => v.Arr?
  }

  /** `value as? T` with a reified T, as the older `castTo` and `opt<T>`
      test it: the value itself when it is exactly a T. */
  function Typing(v: Value, kind: Kind): (r: Option<Typed>)
    ensures r.Some? <==> Exact(kind, v)
    ensures r.Some? ==> AsValue(r.value) == v && KindOf(r.value) == kind
  {
    match kind
    case KBoolean => if v.Bool? then Some(TBool(v.b)) else None
    case KString => if v.Str? then Some(TText(v.s)) else None
    case KLong => if v.Long? then Some(TLong(v.l)) else None
    case KInt => if v.Int? then Some(TInt(v.i)) else None
    case KDouble => if v.Double? then Some(TDouble(v.d)) else None
    case KFloat => if v.Float? then Some(TFloat(v.f)) else None
    case KObject => if v.Obj? then Some(TObject(v.members)) else None
    case KArray => if v.Arr? then Some(TArray(v.elems)) else None
  }

  /** The coercion a strict accessor applies to a present, non-null value:
      `convertBoolean/Long/Int/Double/Float(value)` without string parsing,
      and `value as? String/JSObject/JSArray`. None becomes the accessor's
      JSException. */
  function StrictCoerce(h: Host, v: Value, kind: Kind): (r: Option<Typed>)
    ensures r.Some? ==> KindOf(r.value) == kind
    ensures Exact(kind, v) ==> r == Typing(v, kind)
    ensures kind != KLong && kind != KDouble ==> r == Typing(v, kind)
    ensures kind == KLong ==> (r.Some? <==> v.Long? || v.Int?)
    ensures kind == KLong && v.Int? ==> r == Some(TLong(v.i))
    ensures kind == KDouble ==> (r.Some? <==> v.Double? || v.Float?)
    ensures kind == KDouble && v.Float? ==> r == Some(TDouble(h.floatToDouble(v.f)))
  {
    match kind
    case KBoolean =>
      var b :- ConvertBoolean(v, false);
      Some(TBool(b))
    case KString => if v.Str? then Some(TText(v.s)) else None
    case KLong =>
      var l :- ConvertLong(v, false);
      Some(TLong(l))
    case KInt =>
      var i :- ConvertInt(v, false);
      Some(TInt(i))
    case KDouble =>
      var d :- ConvertDouble(h, v, false);
      Some(TDouble(d))
    case KFloat =>
      var f :- ConvertFloat(h, v, false);
      Some(TFloat(f))
    case KObject => if v.Obj? then Some(TObject(v.members)) else None
    case KArray => if v.Arr? then Some(TArray(v.elems)) else None
  }

  /** The coercion an `opt*` accessor applies to the stored value (null when
      there is none): the table WITH string parsing; `optString` is
      `convertString`, which only fails when the `toString()` of a raw host
      collection stored in the container fails. */
  function OptCoerce(h: Host, v: Value, kind: Kind): (r: Result<Option<Typed>>)
    ensures r.Fail? ==> kind == KString && (v.HostPair? || v.HostMap? || v.HostList? || v.HostSet?)
    ensures r.Ok? && r.value.Some? ==> KindOf(r.value.value) == kind
    ensures StrictCoerce(h, v, kind).Some? ==> r == Ok(StrictCoerce(h, v, kind))
    ensures kind == KObject || kind == KArray ==> r == Ok(Typing(v, kind))
    ensures v.Null? ==> r == (if kind == KString then Ok(Some(TText(NULL_WORD))) else Ok(None))
  {
    match kind
    case KString =>
      var s :- ConvertString(h, v);
      Ok(if s.Some? then Some(TText(s.value)) else None)
    case KBoolean =>
      var b := ConvertBoolean(v, true);
      Ok(if b.Some? then Some(TBool(b.value)) else None)
    case KLong =>
      var l := ConvertLong(v, true);
      Ok(if l.Some? then Some(TLong(l.value)) else None)
    case KInt =>
      var i := ConvertInt(v, true);
      Ok(if i.Some? then Some(TInt(i.value)) else None)
    case KDouble =>
      var d := ConvertDouble(h, v, true);
      Ok(if d.Some? then Some(TDouble(d.value)) else None)
    case KFloat =>
      var f := ConvertFloat(h, v, true);
      Ok(if f.Some? then Some(TFloat(f.value)) else None)
    case KObject => Ok(Typing(v, KObject))
    case KArray => Ok(Typing(v, KArray))
  }

  /** A String is parsed by the `opt*` accessors of the scalar kinds:
      "true"/"false" for Boolean, a 64-bit or 32-bit decimal for Long and
      Int, what the host's `toDouble` accepts for Double. */
  lemma OptParsesStrings(h: Host, s: Text, kind: Kind)
    ensures var r := OptCoerce(h, Str(s), kind);
      && (kind == KBoolean ==> (r.Ok? && r.value.Some? <==> s == TRUE_WORD || s == FALSE_WORD))
      && (kind == KLong ==> (r.Ok? && r.value.Some? <==> ParseLong(s).Some?))
      && (kind == KInt ==> (r.Ok? && r.value.Some? <==> ParseInt(s).Some?))
      && (kind == KDouble ==> r == Ok(if h.parseDouble(s).Some? then Some(TDouble(h.parseDouble(s).value)) else None))
  {
  }
}
