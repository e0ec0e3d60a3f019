/** The values the library stores and the host values it accepts.

    A JSObject or JSArray may hold, besides JSON values, raw host values: a
    `set` on an existing array index and the older copy constructors store
    their argument without conversion. So one dynamic `Value` type covers both:
    the JSON variants (null, Boolean, Int, Long, Float, Double, String, object,
    array) and the host kinds `convertValue` and the renderer dispatch on. */
module Values {
  import opened Base

  /** A runtime value (Kotlin `Any?`).
      - Float and Double are opaque tokens; the host gives them meaning.
      - `OtherNumber` is a `Number` the library does not special-case (Byte,
        Short, BigDecimal, ...); `Unsupported` is any other class.
      - `Obj` is a JSObject: its members have distinct keys, in the backing
        map's iteration order.
      - `HostMap`, `HostPair`, `HostList`, `HostSet` (any other Collection)
        and `HostArray` are the corresponding Kotlin/Java host values. */
  datatype Value =
    | Null
    | Bool(b: bool)
    | Str(s: Text)
    | Int(i: Int32)
    | Long(l: Int64)
    | Float(f: nat)
    | Double(d: nat)
    | BigInteger(n: int)
    | AtomicInt(ai: Int32)
    | AtomicLong(al: Int64)
    | OtherNumber(tag: nat)
    | Obj(members: seq<Member>)
    | Arr(elems: seq<Value>)
    | HostMap(entries: seq<Entry>)
    | HostPair(first: Value, second: Value)
    | HostList(items: seq<Value>)
    | HostSet(items: seq<Value>)
    | HostArray(items: seq<Value>)
    | Unsupported(tag: nat)

  /** One key/value pair of a JSObject. */
  datatype Member = Member(key: Text, val: Value)

  /** One entry of a host map, whose key may be any value. */
  datatype Entry = Entry(key: Value, val: Value)

  /** What the model leaves to the Kotlin/Java runtime: floating point and the
      `toString` of values whose text it does not determine. */
  datatype Host = Host(
    floatToDouble: nat -> nat,        // Float.toDouble()
    doubleText: nat -> Text,          // Double.toString()
    parseDouble: Text -> Option<nat>, // String.toDouble(), None when it throws
    parseFloat: Text -> Option<nat>,  // String.toFloatOrNull()
    isFinite: nat -> bool,            // !isInfinite() && !isNaN()
    hostText: Value -> Text           // toString() of Float, OtherNumber, HostArray, Unsupported
  )

  /** True of the values `convertValue` returns unchanged: null, String,
      Number (other than the atomics), Boolean, JSObject and JSArray. */
  predicate PassesThrough(v: Value)
  {
    v.Null? || v.Bool? || v.Str? || v.Int? || v.Long? || v.Float? || v.Double?
    || v.BigInteger? || v.OtherNumber? || v.Obj? || v.Arr?
  }

  // ---------------------------------------------------------------------
  // Objects as finite maps

  /** The keys of an object's members, in order. */
  function Keys(ms: seq<Member>): (ks: seq<Text>)
    ensures |ks| == |ms|
    ensures forall i | 0 <= i < |ms| :: ks[i] == ms[i].key
  {
    if |ms| == 0 then [] else [ms[0].key] + Keys(ms[1..])
  }

  /** No key occurs twice, as in any map. */
  predicate DistinctKeys(ms: seq<Member>)
  {
    forall i, j | 0 <= i < j < |ms| :: ms[i].key != ms[j].key
  }

  /** `map[key]` when the key is present (`key in map`), None otherwise. */
  function Lookup(ms: seq<Member>, k: Text): (r: Option<Value>)
    ensures r.Some? ==> Member(k, r.value) in ms
    ensures r.None? ==> forall i | 0 <= i < |ms| :: ms[i].key != k
  {
    if |ms| == 0 then None
    else if ms[0].key == k then Some(ms[0].val)
    else Lookup(ms[1..], k)
  }

  /** In a map, the member holding a key is the one Lookup finds. */
  lemma {:induction false} LookupMember(ms: seq<Member>, i: nat)
    requires DistinctKeys(ms) && i < |ms|
    ensures Lookup(ms, ms[i].key) == Some(ms[i].val)
    decreases |ms|
  {
    if i > 0 {
      assert ms[1..][i - 1] == ms[i];
      LookupMember(ms[1..], i - 1);
    }
  }

  /** `map[key] = value`: replaces the value of a present key in place,
      otherwise adds the key at the end. */
  function Put(ms: seq<Member>, k: Text, v: Value): (r: seq<Member>)
    ensures Lookup(r, k) == Some(v)
    ensures forall k' | k' != k :: Lookup(r, k') == Lookup(ms, k')
    ensures |r| == if Lookup(ms, k).Some? then |ms| else |ms| + 1
  {
    if |ms| == 0 then [Member(k, v)]
    else if ms[0].key == k then [Member(k, v)] + ms[1..]
    else [ms[0]] + Put(ms[1..], k, v)
  }

  /** Put keeps keys distinct. */
  lemma {:induction false} PutDistinct(ms: seq<Member>, k: Text, v: Value)
    requires DistinctKeys(ms)
    ensures DistinctKeys(Put(ms, k, v))
    decreases |ms|
  {
    if |ms| > 0 && ms[0].key != k {
      PutDistinct(ms[1..], k, v);
      var r := Put(ms, k, v);
      forall j | 1 <= j < |r|
        ensures r[j].key != ms[0].key
      {
        var rest := Put(ms[1..], k, v);
        assert r[j] == rest[j - 1];
        if rest[j - 1].key != k {
          assert Lookup(rest, rest[j - 1].key).Some?;
          assert Lookup(ms[1..], rest[j - 1].key).Some?;
        }
      }
    }
  }

  /** Puts every pair in order, so that of two equal keys the later wins. */
  function PutAll(ms: seq<Member>, pairs: seq<Member>): (r: seq<Member>)
    decreases |pairs|
  {
    if |pairs| == 0 then ms
    else PutAll(Put(ms, pairs[0].key, pairs[0].val), pairs[1..])
  }

  /** PutAll keeps keys distinct. */
  lemma {:induction false} PutAllDistinct(ms: seq<Member>, pairs: seq<Member>)
    requires DistinctKeys(ms)
    ensures DistinctKeys(PutAll(ms, pairs))
    decreases |pairs|
  {
    if |pairs| > 0 {
      PutDistinct(ms, pairs[0].key, pairs[0].val);
      PutAllDistinct(Put(ms, pairs[0].key, pairs[0].val), pairs[1..]);
    }
  }

  /** The value the last pair with key `k` gives, if any. */
  function LastFor(pairs: seq<Member>, k: Text): (r: Option<Value>)
    ensures r.Some? ==> Member(k, r.value) in pairs
    ensures r.None? ==> forall i | 0 <= i < |pairs| :: pairs[i].key != k
    decreases |pairs|
  {
    if |pairs| == 0 then None
    else if pairs[|pairs| - 1].key == k then Some(pairs[|pairs| - 1].val)
    else LastFor(pairs[..|pairs| - 1], k)
  }

  /** Putting pairs one by one is last-write-wins: a key's value is the one
      of its last pair, and keys no pair mentions keep their value. */
  lemma {:induction false} PutAllLastWins(ms: seq<Member>, pairs: seq<Member>, k: Text)
    ensures Lookup(PutAll(ms, pairs), k) ==
      (if LastFor(pairs, k).Some? then LastFor(pairs, k) else Lookup(ms, k))
    decreases |pairs|
  {
    if |pairs| > 0 {
      var ms' := Put(ms, pairs[0].key, pairs[0].val);
      PutAllLastWins(ms', pairs[1..], k);
      LastForSplit(pairs, k);
    }
  }

  /** LastFor looks at the tail first, then at the head. */
  lemma {:induction false} LastForSplit(pairs: seq<Member>, k: Text)
    requires |pairs| > 0
    ensures LastFor(pairs, k) ==
      (if LastFor(pairs[1..], k).Some? then LastFor(pairs[1..], k)
       else if pairs[0].key == k then Some(pairs[0].val) else None)
    decreases |pairs|
  {
    if |pairs| > 1 {
      var last := pairs[|pairs| - 1];
      if last.key != k {
        assert pairs[..|pairs| - 1][1..] == pairs[1..][..|pairs[1..]| - 1];
        LastForSplit(pairs[..|pairs| - 1], k);
      }
    }
  }
}
