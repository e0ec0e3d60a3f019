/** The recursive-descent grammar the tokener constructors of JSObject and
    JSArray form with `nextValue`/`nextKey`, and the parse entry points.

    Three variants of the grammar exist in the source, told apart here by a
    `Dialect`:
    - `Jdk8`: the newer tokenizer with the jdk8 JSObjectImpl and the jvm
      JSArrayImpl; members are separated by ',' only and a key must be a
      String value;
    - `Internal`: the newer tokenizer with the object grammar of
      core/.../internal/AbstractJSObject.kt, which also accepts ';';
    - `Legacy`: the older tokenizer with the older AbstractJSObject and
      AbstractJSArray: ',' or ';', any value as a key (its `toString()`), and
      `\u` escapes read with `next(4)`.
    The three array grammars are identical.

    A parse reads from a cursor and returns the value and the cursor after
    it; nothing after the closing bracket is examined. */
module Parser {
  import opened Base
  import opened Values
  import opened Strings
  import opened Failures
  import opened Tokener
  import opened Literals
  import LegacyRendering
  import Numbers

  datatype Dialect = Dialect(semicolons: bool, legacy: bool)

  const Jdk8 := Dialect(false, false)
  const Internal := Dialect(true, false)
  const Legacy := Dialect(true, true)

  /** What a parse can produce: the values `stringToValue` and `nextString`
      yield, and objects (with distinct keys) and arrays of them. */
  predicate Parsed(v: Value)
    decreases v
  {
    match v
    case Null => true
    case Bool(_) => true
    case Str(_) => true
    case Int(_) => true
    case Long(_) => true
    case Double(_) => true
    case Obj(ms) => DistinctKeys(ms) && forall i | 0 <= i < |ms| :: Parsed(ms[i].val)
    case Arr(es) => forall i | 0 <= i < |es| :: Parsed(es[i])
    case _ => false
  }

  /** Every parsed value can be rendered by the older renderer too. */
  lemma {:induction false} ParsedKnown(v: Value)
    requires Parsed(v)
    ensures LegacyRendering.Known(v)
    decreases v
  {
    match v
    case Obj(ms) =>
      forall i | 0 <= i < |ms| ensures LegacyRendering.Known(ms[i].val) {
        assert ms[i].val < ms[i];
        ParsedKnown(ms[i].val);
      }
    case Arr(es) =>
      forall i | 0 <= i < |es| ensures LegacyRendering.Known(es[i]) {
        ParsedKnown(es[i]);
      }
    case _ =>
  }

  /** The syntax error at the cursor's position. */
  function ErrorAt<T>(c: Cursor): (r: Result<T>)
    ensures r == Fail(Syntax(Position(c.index, c.character, c.line)))
  {
    SyntaxError(c.index, c.character, c.line)
  }

  // ---------------------------------------------------------------------
  // The grammar

  /** `nextValue()`: a quoted string, an object or array (the bracket is
      pushed back and the constructor parses from it), or a bare token:
      the run of bare characters, trimmed, with its terminator pushed back;
      an empty one is the syntax error "Missing value". */
  function NextValue(h: Host, d: Dialect, c: Cursor): (r: Result<(Value, Cursor)>)
    ensures r.Fail? ==> r.error.Syntax?
    ensures r.Ok? ==> Budget(r.value.1) < Budget(c) && Parsed(r.value.0)
    decreases Budget(c), 1
  {
    var (ch, c1) := NextSymbol(c);
    if ch == QUOTE || ch == APOS then
      match NextString(c1, ch, d.legacy)
      case Ok((s, c2)) => Ok((Str(s), c2))
      case Fail(e) => Fail(e)
    else if ch == LBRACE then ParseObject(h, d, Unread(c1))
    else if ch == LBRACKET then ParseArray(h, d, Unread(c1))
    else
      var (run, c2) := BareRun(c1, ch);
      var c3 := Unread(c2);
      var t := Trim(run);
      if |t| == 0 then ErrorAt(c3)
      else Ok((StringToValue(h, t), c3))
  }

  /** A member's key and the ':' after it. The newer tokenizer's `nextKey`
      accepts only a String value ("Key should begin with quotation"); the
      older grammar takes the `toString()` of any value. Either way the key
      must be followed by ':' ("Expected a ':' after a key"). */
  function Key(h: Host, d: Dialect, c: Cursor): (r: Result<(Text, Cursor)>)
    ensures r.Fail? ==> r.error.Syntax?
    ensures r.Ok? ==> Budget(r.value.1) < Budget(c)
    ensures r.Ok? ==> r.value.1.prev == COLON && !r.value.1.usePrevious
    ensures NextValue(h, d, c).Fail? ==> r == Fail(NextValue(h, d, c).error)
    ensures NextValue(h, d, c).Ok? ==>
      var (v, c1) := NextValue(h, d, c).value;
      (r.Ok? <==> KeyText(h, d, v, c1).Ok? && NextSymbol(c1).0 == COLON) &&
      (r.Ok? ==> KeyText(h, d, v, c1) == Ok(r.value.0) && r.value.1 == NextSymbol(c1).1) &&
      (KeyText(h, d, v, c1).Ok? && NextSymbol(c1).0 != COLON ==> r == ErrorAt(NextSymbol(c1).1))
    decreases Budget(c), 2
  {
    var (v, c1) :- NextValue(h, d, c);
    var k :- KeyText(h, d, v, c1);
    var (colon, c2) := NextSymbol(c1);
    if colon != COLON then ErrorAt(c2) else Ok((k, c2))
  }

  /** The text a parsed value stands for as a key. */
  function KeyText(h: Host, d: Dialect, v: Value, c: Cursor): (r: Result<Text>)
    requires Parsed(v)
    ensures r.Fail? ==> r.error.Syntax? && !d.legacy && !v.Str?
    ensures r.Ok? && v.Str? ==> r.value == v.s
    ensures !d.legacy ==> (r.Ok? <==> v.Str?)
    ensures !d.legacy && r.Fail? ==> r == ErrorAt(c)
    ensures d.legacy ==> r.Ok? && r == LegacyRendering.ToText(h, v)
    ensures d.legacy && v.Null? ==> r == Ok(NULL_WORD)
    ensures d.legacy && v.Bool? ==> r == Ok(if v.b then TRUE_WORD else FALSE_WORD)
    ensures d.legacy && v.Int? ==> r == Ok(Numbers.Decimal(v.i))
    ensures d.legacy && v.Long? ==> r == Ok(Numbers.Decimal(v.l))
  {
    if d.legacy then
      ParsedKnown(v);
      Ok(LegacyRendering.ToText(h, v).value)
    else if v.Str? then Ok(v.s)
    else ErrorAt(c)
  }

  /** The constructor `JSObject(tokener)`: '{' and then the members. */
  function ParseObject(h: Host, d: Dialect, c: Cursor): (r: Result<(Value, Cursor)>)
    ensures r.Fail? ==> r.error.Syntax?
    ensures r.Ok? ==> Budget(r.value.1) < Budget(c) && r.value.0.Obj? && Parsed(r.value.0)
    decreases Budget(c), 0
  {
    var (ch, c1) := NextSymbol(c);
    if ch != LBRACE then ErrorAt(c1)
    else
      var (ms, c2) :- Members(h, d, c1, []);
      Ok((Obj(ms), c2))
  }

  /** The member loop: NUL where a key should be is "must end with '}'",
      '}' closes; otherwise a key, ':' and a value, stored with
      `map[key] = value` (a later duplicate key replaces the value), and
      then what follows the member. */
  function Members(h: Host, d: Dialect, c: Cursor, ms: seq<Member>): (r: Result<(seq<Member>, Cursor)>)
    requires DistinctKeys(ms) && forall i | 0 <= i < |ms| :: Parsed(ms[i].val)
    ensures r.Fail? ==> r.error.Syntax?
    ensures r.Ok? ==> Budget(r.value.1) < Budget(c)
    ensures r.Ok? ==> Parsed(Obj(r.value.0))
    ensures r.Ok? ==> forall k | Lookup(ms, k).Some? :: Lookup(r.value.0, k).Some?
    ensures NextSymbol(c).0 == NUL ==> r == ErrorAt(NextSymbol(c).1)
    ensures NextSymbol(c).0 == RBRACE ==> r == Ok((ms, NextSymbol(c).1))
    decreases Budget(c), 3
  {
    var (ch, c1) := NextSymbol(c);
    if ch == NUL then ErrorAt(c1)
    else if ch == RBRACE then Ok((ms, c1))
    else
      var (k, c2) :- Key(h, d, Unread(c1));
      var (v, c3) :- NextValue(h, d, c2);
      PutParsed(ms, k, v);
      MembersAfter(h, d, c3, Put(ms, k, v))
  }

  /** What follows a member: a separator and the next member, or '}'. A
      separator directly followed by '}' also closes. */
  function MembersAfter(h: Host, d: Dialect, c: Cursor, ms: seq<Member>): (r: Result<(seq<Member>, Cursor)>)
    requires DistinctKeys(ms) && forall i | 0 <= i < |ms| :: Parsed(ms[i].val)
    ensures r.Fail? ==> r.error.Syntax?
    ensures r.Ok? ==> Budget(r.value.1) < Budget(c)
    ensures r.Ok? ==> Parsed(Obj(r.value.0))
    ensures r.Ok? ==> forall k | Lookup(ms, k).Some? :: Lookup(r.value.0, k).Some?
    ensures NextSymbol(c).0 == RBRACE ==> r == Ok((ms, NextSymbol(c).1))
    ensures var (sep, c4) := NextSymbol(c);
      Separator(d, sep) && NextSymbol(c4).0 == RBRACE ==> r == Ok((ms, NextSymbol(c4).1))
    ensures var (sep, c4) := NextSymbol(c);
      Separator(d, sep) && NextSymbol(c4).0 != RBRACE ==> r == Members(h, d, Unread(NextSymbol(c4).1), ms)
    ensures var (sep, c4) := NextSymbol(c);
      !Separator(d, sep) && sep != RBRACE ==> r == ErrorAt(c4)
    decreases Budget(c), 4
  {
    var (sep, c4) := NextSymbol(c);
    if Separator(d, sep) then
      var (close, c5) := NextSymbol(c4);
      if close == RBRACE then Ok((ms, c5))
      else Members(h, d, Unread(c5), ms)
    else if sep == RBRACE then Ok((ms, c4))
    else ErrorAt(c4)
  }

  /** The characters that separate two members: ',' and, where the dialect
      allows it, ';'. */
  predicate Separator(d: Dialect, ch: Char16)
  {
    ch == COMMA || (d.semicolons && ch == SEMI)
  }

  /** Storing a parsed value keeps the members parsed and the keys distinct. */
  lemma PutParsed(ms: seq<Member>, k: Text, v: Value)
    requires DistinctKeys(ms) && forall i | 0 <= i < |ms| :: Parsed(ms[i].val)
    requires Parsed(v)
    ensures DistinctKeys(Put(ms, k, v)) && forall i | 0 <= i < |Put(ms, k, v)| :: Parsed(Put(ms, k, v)[i].val)
    ensures forall k' | Lookup(ms, k').Some? :: Lookup(Put(ms, k, v), k').Some?
  {
    PutDistinct(ms, k, v);
    var r := Put(ms, k, v);
    forall i | 0 <= i < |r| ensures Parsed(r[i].val) {
      LookupMember(r, i);
      if r[i].key != k {
        LookupMember(ms, KeyIndex(ms, r[i].key));
      }
    }
  }

  /** One turn of the member loop: the key and the value read are stored
      with `Put`, so the value replaces any earlier one under the same key,
      and the loop goes on with what follows the member. */
  lemma MemberStored(h: Host, d: Dialect, c: Cursor, ms: seq<Member>, k: Text, c2: Cursor, v: Value, c3: Cursor)
    requires DistinctKeys(ms) && forall i | 0 <= i < |ms| :: Parsed(ms[i].val)
    requires NextSymbol(c).0 != NUL && NextSymbol(c).0 != RBRACE
    requires Key(h, d, Unread(NextSymbol(c).1)) == Ok((k, c2))
    requires NextValue(h, d, c2) == Ok((v, c3))
    ensures DistinctKeys(Put(ms, k, v)) && forall i | 0 <= i < |Put(ms, k, v)| :: Parsed(Put(ms, k, v)[i].val)
    ensures Lookup(Put(ms, k, v), k) == Some(v)
    ensures Members(h, d, c, ms) == MembersAfter(h, d, c3, Put(ms, k, v))
  {
    PutParsed(ms, k, v);
  }

  /** The position of a key present in the members. */
  function KeyIndex(ms: seq<Member>, k: Text): (i: nat)
    requires Lookup(ms, k).Some?
    ensures i < |ms| && ms[i].key == k
  {
    if ms[0].key == k then 0 else 1 + KeyIndex(ms[1..], k)
  }

  /** The constructor `JSArray(tokener)`: '[', then ']' for an empty array
      or the elements. */
  function ParseArray(h: Host, d: Dialect, c: Cursor): (r: Result<(Value, Cursor)>)
    ensures r.Fail? ==> r.error.Syntax?
    ensures r.Ok? ==> Budget(r.value.1) < Budget(c) && r.value.0.Arr? && Parsed(r.value.0)
    decreases Budget(c), 0
  {
    var (ch, c1) := NextSymbol(c);
    if ch != LBRACKET then ErrorAt(c1)
    else
      var (ch2, c2) := NextSymbol(c1);
      if ch2 == RBRACKET then Ok((Arr([]), c2))
      else
        var (es, c3) :- Elements(h, d, Unread(c2), []);
        Ok((Arr(es), c3))
  }

  /** One element of the loop: a ',' where an element should be is an
      elided element, null, and the ',' is pushed back; anything else is
      pushed back and read with `nextValue()`. */
  function Element(h: Host, d: Dialect, c: Cursor): (r: Result<(Value, Cursor)>)
    ensures r.Fail? ==> r.error.Syntax?
    ensures r.Ok? ==> Budget(r.value.1) <= Budget(c) && Parsed(r.value.0)
    ensures NextSymbol(c).0 == COMMA <==> r == Ok((Null, Unread(NextSymbol(c).1)))
    ensures NextSymbol(c).0 != COMMA ==> r == NextValue(h, d, Unread(NextSymbol(c).1))
    decreases Budget(c), 2
  {
    var (ch, c1) := NextSymbol(c);
    if ch == COMMA then Ok((Null, Unread(c1))) else NextValue(h, d, Unread(c1))
  }

  /** The element loop: an element, then what follows it. */
  function Elements(h: Host, d: Dialect, c: Cursor, es: seq<Value>): (r: Result<(seq<Value>, Cursor)>)
    requires forall i | 0 <= i < |es| :: Parsed(es[i])
    ensures r.Fail? ==> r.error.Syntax?
    ensures r.Ok? ==> Budget(r.value.1) < Budget(c)
    ensures r.Ok? ==> forall i | 0 <= i < |r.value.0| :: Parsed(r.value.0[i])
    ensures r.Ok? ==> |r.value.0| > |es| && forall i | 0 <= i < |es| :: r.value.0[i] == es[i]
    decreases Budget(c), 4
  {
    var (v, c1) :- Element(h, d, c);
    ElementsAfter(h, d, c1, es + [v])
  }

  /** What follows an element: ',', which continues (or closes, when ']'
      follows it directly), or ']', which closes; anything else is
      "Expected a ',' or ']'". */
  function ElementsAfter(h: Host, d: Dialect, c: Cursor, es: seq<Value>): (r: Result<(seq<Value>, Cursor)>)
    requires forall i | 0 <= i < |es| :: Parsed(es[i])
    ensures r.Fail? ==> r.error.Syntax?
    ensures r.Ok? ==> Budget(r.value.1) < Budget(c)
    ensures r.Ok? ==> forall i | 0 <= i < |r.value.0| :: Parsed(r.value.0[i])
    ensures r.Ok? ==> |r.value.0| >= |es| && forall i | 0 <= i < |es| :: r.value.0[i] == es[i]
    ensures NextSymbol(c).0 == RBRACKET ==> r == Ok((es, NextSymbol(c).1))
    ensures var (sep, c2) := NextSymbol(c);
      sep == COMMA && NextSymbol(c2).0 == RBRACKET ==> r == Ok((es, NextSymbol(c2).1))
    ensures var (sep, c2) := NextSymbol(c);
      sep == COMMA && NextSymbol(c2).0 != RBRACKET ==> r == Elements(h, d, Unread(NextSymbol(c2).1), es)
    ensures var (sep, c2) := NextSymbol(c);
      sep != COMMA && sep != RBRACKET ==> r == ErrorAt(c2)
    decreases Budget(c), 3
  {
    var (sep, c2) := NextSymbol(c);
    if sep == COMMA then
      var (close, c3) := NextSymbol(c2);
      if close == RBRACKET then Ok((es, c3))
      else Elements(h, d, Unread(c3), es)
    else if sep == RBRACKET then Ok((es, c2))
    else ErrorAt(c2)
  }

  // ---------------------------------------------------------------------
  // The grammar on small texts

  /** Reading a symbol that starts the unread input. */
  lemma SymbolFirst(c: Cursor)
    requires !c.usePrevious && |c.rest| > 0 && c.rest[0] > SPACE
    ensures NextSymbol(c).0 == c.rest[0] && NextSymbol(c).1.rest == c.rest[1..]
  {
    assert SymbolAt(c.rest) == 0;
  }

  /** Reading a pushed-back symbol again. */
  lemma SymbolAgain(c: Cursor)
    requires c.usePrevious && c.prev > SPACE
    ensures NextSymbol(c).0 == c.prev && NextSymbol(c).1.rest == c.rest
  {
  }

  /** `[,,]`: each ',' where an element should be is an elided element,
      null; the second ',' is followed by ']', so it closes the array
      without a third null. The same in every dialect. */
  lemma ElidedElements(h: Host, d: Dialect, t: Text)
    requires |t| == 4 && t[0] == LBRACKET && t[1] == COMMA && t[2] == COMMA && t[3] == RBRACKET
    ensures var r := ParseArray(h, d, Start(t));
      r.Ok? && r.value.0 == Arr([Null, Null])
  {
    var c0 := Start(t);
    SymbolFirst(c0);
    var c1 := NextSymbol(c0).1;
    SymbolFirst(c1);
    var u2 := Unread(NextSymbol(c1).1);
    TwoElided(h, d, u2);
  }

  /** A pushed-back ',' followed by ",]": two elided elements. */
  lemma TwoElided(h: Host, d: Dialect, u: Cursor)
    requires u.usePrevious && u.prev == COMMA && u.rest == [COMMA, RBRACKET]
    ensures Elements(h, d, u, []).Ok? && Elements(h, d, u, []).value.0 == [Null, Null]
  {
    SymbolAgain(u);
    var c1 := Unread(NextSymbol(u).1);
    assert Element(h, d, u) == Ok((Null, c1));
    SymbolAgain(c1);
    var c2 := NextSymbol(c1).1;
    SymbolFirst(c2);
    ClosingElided(h, d, Unread(NextSymbol(c2).1), [Null]);
    assert [Null] + [Null] == [Null, Null] && [] + [Null] == [Null];
  }

  /** A pushed-back ',' followed by ']' is one more elided element, and the
      ',' then closes the array. */
  lemma ClosingElided(h: Host, d: Dialect, u: Cursor, es: seq<Value>)
    requires forall i | 0 <= i < |es| :: Parsed(es[i])
    requires u.usePrevious && u.prev == COMMA && u.rest == [RBRACKET]
    ensures Elements(h, d, u, es).Ok? && Elements(h, d, u, es).value.0 == es + [Null]
  {
    SymbolAgain(u);
    var c1 := Unread(NextSymbol(u).1);
    assert Element(h, d, u) == Ok((Null, c1));
    SymbolAgain(c1);
    var c2 := NextSymbol(c1).1;
    SymbolFirst(c2);
    assert ElementsAfter(h, d, c1, es + [Null]) == Ok((es + [Null], NextSymbol(c2).1));
  }

  /** ';' after an array element is a syntax error in every dialect: arrays
      are separated by ',' only, even where objects accept ';'. */
  lemma SemicolonInArray(h: Host, d: Dialect, c: Cursor, es: seq<Value>)
    requires forall i | 0 <= i < |es| :: Parsed(es[i])
    requires !c.usePrevious && |c.rest| > 0 && c.rest[0] == SEMI
    ensures ElementsAfter(h, d, c, es) == ErrorAt(NextSymbol(c).1)
  {
    SymbolFirst(c);
  }

  /** The letters of the example texts below. */
  const LOWER_A: Char16 := 0x61
  const LOWER_X: Char16 := 0x78
  const LOWER_Y: Char16 := 0x79

  /** A plain character: one that stands for itself inside a quoted string
      and is read as a symbol. */
  predicate PlainChar(x: Char16)
  {
    SPACE < x && x != QUOTE && x != BACKSLASH
  }

  /** `nextString` of one plain character and the closing quote. */
  lemma OneCharText(c: Cursor, x: Char16, legacy: bool)
    requires !c.usePrevious && |c.rest| >= 2 && c.rest[0] == x && c.rest[1] == QUOTE && PlainChar(x)
    ensures var r := NextString(c, QUOTE, legacy);
      r.Ok? && r.value.0 == [x] && r.value.1.rest == c.rest[2..] && !r.value.1.usePrevious
  {
    var c2 := Next(c).1;
    assert c2.rest == c.rest[1..];
    var c3 := Next(c2).1;
    assert NextString(c2, QUOTE, legacy) == Ok(([], c3));
    assert [x] + [] == [x];
  }

  /** A quoted string of one plain character, as a value. */
  lemma OneCharString(h: Host, d: Dialect, c: Cursor, x: Char16)
    requires NextSymbol(c).0 == QUOTE && PlainChar(x)
    requires |NextSymbol(c).1.rest| >= 2 && NextSymbol(c).1.rest[0] == x && NextSymbol(c).1.rest[1] == QUOTE
    ensures var r := NextValue(h, d, c);
      r.Ok? && r.value.0 == Str([x]) && r.value.1.rest == NextSymbol(c).1.rest[2..] && !r.value.1.usePrevious
  {
    OneCharText(NextSymbol(c).1, x, d.legacy);
  }

  /** A quoted key of one plain character and the ':' after it. */
  lemma OneCharKey(h: Host, d: Dialect, c: Cursor, k: Char16) returns (c': Cursor)
    requires NextSymbol(c).0 == QUOTE && PlainChar(k)
    requires |NextSymbol(c).1.rest| >= 3 && NextSymbol(c).1.rest[0] == k
    requires NextSymbol(c).1.rest[1] == QUOTE && NextSymbol(c).1.rest[2] == COLON
    ensures Key(h, d, c) == Ok(([k], c')) && c'.rest == NextSymbol(c).1.rest[3..] && !c'.usePrevious
  {
    OneCharString(h, d, c, k);
    var c2 := NextValue(h, d, c).value.1;
    SymbolFirst(c2);
    c' := NextSymbol(c2).1;
  }

  /** A member `"k":"x"` whose key and value are one plain character each,
      read by the member loop and stored with `Put`. */
  lemma OneMember(h: Host, d: Dialect, c: Cursor, ms: seq<Member>, k: Char16, x: Char16) returns (c': Cursor)
    requires DistinctKeys(ms) && forall i | 0 <= i < |ms| :: Parsed(ms[i].val)
    requires NextSymbol(c).0 == QUOTE && PlainChar(k) && PlainChar(x)
    requires var t := NextSymbol(c).1.rest;
      |t| >= 6 && t[0] == k && t[1] == QUOTE && t[2] == COLON && t[3] == QUOTE && t[4] == x && t[5] == QUOTE
    ensures DistinctKeys(Put(ms, [k], Str([x]))) && forall i | 0 <= i < |Put(ms, [k], Str([x]))| :: Parsed(Put(ms, [k], Str([x]))[i].val)
    ensures c'.rest == NextSymbol(c).1.rest[6..] && !c'.usePrevious
    ensures Members(h, d, c, ms) == MembersAfter(h, d, c', Put(ms, [k], Str([x])))
  {
    var t := NextSymbol(c).1.rest;
    var u := Unread(NextSymbol(c).1);
    SymbolAgain(u);
    var c3 := OneCharKey(h, d, u, k);
    assert c3.rest == t[3..];
    SymbolFirst(c3);
    assert NextSymbol(c3).1.rest == t[4..];
    OneCharString(h, d, c3, x);
    c' := NextValue(h, d, c3).value.1;
    assert c'.rest == t[6..];
    MemberStored(h, d, c, ms, [k], c3, Str([x]), c');
  }

  /** A member `"k":"x"` at the start of the unread input. */
  lemma MemberAt(h: Host, d: Dialect, c: Cursor, ms: seq<Member>, k: Char16, x: Char16) returns (c': Cursor)
    requires DistinctKeys(ms) && forall i | 0 <= i < |ms| :: Parsed(ms[i].val)
    requires PlainChar(k) && PlainChar(x) && !c.usePrevious && |c.rest| >= 7
    requires c.rest[0] == QUOTE && c.rest[1] == k && c.rest[2] == QUOTE && c.rest[3] == COLON
    requires c.rest[4] == QUOTE && c.rest[5] == x && c.rest[6] == QUOTE
    ensures DistinctKeys(Put(ms, [k], Str([x]))) && forall i | 0 <= i < |Put(ms, [k], Str([x]))| :: Parsed(Put(ms, [k], Str([x]))[i].val)
    ensures c'.rest == c.rest[7..] && !c'.usePrevious
    ensures Members(h, d, c, ms) == MembersAfter(h, d, c', Put(ms, [k], Str([x])))
  {
    SymbolFirst(c);
    c' := OneMember(h, d, c, ms, k, x);
  }

  /** The object grammar on a text that starts with '{'. */
  lemma ObjectOpens(h: Host, d: Dialect, t: Text) returns (c1: Cursor)
    requires |t| > 0 && t[0] == LBRACE
    ensures c1.rest == t[1..] && !c1.usePrevious
    ensures var m := Members(h, d, c1, []);
      ParseObject(h, d, Start(t)) == if m.Ok? then Ok((Obj(m.value.0), m.value.1)) else Fail(m.error)
  {
    SymbolFirst(Start(t));
    c1 := NextSymbol(Start(t)).1;
  }

  /** `{"k":"x"` at the start of a text: the object grammar continues
      after the first member with that member stored. */
  lemma ObjectWithMember(h: Host, d: Dialect, t: Text, k: Char16, x: Char16) returns (c2: Cursor, ms: seq<Member>)
    requires PlainChar(k) && PlainChar(x) && |t| >= 8
    requires t[0] == LBRACE && t[1] == QUOTE && t[2] == k && t[3] == QUOTE
    requires t[4] == COLON && t[5] == QUOTE && t[6] == x && t[7] == QUOTE
    ensures c2.rest == t[8..] && !c2.usePrevious && ms == [Member([k], Str([x]))]
    ensures var m := MembersAfter(h, d, c2, ms);
      ParseObject(h, d, Start(t)) == if m.Ok? then Ok((Obj(m.value.0), m.value.1)) else Fail(m.error)
  {
    assert Put([], [k], Str([x])) == [Member([k], Str([x]))];
    assert t[1..][7..] == t[8..];
    var c1 := ObjectOpens(h, d, t);
    c2 := MemberAt(h, d, c1, [], k, x);
    ms := [Member([k], Str([x]))];
  }

  /** `;}` after a member: the end of the object where ';' separates
      members, a syntax error where only ',' does. */
  lemma SemicolonClose(h: Host, d: Dialect, c: Cursor, ms: seq<Member>)
    requires DistinctKeys(ms) && forall i | 0 <= i < |ms| :: Parsed(ms[i].val)
    requires !c.usePrevious && c.rest == [SEMI, RBRACE]
    ensures var r := MembersAfter(h, d, c, ms);
      (r.Ok? <==> d.semicolons) && (r.Ok? ==> r.value.0 == ms)
  {
    SymbolFirst(c);
    if d.semicolons {
      SymbolFirst(NextSymbol(c).1);
    }
  }

  /** `{"a":"x";}`: the newer jdk8 grammar rejects the ';' after a member,
      the other two accept it, and a ';' directly followed by '}' closes
      the object. */
  lemma SemicolonSeparator(h: Host, d: Dialect, t: Text)
    requires |t| == 10 && t[0] == LBRACE && t[1] == QUOTE && t[2] == LOWER_A && t[3] == QUOTE && t[4] == COLON
    requires t[5] == QUOTE && t[6] == LOWER_X && t[7] == QUOTE && t[8] == SEMI && t[9] == RBRACE
    ensures var r := ParseObject(h, d, Start(t));
      (r.Ok? <==> d.semicolons) &&
      (r.Ok? ==> r.value.0 == Obj([Member([LOWER_A], Str([LOWER_X]))]))
  {
    assert t[8..] == [SEMI, RBRACE];
    var c2, ms := ObjectWithMember(h, d, t, LOWER_A, LOWER_X);
    SemicolonClose(h, d, c2, ms);
  }

  /** `{"a":"x","a":"y"}`: a key that comes again replaces the earlier
      value, in every dialect. */
  lemma DuplicateKeyLastWins(h: Host, d: Dialect, t: Text)
    requires |t| == 17 && t[0] == LBRACE && t[1] == QUOTE && t[2] == LOWER_A && t[3] == QUOTE && t[4] == COLON
    requires t[5] == QUOTE && t[6] == LOWER_X && t[7] == QUOTE && t[8] == COMMA && t[9] == QUOTE
    requires t[10] == LOWER_A && t[11] == QUOTE && t[12] == COLON && t[13] == QUOTE && t[14] == LOWER_Y
    requires t[15] == QUOTE && t[16] == RBRACE
    ensures var r := ParseObject(h, d, Start(t));
      r.Ok? && r.value.0 == Obj([Member([LOWER_A], Str([LOWER_Y]))])
  {
    var tail := t[8..];
    assert |tail| == 9 && tail[0] == COMMA && tail[1] == QUOTE && tail[2] == LOWER_A && tail[3] == QUOTE;
    assert tail[4] == COLON && tail[5] == QUOTE && tail[6] == LOWER_Y && tail[7] == QUOTE && tail[8] == RBRACE;
    var c2, ms := ObjectWithMember(h, d, t, LOWER_A, LOWER_X);
    SecondMember(h, d, c2, ms);
  }

  /** The rest of `{"a":"x","a":"y"}` after its first member. */
  lemma SecondMember(h: Host, d: Dialect, c: Cursor, ms: seq<Member>)
    requires ms == [Member([LOWER_A], Str([LOWER_X]))] && !c.usePrevious && |c.rest| == 9
    requires c.rest[0] == COMMA && c.rest[1] == QUOTE && c.rest[2] == LOWER_A && c.rest[3] == QUOTE
    requires c.rest[4] == COLON && c.rest[5] == QUOTE && c.rest[6] == LOWER_Y && c.rest[7] == QUOTE
    requires c.rest[8] == RBRACE
    ensures var r := MembersAfter(h, d, c, ms);
      r.Ok? && r.value.0 == [Member([LOWER_A], Str([LOWER_Y]))]
  {
    SymbolFirst(c);
    var c1 := NextSymbol(c).1;
    SymbolFirst(c1);
    var u := Unread(NextSymbol(c1).1);
    SymbolAgain(u);
    var c2 := OneMember(h, d, u, ms, LOWER_A, LOWER_Y);
    assert Put(ms, [LOWER_A], Str([LOWER_Y])) == [Member([LOWER_A], Str([LOWER_Y]))];
    SymbolFirst(c2);
  }


  // ---------------------------------------------------------------------
  // Entry points

  /** `parseJsonObject(options, json)`: with `comments` set the text goes
      through `removeComments` first (whose body is not part of this model,
      hence a parameter); the object grammar then reads it from the start.
      The single-argument overload passes the global options, whose
      `comments` is false by default. */
  function ParseJsonObject(h: Host, d: Dialect, comments: bool, removeComments: Text -> Text, json: Text): (r: Result<Value>)
    ensures r.Ok? ==> r.value.Obj? && Parsed(r.value)
    ensures r.Fail? ==> r.error.Syntax?
  {
    var str := if comments then removeComments(json) else json;
    var (v, _) :- ParseObject(h, d, Start(str));
    Ok(v)
  }

  /** `parseJsonArray(options, json)`, likewise with the array grammar. */
  function ParseJsonArray(h: Host, d: Dialect, comments: bool, removeComments: Text -> Text, json: Text): (r: Result<Value>)
    ensures r.Ok? ==> r.value.Arr? && Parsed(r.value)
    ensures r.Fail? ==> r.error.Syntax?
  {
    var str := if comments then removeComments(json) else json;
    var (v, _) :- ParseArray(h, d, Start(str));
    Ok(v)
  }

  /** Only the first character after blanks decides whether a text can be
      an object: anything but '{' is a syntax error at once. */
  lemma NotAnObject(h: Host, d: Dialect, removeComments: Text -> Text, json: Text)
    requires NextSymbol(Start(json)).0 != LBRACE
    ensures ParseJsonObject(h, d, false, removeComments, json) == ErrorAt(NextSymbol(Start(json)).1)
  {
  }

  lemma NotAnArray(h: Host, d: Dialect, removeComments: Text -> Text, json: Text)
    requires NextSymbol(Start(json)).0 != LBRACKET
    ensures ParseJsonArray(h, d, false, removeComments, json) == ErrorAt(NextSymbol(Start(json)).1)
  {
  }
}
