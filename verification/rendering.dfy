/** The renderer of the newer lineage: `escape`, `renderString`, `indent`,
    `valueCheckToNewline`, `buildJsonObjectString`/`buildJsonArrayString`
    and the `renderValue` dispatch, plus Kotlin `toString()` of every value
    (which for a JSObject/JSArray is `toJsonString(0)`).

    Rendering can fail, so every renderer returns a Result:
    - a value of a kind `renderValue` does not know throws IllegalStateException;
    - a raw host map with a key that is not a String throws ClassCastException:
      `value as? Map<String, *>` is an unchecked cast that always succeeds, so
      the key reaches `renderString` unconverted. */
module Rendering {
  import opened Base
  import opened Numbers
  import opened Values

  // ---------------------------------------------------------------------
  // Escaping

  /** The three ranges written as `\uXXXX`. */
  predicate InUnicodeEscapeRange(c: Char16)
  {
    c <= 0x1F || (0x7F <= c <= 0x9F) || (0x2000 <= c <= 0x20FF)
  }

  /** True of the characters `escape` leaves unchanged. */
  predicate PlainChar(c: Char16)
  {
    c != QUOTE && c != BACKSLASH && !InUnicodeEscapeRange(c)
  }

  /** How `escape` writes one character. */
  function EscapeChar(c: Char16): (t: Text)
    ensures |t| >= 1
    ensures |t| == 1 <==> PlainChar(c)
    ensures PlainChar(c) ==> t == [c]
    ensures forall i | 0 <= i < |t| :: !InUnicodeEscapeRange(t[i])
    ensures forall i | 0 <= i < |t| && t[i] == QUOTE :: i == 1 && t[0] == BACKSLASH
  {
    if c == QUOTE then [BACKSLASH, QUOTE]
    else if c == BACKSLASH then [BACKSLASH, BACKSLASH]
    else if c == LF then [BACKSLASH, LOWER_N]
    else if c == CR then [BACKSLASH, LOWER_R]
    else if c == TAB then [BACKSLASH, LOWER_T]
    else if c == BS then [BACKSLASH, LOWER_B]
    else if c == FF then [BACKSLASH, LOWER_F]
    else if InUnicodeEscapeRange(c) then
      var hex := PadStart(ToHexString(c), 4, ZERO);
      HexDigitsPlain(c);
      [BACKSLASH, LOWER_U] + hex
    else [c]
  }

  /** The hexadecimal digits of a code unit are plain ASCII letters and digits. */
  lemma HexDigitsPlain(c: Char16)
    ensures forall i | 0 <= i < |PadStart(ToHexString(c), 4, ZERO)| ::
      0x30 <= PadStart(ToHexString(c), 4, ZERO)[i] <= 0x66
  {
    HexDigitsAlnum(c);
  }

  lemma {:induction false} HexDigitsAlnum(n: nat)
    ensures forall i | 0 <= i < |HexDigits(n)| :: 0x30 <= HexDigits(n)[i] <= 0x66
    decreases n
  {
    if n >= 16 {
      HexDigitsAlnum(n / 16);
    }
  }

  /** `escape(str)`. */
  function Escape(s: Text): (t: Text)
    ensures |t| >= |s|
    ensures forall i | 0 <= i < |t| :: !InUnicodeEscapeRange(t[i])
  {
    if |s| == 0 then [] else EscapeChar(s[0]) + Escape(s[1..])
  }

  /** `renderString(str)`: the escaped text between double quotes. */
  function RenderString(s: Text): (t: Text)
    ensures |t| >= 2 && t[0] == QUOTE && t[|t| - 1] == QUOTE
    ensures t[1..|t| - 1] == Escape(s)
  {
    [QUOTE] + Escape(s) + [QUOTE]
  }

  /** `escape` changes a string exactly when it holds a character it escapes. */
  lemma {:induction false} EscapeIdentity(s: Text)
    ensures Escape(s) == s <==> forall i | 0 <= i < |s| :: PlainChar(s[i])
    decreases |s|
  {
    if |s| > 0 {
      EscapeIdentity(s[1..]);
      var head := EscapeChar(s[0]);
      var tail := Escape(s[1..]);
      if Escape(s) == s {
        assert |head| == 1 by { assert |head| + |tail| == |s| && |tail| >= |s| - 1; }
        assert head == [s[0]];
        assert tail == s[1..] by { assert Escape(s)[1..] == tail; }
        assert forall i | 1 <= i < |s| :: s[i] == s[1..][i - 1];
      }
      if forall i | 0 <= i < |s| :: PlainChar(s[i]) {
        assert forall i | 0 <= i < |s[1..]| :: s[1..][i] == s[i + 1];
        assert Escape(s) == [s[0]] + s[1..];
      }
    }
  }

  /** The escaped text never holds a raw double quote except as the second
      half of the two-character escape `\"`. */
  lemma {:induction false} EscapeQuotes(s: Text)
    ensures forall i | 0 <= i < |Escape(s)| && Escape(s)[i] == QUOTE ::
      i > 0 && Escape(s)[i - 1] == BACKSLASH
    decreases |s|
  {
    if |s| > 0 {
      EscapeQuotes(s[1..]);
      var head := EscapeChar(s[0]);
      var tail := Escape(s[1..]);
      assert Escape(s) == head + tail;
      forall i | 0 <= i < |head + tail| && (head + tail)[i] == QUOTE
        ensures i > 0 && (head + tail)[i - 1] == BACKSLASH
      {
        if i >= |head| {
          assert tail[i - |head|] == QUOTE;
          assert (head + tail)[i - 1] == tail[i - |head| - 1];
        }
      }
    }
  }

  // ---------------------------------------------------------------------
  // Layout

  /** `padStart(n)` on the empty string: n spaces. */
  function Spaces(n: nat): (t: Text)
    ensures |t| == n && forall i | 0 <= i < n :: t[i] == SPACE
  {
    seq(n, _ => SPACE)
  }

  /** `indent(indent, level)`: level·indent spaces when both are non-zero. */
  function Indent(indent: nat, level: nat): (t: Text)
    ensures |t| == level * indent
    ensures forall i | 0 <= i < |t| :: t[i] == SPACE
  {
    if level != 0 && indent != 0 then Spaces(level * indent) else []
  }

  /** `valueCheckToNewline`: in pretty mode, a newline goes before every
      element that is not a Map, List or Array. */
  predicate NewlineBefore(v: Value, indent: int)
  {
    indent > 0 && !(v.Obj? || v.HostMap? || v.Arr? || v.HostList? || v.HostArray?)
  }

  /** The text a container renderer writes before its opening bracket. */
  function OpenPrefix(indent: int, level: nat, newline: bool): (t: Text)
    ensures indent <= 0 || level == 0 || !newline ==> t == []
  {
    if indent > 0 && level > 0 && newline then [LF] + Indent(indent, level) else []
  }

  /** The text a container renderer writes before its closing bracket. */
  function ClosePrefix(indent: int, level: nat): (t: Text)
    ensures indent <= 0 ==> t == []
  {
    if indent > 0 then [LF] + Indent(indent, level) else []
  }

  /** Joins rendered parts with ',' as the renderers do. */
  function JoinCommas(parts: seq<Text>): (t: Text)
    ensures |parts| == 0 ==> t == []
    ensures |parts| == 1 ==> t == parts[0]
  {
    if |parts| == 0 then []
    else if |parts| == 1 then parts[0]
    else parts[0] + [COMMA] + JoinCommas(parts[1..])
  }

  // ---------------------------------------------------------------------
  // renderValue and the container renderers

  /** `renderValue(value, indent, level, newline)`. */
  function RenderValue(h: Host, v: Value, indent: int, level: nat, newline: bool): (r: Result<Text>)
    ensures r.Fail? ==> r.error == IllegalState || r.error == ClassCast
    ensures r.Fail? && r.error == IllegalState && !v.Obj? && !v.Arr? && !v.HostMap? && !v.HostList? && !v.HostArray? ==>
      v.OtherNumber? || v.HostPair? || v.HostSet? || v.Unsupported?
    decreases v, 0
  {
    match v
    case Null => Ok(NULL_WORD)
    case Bool(b) => Ok(if b then TRUE_WORD else FALSE_WORD)
    case Str(s) => Ok(Escape(s))
    case Int(i) => Ok(Decimal(i))
    case Long(l) => Ok(Decimal(l))
    case Float(f) => Ok(h.doubleText(h.floatToDouble(f)))
    case Double(d) => Ok(h.doubleText(d))
    case BigInteger(n) => Ok(Decimal(n))
    case AtomicInt(i) => Ok(Decimal(i))
    case AtomicLong(l) => Ok(Decimal(l))
    case Obj(ms) => BuildObject(h, ms, indent, level + 1, newline)
    case Arr(es) => BuildArray(h, es, indent, level + 1, newline)
    case HostMap(es) => BuildEntries(h, es, indent, level + 1, newline)
    case HostList(es) => BuildArray(h, es, indent, level + 1, newline)
    case HostArray(es) => BuildArray(h, es, indent, level + 1, newline)
    case OtherNumber(_) => Fail(IllegalState)
    case HostPair(_, _) => Fail(IllegalState)
    case HostSet(_) => Fail(IllegalState)
    case Unsupported(_) => Fail(IllegalState)
  }

  /** `buildJsonObjectString(indent, level, newline)` of a JSObject. */
  function BuildObject(h: Host, ms: seq<Member>, indent: int, level: nat, newline: bool): (r: Result<Text>)
    ensures r.Ok? ==> |r.value| >= 2 && r.value[|r.value| - 1] == RBRACE
    ensures r.Fail? ==> r.error == IllegalState || r.error == ClassCast
    decreases ms, 2
  {
    var body :- RenderMembers(h, ms, indent, level);
    Ok(OpenPrefix(indent, level, newline) + [LBRACE] + body + ClosePrefix(indent, level) + [RBRACE])
  }

  /** The members of an object, comma separated. */
  function RenderMembers(h: Host, ms: seq<Member>, indent: int, level: nat): (r: Result<Text>)
    ensures r.Fail? ==> r.error == IllegalState || r.error == ClassCast
    decreases ms, 1
  {
    if |ms| == 0 then Ok([])
    else
      var m := ms[0];
      assert m.val < m;
      var first :- MemberText(h, m.key, m.val, indent, level);
      var rest :- RenderMembers(h, ms[1..], indent, level);
      Ok(first + (if |ms| > 1 then [COMMA] else []) + rest)
  }

  /** A raw host map rendered as an object; a non-String key fails. */
  function BuildEntries(h: Host, es: seq<Entry>, indent: int, level: nat, newline: bool): (r: Result<Text>)
    ensures r.Fail? ==> r.error == IllegalState || r.error == ClassCast
    ensures (exists i | 0 <= i < |es| :: !es[i].key.Str?) ==> r.Fail?
    decreases es, 2
  {
    var body :- RenderEntries(h, es, indent, level);
    Ok(OpenPrefix(indent, level, newline) + [LBRACE] + body + ClosePrefix(indent, level) + [RBRACE])
  }

  function RenderEntries(h: Host, es: seq<Entry>, indent: int, level: nat): (r: Result<Text>)
    ensures r.Fail? ==> r.error == IllegalState || r.error == ClassCast
    ensures (exists i | 0 <= i < |es| :: !es[i].key.Str?) ==> r.Fail?
    decreases es, 1
  {
    if |es| == 0 then Ok([])
    else
      var e := es[0];
      assert e.val < e;
      if !e.key.Str? then Fail(ClassCast)
      else
        var first :- MemberText(h, e.key.s, e.val, indent, level);
        var rest :- RenderEntries(h, es[1..], indent, level);
        assert forall i | 1 <= i < |es| :: es[i] == es[1..][i - 1];
        Ok(first + (if |es| > 1 then [COMMA] else []) + rest)
  }

  /** One `"key":value` member. A String value is rendered by `renderValue`
      (which escapes it) and then passed through `renderString` (which
      escapes it again). */
  function MemberText(h: Host, k: Text, v: Value, indent: int, level: nat): (r: Result<Text>)
    ensures r.Fail? ==> r.error == IllegalState || r.error == ClassCast
    decreases v, 1
  {
    var conv :- RenderValue(h, v, indent, level, false);
    var lead := if indent > 0 then [LF] + Indent(indent, level + 1) else [];
    var gap := if indent > 0 then [SPACE] else [];
    Ok(lead + RenderString(k) + [COLON] + gap + (if v.Str? then RenderString(conv) else conv))
  }

  /** `buildJsonArrayString(indent, level, newline)` of a list or array. */
  function BuildArray(h: Host, es: seq<Value>, indent: int, level: nat, newline: bool): (r: Result<Text>)
    ensures r.Ok? ==> |r.value| >= 2 && r.value[|r.value| - 1] == RBRACKET
    ensures r.Fail? ==> r.error == IllegalState || r.error == ClassCast
    decreases es, 2
  {
    var body :- RenderElements(h, es, indent, level);
    Ok(OpenPrefix(indent, level, newline) + [LBRACKET] + body + ClosePrefix(indent, level) + [RBRACKET])
  }

  function RenderElements(h: Host, es: seq<Value>, indent: int, level: nat): (r: Result<Text>)
    ensures r.Fail? ==> r.error == IllegalState || r.error == ClassCast
    decreases es, 1
  {
    if |es| == 0 then Ok([])
    else
      var first :- ElementText(h, es[0], indent, level);
      var rest :- RenderElements(h, es[1..], indent, level);
      Ok(first + (if |es| > 1 then [COMMA] else []) + rest)
  }

  /** One array element: a newline before scalars in pretty mode, the
      element indent, then the rendered value (Strings escaped twice). */
  function ElementText(h: Host, v: Value, indent: int, level: nat): (r: Result<Text>)
    ensures r.Fail? ==> r.error == IllegalState || r.error == ClassCast
    decreases v, 1
  {
    var conv :- RenderValue(h, v, indent, level, true);
    var lead := (if NewlineBefore(v, indent) then [LF] else [])
      + (if indent > 0 then Indent(indent, level + 1) else []);
    Ok(lead + (if v.Str? then RenderString(conv) else conv))
  }

  // ---------------------------------------------------------------------
  // Entry points and toString

  /** `JSObject.toJsonString(indent)` / `Map<String, *>.toJsonString(indent)`. */
  function ObjectJson(h: Host, ms: seq<Member>, indent: int): Result<Text>
  {
    BuildObject(h, ms, indent, 0, false)
  }

  /** `JSArray.toJsonString(indent)` / `List.toJsonString(indent)`. */
  function ArrayJson(h: Host, es: seq<Value>, indent: int): Result<Text>
  {
    BuildArray(h, es, indent, 0, false)
  }

  /** Kotlin `toString()` (and string templates `"$v"`): "null" for null, the
      decimal digits of integers, the string itself, `toJsonString(0)` for a
      JSObject/JSArray, and the collection formats of the standard library
      ("(a, b)", "[a, b]", "{k=v, ...}") for host values. */
  function ToText(h: Host, v: Value): (r: Result<Text>)
    ensures v.Str? ==> r == Ok(v.s)
    ensures v.Null? ==> r == Ok(NULL_WORD)
    ensures v.Obj? ==> r == ObjectJson(h, v.members, 0)
    ensures v.Arr? ==> r == ArrayJson(h, v.elems, 0)
    ensures r.Fail? ==> r.error == IllegalState || r.error == ClassCast
    ensures r.Fail? ==> v.Obj? || v.Arr? || v.HostPair? || v.HostMap? || v.HostList? || v.HostSet?
    decreases v, 1
  {
    match v
    case Null => Ok(NULL_WORD)
    case Bool(b) => Ok(if b then TRUE_WORD else FALSE_WORD)
    case Str(s) => Ok(s)
    case Int(i) => Ok(Decimal(i))
    case Long(l) => Ok(Decimal(l))
    case Double(d) => Ok(h.doubleText(d))
    case BigInteger(n) => Ok(Decimal(n))
    case AtomicInt(i) => Ok(Decimal(i))
    case AtomicLong(l) => Ok(Decimal(l))
    case Obj(ms) => ObjectJson(h, ms, 0)
    case Arr(es) => ArrayJson(h, es, 0)
    case HostPair(a, b) =>
      var ta :- ToText(h, a);
      var tb :- ToText(h, b);
      Ok([0x28] + ta + [COMMA, SPACE] + tb + [0x29])
    case HostMap(es) =>
      var body :- EntriesText(h, es);
      Ok([LBRACE] + body + [RBRACE])
    case HostList(es) =>
      var body :- ItemsText(h, es);
      Ok([LBRACKET] + body + [RBRACKET])
    case HostSet(es) =>
      var body :- ItemsText(h, es);
      Ok([LBRACKET] + body + [RBRACKET])
    case Float(_) => Ok(h.hostText(v))
    case OtherNumber(_) => Ok(h.hostText(v))
    case HostArray(_) => Ok(h.hostText(v))
    case Unsupported(_) => Ok(h.hostText(v))
  }

  /** A map entry's `toString()`: "key=value". */
  function EntryText(h: Host, e: Entry): (r: Result<Text>)
    ensures r.Fail? ==> r.error == IllegalState || r.error == ClassCast
    decreases e, 2
  {
    var k :- ToText(h, e.key);
    var v :- ToText(h, e.val);
    Ok(k + [EQ] + v)
  }

  function EntriesText(h: Host, es: seq<Entry>): (r: Result<Text>)
    ensures r.Fail? ==> r.error == IllegalState || r.error == ClassCast
    decreases es, 0
  {
    if |es| == 0 then Ok([])
    else
      var first :- EntryText(h, es[0]);
      var rest :- EntriesText(h, es[1..]);
      Ok(first + (if |es| > 1 then [COMMA, SPACE] else []) + rest)
  }

  function ItemsText(h: Host, es: seq<Value>): (r: Result<Text>)
    ensures r.Fail? ==> r.error == IllegalState || r.error == ClassCast
    decreases es, 0
  {
    if |es| == 0 then Ok([])
    else
      var first :- ToText(h, es[0]);
      var rest :- ItemsText(h, es[1..]);
      Ok(first + (if |es| > 1 then [COMMA, SPACE] else []) + rest)
  }

  // ---------------------------------------------------------------------
  // Properties of the layout

  /** Joining n > 0 comma-free parts writes exactly n - 1 commas. */
  lemma {:induction false} JoinCommasCount(parts: seq<Text>)
    requires |parts| > 0
    requires forall i | 0 <= i < |parts| :: !Contains(parts[i], COMMA)
    ensures Count(JoinCommas(parts), COMMA) == |parts| - 1
    decreases |parts|
  {
    if |parts| > 1 {
      JoinCommasCount(parts[1..]);
      CountAppend(parts[0] + [COMMA], JoinCommas(parts[1..]), COMMA);
      CountAppend(parts[0], [COMMA], COMMA);
      assert Count([COMMA], COMMA) == 1 by { assert [COMMA][1..] == []; }
    }
  }

  /** The texts of an object's members, one per member. */
  function MemberTexts(h: Host, ms: seq<Member>, indent: int, level: nat): (r: Result<seq<Text>>)
    ensures r.Ok? ==> |r.value| == |ms|
    ensures r.Ok? ==> forall i | 0 <= i < |ms| :: MemberText(h, ms[i].key, ms[i].val, indent, level) == Ok(r.value[i])
  {
    if |ms| == 0 then Ok([])
    else
      var first :- MemberText(h, ms[0].key, ms[0].val, indent, level);
      var rest :- MemberTexts(h, ms[1..], indent, level);
      assert forall i | 1 <= i < |ms| :: ms[i] == ms[1..][i - 1];
      Ok([first] + rest)
  }

  /** The texts of an array's elements, one per element. */
  function ElementTexts(h: Host, es: seq<Value>, indent: int, level: nat): (r: Result<seq<Text>>)
    ensures r.Ok? ==> |r.value| == |es|
    ensures r.Ok? ==> forall i | 0 <= i < |es| :: ElementText(h, es[i], indent, level) == Ok(r.value[i])
  {
    if |es| == 0 then Ok([])
    else
      var first :- ElementText(h, es[0], indent, level);
      var rest :- ElementTexts(h, es[1..], indent, level);
      assert forall i | 1 <= i < |es| :: es[i] == es[1..][i - 1];
      Ok([first] + rest)
  }

  /** An object's body is its member texts joined by single commas, and it
      fails exactly when some member fails. */
  lemma {:induction false} RenderMembersJoin(h: Host, ms: seq<Member>, indent: int, level: nat)
    ensures RenderMembers(h, ms, indent, level).Ok? <==> MemberTexts(h, ms, indent, level).Ok?
    ensures MemberTexts(h, ms, indent, level).Ok? ==>
      RenderMembers(h, ms, indent, level).value == JoinCommas(MemberTexts(h, ms, indent, level).value)
    decreases |ms|
  {
    if |ms| > 0 {
      RenderMembersJoin(h, ms[1..], indent, level);
      var first := MemberText(h, ms[0].key, ms[0].val, indent, level);
      if first.Ok? && MemberTexts(h, ms[1..], indent, level).Ok? {
        var rest := MemberTexts(h, ms[1..], indent, level).value;
        var parts := [first.value] + rest;
        assert MemberTexts(h, ms, indent, level) == Ok(parts);
        assert parts[1..] == rest;
        if |ms| == 1 {
          assert RenderMembers(h, ms, indent, level).value == first.value + [] + [];
        }
      }
    }
  }

  /** An array's body is its element texts joined by single commas, and it
      fails exactly when some element fails. */
  lemma {:induction false} RenderElementsJoin(h: Host, es: seq<Value>, indent: int, level: nat)
    ensures RenderElements(h, es, indent, level).Ok? <==> ElementTexts(h, es, indent, level).Ok?
    ensures ElementTexts(h, es, indent, level).Ok? ==>
      RenderElements(h, es, indent, level).value == JoinCommas(ElementTexts(h, es, indent, level).value)
    decreases |es|
  {
    if |es| > 0 {
      RenderElementsJoin(h, es[1..], indent, level);
      var first := ElementText(h, es[0], indent, level);
      if first.Ok? && ElementTexts(h, es[1..], indent, level).Ok? {
        var rest := ElementTexts(h, es[1..], indent, level).value;
        var parts := [first.value] + rest;
        assert ElementTexts(h, es, indent, level) == Ok(parts);
        assert parts[1..] == rest;
        if |es| == 1 {
          assert RenderElements(h, es, indent, level).value == first.value + [] + [];
        }
      }
    }
  }

  /** Compact output of an object is the braces around the comma-joined
      member texts, with nothing else inserted. */
  lemma CompactObject(h: Host, ms: seq<Member>)
    requires MemberTexts(h, ms, 0, 0).Ok?
    ensures ObjectJson(h, ms, 0) == Ok([LBRACE] + JoinCommas(MemberTexts(h, ms, 0, 0).value) + [RBRACE])
  {
    RenderMembersJoin(h, ms, 0, 0);
    CompactObjectBody(h, ms);
  }

  lemma CompactObjectBody(h: Host, ms: seq<Member>)
    requires RenderMembers(h, ms, 0, 0).Ok?
    ensures BuildObject(h, ms, 0, 0, false) == Ok([LBRACE] + RenderMembers(h, ms, 0, 0).value + [RBRACE])
  {
    BuildObjectUnfold(h, ms, 0, 0, false);
    Braced(RenderMembers(h, ms, 0, 0).value);
  }

  lemma BuildObjectUnfold(h: Host, ms: seq<Member>, indent: int, level: nat, newline: bool)
    requires RenderMembers(h, ms, indent, level).Ok?
    ensures BuildObject(h, ms, indent, level, newline) ==
      Ok(OpenPrefix(indent, level, newline) + [LBRACE] + RenderMembers(h, ms, indent, level).value + ClosePrefix(indent, level) + [RBRACE])
  {
  }

  lemma Braced(body: Text)
    ensures OpenPrefix(0, 0, false) + [LBRACE] + body + ClosePrefix(0, 0) + [RBRACE] == [LBRACE] + body + [RBRACE]
  {
    assert OpenPrefix(0, 0, false) == [] && ClosePrefix(0, 0) == [];
    assert [] + [LBRACE] + body + [] + [RBRACE] == [LBRACE] + body + [RBRACE];
  }

  /** Compact output of an array is the brackets around the comma-joined
      element texts, with nothing else inserted. */
  lemma CompactArray(h: Host, es: seq<Value>)
    requires ElementTexts(h, es, 0, 0).Ok?
    ensures ArrayJson(h, es, 0) == Ok([LBRACKET] + JoinCommas(ElementTexts(h, es, 0, 0).value) + [RBRACKET])
  {
    RenderElementsJoin(h, es, 0, 0);
    var body := RenderElements(h, es, 0, 0).value;
    assert OpenPrefix(0, 0, false) == [] && ClosePrefix(0, 0) == [];
    assert BuildArray(h, es, 0, 0, false) == Ok([] + [LBRACKET] + body + [] + [RBRACKET]);
    assert [] + [LBRACKET] + body + [] + [RBRACKET] == [LBRACKET] + body + [RBRACKET];
  }

  /** Empty containers: "{}" and "[]" compact; in pretty mode at level 0 the
      closing bracket goes on its own line, unindented. */
  lemma EmptyContainers(h: Host, indent: int)
    ensures ObjectJson(h, [], indent) == Ok(if indent > 0 then [LBRACE, LF, RBRACE] else [LBRACE, RBRACE])
    ensures ArrayJson(h, [], indent) == Ok(if indent > 0 then [LBRACKET, LF, RBRACKET] else [LBRACKET, RBRACKET])
  {
    assert RenderMembers(h, [], indent, 0) == Ok([]);
    assert RenderElements(h, [], indent, 0) == Ok([]);
    var close := ClosePrefix(indent, 0);
    assert OpenPrefix(indent, 0, false) == [];
    assert close == if indent > 0 then [LF] else [];
    var e: Text := [];
    assert BuildObject(h, [], indent, 0, false) == Ok(e + [LBRACE] + e + close + [RBRACE]);
    assert BuildArray(h, [], indent, 0, false) == Ok(e + [LBRACKET] + e + close + [RBRACKET]);
    if indent > 0 {
      assert e + [LBRACE] + e + [LF] + [RBRACE] == [LBRACE, LF, RBRACE];
      assert e + [LBRACKET] + e + [LF] + [RBRACKET] == [LBRACKET, LF, RBRACKET];
    } else {
      assert e + [LBRACE] + e + e + [RBRACE] == [LBRACE, RBRACE];
      assert e + [LBRACKET] + e + e + [RBRACKET] == [LBRACKET, RBRACKET];
    }
  }

  /** In pretty mode each member starts on a new line indented one level
      deeper than its object, and its quoted key is followed by ": ". */
  lemma PrettyMember(h: Host, k: Text, v: Value, indent: int, level: nat)
    requires indent > 0 && MemberText(h, k, v, indent, level).Ok?
    ensures var t := MemberText(h, k, v, indent, level).value;
      var head := [LF] + Spaces((level + 1) * indent) + RenderString(k) + [COLON, SPACE];
      |t| >= |head| && t[..|head|] == head
  {
    var lead: Text := [LF] + Indent(indent, level + 1);
    var head := lead + RenderString(k) + [COLON] + [SPACE];
    var tail := PrettyMemberShape(h, k, v, indent, level);
    assert (head + tail)[..|head|] == head;
    assert Indent(indent, level + 1) == Spaces((level + 1) * indent);
    assert head == [LF] + Spaces((level + 1) * indent) + RenderString(k) + [COLON, SPACE];
  }

  /** The pretty member text is its head followed by the rendered value. */
  lemma PrettyMemberShape(h: Host, k: Text, v: Value, indent: int, level: nat) returns (tail: Text)
    requires indent > 0 && MemberText(h, k, v, indent, level).Ok?
    ensures MemberText(h, k, v, indent, level).value ==
      [LF] + Indent(indent, level + 1) + RenderString(k) + [COLON] + [SPACE] + tail
  {
    var conv := RenderValue(h, v, indent, level, false).value;
    tail := if v.Str? then RenderString(conv) else conv;
  }

  /** A String VALUE is escaped twice: `renderValue` escapes it and the
      member writer escapes the result again inside the quotes. */
  lemma StringValueEscapedTwice(h: Host, k: Text, s: Text, level: nat)
    ensures MemberText(h, k, Str(s), 0, level) == Ok(RenderString(k) + [COLON] + RenderString(Escape(s)))
    ensures ElementText(h, Str(s), 0, level) == Ok(RenderString(Escape(s)))
  {
    StringMemberCompact(h, k, s, level);
    StringElementCompact(h, s, level);
  }

  lemma StringMemberCompact(h: Host, k: Text, s: Text, level: nat)
    ensures MemberText(h, k, Str(s), 0, level) == Ok(RenderString(k) + [COLON] + RenderString(Escape(s)))
  {
    assert RenderValue(h, Str(s), 0, level, false) == Ok(Escape(s));
    var tail := CompactMemberShape(h, k, Str(s), level);
    DropEmpty([], RenderString(k), [COLON], tail);
  }

  /** The compact member text is its quoted key, ':' and the value text. */
  lemma CompactMemberShape(h: Host, k: Text, v: Value, level: nat) returns (tail: Text)
    requires RenderValue(h, v, 0, level, false).Ok?
    ensures tail == var conv := RenderValue(h, v, 0, level, false).value;
      if v.Str? then RenderString(conv) else conv
    ensures MemberText(h, k, v, 0, level) == Ok([] + RenderString(k) + [COLON] + [] + tail)
  {
    var conv := RenderValue(h, v, 0, level, false).value;
    tail := if v.Str? then RenderString(conv) else conv;
  }

  lemma StringElementCompact(h: Host, s: Text, level: nat)
    ensures ElementText(h, Str(s), 0, level) == Ok(RenderString(Escape(s)))
  {
    assert RenderValue(h, Str(s), 0, level, true) == Ok(Escape(s));
    assert !NewlineBefore(Str(s), 0);
    var e: Text := [];
    assert ElementText(h, Str(s), 0, level) == Ok(e + e + RenderString(Escape(s)));
    assert e + e + RenderString(Escape(s)) == RenderString(Escape(s));
  }

  /** Escaping twice differs from escaping once exactly when the string
      holds a character `escape` changes. */
  lemma {:induction false} DoubleEscapeDiffers(s: Text)
    ensures Escape(Escape(s)) == Escape(s) <==> Escape(s) == s
  {
    EscapeIdentity(s);
    EscapeIdentity(Escape(s));
    if Escape(s) != s {
      var i :| 0 <= i < |s| && !PlainChar(s[i]);
      EscapeHasBackslash(s, i);
    }
  }

  /** Escaping a character that is not plain writes a backslash. */
  lemma {:induction false} EscapeHasBackslash(s: Text, i: nat)
    requires i < |s| && !PlainChar(s[i])
    ensures exists j | 0 <= j < |Escape(s)| :: !PlainChar(Escape(s)[j])
    decreases |s|
  {
    if i == 0 {
      assert EscapeChar(s[0])[0] == BACKSLASH;
      assert Escape(s)[0] == BACKSLASH;
    } else {
      EscapeHasBackslash(s[1..], i - 1);
      var j :| 0 <= j < |Escape(s[1..])| && !PlainChar(Escape(s[1..])[j]);
      assert Escape(s)[|EscapeChar(s[0])| + j] == Escape(s[1..])[j];
    }
  }
}
