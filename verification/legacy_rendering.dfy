/** The renderer of the older lineage (`buildJsonString` of JSObject and
    JSArray with its private `convertValue`). It lays out text exactly as the
    newer renderer does, with two differences:
    - pretty mode breaks lines with `appendln()`, the platform line
      separator, given here as the parameter `nl`;
    - its `convertValue` knows only null, Boolean, String, Int, Long, Float,
      Double, BigInteger, JSObject and JSArray, and throws
      IllegalArgumentException for anything else (an atomic number, a raw
      map, list or array, ...). */
module LegacyRendering {
  import opened Base
  import opened Numbers
  import opened Values
  import opened Rendering

  /** The values the older `convertValue` can render, all the way down. */
  predicate Known(v: Value)
    decreases v
  {
    match v
    case Null => true
    case Bool(_) => true
    case Str(_) => true
    case Int(_) => true
    case Long(_) => true
    case Float(_) => true
    case Double(_) => true
    case BigInteger(_) => true
    case Obj(ms) => forall i | 0 <= i < |ms| :: Known(ms[i].val)
    case Arr(es) => forall i | 0 <= i < |es| :: Known(es[i])
    case _ => false
  }

  /** The text written before an opening bracket. */
  function Open(indent: int, level: nat, newline: bool, nl: Text): (t: Text)
    ensures nl == [LF] ==> t == OpenPrefix(indent, level, newline)
  {
    if indent > 0 && level > 0 && newline then nl + Indent(indent, level) else []
  }

  /** The text written before a closing bracket. */
  function Close(indent: int, level: nat, nl: Text): (t: Text)
    ensures nl == [LF] ==> t == ClosePrefix(indent, level)
  {
    if indent > 0 then nl + Indent(indent, level) else []
  }

  /** The older private `convertValue(value, indent, level, newline)`. */
  function Convert(h: Host, v: Value, indent: int, level: nat, newline: bool, nl: Text): (r: Result<Text>)
    ensures r.Ok? <==> Known(v)
    ensures r.Fail? ==> r.error == IllegalArgument
    decreases v, 0
  {
    match v
    case Null => Ok(NULL_WORD)
    case Bool(b) => Ok(if b then TRUE_WORD else FALSE_WORD)
    case Str(s) => Ok(Escape(s))
    case Int(i) => Ok(Decimal(i))
    case Long(l) => Ok(Decimal(l))
    case Float(f) => Ok(h.doubleText(h.floatToDouble(f)))
    case Double(d) => Ok(h.doubleText(d))
    case BigInteger(n) => Ok(Decimal(n))
    case Obj(ms) => BuildObject(h, ms, indent, level + 1, newline, nl)
    case Arr(es) => BuildArray(h, es, indent, level + 1, newline, nl)
    case _ => Fail(IllegalArgument)
  }

  /** `JSObject.buildJsonString(indent, level, newline)`. */
  function BuildObject(h: Host, ms: seq<Member>, indent: int, level: nat, newline: bool, nl: Text): (r: Result<Text>)
    ensures r.Ok? <==> forall i | 0 <= i < |ms| :: Known(ms[i].val)
    ensures r.Fail? ==> r.error == IllegalArgument
    decreases ms, 2
  {
    var body :- Members(h, ms, indent, level, nl);
    Ok(Open(indent, level, newline, nl) + [LBRACE] + body + Close(indent, level, nl) + [RBRACE])
  }

  function Members(h: Host, ms: seq<Member>, indent: int, level: nat, nl: Text): (r: Result<Text>)
    ensures r.Ok? <==> forall i | 0 <= i < |ms| :: Known(ms[i].val)
    ensures r.Fail? ==> r.error == IllegalArgument
    decreases ms, 1
  {
    if |ms| == 0 then Ok([])
    else
      var m := ms[0];
      assert m.val < m;
      var first :- MemberText(h, m.key, m.val, indent, level, nl);
      var rest :- Members(h, ms[1..], indent, level, nl);
      assert forall i | 1 <= i < |ms| :: ms[i] == ms[1..][i - 1];
      Ok(first + (if |ms| > 1 then [COMMA] else []) + rest)
  }

  /** One member: the key on a new indented line in pretty mode, ':' (and a
      space in pretty mode), then the value, a String value escaped twice. */
  function MemberText(h: Host, k: Text, v: Value, indent: int, level: nat, nl: Text): (r: Result<Text>)
    ensures r.Ok? <==> Known(v)
    ensures r.Fail? ==> r.error == IllegalArgument
    decreases v, 1
  {
    var conv :- Convert(h, v, indent, level, false, nl);
    var lead := if indent > 0 then nl + Indent(indent, level + 1) else [];
    var gap := if indent > 0 then [SPACE] else [];
    Ok(lead + RenderString(k) + [COLON] + gap + (if v.Str? then RenderString(conv) else conv))
  }

  /** `JSArray.buildJsonString(indent, level, newline)`; its closing indent
      is written only when `level > 0`, which `Indent` already implies. */
  function BuildArray(h: Host, es: seq<Value>, indent: int, level: nat, newline: bool, nl: Text): (r: Result<Text>)
    ensures r.Ok? <==> forall i | 0 <= i < |es| :: Known(es[i])
    ensures r.Fail? ==> r.error == IllegalArgument
    decreases es, 2
  {
    var body :- Elements(h, es, indent, level, nl);
    Ok(Open(indent, level, newline, nl) + [LBRACKET] + body + Close(indent, level, nl) + [RBRACKET])
  }

  function Elements(h: Host, es: seq<Value>, indent: int, level: nat, nl: Text): (r: Result<Text>)
    ensures r.Ok? <==> forall i | 0 <= i < |es| :: Known(es[i])
    ensures r.Fail? ==> r.error == IllegalArgument
    decreases es, 1
  {
    if |es| == 0 then Ok([])
    else
      var first :- ElementText(h, es[0], indent, level, nl);
      var rest :- Elements(h, es[1..], indent, level, nl);
      assert forall i | 1 <= i < |es| :: es[i] == es[1..][i - 1];
      Ok(first + (if |es| > 1 then [COMMA] else []) + rest)
  }

  /** One element: a line break before anything but a JSObject or JSArray in
      pretty mode, the element indent, then the value. */
  function ElementText(h: Host, v: Value, indent: int, level: nat, nl: Text): (r: Result<Text>)
    ensures r.Ok? <==> Known(v)
    ensures r.Fail? ==> r.error == IllegalArgument
    decreases v, 1
  {
    var conv :- Convert(h, v, indent, level, true, nl);
    var lead := (if !v.Obj? && !v.Arr? && indent > 0 then nl else [])
      + (if indent > 0 then Indent(indent, level + 1) else []);
    Ok(lead + (if v.Str? then RenderString(conv) else conv))
  }

  /** `toJsonString(indent)` of an older JSObject / JSArray. */
  function ObjectJson(h: Host, ms: seq<Member>, indent: int, nl: Text): Result<Text>
  {
    BuildObject(h, ms, indent, 0, false, nl)
  }

  function ArrayJson(h: Host, es: seq<Value>, indent: int, nl: Text): Result<Text>
  {
    BuildArray(h, es, indent, 0, false, nl)
  }

  /** `toString()` in the older lineage: `toJsonString(0)` for a JSObject or
      JSArray, the Kotlin `toString()` of anything else. */
  function ToText(h: Host, v: Value): (r: Result<Text>)
    ensures v.Obj? ==> (r.Ok? <==> forall i | 0 <= i < |v.members| :: Known(v.members[i].val))
    ensures v.Arr? ==> (r.Ok? <==> forall i | 0 <= i < |v.elems| :: Known(v.elems[i]))
    ensures !v.Obj? && !v.Arr? ==> r == Rendering.ToText(h, v)
  {
    match v
    case Obj(ms) => ObjectJson(h, ms, 0, [LF])
    case Arr(es) => ArrayJson(h, es, 0, [LF])
    case _ => Rendering.ToText(h, v)
  }

  // ---------------------------------------------------------------------
  // Agreement with the newer renderer

  /** On the values the older renderer knows, with '\n' as the line
      separator, both renderers write the same text. */
  lemma {:induction false} ConvertAgrees(h: Host, v: Value, indent: int, level: nat, newline: bool)
    requires Known(v)
    ensures Convert(h, v, indent, level, newline, [LF]) == RenderValue(h, v, indent, level, newline)
    decreases v, 0
  {
    match v
    case Obj(ms) => MembersAgree(h, ms, indent, level + 1);
    case Arr(es) => ElementsAgree(h, es, indent, level + 1);
    case _ =>
  }

  lemma {:induction false} MembersAgree(h: Host, ms: seq<Member>, indent: int, level: nat)
    requires forall i | 0 <= i < |ms| :: Known(ms[i].val)
    ensures Members(h, ms, indent, level, [LF]) == RenderMembers(h, ms, indent, level)
    ensures BuildObject(h, ms, indent, level, false, [LF]) == Rendering.BuildObject(h, ms, indent, level, false)
    ensures BuildObject(h, ms, indent, level, true, [LF]) == Rendering.BuildObject(h, ms, indent, level, true)
    decreases ms, 1
  {
    if |ms| > 0 {
      var m := ms[0];
      assert m.val < m;
      MemberTextAgrees(h, m.key, m.val, indent, level);
      assert forall i | 0 <= i < |ms[1..]| :: ms[1..][i] == ms[i + 1];
      MembersAgree(h, ms[1..], indent, level);
    }
  }

  lemma {:induction false} ElementsAgree(h: Host, es: seq<Value>, indent: int, level: nat)
    requires forall i | 0 <= i < |es| :: Known(es[i])
    ensures Elements(h, es, indent, level, [LF]) == RenderElements(h, es, indent, level)
    ensures BuildArray(h, es, indent, level, false, [LF]) == Rendering.BuildArray(h, es, indent, level, false)
    ensures BuildArray(h, es, indent, level, true, [LF]) == Rendering.BuildArray(h, es, indent, level, true)
    decreases es, 1
  {
    if |es| > 0 {
      ElementTextAgrees(h, es[0], indent, level);
      assert forall i | 0 <= i < |es[1..]| :: es[1..][i] == es[i + 1];
      ElementsAgree(h, es[1..], indent, level);
    }
  }

  lemma {:induction false} ElementTextAgrees(h: Host, v: Value, indent: int, level: nat)
    requires Known(v)
    ensures ElementText(h, v, indent, level, [LF]) == Rendering.ElementText(h, v, indent, level)
    decreases v, 1
  {
    ConvertAgrees(h, v, indent, level, true);
  }

  lemma {:induction false} MemberTextAgrees(h: Host, k: Text, v: Value, indent: int, level: nat)
    requires Known(v)
    ensures MemberText(h, k, v, indent, level, [LF]) == Rendering.MemberText(h, k, v, indent, level)
    decreases v, 1
  {
    ConvertAgrees(h, v, indent, level, false);
  }

  /** The two lineages part on host values inside a container: the newer
      renderer writes a raw list as an array, the older one rejects it. */
  lemma HostListDivergence(h: Host)
    ensures Rendering.ObjectJson(h, [Member(Lit("a"), HostList([]))], 0).Ok?
    ensures ObjectJson(h, [Member(Lit("a"), HostList([]))], 0, [LF]) == Fail(IllegalArgument)
  {
    var ms := [Member(Lit("a"), HostList([]))];
    assert RenderElements(h, [], 0, 1) == Ok([]);
    assert Rendering.BuildArray(h, [], 0, 1, false).Ok?;
    assert RenderValue(h, HostList([]), 0, 0, false).Ok?;
    assert MemberText(h, Lit("a"), HostList([]), 0, 0, [LF]).Fail?;
  }

  /** With a two-character line separator an empty pretty object differs
      from the newer "{\n}". */
  lemma PlatformSeparator(h: Host, nl: Text)
    ensures ObjectJson(h, [], 2, nl) == Ok([LBRACE] + nl + [RBRACE])
  {
    assert Members(h, [], 2, 0, nl) == Ok([]);
    assert Indent(2, 0) == [];
    var e: Text := [];
    assert ObjectJson(h, [], 2, nl) == Ok(e + [LBRACE] + e + (nl + e) + [RBRACE]);
    assert e + [LBRACE] + e + (nl + e) + [RBRACE] == [LBRACE] + nl + [RBRACE];
  }
}
