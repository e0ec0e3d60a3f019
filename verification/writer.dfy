/** The streaming writer `JSWriterImpl`: a stack of open containers, each
    with its comma state and its manual-end lock, a flag saying whether a
    value is expected next, and the text written so far (the default
    `StringBuilder` target).

    Every operation returns the writer after the call, or the exception it
    throws. The state the writer is left in after a throw is not modelled. */
module Writing {
  import opened Base
  import opened Numbers
  import opened Values
  import opened Rendering

  datatype Mode = ArrayMode | ObjectMode

  /** One open container (the inner class `State`). */
  datatype Frame = Frame(mode: Mode, commasOn: bool, lockEnding: bool)

  datatype Writer = Writer(stack: seq<Frame>, started: bool, expectingValue: bool, out: Text)

  /** A new writer over an empty `StringBuilder`. */
  const Empty: Writer := Writer([], false, false, [])

  /** `level`: the number of open containers. */
  function Level(w: Writer): nat
  {
    |w.stack|
  }

  function Top(w: Writer): Frame
    requires |w.stack| > 0
  {
    w.stack[|w.stack| - 1]
  }

  /** The stack with its top frame replaced. */
  function SetTop(stack: seq<Frame>, f: Frame): (r: seq<Frame>)
    requires |stack| > 0
    ensures |r| == |stack| && r[|r| - 1] == f
  {
    stack[..|stack| - 1] + [f]
  }

  function OpenChar(m: Mode): Char16
  {
    if m == ObjectMode then LBRACE else LBRACKET
  }

  function CloseChar(m: Mode): Char16
  {
    if m == ObjectMode then RBRACE else RBRACKET
  }

  // ---------------------------------------------------------------------
  // The frame callbacks

  /** `State.beforeValue()`: a ',' when the frame's comma is on (an object
      turns it off again, an array keeps it), and an object now expects a
      value. Returns the frame, the expectation and the text written. */
  function BeforeValue(f: Frame, expecting: bool): (r: (Frame, bool, Text))
    ensures r.2 == (if f.commasOn then [COMMA] else [])
    ensures r.0.mode == f.mode && r.0.lockEnding == f.lockEnding
    ensures r.0.commasOn == (f.commasOn && f.mode == ArrayMode)
    ensures r.1 == (f.mode == ObjectMode || expecting)
  {
    var comma := if f.commasOn then [COMMA] else [];
    var f' := if f.commasOn && f.mode == ObjectMode then f.(commasOn := false) else f;
    (f', if f.mode == ObjectMode then true else expecting, comma)
  }

  /** `State.afterValue()`: the comma goes on, and an object no longer
      expects a value; an array leaves the expectation as it was. */
  function AfterValue(f: Frame, expecting: bool): (r: (Frame, bool))
    ensures r.0 == Frame(f.mode, true, f.lockEnding)
    ensures r.1 == (f.mode == ArrayMode && expecting)
  {
    var f' := if !f.commasOn then f.(commasOn := true) else f;
    (f', if f.mode == ObjectMode then false else expecting)
  }

  /** `startIfNecessary()`, given the level after the push: the first call
      marks the writer started; later ones throw "Writer has already
      started" only at level 0. */
  function StartIfNecessary(started: bool, level: nat): (r: Result<bool>)
    ensures r.Fail? <==> started && level == 0
    ensures r.Fail? ==> r.error == IllegalState
    ensures r.Ok? ==> r.value
  {
    if !started then Ok(true)
    else if level > 0 then Ok(started)
    else Fail(IllegalState)
  }

  // ---------------------------------------------------------------------
  // The operations

  /** `obj()` / `array()`: push a fresh frame, start, run its
      `beforeValue`, write the opening bracket; afterwards an object does
      not expect a value and an array does. Nothing about the enclosing
      container is consulted or updated. */
  function Open(w: Writer, m: Mode): (r: Result<Writer>)
    ensures r.Ok?
    ensures Level(r.value) == Level(w) + 1
    ensures r.value.stack[..Level(w)] == w.stack
    ensures Top(r.value) == Frame(m, false, false)
    ensures r.value.started
    ensures r.value.expectingValue == (m == ArrayMode)
    ensures r.value.out == w.out + [OpenChar(m)]
  {
    var newFrame := Frame(m, false, false);
    var stack := w.stack + [newFrame];
    match StartIfNecessary(w.started, |stack|)
    case Fail(e) => Fail(e)
    case Ok(started) =>
      var (f, _, comma) := BeforeValue(newFrame, w.expectingValue);
      assert stack[..|w.stack|] == w.stack;
      Ok(Writer(SetTop(stack, f), started, m == ArrayMode, w.out + comma + [OpenChar(m)]))
  }

  /** `key(key)`: only inside an object and only when no value is pending;
      writes the separating ',' when one is due, then the quoted key and
      ':', and a value is expected next. */
  function Key(w: Writer, k: Text): (r: Result<Writer>)
    ensures r.Ok? <==> Level(w) > 0 && Top(w).mode == ObjectMode && !w.expectingValue
    ensures r.Fail? ==> r.error == IllegalState
    ensures r.Ok? ==>
      && r.value.stack == SetTop(w.stack, Top(w).(commasOn := false))
      && r.value.started == w.started
      && r.value.expectingValue
      && r.value.out == w.out + (if Top(w).commasOn then [COMMA] else []) + RenderString(k) + [COLON]
  {
    if |w.stack| == 0 || Top(w).mode != ObjectMode then Fail(IllegalState)
    else if w.expectingValue then Fail(IllegalState)
    else
      var (f, _, comma) := BeforeValue(Top(w), w.expectingValue);
      Ok(Writer(SetTop(w.stack, f), w.started, true, w.out + comma + RenderString(k) + [COLON]))
  }

  /** `value(value)`: only when a value is expected; the value is rendered
      compactly first (which can throw), then the open container's
      `beforeValue` and `afterValue` run around the text. A String is
      written quoted and escaped once. With no open container (after the
      top-level array has closed) `current!!` throws. */
  function Value(h: Host, w: Writer, v: Value): (r: Result<Writer>)
    ensures r.Ok? <==> w.expectingValue && RenderValue(h, v, 0, 0, false).Ok? && Level(w) > 0
    ensures r.Fail? && !w.expectingValue ==> r.error == IllegalState
    ensures r.Fail? && w.expectingValue && RenderValue(h, v, 0, 0, false).Ok? ==> r.error == NullPointer
    ensures r.Ok? ==>
      var text := if v.Str? then RenderString(v.s) else RenderValue(h, v, 0, 0, false).value;
      && r.value.stack == SetTop(w.stack, Top(w).(commasOn := true))
      && r.value.started == w.started
      && r.value.expectingValue == (Top(w).mode == ArrayMode)
      && r.value.out == w.out + (if Top(w).commasOn then [COMMA] else []) + text
  {
    if !w.expectingValue then Fail(IllegalState)
    else
      var asString :- RenderValue(h, v, 0, 0, false);
      if |w.stack| == 0 then Fail(NullPointer)
      else
        var (f, e, comma) := BeforeValue(Top(w), w.expectingValue);
        var (f', e') := AfterValue(f, e);
        var text := if v.Str? then RenderString(v.s) else asString;
        Ok(Writer(SetTop(w.stack, f'), w.started, e', w.out + comma + text))
  }

  /** `endObj()` / `endArray()`: the open container must not be locked by a
      block; it is popped, and must be of the right kind; the closing
      bracket is written and the enclosing container, if any, runs
      `afterValue`. */
  function End(w: Writer, m: Mode): (r: Result<Writer>)
    ensures r.Ok? <==> Level(w) > 0 && !Top(w).lockEnding && Top(w).mode == m
    ensures Level(w) == 0 ==> r == Fail(NullPointer)
    ensures Level(w) > 0 && r.Fail? ==> r.error == IllegalState
    ensures r.Ok? ==>
      && (Level(w) == 1 ==> r.value.stack == [])
      && (Level(w) > 1 ==> r.value.stack == SetTop(w.stack[..Level(w) - 1], w.stack[Level(w) - 2].(commasOn := true)))
      && r.value.started == w.started
      && r.value.expectingValue == (if Level(w) > 1 && w.stack[Level(w) - 2].mode == ObjectMode then false else w.expectingValue)
      && r.value.out == w.out + [CloseChar(m)]
  {
    if |w.stack| == 0 then Fail(NullPointer)
    else if Top(w).lockEnding then Fail(IllegalState)
    else
      var last := Top(w);
      var rest := w.stack[..|w.stack| - 1];
      if last.mode != m then Fail(IllegalState)
      else
        var out := w.out + [CloseChar(m)];
        if |rest| == 0 then Ok(Writer(rest, w.started, w.expectingValue, out))
        else
          var (f, e) := AfterValue(rest[|rest| - 1], w.expectingValue);
          Ok(Writer(SetTop(rest, f), w.started, e, out))
  }

  /** The `lockManualEnd` setter: sets the open container's lock, and
      throws when there is none. */
  function SetLock(w: Writer, lock: bool): (r: Result<Writer>)
    ensures r.Ok? <==> Level(w) > 0
    ensures r.Fail? ==> r.error == NullPointer
    ensures r.Ok? ==> r.value == w.(stack := SetTop(w.stack, Top(w).(lockEnding := lock)))
  {
    if |w.stack| == 0 then Fail(NullPointer)
    else Ok(w.(stack := SetTop(w.stack, Top(w).(lockEnding := lock))))
  }

  /** The `lockManualEnd` getter. */
  function Locked(w: Writer): bool
  {
    Level(w) > 0 && Top(w).lockEnding
  }

  /** `toString()`: the text written, once every container is closed. */
  function ToText(w: Writer): (r: Result<Text>)
    ensures r.Ok? <==> Level(w) == 0
    ensures r.Ok? ==> r.value == w.out
    ensures r.Fail? ==> r.error == IllegalState
  {
    if |w.stack| != 0 then Fail(IllegalState) else Ok(w.out)
  }

  // ---------------------------------------------------------------------
  // Call sequences

  datatype Event =
    | OpenObj
    | OpenArray
    | KeyEvent(key: Text)
    | ValueEvent(v: Value)
    | EndObj
    | EndArray

  function Step(h: Host, w: Writer, e: Event): Result<Writer>
  {
    match e
    case OpenObj => Open(w, ObjectMode)
    case OpenArray => Open(w, ArrayMode)
    case KeyEvent(k) => Key(w, k)
    case ValueEvent(v) => Value(h, w, v)
    case EndObj => End(w, ObjectMode)
    case EndArray => End(w, ArrayMode)
  }

  /** The calls made one after another, stopping at the first throw. */
  function Run(h: Host, w: Writer, es: seq<Event>): Result<Writer>
    decreases |es|
  {
    if |es| == 0 then Ok(w)
    else
      var w1 :- Step(h, w, es[0]);
      Run(h, w1, es[1..])
  }

  /** The calls of `obj { body }` / `array { body }`: open, lock manual
      ending while the body runs, restore the previous lock, then end. */
  function Block(h: Host, w: Writer, m: Mode, body: seq<Event>): Result<Writer>
  {
    var w1 :- Open(w, m);
    var prev := Locked(w1);
    var w2 :- SetLock(w1, true);
    var w3 :- Run(h, w2, body);
    var w4 :- SetLock(w3, prev);
    End(w4, m)
  }

  // ---------------------------------------------------------------------
  // Composing calls

  /** Running two call sequences one after the other is running their
      concatenation. */
  lemma {:induction false} RunAppend(h: Host, w: Writer, a: seq<Event>, b: seq<Event>)
    ensures Run(h, w, a + b) == if Run(h, w, a).Ok? then Run(h, Run(h, w, a).value, b) else Run(h, w, a)
    decreases |a|
  {
    if |a| == 0 {
      assert a + b == b;
    } else {
      assert (a + b)[0] == a[0];
      assert (a + b)[1..] == a[1..] + b;
      match Step(h, w, a[0])
      case Ok(w1) => RunAppend(h, w1, a[1..], b);
      case Fail(_) =>
    }
  }

  /** How one call moves the level. */
  function Delta(e: Event): int
  {
    if e.OpenObj? || e.OpenArray? then 1 else if e.EndObj? || e.EndArray? then -1 else 0
  }

  /** The containers a call sequence opens, less those it ends. */
  function Depth(es: seq<Event>): int
  {
    if |es| == 0 then 0 else Delta(es[0]) + Depth(es[1..])
  }

  lemma StepLevel(h: Host, w: Writer, e: Event)
    ensures Step(h, w, e).Ok? ==> Level(Step(h, w, e).value) == Level(w) + Delta(e)
  {
  }

  /** `level` counts the open containers: every `obj()`/`array()` adds one,
      every `endObj()`/`endArray()` takes one away, and nothing else moves
      it. */
  lemma {:induction false} LevelCounts(h: Host, w: Writer, es: seq<Event>)
    ensures Run(h, w, es).Ok? ==> Level(Run(h, w, es).value) == Level(w) + Depth(es)
    decreases |es|
  {
    if |es| > 0 && Step(h, w, es[0]).Ok? {
      var w1 := Step(h, w, es[0]).value;
      StepLevel(h, w, es[0]);
      LevelCounts(h, w1, es[1..]);
    }
  }

  // ---------------------------------------------------------------------
  // Writing a whole value

  /** The values `value()` writes on its own. */
  predicate Scalar(v: Value)
  {
    v.Null? || v.Bool? || v.Str? || v.Int? || v.Long?
  }

  /** The values the writer lays out correctly: objects may nest anything
      it can write, but an array holds scalars only (see `MissingComma` and
      `ValueAfterNestedObject` for what goes wrong otherwise). */
  predicate Streamable(v: Value)
    decreases v
  {
    match v
    case Obj(ms) => forall i | 0 <= i < |ms| :: Streamable(ms[i].val)
    case Arr(es) => forall i | 0 <= i < |es| :: Scalar(es[i])
    case _ => Scalar(v)
  }

  /** The JSON text of a value, defined directly: Strings quoted and
      escaped once, members and elements separated by one ','. */
  function Doc(v: Value): Text
    decreases v, 0
  {
    match v
    case Null => NULL_WORD
    case Bool(b) => if b then TRUE_WORD else FALSE_WORD
    case Str(s) => RenderString(s)
    case Int(i) => Decimal(i)
    case Long(l) => Decimal(l)
    case Obj(ms) => [LBRACE] + DocMembers(ms) + [RBRACE]
    case Arr(es) => [LBRACKET] + DocElements(es) + [RBRACKET]
    case _ => []
  }

  function DocMembers(ms: seq<Member>): Text
    decreases ms, 1
  {
    if |ms| == 0 then []
    else
      assert ms[0].val < ms[0];
      RenderString(ms[0].key) + [COLON] + Doc(ms[0].val) + (if |ms| > 1 then [COMMA] else []) + DocMembers(ms[1..])
  }

  function DocElements(es: seq<Value>): Text
    decreases es, 1
  {
    if |es| == 0 then [] else Doc(es[0]) + (if |es| > 1 then [COMMA] else []) + DocElements(es[1..])
  }

  /** The calls that write a value: `value()` for a scalar, and for a
      container its opening call, a `key()` before each member, and its
      closing call. */
  function Events(v: Value): seq<Event>
    decreases v, 0
  {
    match v
    case Obj(ms) => [OpenObj] + MemberEvents(ms) + [EndObj]
    case Arr(es) => [OpenArray] + ElementEvents(es) + [EndArray]
    case _ => [ValueEvent(v)]
  }

  function MemberEvents(ms: seq<Member>): seq<Event>
    decreases ms, 1
  {
    if |ms| == 0 then []
    else
      assert ms[0].val < ms[0];
      [KeyEvent(ms[0].key)] + Events(ms[0].val) + MemberEvents(ms[1..])
  }

  function ElementEvents(es: seq<Value>): seq<Event>
    decreases es, 1
  {
    if |es| == 0 then [] else Events(es[0]) + ElementEvents(es[1..])
  }

  function ModeOf(v: Value): Mode
  {
    if v.Obj? then ObjectMode else ArrayMode
  }

  /** Whether a container holds anything. */
  function Any(v: Value): bool
    requires v.Obj? || v.Arr?
  {
    if v.Obj? then |v.members| > 0 else |v.elems| > 0
  }

  /** The text between a container's brackets. */
  function Body(v: Value): Text
    requires v.Obj? || v.Arr?
  {
    if v.Obj? then DocMembers(v.members) else DocElements(v.elems)
  }

  /** The writer inside a container of mode `m`, opened onto `w`, once
      its items (written as `body`) are in. */
  function Filled(w: Writer, m: Mode, any: bool, body: Text): Writer
  {
    Writer(w.stack + [Frame(m, any, false)], true, m == ArrayMode, w.out + [OpenChar(m)] + body)
  }

  /** The writer just before a container's closing call: its frame is on
      top of `w`'s stack, with the comma on when it holds anything, and
      everything but the closing bracket is written. */
  function Inside(w: Writer, v: Value): Writer
    requires v.Obj? || v.Arr?
  {
    Filled(w, ModeOf(v), Any(v), Body(v))
  }

  lemma DocShape(v: Value)
    requires v.Obj? || v.Arr?
    ensures Doc(v) == [OpenChar(ModeOf(v))] + Body(v) + [CloseChar(ModeOf(v))]
  {
  }

  function Opener(m: Mode): Event
  {
    if m == ObjectMode then OpenObj else OpenArray
  }

  function Closer(m: Mode): Event
  {
    if m == ObjectMode then EndObj else EndArray
  }

  /** The calls between a container's opening and closing calls. */
  function InnerEvents(v: Value): seq<Event>
    requires v.Obj? || v.Arr?
  {
    if v.Obj? then MemberEvents(v.members) else ElementEvents(v.elems)
  }

  /** The writer right after a container's opening call. */
  function Opened(w: Writer, m: Mode): Writer
  {
    Writer(w.stack + [Frame(m, false, false)], true, m == ArrayMode, w.out + [OpenChar(m)])
  }

  /** The writer after items (members or elements) with text `text` went
      into the open container: a leading ',' if its comma was already on,
      and the comma on from then on when there was any item. */
  function AfterItems(w: Writer, any: bool, text: Text, expecting: bool): Writer
    requires Level(w) > 0
  {
    Writer(SetTop(w.stack, Top(w).(commasOn := Top(w).commasOn || any)), w.started, expecting,
      w.out + (if Top(w).commasOn && any then [COMMA] else []) + text)
  }

  lemma SetTopTwice(stack: seq<Frame>, a: Frame, b: Frame)
    requires |stack| > 0
    ensures SetTop(SetTop(stack, a), b) == SetTop(stack, b)
  {
  }

  lemma SetTopPushed(stack: seq<Frame>, a: Frame, b: Frame)
    ensures SetTop(stack + [a], b) == stack + [b]
  {
    assert (stack + [a])[..|stack|] == stack;
  }

  /** `value()` writes a scalar as its JSON text. */
  lemma ScalarDoc(h: Host, v: Value)
    requires Scalar(v)
    ensures RenderValue(h, v, 0, 0, false).Ok?
    ensures (if v.Str? then RenderString(v.s) else RenderValue(h, v, 0, 0, false).value) == Doc(v)
  {
  }

  /** A single call followed by more calls. */
  lemma RunCons(h: Host, w: Writer, e: Event, rest: seq<Event>)
    ensures Run(h, w, [e] + rest) == if Step(h, w, e).Ok? then Run(h, Step(h, w, e).value, rest) else Step(h, w, e)
  {
    assert ([e] + rest)[0] == e;
    assert ([e] + rest)[1..] == rest;
  }

  lemma RunOne(h: Host, w: Writer, e: Event)
    ensures Run(h, w, [e]) == Step(h, w, e)
  {
    RunCons(h, w, e, []);
    assert [e] + [] == [e];
  }

  /** Calls that succeed, then more calls. */
  lemma Then(h: Host, w: Writer, a: seq<Event>, b: seq<Event>, w2: Writer)
    requires Run(h, w, a) == Ok(w2)
    ensures Run(h, w, a + b) == Run(h, w2, b)
  {
    RunAppend(h, w, a, b);
  }

  lemma EventsShape(v: Value)
    requires v.Obj? || v.Arr?
    ensures Events(v) == [Opener(ModeOf(v))] + (InnerEvents(v) + [Closer(ModeOf(v))])
  {
  }

  /** The opening call of a container, as the first step. */
  lemma Opening(h: Host, w: Writer, v: Value)
    requires v.Obj? || v.Arr?
    ensures Run(h, w, Events(v)) == Run(h, Opened(w, ModeOf(v)), InnerEvents(v) + [Closer(ModeOf(v))])
  {
    var m := ModeOf(v);
    EventsShape(v);
    RunCons(h, w, Opener(m), InnerEvents(v) + [Closer(m)]);
    var r := Open(w, m).value;
    assert r.stack == r.stack[..Level(w)] + [Top(r)];
  }

  /** The closing call of a container, as the last step. */
  lemma Closing(h: Host, w: Writer, inner: seq<Event>, m: Mode, wi: Writer)
    requires Run(h, w, inner) == Ok(wi)
    ensures Run(h, w, inner + [Closer(m)]) == End(wi, m)
  {
    Then(h, w, inner, [Closer(m)], wi);
    RunOne(h, wi, Closer(m));
  }

  /** The items of a container written into its fresh frame bring the
      writer to `Filled`. */
  lemma FilledFrame(w: Writer, m: Mode, any: bool, body: Text)
    ensures AfterItems(Opened(w, m), any, body, m == ArrayMode) == Filled(w, m, any, body)
  {
    SetTopPushed(w.stack, Frame(m, false, false), Frame(m, any, false));
    assert Top(Opened(w, m)) == Frame(m, false, false);
    assert Opened(w, m).out + [] + body == w.out + [OpenChar(m)] + body;
  }

  /** `key()` of an object's next member. */
  lemma KeyFirst(h: Host, w: Writer, ms: seq<Member>)
    requires |ms| > 0
    requires Level(w) > 0 && Top(w).mode == ObjectMode && !w.expectingValue
    ensures Run(h, w, MemberEvents(ms)) == Run(h, KeyWritten(w, ms[0].key), Events(ms[0].val) + MemberEvents(ms[1..]))
  {
    assert MemberEvents(ms) == [KeyEvent(ms[0].key)] + (Events(ms[0].val) + MemberEvents(ms[1..]));
    RunCons(h, w, KeyEvent(ms[0].key), Events(ms[0].val) + MemberEvents(ms[1..]));
  }

  /** The writer after `key(k)` in an object that expects one. */
  function KeyWritten(w: Writer, k: Text): (r: Writer)
    requires Level(w) > 0
    ensures Level(r) == Level(w) && Top(r) == Top(w).(commasOn := false)
  {
    Writer(SetTop(w.stack, Top(w).(commasOn := false)), w.started, true,
      w.out + (if Top(w).commasOn then [COMMA] else []) + RenderString(k) + [COLON])
  }

  /** The writer after a member's value, written after its key. */
  function ValueWritten(w: Writer, text: Text): (r: Writer)
    requires Level(w) > 0
    ensures Level(r) == Level(w) && Top(r) == Top(w).(commasOn := true)
  {
    Writer(SetTop(w.stack, Top(w).(commasOn := true)), w.started, false, w.out + text)
  }

  /** One member then the rest amount to all the members. */
  lemma MemberAfter(w: Writer, ms: seq<Member>)
    requires |ms| > 0 && Level(w) > 0
    ensures AfterItems(ValueWritten(KeyWritten(w, ms[0].key), Doc(ms[0].val)), |ms| > 1, DocMembers(ms[1..]), false)
      == AfterItems(w, true, DocMembers(ms), false)
  {
    var on := Top(w).(commasOn := true);
    SetTopTwice(w.stack, Top(w).(commasOn := false), on);
    SetTopTwice(w.stack, on, on);
    MemberText(w.out, if Top(w).commasOn then [COMMA] else [], ms[0].key, Doc(ms[0].val),
      if |ms| > 1 then [COMMA] else [], DocMembers(ms[1..]));
  }

  /** The regrouping of the text one member adds. */
  lemma MemberText(out: Text, lead: Text, k: Text, val: Text, sep: Text, more: Text)
    ensures out + lead + RenderString(k) + [COLON] + val + sep + more
      == out + lead + (RenderString(k) + [COLON] + val + sep + more)
  {
  }

  /** Writing no items leaves the writer as it was. */
  lemma NoItems(w: Writer)
    requires Level(w) > 0
    ensures AfterItems(w, false, [], w.expectingValue) == w
  {
    assert Top(w).(commasOn := Top(w).commasOn) == Top(w);
    assert SetTop(w.stack, Top(w)) == w.stack;
    assert w.out + [] + [] == w.out;
  }

  /** The members of an object, written one after another into its open
      frame: a ',' before every key but the first (and before the first
      too, when the frame's comma is already on). */
  lemma {:induction false} WriteMembers(h: Host, w: Writer, ms: seq<Member>)
    requires Level(w) > 0 && Top(w).mode == ObjectMode && !w.expectingValue && w.started
    requires forall i | 0 <= i < |ms| :: Streamable(ms[i].val)
    ensures Run(h, w, MemberEvents(ms)) == Ok(AfterItems(w, |ms| > 0, DocMembers(ms), false))
    decreases ms, 0
  {
    if |ms| == 0 {
      NoItems(w);
    } else {
      var v := ms[0].val;
      assert v < ms[0];
      var rest := ms[1..];
      var wk := KeyWritten(w, ms[0].key);
      KeyFirst(h, w, ms);
      WriteInObject(h, wk, v);
      Then(h, wk, Events(v), MemberEvents(rest), ValueWritten(wk, Doc(v)));
      assert forall i | 0 <= i < |rest| :: rest[i] == ms[i + 1];
      WriteMembers(h, ValueWritten(wk, Doc(v)), rest);
      MemberAfter(w, ms);
    }
  }

  /** `value()` of a scalar where a value is expected. */
  lemma ScalarStep(h: Host, w: Writer, v: Value)
    requires Level(w) > 0 && w.expectingValue && Scalar(v)
    ensures Step(h, w, ValueEvent(v)) == Ok(AfterItems(w, true, Doc(v), Top(w).mode == ArrayMode))
  {
    ScalarDoc(h, v);
  }

  /** `value()` of an array's next scalar. */
  lemma ScalarFirst(h: Host, w: Writer, es: seq<Value>)
    requires |es| > 0 && Scalar(es[0])
    requires Level(w) > 0 && w.expectingValue
    ensures Run(h, w, ElementEvents(es)) == Run(h, AfterItems(w, true, Doc(es[0]), Top(w).mode == ArrayMode), ElementEvents(es[1..]))
  {
    assert ElementEvents(es) == [ValueEvent(es[0])] + ElementEvents(es[1..]);
    RunCons(h, w, ValueEvent(es[0]), ElementEvents(es[1..]));
    ScalarStep(h, w, es[0]);
  }

  /** One scalar then the rest amount to all the elements. */
  lemma ElementAfter(w: Writer, es: seq<Value>)
    requires |es| > 0 && Level(w) > 0
    ensures AfterItems(AfterItems(w, true, Doc(es[0]), true), |es| > 1, DocElements(es[1..]), true)
      == AfterItems(w, true, DocElements(es), true)
  {
    var on := Top(w).(commasOn := true);
    SetTopTwice(w.stack, on, on);
    Regroup4(w.out + (if Top(w).commasOn then [COMMA] else []), Doc(es[0]), if |es| > 1 then [COMMA] else [], DocElements(es[1..]));
  }

  /** The scalars of an array, each written by `value()` with a ',' before
      all but the first. */
  lemma {:induction false} WriteElements(h: Host, w: Writer, es: seq<Value>)
    requires Level(w) > 0 && Top(w).mode == ArrayMode && w.expectingValue
    requires forall i | 0 <= i < |es| :: Scalar(es[i])
    ensures Run(h, w, ElementEvents(es)) == Ok(AfterItems(w, |es| > 0, DocElements(es), true))
    decreases es
  {
    if |es| == 0 {
      NoItems(w);
    } else {
      var rest := es[1..];
      ScalarFirst(h, w, es);
      assert forall i | 0 <= i < |rest| :: rest[i] == es[i + 1];
      WriteElements(h, AfterItems(w, true, Doc(es[0]), true), rest);
      ElementAfter(w, es);
    }
  }

  /** Writing a container onto any writer reaches `Inside` and then makes
      its closing call. */
  lemma {:induction false} WriteContainer(h: Host, w: Writer, v: Value)
    requires v.Obj? || v.Arr?
    requires Streamable(v)
    ensures Run(h, w, Events(v)) == End(Inside(w, v), ModeOf(v))
    decreases v, 1
  {
    var m := ModeOf(v);
    Opening(h, w, v);
    if v.Obj? {
      WriteMembers(h, Opened(w, m), v.members);
    } else {
      WriteElements(h, Opened(w, m), v.elems);
    }
    FilledFrame(w, m, Any(v), Body(v));
    Closing(h, Opened(w, m), InnerEvents(v), m, Inside(w, v));
  }

  /** A scalar written after a key. */
  lemma ScalarInObject(h: Host, w: Writer, v: Value)
    requires Level(w) > 0 && Top(w).mode == ObjectMode && !Top(w).commasOn && w.expectingValue
    requires Scalar(v)
    ensures Run(h, w, Events(v)) == Ok(ValueWritten(w, Doc(v)))
  {
    assert Events(v) == [ValueEvent(v)];
    RunOne(h, w, ValueEvent(v));
    ScalarStep(h, w, v);
    FirstAfterKey(w, Doc(v));
  }

  /** The first item after a key writes no ','. */
  lemma FirstAfterKey(w: Writer, t: Text)
    requires Level(w) > 0 && !Top(w).commasOn
    ensures AfterItems(w, true, t, false) == ValueWritten(w, t)
  {
    assert w.out + [] + t == w.out + t;
  }

  /** Closing a container written inside an object. */
  lemma CloseInObject(w: Writer, m: Mode, any: bool, body: Text)
    requires Level(w) > 0 && Top(w).mode == ObjectMode && w.started
    ensures End(Filled(w, m, any, body), m) == Ok(ValueWritten(w, [OpenChar(m)] + body + [CloseChar(m)]))
  {
    var inside := Filled(w, m, any, body);
    assert inside.stack[..Level(inside) - 1] == w.stack;
    assert inside.stack[Level(inside) - 2] == Top(w);
    Regroup4(w.out, [OpenChar(m)], body, [CloseChar(m)]);
  }

  /** A value written after a key: the object's frame gets its comma and no
      longer expects a value, and the value's JSON text is written. */
  lemma {:induction false} WriteInObject(h: Host, w: Writer, v: Value)
    requires Level(w) > 0 && Top(w).mode == ObjectMode && !Top(w).commasOn && w.expectingValue && w.started
    requires Streamable(v)
    ensures Run(h, w, Events(v)) == Ok(ValueWritten(w, Doc(v)))
    decreases v, 2
  {
    if v.Obj? || v.Arr? {
      WriteContainer(h, w, v);
      CloseInObject(w, ModeOf(v), Any(v), Body(v));
      DocShape(v);
    } else {
      ScalarInObject(h, w, v);
    }
  }

  /** Closing a top-level container. */
  lemma CloseTop(w: Writer, m: Mode, any: bool, body: Text)
    requires Level(w) == 0
    ensures End(Filled(w, m, any, body), m) == Ok(Writer([], true, m == ArrayMode, w.out + ([OpenChar(m)] + body + [CloseChar(m)])))
  {
    assert Filled(w, m, any, body).stack == [Frame(m, any, false)];
    Regroup4(w.out, [OpenChar(m)], body, [CloseChar(m)]);
  }

  /** Given the calls that write an object or an array (whose arrays hold
      scalars), a writer with no open container ends at level 0 with the
      value's JSON text appended; an array leaves it expecting a value. */
  lemma WriteTopLevel(h: Host, w: Writer, v: Value)
    requires v.Obj? || v.Arr?
    requires Streamable(v)
    requires Level(w) == 0
    ensures Run(h, w, Events(v)) == Ok(Writer([], true, v.Arr?, w.out + Doc(v)))
  {
    WriteContainer(h, w, v);
    ClosedTopLevel(w, v);
  }

  lemma ClosedTopLevel(w: Writer, v: Value)
    requires v.Obj? || v.Arr?
    requires Level(w) == 0
    ensures End(Inside(w, v), ModeOf(v)) == Ok(Writer([], true, v.Arr?, w.out + Doc(v)))
  {
    CloseTop(w, ModeOf(v), Any(v), Body(v));
    DocShape(v);
  }

  /** A fresh writer given the calls that write an object or an array ends
      at level 0, and `toString()` returns exactly the value's JSON text. */
  lemma WriteDocument(h: Host, v: Value)
    requires v.Obj? || v.Arr?
    requires Streamable(v)
    ensures Run(h, Empty, Events(v)).Ok?
    ensures Level(Run(h, Empty, Events(v)).value) == 0
    ensures ToText(Run(h, Empty, Events(v)).value) == Ok(Doc(v))
  {
    WriteTopLevel(h, Empty, v);
    assert Empty.out + Doc(v) == Doc(v);
  }

  // ---------------------------------------------------------------------
  // Blocks

  /** Inside `obj { }` / `array { }` the block's own container cannot be
      ended by hand. */
  lemma ManualEndLocked(h: Host, w: Writer, m: Mode)
    ensures Block(h, w, m, [Closer(m)]) == Fail(IllegalState)
  {
    OpenIsOpened(w, m);
    LockOpened(w, m);
    var locked := Writer(w.stack + [Frame(m, false, true)], true, m == ArrayMode, w.out + [OpenChar(m)]);
    assert Run(h, locked, [Closer(m)]) == Fail(IllegalState) by {
      RunOne(h, locked, Closer(m));
      CloserStep(h, locked, m);
      assert Top(locked) == Frame(m, false, true);
    }
  }

  lemma CloserStep(h: Host, w: Writer, m: Mode)
    ensures Step(h, w, Closer(m)) == End(w, m)
  {
  }

  lemma OpenIsOpened(w: Writer, m: Mode)
    ensures Open(w, m) == Ok(Opened(w, m))
  {
    var r := Open(w, m).value;
    assert r.stack == r.stack[..Level(w)] + [Top(r)];
  }

  /** `obj { key(k1); value(v1); ... }` writes the same text as the plain
      calls: the lock is lifted again before the block's own `endObj()`. */
  lemma {:induction false} BlockObject(h: Host, w: Writer, ms: seq<Member>)
    requires forall i | 0 <= i < |ms| :: Streamable(ms[i].val)
    ensures Block(h, w, ObjectMode, MemberEvents(ms)) == Run(h, w, Events(Obj(ms)))
  {
    var body := DocMembers(ms);
    var any := |ms| > 0;
    var locked := Writer(w.stack + [Frame(ObjectMode, false, true)], true, false, w.out + [LBRACE]);
    LockOpened(w, ObjectMode);
    WriteMembers(h, locked, ms);
    UnlockFilled(w, ObjectMode, any, body);
    WriteContainer(h, w, Obj(ms));
  }

  lemma LockOpened(w: Writer, m: Mode)
    ensures !Locked(Opened(w, m))
    ensures SetLock(Opened(w, m), true) == Ok(Writer(w.stack + [Frame(m, false, true)], true, m == ArrayMode, w.out + [OpenChar(m)]))
  {
    SetTopPushed(w.stack, Frame(m, false, false), Frame(m, false, true));
  }

  lemma UnlockFilled(w: Writer, m: Mode, any: bool, body: Text)
    ensures
      var locked := Writer(w.stack + [Frame(m, false, true)], true, m == ArrayMode, w.out + [OpenChar(m)]);
      SetLock(AfterItems(locked, any, body, m == ArrayMode), false) == Ok(Filled(w, m, any, body))
  {
    var locked := Writer(w.stack + [Frame(m, false, true)], true, m == ArrayMode, w.out + [OpenChar(m)]);
    SetTopPushed(w.stack, Frame(m, false, true), Frame(m, any, true));
    SetTopPushed(w.stack, Frame(m, any, true), Frame(m, any, false));
    assert locked.out + [] + body == w.out + [OpenChar(m)] + body;
  }

  // ---------------------------------------------------------------------
  // Where the writer goes wrong

  /** "Writer has already started" is never thrown: `startIfNecessary` runs
      after the push, so the level it sees is never 0, and a second
      top-level value is written straight after the first. */
  lemma SecondTopLevel(h: Host, a: Value, b: Value)
    requires (a.Obj? || a.Arr?) && Streamable(a)
    requires (b.Obj? || b.Arr?) && Streamable(b)
    ensures Run(h, Empty, Events(a) + Events(b)) == Ok(Writer([], true, b.Arr?, Doc(a) + Doc(b)))
  {
    var first := Writer([], true, a.Arr?, Empty.out + Doc(a));
    WriteTopLevel(h, Empty, a);
    Then(h, Empty, Events(a), Events(b), first);
    WriteTopLevel(h, first, b);
    assert Empty.out + Doc(a) == Doc(a);
  }

  /** `obj()` and `array()` do not ask for a key first: where `value()`
      throws because the object has no key yet, a container is opened
      without complaint. */
  lemma ContainerWithoutKey(h: Host, w: Writer, v: Value, m: Mode)
    requires Level(w) > 0 && Top(w).mode == ObjectMode && !w.expectingValue
    ensures Value(h, w, v) == Fail(IllegalState)
    ensures Key(w, Lit("k")).Ok?
    ensures Open(w, m).Ok? && Open(w, m).value.out == w.out + [OpenChar(m)]
  {
  }

  /** A container opened inside an array after a sibling gets no ',': where
      `value()` would write one first, `obj()`/`array()` write only the
      bracket. */
  lemma MissingComma(h: Host, w: Writer, v: Value, m: Mode)
    requires Level(w) > 0 && Top(w).mode == ArrayMode && Top(w).commasOn && w.expectingValue
    requires Scalar(v)
    ensures Value(h, w, v) == Ok(AfterItems(w, true, Doc(v), true))
    ensures AfterItems(w, true, Doc(v), true).out == w.out + [COMMA] + Doc(v)
    ensures Open(w, m).value.out == w.out + [OpenChar(m)]
  {
    ScalarStep(h, w, v);
  }

  /** After an object closes inside an array the writer no longer expects a
      value, so the array's next `value()` throws IllegalStateException;
      after a nested array it still expects one. */
  lemma ValueAfterNestedObject(h: Host, w: Writer, v: Value)
    requires Level(w) > 0 && Top(w).mode == ArrayMode
    ensures
      var closed := End(Open(w, ObjectMode).value, ObjectMode);
      && closed.Ok? && Level(closed.value) == Level(w) && Top(closed.value).mode == ArrayMode
      && Value(h, closed.value, v) == Fail(IllegalState)
    ensures
      var closed := End(Open(w, ArrayMode).value, ArrayMode);
      && closed.Ok? && Level(closed.value) == Level(w) && Top(closed.value).mode == ArrayMode
      && closed.value.expectingValue
  {
    var o := Open(w, ObjectMode).value;
    assert o.stack[Level(o) - 2] == Top(w);
    var a := Open(w, ArrayMode).value;
    assert a.stack[Level(a) - 2] == Top(w);
  }

  /** Once a top-level array has closed the writer still expects a value,
      so `value()` passes its check and reaches `current!!` with no open
      container. */
  lemma ValueAfterTopArray(h: Host, w: Writer, es: seq<Value>, v: Value)
    requires Level(w) == 0
    requires forall i | 0 <= i < |es| :: Scalar(es[i])
    requires Scalar(v)
    ensures Run(h, w, Events(Arr(es))).Ok?
    ensures Value(h, Run(h, w, Events(Arr(es))).value, v) == Fail(NullPointer)
  {
    WriteTopLevel(h, w, Arr(es));
    ScalarDoc(h, v);
  }
}
