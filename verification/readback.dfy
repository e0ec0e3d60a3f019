/** Parsing what the compact renderer writes: the object and array parsers,
    in every dialect, read the text `toJsonString(0)` writes back as the
    value, except that a String inside a container comes back escaped once
    (the renderer escapes it twice) and a Long in the 32-bit range comes
    back as an Int. Whatever follows the closing bracket is left unread. */
module ReadBack {
  import opened Base
  import opened Numbers
  import opened Values
  import opened Rendering
  import opened Tokener
  import opened Literals
  import opened Strings
  import opened RoundTrip
  import LegacyRendering
  import Parser

  // ---------------------------------------------------------------------
  // The values and their compact text

  /** The values whose compact text the parser reads back: null, Booleans,
      Strings, Ints, Longs, and objects (with distinct keys) and arrays of
      them. */
  predicate Writable(v: Value)
    decreases v
  {
    match v
    case Null => true
    case Bool(_) => true
    case Str(_) => true
    case Int(_) => true
    case Long(_) => true
    case Obj(ms) => DistinctKeys(ms) && forall i | 0 <= i < |ms| :: Writable(ms[i].val)
    case Arr(es) => forall i | 0 <= i < |es| :: Writable(es[i])
    case _ => false
  }

  /** What a parse returns for the compact text of a value written inside a
      container: a String comes back escaped once, because the renderer
      escapes it twice; a Long in the 32-bit range comes back as an Int;
      everything else comes back as it was. */
  function Reparsed(v: Value): Value
    decreases v, 0
  {
    match v
    case Str(s) => Str(Escape(s))
    case Long(l) => if IsInt32(l) then Int(l) else v
    case Obj(ms) => Obj(ReparsedMembers(ms))
    case Arr(es) => Arr(ReparsedElements(es))
    case _ => v
  }

  function ReparsedMembers(ms: seq<Member>): (r: seq<Member>)
    ensures |r| == |ms|
    decreases ms, 1
  {
    if |ms| == 0 then []
    else
      assert ms[0].val < ms[0];
      [Member(ms[0].key, Reparsed(ms[0].val))] + ReparsedMembers(ms[1..])
  }

  function ReparsedElements(es: seq<Value>): (r: seq<Value>)
    ensures |r| == |es|
    decreases es, 1
  {
    if |es| == 0 then [] else [Reparsed(es[0])] + ReparsedElements(es[1..])
  }

  /** The older renderer knows every writable value. */
  lemma {:induction false} WritableKnown(v: Value)
    requires Writable(v)
    ensures LegacyRendering.Known(v)
    decreases v
  {
    match v
    case Obj(ms) =>
      forall i | 0 <= i < |ms| ensures LegacyRendering.Known(ms[i].val) {
        assert ms[i].val < ms[i];
        WritableKnown(ms[i].val);
      }
    case Arr(es) =>
      forall i | 0 <= i < |es| ensures LegacyRendering.Known(es[i]) {
        WritableKnown(es[i]);
      }
    case _ =>
  }

  /** The compact text of a value, written directly: the reference the
      renderer is compared with below. A String stands for its escaped
      characters, without quotes, as `renderValue` returns them. */
  function Compact(v: Value): Text
    decreases v, 0
  {
    match v
    case Null => NULL_WORD
    case Bool(b) => if b then TRUE_WORD else FALSE_WORD
    case Str(s) => Escape(s)
    case Int(i) => Decimal(i)
    case Long(l) => Decimal(l)
    case Obj(ms) => [LBRACE] + CompactMembers(ms) + [RBRACE]
    case Arr(es) => [LBRACKET] + CompactElements(es) + [RBRACKET]
    case _ => []
  }

  /** A value as it stands inside a container: a String is quoted, and so
      escaped a second time. */
  function Inner(v: Value): Text
    decreases v, 1
  {
    if v.Str? then RenderString(Compact(v)) else Compact(v)
  }

  function CompactMembers(ms: seq<Member>): Text
    decreases ms, 2
  {
    if |ms| == 0 then []
    else
      assert ms[0].val < ms[0];
      RenderString(ms[0].key) + [COLON] + Inner(ms[0].val) + (if |ms| > 1 then [COMMA] else []) + CompactMembers(ms[1..])
  }

  function CompactElements(es: seq<Value>): Text
    decreases es, 2
  {
    if |es| == 0 then [] else Inner(es[0]) + (if |es| > 1 then [COMMA] else []) + CompactElements(es[1..])
  }

  /** The renderer writes exactly the compact text at every level, when
      the indent is 0. */
  lemma {:induction false} CompactAgrees(h: Host, v: Value, level: nat, newline: bool)
    requires Writable(v)
    ensures RenderValue(h, v, 0, level, newline) == Ok(Compact(v))
    decreases v, 0
  {
    match v
    case Obj(ms) => CompactObjectAgrees(h, ms, level + 1, newline);
    case Arr(es) => CompactArrayAgrees(h, es, level + 1, newline);
    case _ =>
  }

  lemma {:induction false} CompactObjectAgrees(h: Host, ms: seq<Member>, level: nat, newline: bool)
    requires forall i | 0 <= i < |ms| :: Writable(ms[i].val)
    ensures BuildObject(h, ms, 0, level, newline) == Ok([LBRACE] + CompactMembers(ms) + [RBRACE])
    decreases ms, 2
  {
    CompactMembersAgree(h, ms, level);
    var body := CompactMembers(ms);
    var e: Text := [];
    assert OpenPrefix(0, level, newline) == e && ClosePrefix(0, level) == e;
    assert e + [LBRACE] + body + e + [RBRACE] == [LBRACE] + body + [RBRACE];
  }

  lemma {:induction false} CompactArrayAgrees(h: Host, es: seq<Value>, level: nat, newline: bool)
    requires forall i | 0 <= i < |es| :: Writable(es[i])
    ensures BuildArray(h, es, 0, level, newline) == Ok([LBRACKET] + CompactElements(es) + [RBRACKET])
    decreases es, 2
  {
    CompactElementsAgree(h, es, level);
    var body := CompactElements(es);
    var e: Text := [];
    assert OpenPrefix(0, level, newline) == e && ClosePrefix(0, level) == e;
    assert e + [LBRACKET] + body + e + [RBRACKET] == [LBRACKET] + body + [RBRACKET];
  }

  lemma {:induction false} CompactMembersAgree(h: Host, ms: seq<Member>, level: nat)
    requires forall i | 0 <= i < |ms| :: Writable(ms[i].val)
    ensures RenderMembers(h, ms, 0, level) == Ok(CompactMembers(ms))
    decreases ms, 1
  {
    if |ms| > 0 {
      assert ms[0].val < ms[0];
      assert Writable(ms[0].val);
      CompactMemberText(h, ms[0].key, ms[0].val, level);
      assert forall i | 0 <= i < |ms[1..]| :: ms[1..][i] == ms[i + 1];
      CompactMembersAgree(h, ms[1..], level);
    }
  }

  lemma {:induction false} CompactMemberText(h: Host, k: Text, v: Value, level: nat)
    requires Writable(v)
    ensures MemberText(h, k, v, 0, level) == Ok(RenderString(k) + [COLON] + Inner(v))
    decreases v, 1
  {
    CompactAgrees(h, v, level, false);
    var tail := CompactMemberShape(h, k, v, level);
    DropEmpty([], RenderString(k), [COLON], tail);
  }

  lemma {:induction false} CompactElementsAgree(h: Host, es: seq<Value>, level: nat)
    requires forall i | 0 <= i < |es| :: Writable(es[i])
    ensures RenderElements(h, es, 0, level) == Ok(CompactElements(es))
    decreases es, 1
  {
    if |es| > 0 {
      assert Writable(es[0]);
      CompactElementText(h, es[0], level);
      assert forall i | 0 <= i < |es[1..]| :: es[1..][i] == es[i + 1];
      CompactElementsAgree(h, es[1..], level);
    }
  }

  lemma {:induction false} CompactElementText(h: Host, v: Value, level: nat)
    requires Writable(v)
    ensures ElementText(h, v, 0, level) == Ok(Inner(v))
    decreases v, 1
  {
    CompactAgrees(h, v, level, true);
    assert !NewlineBefore(v, 0);
    var e: Text := [];
    assert ElementText(h, v, 0, level) == Ok(e + e + Inner(v));
    assert e + e + Inner(v) == Inner(v);
  }

  /** `toJsonString(0)` of a writable object or array is its compact text. */
  lemma CompactJson(h: Host, v: Value)
    requires Writable(v) && (v.Obj? || v.Arr?)
    ensures v.Obj? ==> ObjectJson(h, v.members, 0) == Ok(Compact(v))
    ensures v.Arr? ==> ArrayJson(h, v.elems, 0) == Ok(Compact(v))
  {
    if v.Obj? {
      CompactObjectAgrees(h, v.members, 0, false);
    } else {
      CompactArrayAgrees(h, v.elems, 0, false);
    }
  }

  // ---------------------------------------------------------------------
  // Words

  /** The characters of the bare words the renderer writes: digits, '-' and
      lower-case letters. */
  predicate WordChar(ch: Char16)
  {
    ZERO <= ch <= ZERO + 9 || ch == MINUS || 0x61 <= ch <= 0x7A
  }

  lemma WordCharBare(ch: Char16)
    requires WordChar(ch)
    ensures BareChar(ch) && !IsWhitespace(ch) && ch > SPACE
  {
    assert forall i | 0 <= i < |BareStops| :: BareStops[i] != ch;
  }

  /** A run of word characters ends where the first other character sits. */
  lemma {:induction false} BareEndWord(t: Text, more: Text)
    requires forall i | 0 <= i < |t| :: WordChar(t[i])
    requires |more| > 0 && !BareChar(more[0])
    ensures BareEnd(t + more) == |t|
    decreases |t|
  {
    if |t| > 0 {
      WordCharBare(t[0]);
      assert (t + more)[1..] == t[1..] + more;
      BareEndWord(t[1..], more);
    } else {
      assert t + more == more;
    }
  }

  /** `trim()` leaves a word alone. */
  lemma TrimWord(t: Text)
    requires |t| > 0 && forall i | 0 <= i < |t| :: WordChar(t[i])
    ensures Trim(t) == t
  {
    WordCharBare(t[0]);
    WordCharBare(t[|t| - 1]);
    assert LeadingSpace(t) == 0;
  }

  /** The scalars are written as words, which `stringToValue` classifies
      back as the reparsed scalar. */
  lemma ScalarWord(h: Host, v: Value)
    requires v.Null? || v.Bool? || v.Int? || v.Long?
    ensures |Compact(v)| > 0 && forall i | 0 <= i < |Compact(v)| :: WordChar(Compact(v)[i])
    ensures StringToValue(h, Compact(v)) == Reparsed(v)
  {
    ScalarChars(v);
    ScalarsClassifyBack(h, v);
  }

  /** The words null, true, false and decimal integers are made of word
      characters. */
  lemma ScalarChars(v: Value)
    requires v.Null? || v.Bool? || v.Int? || v.Long?
    ensures |Compact(v)| > 0 && forall i | 0 <= i < |Compact(v)| :: WordChar(Compact(v)[i])
  {
    var t := Compact(v);
    if v.Null? {
      assert t == [0x6E, 0x75, 0x6C, 0x6C];
    } else if v.Bool? && v.b {
      assert t == [0x74, 0x72, 0x75, 0x65];
    } else if v.Bool? {
      assert t == [0x66, 0x61, 0x6C, 0x73, 0x65];
    } else if v.Int? {
      DecimalChars(v.i);
    } else {
      DecimalChars(v.l);
    }
  }

  lemma DecimalChars(n: int)
    ensures forall i | 0 <= i < |Decimal(n)| :: WordChar(Decimal(n)[i])
  {
    var s := Decimal(n);
    if n < 0 {
      assert forall i | 1 <= i < |s| :: s[i] == Digits(-n)[i - 1];
    }
  }

  /** The first character of a value's text inside a container: never
      blank, never a separator or closing bracket. */
  lemma FirstChar(h: Host, v: Value)
    requires Writable(v)
    ensures |Inner(v)| > 0 && Inner(v)[0] > SPACE
    ensures Inner(v)[0] != COMMA && Inner(v)[0] != RBRACKET && Inner(v)[0] != RBRACE
  {
    if !v.Obj? && !v.Arr? && !v.Str? {
      ScalarWord(h, v);
      WordCharBare(Inner(v)[0]);
    }
  }

  // ---------------------------------------------------------------------
  // Reading the texts back

  /** A character read with `nextSymbol` and pushed back is ahead again. */
  lemma SymbolAgain(c: Cursor)
    requires !c.eof && |Ahead(c)| > 0 && Ahead(c)[0] > SPACE
    ensures NextSymbol(c).0 == Ahead(c)[0]
    ensures Ahead(Unread(NextSymbol(c).1)) == Ahead(c)
    ensures !Unread(NextSymbol(c).1).eof
  {
    SymbolAhead(c);
  }

  // How the compact text of a list splits at its first entry

  lemma MembersTextMore(ms: seq<Member>, more: Text)
    requires |ms| > 1
    ensures CompactMembers(ms) + [RBRACE] + more ==
      RenderString(ms[0].key) + [COLON] + Inner(ms[0].val) + ([COMMA] + (CompactMembers(ms[1..]) + [RBRACE] + more))
    ensures |CompactMembers(ms[1..])| > 0 && CompactMembers(ms[1..])[0] == QUOTE
  {
    var a := RenderString(ms[0].key) + [COLON] + Inner(ms[0].val);
    var t := CompactMembers(ms[1..]);
    assert CompactMembers(ms) == a + [COMMA] + t;
    Regroup(a, [COMMA], t, [RBRACE], more);
  }

  lemma LastMemberText(ms: seq<Member>, more: Text)
    requires |ms| == 1
    ensures CompactMembers(ms) + [RBRACE] + more ==
      RenderString(ms[0].key) + [COLON] + Inner(ms[0].val) + ([RBRACE] + more)
  {
    var a := RenderString(ms[0].key) + [COLON] + Inner(ms[0].val);
    assert CompactMembers(ms) == a by {
      assert |ms[1..]| == 0;
      assert a + [] + [] == a;
    }
    assert a + [RBRACE] + more == a + ([RBRACE] + more);
  }

  lemma ElementsTextMore(h: Host, es: seq<Value>, more: Text)
    requires |es| > 1 && Writable(es[1])
    ensures CompactElements(es) + [RBRACKET] + more ==
      Inner(es[0]) + ([COMMA] + (CompactElements(es[1..]) + [RBRACKET] + more))
    ensures var t := CompactElements(es[1..]);
      |t| > 0 && t[0] > SPACE && t[0] != COMMA && t[0] != RBRACKET
  {
    var t := CompactElements(es[1..]);
    assert CompactElements(es) == Inner(es[0]) + [COMMA] + t;
    Regroup(Inner(es[0]), [COMMA], t, [RBRACKET], more);
    FirstChar(h, es[1]);
    assert es[1..][0] == es[1];
    assert t[0] == Inner(es[1])[0];
  }

  lemma LastElementText(es: seq<Value>, more: Text)
    requires |es| == 1
    ensures CompactElements(es) + [RBRACKET] + more == Inner(es[0]) + ([RBRACKET] + more)
  {
    assert CompactElements(es[1..]) == [];
    assert CompactElements(es) == Inner(es[0]) + [] + [];
    assert Inner(es[0]) + [] + [] == Inner(es[0]);
  }

  lemma ReparsedMembersCons(acc: seq<Member>, ms: seq<Member>)
    requires |ms| > 0
    ensures acc + [Member(ms[0].key, Reparsed(ms[0].val))] + ReparsedMembers(ms[1..]) == acc + ReparsedMembers(ms)
  {
    ReparsedMembersUnfold(ms);
    MembersAssoc(acc, [Member(ms[0].key, Reparsed(ms[0].val))], ReparsedMembers(ms[1..]));
  }

  lemma ReparsedMembersUnfold(ms: seq<Member>)
    requires |ms| > 0
    ensures ReparsedMembers(ms) == [Member(ms[0].key, Reparsed(ms[0].val))] + ReparsedMembers(ms[1..])
  {
  }

  lemma MembersAssoc(a: seq<Member>, b: seq<Member>, c: seq<Member>)
    ensures a + b + c == a + (b + c)
  {
  }

  lemma ReparsedElementsCons(acc: seq<Value>, es: seq<Value>)
    requires |es| > 0
    ensures acc + [Reparsed(es[0])] + ReparsedElements(es[1..]) == acc + ReparsedElements(es)
  {
    assert ReparsedElements(es) == [Reparsed(es[0])] + ReparsedElements(es[1..]);
  }

  /** A quoted string is read by `nextValue` as that String. */
  lemma ReadString(h: Host, d: Parser.Dialect, c: Cursor, s: Text, more: Text)
    requires !c.eof && Ahead(c) == RenderString(s) + more
    ensures var r := Parser.NextValue(h, d, c);
      r.Ok? && r.value.0 == Str(s) && Ahead(r.value.1) == more && !r.value.1.eof
  {
    ReadRendered(c, s, more, d.legacy);
  }

  /** A quoted key and ':' are read by the key reader as that key, in every
      dialect. */
  lemma ReadKey(h: Host, d: Parser.Dialect, c: Cursor, k: Text, more: Text)
    requires !c.eof && Ahead(c) == RenderString(k) + [COLON] + more
    ensures var r := Parser.Key(h, d, c);
      r.Ok? && r.value.0 == k && Ahead(r.value.1) == more && !r.value.1.eof
  {
    ReadString(h, d, c, k, [COLON] + more);
    var c1 := Parser.NextValue(h, d, c).value.1;
    assert LegacyRendering.ToText(h, Str(k)) == Ok(k);
    assert Parser.KeyText(h, d, Str(k), c1) == Ok(k);
    SymbolAhead(c1);
  }

  /** ',', '}' and ']' end a bare token. */
  lemma ClosersStop(ch: Char16)
    requires ch == COMMA || ch == RBRACE || ch == RBRACKET
    ensures !BareChar(ch)
  {
    assert BareStops[0] == COMMA && BareStops[2] == RBRACKET && BareStops[3] == RBRACE;
  }

  /** The bare run `nextValue` collects from a word followed by a character
      that ends bare tokens is the word; that character is then pushed back. */
  lemma BareWord(c: Cursor, t: Text, more: Text)
    requires |t| > 0 && forall i | 0 <= i < |t| :: WordChar(t[i])
    requires !c.eof && Ahead(c) == t + more
    requires |more| > 0 && !BareChar(more[0])
    ensures NextSymbol(c).0 == t[0] && !NextSymbol(c).1.usePrevious
    ensures var r := BareRun(NextSymbol(c).1, t[0]);
      r.0 == t && Ahead(Unread(r.1)) == more && !Unread(r.1).eof
  {
    WordCharBare(t[0]);
    SymbolAhead(c);
    BareRest(NextSymbol(c).1, t, more);
  }

  lemma BareRest(c1: Cursor, t: Text, more: Text)
    requires |t| > 0 && forall i | 0 <= i < |t| :: WordChar(t[i])
    requires !c1.usePrevious && c1.rest == t[1..] + more
    requires |more| > 0 && !BareChar(more[0])
    ensures var r := BareRun(c1, t[0]);
      r.0 == t && Ahead(Unread(r.1)) == more && !Unread(r.1).eof
  {
    WordCharBare(t[0]);
    assert forall i | 0 <= i < |t[1..]| :: WordChar(t[1..][i]);
    BareEndWord(t[1..], more);
    var k := |t| - 1;
    assert BareEnd(c1.rest) == k && k < |c1.rest|;
    assert c1.rest[..k] == t[1..] && c1.rest[k] == more[0] && c1.rest[k + 1..] == more[1..];
    var r := BareRun(c1, t[0]);
    assert r.0 == [t[0]] + t[1..] == t;
    assert r.1.prev == more[0] && r.1.rest == more[1..];
    assert Ahead(Unread(r.1)) == [more[0]] + more[1..] == more;
  }

  /** How `nextValue` treats a character that opens no string and no
      container: the trimmed bare run, classified by `stringToValue`. */
  lemma NextValueBare(h: Host, d: Parser.Dialect, c: Cursor)
    requires var ch := NextSymbol(c).0; ch != QUOTE && ch != APOS && ch != LBRACE && ch != LBRACKET
    ensures var (run, c2) := BareRun(NextSymbol(c).1, NextSymbol(c).0);
      Parser.NextValue(h, d, c) ==
        if |Trim(run)| == 0 then Parser.ErrorAt(Unread(c2)) else Ok((StringToValue(h, Trim(run)), Unread(c2)))
  {
  }

  /** A word followed by a character that ends bare tokens is read by
      `nextValue` as `stringToValue` of the word, with the character that
      ended it pushed back. */
  lemma ReadWord(h: Host, d: Parser.Dialect, c: Cursor, t: Text, more: Text)
    requires |t| > 0 && forall i | 0 <= i < |t| :: WordChar(t[i])
    requires !c.eof && Ahead(c) == t + more
    requires |more| > 0 && !BareChar(more[0])
    ensures var r := Parser.NextValue(h, d, c);
      r.Ok? && r.value.0 == StringToValue(h, t) && Ahead(r.value.1) == more && !r.value.1.eof
  {
    BareWord(c, t, more);
    TrimWord(t);
    NextValueBare(h, d, c);
  }

  /** How `nextValue` dispatches on an opening bracket: the bracket is pushed
      back and the container parser reads from it. */
  lemma NextValueObject(h: Host, d: Parser.Dialect, c: Cursor)
    requires NextSymbol(c).0 == LBRACE
    ensures Parser.NextValue(h, d, c) == Parser.ParseObject(h, d, Unread(NextSymbol(c).1))
  {
  }

  lemma NextValueArray(h: Host, d: Parser.Dialect, c: Cursor)
    requires NextSymbol(c).0 == LBRACKET
    ensures Parser.NextValue(h, d, c) == Parser.ParseArray(h, d, Unread(NextSymbol(c).1))
  {
  }

  /** A value's text inside a container, followed by ',', '}' or ']', is
      read by `nextValue` as the reparsed value. */
  lemma {:induction false} ReadValue(h: Host, d: Parser.Dialect, c: Cursor, v: Value, more: Text)
    requires Writable(v) && !c.eof && Ahead(c) == Inner(v) + more
    requires |more| > 0 && (more[0] == COMMA || more[0] == RBRACE || more[0] == RBRACKET)
    ensures var r := Parser.NextValue(h, d, c);
      r.Ok? && r.value.0 == Reparsed(v) && Ahead(r.value.1) == more && !r.value.1.eof
    decreases v, 3
  {
    if v.Str? {
      ReadString(h, d, c, Escape(v.s), more);
    } else if v.Obj? {
      SymbolAgain(c);
      NextValueObject(h, d, c);
      ReadObject(h, d, Unread(NextSymbol(c).1), v.members, more);
    } else if v.Arr? {
      SymbolAgain(c);
      NextValueArray(h, d, c);
      ReadArray(h, d, Unread(NextSymbol(c).1), v.elems, more);
    } else {
      ScalarWord(h, v);
      ClosersStop(more[0]);
      ReadWord(h, d, c, Compact(v), more);
    }
  }

  /** Skipping to a character above ' ' that is next. */
  lemma SymbolSkip(c: Cursor, ch: Char16, rest: Text)
    requires !c.eof && Ahead(c) == [ch] + rest && ch > SPACE
    ensures NextSymbol(c).0 == ch && Ahead(NextSymbol(c).1) == rest
    ensures !NextSymbol(c).1.eof && !NextSymbol(c).1.usePrevious
  {
    SymbolAhead(c);
    assert ([ch] + rest)[1..] == rest;
  }

  // One step of each parser loop

  lemma ParseObjectOpen(h: Host, d: Parser.Dialect, c: Cursor)
    requires NextSymbol(c).0 == LBRACE
    ensures var r := Parser.Members(h, d, NextSymbol(c).1, []);
      Parser.ParseObject(h, d, c) == if r.Ok? then Ok((Obj(r.value.0), r.value.1)) else Fail(r.error)
  {
  }

  lemma MembersClose(h: Host, d: Parser.Dialect, c: Cursor, acc: seq<Member>)
    requires DistinctKeys(acc) && forall i | 0 <= i < |acc| :: Parser.Parsed(acc[i].val)
    requires NextSymbol(c).0 == RBRACE
    ensures Parser.Members(h, d, c, acc) == Ok((acc, NextSymbol(c).1))
  {
  }

  lemma MembersEntry(h: Host, d: Parser.Dialect, c: Cursor, acc: seq<Member>, k: Text, c2: Cursor, v: Value, c3: Cursor)
    requires DistinctKeys(acc) && forall i | 0 <= i < |acc| :: Parser.Parsed(acc[i].val)
    requires NextSymbol(c).0 == QUOTE
    requires Parser.Key(h, d, Unread(NextSymbol(c).1)) == Ok((k, c2))
    requires Parser.NextValue(h, d, c2) == Ok((v, c3))
    ensures DistinctKeys(Put(acc, k, v)) && forall i | 0 <= i < |Put(acc, k, v)| :: Parser.Parsed(Put(acc, k, v)[i].val)
    ensures Parser.Members(h, d, c, acc) == Parser.MembersAfter(h, d, c3, Put(acc, k, v))
  {
    EntryParsed(h, d, c2, acc, k, v, c3);
    MembersUnfold(h, d, c, acc, k, c2, v, c3);
  }

  /** The unfolding of the member loop at a key, once storing the value is
      known to keep the members parsed. */
  lemma MembersUnfold(h: Host, d: Parser.Dialect, c: Cursor, acc: seq<Member>, k: Text, c2: Cursor, v: Value, c3: Cursor)
    requires DistinctKeys(acc) && forall i | 0 <= i < |acc| :: Parser.Parsed(acc[i].val)
    requires DistinctKeys(Put(acc, k, v)) && forall i | 0 <= i < |Put(acc, k, v)| :: Parser.Parsed(Put(acc, k, v)[i].val)
    requires NextSymbol(c).0 == QUOTE
    requires Parser.Key(h, d, Unread(NextSymbol(c).1)) == Ok((k, c2))
    requires Parser.NextValue(h, d, c2) == Ok((v, c3))
    ensures Parser.Members(h, d, c, acc) == Parser.MembersAfter(h, d, c3, Put(acc, k, v))
  {
  }

  /** The value read for a member is a parsed value, and storing it keeps
      the keys distinct and every value parsed. */
  lemma EntryParsed(h: Host, d: Parser.Dialect, c2: Cursor, acc: seq<Member>, k: Text, v: Value, c3: Cursor)
    requires DistinctKeys(acc) && forall i | 0 <= i < |acc| :: Parser.Parsed(acc[i].val)
    requires Parser.NextValue(h, d, c2) == Ok((v, c3))
    ensures DistinctKeys(Put(acc, k, v)) && forall i | 0 <= i < |Put(acc, k, v)| :: Parser.Parsed(Put(acc, k, v)[i].val)
  {
    Parser.PutParsed(acc, k, v);
  }

  lemma AfterComma(h: Host, d: Parser.Dialect, c: Cursor, ms: seq<Member>)
    requires DistinctKeys(ms) && forall i | 0 <= i < |ms| :: Parser.Parsed(ms[i].val)
    requires NextSymbol(c).0 == COMMA && NextSymbol(NextSymbol(c).1).0 == QUOTE
    ensures Parser.MembersAfter(h, d, c, ms) == Parser.Members(h, d, Unread(NextSymbol(NextSymbol(c).1).1), ms)
  {
  }

  lemma AfterClose(h: Host, d: Parser.Dialect, c: Cursor, ms: seq<Member>)
    requires DistinctKeys(ms) && forall i | 0 <= i < |ms| :: Parser.Parsed(ms[i].val)
    requires NextSymbol(c).0 == RBRACE
    ensures Parser.MembersAfter(h, d, c, ms) == Ok((ms, NextSymbol(c).1))
  {
  }

  lemma ParseArrayOpen(h: Host, d: Parser.Dialect, c: Cursor)
    requires NextSymbol(c).0 == LBRACKET
    ensures var c1 := NextSymbol(c).1;
      NextSymbol(c1).0 == RBRACKET ==> Parser.ParseArray(h, d, c) == Ok((Arr([]), NextSymbol(c1).1))
    ensures var c1 := NextSymbol(c).1;
      var r := Parser.Elements(h, d, Unread(NextSymbol(c1).1), []);
      NextSymbol(c1).0 != RBRACKET ==>
        Parser.ParseArray(h, d, c) == if r.Ok? then Ok((Arr(r.value.0), r.value.1)) else Fail(r.error)
  {
  }

  lemma ElementsEntry(h: Host, d: Parser.Dialect, c: Cursor, acc: seq<Value>, v: Value, c1: Cursor)
    requires forall i | 0 <= i < |acc| :: Parser.Parsed(acc[i])
    requires Parser.Element(h, d, c) == Ok((v, c1))
    ensures forall i | 0 <= i < |acc + [v]| :: Parser.Parsed((acc + [v])[i])
    ensures Parser.Elements(h, d, c, acc) == Parser.ElementsAfter(h, d, c1, acc + [v])
  {
  }

  lemma ElementsComma(h: Host, d: Parser.Dialect, c: Cursor, es: seq<Value>)
    requires forall i | 0 <= i < |es| :: Parser.Parsed(es[i])
    requires NextSymbol(c).0 == COMMA && NextSymbol(NextSymbol(c).1).0 != RBRACKET
    ensures Parser.ElementsAfter(h, d, c, es) == Parser.Elements(h, d, Unread(NextSymbol(NextSymbol(c).1).1), es)
  {
  }

  lemma ElementsClose(h: Host, d: Parser.Dialect, c: Cursor, es: seq<Value>)
    requires forall i | 0 <= i < |es| :: Parser.Parsed(es[i])
    requires NextSymbol(c).0 == RBRACKET
    ensures Parser.ElementsAfter(h, d, c, es) == Ok((es, NextSymbol(c).1))
  {
  }

  // The containers

  lemma ReadEmptyObject(h: Host, d: Parser.Dialect, c: Cursor, more: Text)
    requires !c.eof && Ahead(c) == [LBRACE, RBRACE] + more
    ensures var r := Parser.ParseObject(h, d, c);
      r.Ok? && r.value.0 == Obj([]) && Ahead(r.value.1) == more && !r.value.1.eof
  {
    assert Ahead(c) == [LBRACE] + ([RBRACE] + more);
    SymbolSkip(c, LBRACE, [RBRACE] + more);
    ParseObjectOpen(h, d, c);
    var c1 := NextSymbol(c).1;
    SymbolSkip(c1, RBRACE, more);
    MembersClose(h, d, c1, []);
  }

  lemma ReadEmptyArray(h: Host, d: Parser.Dialect, c: Cursor, more: Text)
    requires !c.eof && Ahead(c) == [LBRACKET, RBRACKET] + more
    ensures var r := Parser.ParseArray(h, d, c);
      r.Ok? && r.value.0 == Arr([]) && Ahead(r.value.1) == more && !r.value.1.eof
  {
    assert Ahead(c) == [LBRACKET] + ([RBRACKET] + more);
    SymbolSkip(c, LBRACKET, [RBRACKET] + more);
    ParseArrayOpen(h, d, c);
    SymbolSkip(NextSymbol(c).1, RBRACKET, more);
  }

  /** An object's compact text is read by the object parser as the object
      with its members reparsed, in their order. */
  lemma ReadObject(h: Host, d: Parser.Dialect, c: Cursor, ms: seq<Member>, more: Text)
    requires Writable(Obj(ms)) && !c.eof
    requires Ahead(c) == Compact(Obj(ms)) + more
    ensures var r := Parser.ParseObject(h, d, c);
      r.Ok? && r.value.0 == Reparsed(Obj(ms)) && Ahead(r.value.1) == more && !r.value.1.eof
    decreases ms, 3
  {
    if |ms| == 0 {
      assert Compact(Obj(ms)) == [LBRACE, RBRACE];
      ReadEmptyObject(h, d, c, more);
    } else {
      ReadObjectBody(h, d, c, ms, more);
    }
  }

  lemma {:induction false} ReadObjectBody(h: Host, d: Parser.Dialect, c: Cursor, ms: seq<Member>, more: Text)
    requires |ms| > 0 && Writable(Obj(ms)) && !c.eof
    requires Ahead(c) == Compact(Obj(ms)) + more
    ensures var r := Parser.ParseObject(h, d, c);
      r.Ok? && r.value.0 == Reparsed(Obj(ms)) && Ahead(r.value.1) == more && !r.value.1.eof
    decreases ms, 2
  {
    var body := CompactMembers(ms);
    assert Compact(Obj(ms)) == [LBRACE] + body + [RBRACE];
    Regroup4([LBRACE], body, [RBRACE], more);
    SymbolSkip(c, LBRACE, body + [RBRACE] + more);
    ParseObjectOpen(h, d, c);
    forall j | 0 <= j < |ms| ensures Fresh([], ms[j].key) { }
    ReadMembers(h, d, NextSymbol(c).1, [], ms, more);
    assert [] + ReparsedMembers(ms) == ReparsedMembers(ms);
  }

  /** No member holds the key. */
  predicate Fresh(ms: seq<Member>, k: Text)
  {
    forall i | 0 <= i < |ms| :: ms[i].key != k
  }

  /** Storing a key not yet present appends it. */
  lemma {:induction false} PutFresh(ms: seq<Member>, k: Text, v: Value)
    requires Fresh(ms, k)
    ensures Put(ms, k, v) == ms + [Member(k, v)]
    decreases |ms|
  {
    if |ms| > 0 {
      PutFresh(ms[1..], k, v);
      assert [ms[0]] + (ms[1..] + [Member(k, v)]) == ms + [Member(k, v)];
    }
  }

  /** One member: its quoted key and ':' are read by the key reader, its
      value by `nextValue`, which stops at the separator after it. */
  lemma ReadMember(h: Host, d: Parser.Dialect, c: Cursor, k: Text, v: Value, after: Text)
    requires Writable(v) && !c.eof && Ahead(c) == RenderString(k) + [COLON] + Inner(v) + after
    requires |after| > 0 && (after[0] == COMMA || after[0] == RBRACE)
    ensures NextSymbol(c).0 == QUOTE
    ensures var key := Parser.Key(h, d, Unread(NextSymbol(c).1));
      key.Ok? && key.value.0 == k &&
      var r := Parser.NextValue(h, d, key.value.1);
      r.Ok? && r.value.0 == Reparsed(v) && Ahead(r.value.1) == after && !r.value.1.eof
    decreases v, 4
  {
    Assoc(RenderString(k) + [COLON], Inner(v), after);
    SymbolAgain(c);
    ReadKey(h, d, Unread(NextSymbol(c).1), k, Inner(v) + after);
    ReadValue(h, d, Parser.Key(h, d, Unread(NextSymbol(c).1)).value.1, v, after);
  }

  /** A member read inside the member loop: what is left is the separator
      after it, and the member is appended to those read before. */
  lemma ReadMemberStep(h: Host, d: Parser.Dialect, c: Cursor, acc: seq<Member>, k: Text, v: Value, after: Text)
      returns (c3: Cursor)
    requires Writable(v) && !c.eof && Ahead(c) == RenderString(k) + [COLON] + Inner(v) + after
    requires |after| > 0 && (after[0] == COMMA || after[0] == RBRACE)
    requires DistinctKeys(acc) && forall i | 0 <= i < |acc| :: Parser.Parsed(acc[i].val)
    requires Fresh(acc, k)
    ensures !c3.eof && Ahead(c3) == after
    ensures var acc' := acc + [Member(k, Reparsed(v))];
      DistinctKeys(acc') && forall i | 0 <= i < |acc'| :: Parser.Parsed(acc'[i].val)
    ensures Parser.Members(h, d, c, acc) == Parser.MembersAfter(h, d, c3, acc + [Member(k, Reparsed(v))])
    decreases v, 5
  {
    ReadMember(h, d, c, k, v, after);
    var c2 := Parser.Key(h, d, Unread(NextSymbol(c).1)).value.1;
    c3 := Parser.NextValue(h, d, c2).value.1;
    MembersEntry(h, d, c, acc, k, c2, Reparsed(v), c3);
    PutFresh(acc, k, Reparsed(v));
  }

  /** The member loop reads the members' compact texts, comma separated and
      closed by '}', appending each reparsed member to those read before. */
  lemma ReadMembers(h: Host, d: Parser.Dialect, c: Cursor, acc: seq<Member>, ms: seq<Member>, more: Text)
    requires |ms| > 0 && DistinctKeys(ms) && forall i | 0 <= i < |ms| :: Writable(ms[i].val)
    requires DistinctKeys(acc) && forall i | 0 <= i < |acc| :: Parser.Parsed(acc[i].val)
    requires forall j | 0 <= j < |ms| :: Fresh(acc, ms[j].key)
    requires !c.eof && Ahead(c) == CompactMembers(ms) + [RBRACE] + more
    ensures var r := Parser.Members(h, d, c, acc);
      r.Ok? && r.value.0 == acc + ReparsedMembers(ms) && Ahead(r.value.1) == more && !r.value.1.eof
    decreases ms, 1
  {
    if |ms| > 1 {
      ReadMembersMore(h, d, c, acc, ms, more);
    } else {
      ReadLastMember(h, d, c, acc, ms, more);
    }
  }

  /** The members after the first still meet the member loop's
      requirements once the first has been read. */
  lemma RestOfMembers(acc: seq<Member>, ms: seq<Member>, rv: Value)
    requires |ms| > 1 && DistinctKeys(ms) && forall i | 0 <= i < |ms| :: Writable(ms[i].val)
    requires forall j | 0 <= j < |ms| :: Fresh(acc, ms[j].key)
    ensures var rest := ms[1..];
      DistinctKeys(rest) && forall i | 0 <= i < |rest| :: Writable(rest[i].val)
    ensures var rest := ms[1..];
      forall j | 0 <= j < |rest| :: Fresh(acc + [Member(ms[0].key, rv)], rest[j].key)
  {
    var rest := ms[1..];
    var acc' := acc + [Member(ms[0].key, rv)];
    assert forall i | 0 <= i < |rest| :: rest[i] == ms[i + 1];
    forall j | 0 <= j < |rest| ensures Fresh(acc', rest[j].key) {
      assert rest[j].key != ms[0].key && Fresh(acc, rest[j].key);
    }
  }

  /** A member followed by ',' and another member. */
  lemma MemberThenComma(h: Host, d: Parser.Dialect, c: Cursor, acc: seq<Member>, k: Text, v: Value, tail: Text)
      returns (c': Cursor)
    requires Writable(v) && !c.eof && Ahead(c) == RenderString(k) + [COLON] + Inner(v) + ([COMMA] + tail)
    requires |tail| > 0 && tail[0] == QUOTE
    requires DistinctKeys(acc) && forall i | 0 <= i < |acc| :: Parser.Parsed(acc[i].val)
    requires Fresh(acc, k)
    ensures !c'.eof && Ahead(c') == tail
    ensures var acc' := acc + [Member(k, Reparsed(v))];
      DistinctKeys(acc') && forall i | 0 <= i < |acc'| :: Parser.Parsed(acc'[i].val)
    ensures Parser.Members(h, d, c, acc) == Parser.Members(h, d, c', acc + [Member(k, Reparsed(v))])
    decreases v, 6
  {
    var c3 := ReadMemberStep(h, d, c, acc, k, v, [COMMA] + tail);
    SymbolSkip(c3, COMMA, tail);
    var c4 := NextSymbol(c3).1;
    SymbolAgain(c4);
    AfterComma(h, d, c3, acc + [Member(k, Reparsed(v))]);
    c' := Unread(NextSymbol(c4).1);
  }

  lemma {:induction false} ReadMembersMore(h: Host, d: Parser.Dialect, c: Cursor, acc: seq<Member>, ms: seq<Member>, more: Text)
    requires |ms| > 1 && DistinctKeys(ms) && forall i | 0 <= i < |ms| :: Writable(ms[i].val)
    requires DistinctKeys(acc) && forall i | 0 <= i < |acc| :: Parser.Parsed(acc[i].val)
    requires forall j | 0 <= j < |ms| :: Fresh(acc, ms[j].key)
    requires !c.eof && Ahead(c) == CompactMembers(ms) + [RBRACE] + more
    ensures var r := Parser.Members(h, d, c, acc);
      r.Ok? && r.value.0 == acc + ReparsedMembers(ms) && Ahead(r.value.1) == more && !r.value.1.eof
    decreases ms, 0
  {
    var k := ms[0].key;
    var v := ms[0].val;
    assert ms[0].val < ms[0];
    assert Writable(v) && Fresh(acc, k);
    var rest := ms[1..];
    MembersTextMore(ms, more);
    var c' := MemberThenComma(h, d, c, acc, k, v, CompactMembers(rest) + [RBRACE] + more);
    var acc' := acc + [Member(k, Reparsed(v))];
    RestOfMembers(acc, ms, Reparsed(v));
    ReadMembers(h, d, c', acc', rest, more);
    ReparsedMembersCons(acc, ms);
  }

  lemma {:induction false} ReadLastMember(h: Host, d: Parser.Dialect, c: Cursor, acc: seq<Member>, ms: seq<Member>, more: Text)
    requires |ms| == 1 && forall i | 0 <= i < |ms| :: Writable(ms[i].val)
    requires DistinctKeys(acc) && forall i | 0 <= i < |acc| :: Parser.Parsed(acc[i].val)
    requires Fresh(acc, ms[0].key)
    requires !c.eof && Ahead(c) == CompactMembers(ms) + [RBRACE] + more
    ensures var r := Parser.Members(h, d, c, acc);
      r.Ok? && r.value.0 == acc + ReparsedMembers(ms) && Ahead(r.value.1) == more && !r.value.1.eof
    decreases ms, 0
  {
    var k := ms[0].key;
    var v := ms[0].val;
    assert ms[0].val < ms[0];
    assert Writable(v);
    LastMemberText(ms, more);
    var c3 := ReadMemberStep(h, d, c, acc, k, v, [RBRACE] + more);
    SymbolSkip(c3, RBRACE, more);
    AfterClose(h, d, c3, acc + [Member(k, Reparsed(v))]);
    ReparsedMembersCons(acc, ms);
    assert ReparsedMembers(ms[1..]) == [];
    assert acc + [Member(k, Reparsed(v))] + [] == acc + [Member(k, Reparsed(v))];
  }

  /** An array's compact text is read by the array parser as the array with
      its elements reparsed, in their order. */
  lemma ReadArray(h: Host, d: Parser.Dialect, c: Cursor, es: seq<Value>, more: Text)
    requires Writable(Arr(es)) && !c.eof
    requires Ahead(c) == Compact(Arr(es)) + more
    ensures var r := Parser.ParseArray(h, d, c);
      r.Ok? && r.value.0 == Reparsed(Arr(es)) && Ahead(r.value.1) == more && !r.value.1.eof
    decreases es, 3
  {
    if |es| == 0 {
      assert Compact(Arr(es)) == [LBRACKET, RBRACKET];
      ReadEmptyArray(h, d, c, more);
    } else {
      ReadArrayBody(h, d, c, es, more);
    }
  }

  lemma {:induction false} ReadArrayBody(h: Host, d: Parser.Dialect, c: Cursor, es: seq<Value>, more: Text)
    requires |es| > 0 && Writable(Arr(es)) && !c.eof
    requires Ahead(c) == Compact(Arr(es)) + more
    ensures var r := Parser.ParseArray(h, d, c);
      r.Ok? && r.value.0 == Reparsed(Arr(es)) && Ahead(r.value.1) == more && !r.value.1.eof
    decreases es, 2
  {
    var body := CompactElements(es);
    assert Compact(Arr(es)) == [LBRACKET] + body + [RBRACKET];
    Regroup4([LBRACKET], body, [RBRACKET], more);
    SymbolSkip(c, LBRACKET, body + [RBRACKET] + more);
    ParseArrayOpen(h, d, c);
    var c1 := NextSymbol(c).1;
    FirstChar(h, es[0]);
    assert body[0] == Inner(es[0])[0];
    SymbolAgain(c1);
    ReadElements(h, d, Unread(NextSymbol(c1).1), [], es, more);
    assert [] + ReparsedElements(es) == ReparsedElements(es);
  }

  /** One element of the loop: not a ',', so it is pushed back and read with
      `nextValue`. */
  lemma ReadElement(h: Host, d: Parser.Dialect, c: Cursor, v: Value, after: Text)
    requires Writable(v) && !c.eof && Ahead(c) == Inner(v) + after
    requires |after| > 0 && (after[0] == COMMA || after[0] == RBRACKET)
    ensures var r := Parser.Element(h, d, c);
      r.Ok? && r.value.0 == Reparsed(v) && Ahead(r.value.1) == after && !r.value.1.eof
    decreases v, 4
  {
    FirstChar(h, v);
    SymbolAgain(c);
    ReadValue(h, d, Unread(NextSymbol(c).1), v, after);
  }

  /** The element loop reads the elements' compact texts, comma separated
      and closed by ']', appending each reparsed element. */
  lemma ReadElements(h: Host, d: Parser.Dialect, c: Cursor, acc: seq<Value>, es: seq<Value>, more: Text)
    requires |es| > 0 && forall i | 0 <= i < |es| :: Writable(es[i])
    requires forall i | 0 <= i < |acc| :: Parser.Parsed(acc[i])
    requires !c.eof && Ahead(c) == CompactElements(es) + [RBRACKET] + more
    ensures var r := Parser.Elements(h, d, c, acc);
      r.Ok? && r.value.0 == acc + ReparsedElements(es) && Ahead(r.value.1) == more && !r.value.1.eof
    decreases es, 1
  {
    if |es| > 1 {
      ReadElementsMore(h, d, c, acc, es, more);
    } else {
      ReadLastElement(h, d, c, acc, es, more);
    }
  }

  lemma RestOfElements(es: seq<Value>)
    requires |es| > 1 && forall i | 0 <= i < |es| :: Writable(es[i])
    ensures forall i | 0 <= i < |es[1..]| :: Writable(es[1..][i])
  {
    assert forall i | 0 <= i < |es[1..]| :: es[1..][i] == es[i + 1];
  }

  /** An element followed by ',' and another element. */
  lemma ElementThenComma(h: Host, d: Parser.Dialect, c: Cursor, acc: seq<Value>, v: Value, tail: Text)
      returns (c': Cursor)
    requires Writable(v) && !c.eof && Ahead(c) == Inner(v) + ([COMMA] + tail)
    requires |tail| > 0 && tail[0] > SPACE && tail[0] != RBRACKET
    requires forall i | 0 <= i < |acc| :: Parser.Parsed(acc[i])
    ensures !c'.eof && Ahead(c') == tail
    ensures forall i | 0 <= i < |acc + [Reparsed(v)]| :: Parser.Parsed((acc + [Reparsed(v)])[i])
    ensures Parser.Elements(h, d, c, acc) == Parser.Elements(h, d, c', acc + [Reparsed(v)])
    decreases v, 5
  {
    ReadElement(h, d, c, v, [COMMA] + tail);
    var c1 := Parser.Element(h, d, c).value.1;
    SymbolSkip(c1, COMMA, tail);
    var c2 := NextSymbol(c1).1;
    SymbolAgain(c2);
    ElementsEntry(h, d, c, acc, Reparsed(v), c1);
    ElementsComma(h, d, c1, acc + [Reparsed(v)]);
    c' := Unread(NextSymbol(c2).1);
  }

  lemma {:induction false} ReadElementsMore(h: Host, d: Parser.Dialect, c: Cursor, acc: seq<Value>, es: seq<Value>, more: Text)
    requires |es| > 1 && forall i | 0 <= i < |es| :: Writable(es[i])
    requires forall i | 0 <= i < |acc| :: Parser.Parsed(acc[i])
    requires !c.eof && Ahead(c) == CompactElements(es) + [RBRACKET] + more
    ensures var r := Parser.Elements(h, d, c, acc);
      r.Ok? && r.value.0 == acc + ReparsedElements(es) && Ahead(r.value.1) == more && !r.value.1.eof
    decreases es, 0
  {
    assert Writable(es[0]) && Writable(es[1]);
    var rest := es[1..];
    ElementsTextMore(h, es, more);
    var c' := ElementThenComma(h, d, c, acc, es[0], CompactElements(rest) + [RBRACKET] + more);
    RestOfElements(es);
    ReadElements(h, d, c', acc + [Reparsed(es[0])], rest, more);
    ReparsedElementsCons(acc, es);
  }

  lemma {:induction false} ReadLastElement(h: Host, d: Parser.Dialect, c: Cursor, acc: seq<Value>, es: seq<Value>, more: Text)
    requires |es| == 1 && forall i | 0 <= i < |es| :: Writable(es[i])
    requires forall i | 0 <= i < |acc| :: Parser.Parsed(acc[i])
    requires !c.eof && Ahead(c) == CompactElements(es) + [RBRACKET] + more
    ensures var r := Parser.Elements(h, d, c, acc);
      r.Ok? && r.value.0 == acc + ReparsedElements(es) && Ahead(r.value.1) == more && !r.value.1.eof
    decreases es, 0
  {
    var v := es[0];
    assert Writable(v);
    LastElementText(es, more);
    ReadElement(h, d, c, v, [RBRACKET] + more);
    var c1 := Parser.Element(h, d, c).value.1;
    SymbolSkip(c1, RBRACKET, more);
    ElementsEntry(h, d, c, acc, Reparsed(v), c1);
    ElementsClose(h, d, c1, acc + [Reparsed(v)]);
    ReparsedElementsCons(acc, es);
    assert ReparsedElements(es[1..]) == [];
    assert acc + [Reparsed(v)] + [] == acc + [Reparsed(v)];
  }

  // ---------------------------------------------------------------------
  // The entry points

  /** `parseJsonObject` of what `toJsonString()` writes for an object, with
      any text after it, gives the reparsed object back. */
  lemma ParseRenderedObject(h: Host, d: Parser.Dialect, removeComments: Text -> Text, ms: seq<Member>, more: Text)
    requires Writable(Obj(ms))
    ensures ObjectJson(h, ms, 0) == Ok(Compact(Obj(ms)))
    ensures Parser.ParseJsonObject(h, d, false, removeComments, Compact(Obj(ms)) + more) == Ok(Reparsed(Obj(ms)))
  {
    CompactJson(h, Obj(ms));
    ReadObject(h, d, Start(Compact(Obj(ms)) + more), ms, more);
  }

  /** `parseJsonArray` of what `toJsonString()` writes for an array, with
      any text after it, gives the reparsed array back. */
  lemma ParseRenderedArray(h: Host, d: Parser.Dialect, removeComments: Text -> Text, es: seq<Value>, more: Text)
    requires Writable(Arr(es))
    ensures ArrayJson(h, es, 0) == Ok(Compact(Arr(es)))
    ensures Parser.ParseJsonArray(h, d, false, removeComments, Compact(Arr(es)) + more) == Ok(Reparsed(Arr(es)))
  {
    CompactJson(h, Arr(es));
    ReadArray(h, d, Start(Compact(Arr(es)) + more), es, more);
  }
}
