/** What the tokenizers read back from what the renderer writes.

    - `nextString('"')` applied to `escape(s) + "\""` returns `s`, with both
      tokenizers.
    - The scalars the renderer writes (null, booleans, 32- and 64-bit
      integers) are classified back by `stringToValue`.

    The statements are about the characters a cursor delivers next, its
    pushed-back character first. */
module RoundTrip {
  import opened Base
  import opened Numbers
  import opened Values
  import opened Rendering
  import opened Tokener
  import opened Literals

  /** The characters a cursor delivers next. */
  function Ahead(c: Cursor): (t: Text)
    ensures !c.usePrevious ==> t == c.rest
    ensures c.usePrevious ==> |t| > 0 && t[0] == c.prev && t[1..] == c.rest
  {
    if c.usePrevious then [c.prev] + c.rest else c.rest
  }

  /** Reading a character other than NUL delivers the first character
      ahead and moves past it. */
  lemma NextAhead(c: Cursor)
    requires !c.eof && |Ahead(c)| > 0 && Ahead(c)[0] != NUL
    ensures Next(c).0 == Ahead(c)[0]
    ensures Ahead(Next(c).1) == Ahead(c)[1..]
    ensures !Next(c).1.eof && !Next(c).1.usePrevious
  {
  }

  /** Skipping blanks stops at once on a character above ' '. */
  lemma SymbolAhead(c: Cursor)
    requires !c.eof && |Ahead(c)| > 0 && Ahead(c)[0] > SPACE
    ensures NextSymbol(c).0 == Ahead(c)[0]
    ensures Ahead(NextSymbol(c).1) == Ahead(c)[1..]
    ensures !NextSymbol(c).1.eof && !NextSymbol(c).1.usePrevious
  {
    NextAhead(c);
  }

  // ---------------------------------------------------------------------
  // Escaping and `nextString`

  /** What `nextString` does with one escaped character, as an equation
      between the string read from before it and from after it. */
  predicate StepsOver(c: Cursor, c': Cursor, ch: Char16, legacy: bool)
  {
    NextString(c, QUOTE, legacy) ==
      (var r := NextString(c', QUOTE, legacy); if r.Ok? then Ok(([ch] + r.value.0, r.value.1)) else r)
  }

  /** An unescaped character is read as itself. */
  lemma PlainStep(c: Cursor, ch: Char16, tail: Text, legacy: bool) returns (c': Cursor)
    requires PlainChar(ch)
    requires !c.eof && Ahead(c) == [ch] + tail
    ensures !c'.eof && Ahead(c') == tail && StepsOver(c, c', ch, legacy)
  {
    NextAhead(c);
    c' := Next(c).1;
  }

  /** A backslash followed by an escape that `unescape` resolves to `ch`. */
  lemma BackslashStep(c: Cursor, c1: Cursor, c': Cursor, ch: Char16, legacy: bool)
    requires !c.eof && |Ahead(c)| > 0 && Ahead(c)[0] == BACKSLASH
    requires c1 == Next(c).1 && Unescape(c1, legacy) == Ok((ch, c'))
    ensures StepsOver(c, c', ch, legacy)
  {
    NextAhead(c);
  }

  /** A two-character escape `\b \t \n \f \r \" \\` is read as the
      character it stands for. */
  lemma ShortEscapeStep(c: Cursor, ch: Char16, tail: Text, legacy: bool) returns (c': Cursor)
    requires ch == QUOTE || ch == BACKSLASH || ch == LF || ch == CR || ch == TAB || ch == BS || ch == FF
    requires !c.eof && Ahead(c) == EscapeChar(ch) + tail
    ensures !c'.eof && Ahead(c') == tail && StepsOver(c, c', ch, legacy)
  {
    var esc := EscapeChar(ch);
    assert |esc| == 2 && esc[0] == BACKSLASH;
    NextAhead(c);
    var c1 := Next(c).1;
    assert Ahead(c1) == [esc[1]] + tail;
    NextAhead(c1);
    c' := Next(c1).1;
    assert Unescape(c1, legacy) == Ok((ch, c'));
    BackslashStep(c, c1, c', ch, legacy);
  }

  /** The four hexadecimal digits of an escaped code unit contain no NUL. */
  lemma HexNoNul(ch: Char16)
    ensures !Contains(PadStart(ToHexString(ch), 4, ZERO), NUL)
  {
    HexDigitsPlain(ch);
  }

  /** Four characters without NUL are read as they stand, by `nextText(4)`
      and by the older `next(4)` alike. */
  lemma ReadFour(c: Cursor, hex: Text, tail: Text, legacy: bool)
    requires !c.eof && !c.usePrevious && c.rest == hex + tail
    requires |hex| == 4 && !Contains(hex, NUL)
    ensures var r := if legacy then LegacyNextChars(c, 4) else NextText(c, 4);
      r.Ok? && r.value.0 == hex && !r.value.1.eof && Ahead(r.value.1) == tail
  {
    assert c.rest[..4] == hex && c.rest[4..] == tail;
  }

  /** How `unescape` resolves 'u' and the four characters read after it. */
  lemma UnescapeHex(c1: Cursor, legacy: bool, hex: Text, c3: Cursor, v: int)
    requires Next(c1).0 == LOWER_U
    requires (if legacy then LegacyNextChars(Next(c1).1, 4) else NextText(Next(c1).1, 4)) == Ok((hex, c3))
    requires ParseHexInt(hex) == Some(v) && 0 <= v < 0x1_0000
    ensures Unescape(c1, legacy) == Ok((v, c3))
  {
    Char16Mod(v);
    if legacy {
      assert LegacyNextChars(Next(c1).1, 4) == Ok((hex, c3));
    } else {
      assert NextText(Next(c1).1, 4) == Ok((hex, c3));
    }
  }

  lemma Char16Mod(v: int)
    requires 0 <= v < 0x1_0000
    ensures v % 0x1_0000 == v
  {
  }

  /** The resolution of `uXXXX` after a backslash. */
  lemma UnicodeUnescape(c1: Cursor, ch: Char16, tail: Text, legacy: bool) returns (c': Cursor)
    requires !c1.eof && Ahead(c1) == [LOWER_U] + (PadStart(ToHexString(ch), 4, ZERO) + tail)
    ensures Unescape(c1, legacy) == Ok((ch, c')) && !c'.eof && Ahead(c') == tail
  {
    var hex := PadStart(ToHexString(ch), 4, ZERO);
    HexRoundTrip(ch);
    HexNoNul(ch);
    NextAhead(c1);
    var c2 := Next(c1).1;
    assert ([LOWER_U] + (hex + tail))[1..] == hex + tail;
    ReadFour(c2, hex, tail, legacy);
    c' := (if legacy then LegacyNextChars(c2, 4) else NextText(c2, 4)).value.1;
    UnescapeHex(c1, legacy, hex, c', ch);
  }

  lemma UnicodeEscapeText(ch: Char16, tail: Text)
    requires !PlainChar(ch) && !(ch == QUOTE || ch == BACKSLASH || ch == LF || ch == CR || ch == TAB || ch == BS || ch == FF)
    ensures var t := EscapeChar(ch) + tail;
      |t| > 1 && t[0] == BACKSLASH && t[1..] == [LOWER_U] + (PadStart(ToHexString(ch), 4, ZERO) + tail)
  {
    var hex := PadStart(ToHexString(ch), 4, ZERO);
    assert EscapeChar(ch) == [BACKSLASH, LOWER_U] + hex;
    assert ([BACKSLASH, LOWER_U] + hex + tail)[1..] == [LOWER_U] + (hex + tail);
  }

  /** A `\uXXXX` escape is read as the code unit it spells. */
  lemma UnicodeEscapeStep(c: Cursor, ch: Char16, tail: Text, legacy: bool) returns (c': Cursor)
    requires !PlainChar(ch) && !(ch == QUOTE || ch == BACKSLASH || ch == LF || ch == CR || ch == TAB || ch == BS || ch == FF)
    requires !c.eof && Ahead(c) == EscapeChar(ch) + tail
    ensures !c'.eof && Ahead(c') == tail && StepsOver(c, c', ch, legacy)
  {
    UnicodeEscapeText(ch, tail);
    NextAhead(c);
    var c1 := Next(c).1;
    c' := UnicodeUnescape(c1, ch, tail, legacy);
    BackslashStep(c, c1, c', ch, legacy);
  }

  /** One escaped character, whatever its kind. */
  lemma EscapedStep(c: Cursor, ch: Char16, tail: Text, legacy: bool) returns (c': Cursor)
    requires !c.eof && Ahead(c) == EscapeChar(ch) + tail
    ensures !c'.eof && Ahead(c') == tail && StepsOver(c, c', ch, legacy)
  {
    if PlainChar(ch) {
      c' := PlainStep(c, ch, tail, legacy);
    } else if ch == QUOTE || ch == BACKSLASH || ch == LF || ch == CR || ch == TAB || ch == BS || ch == FF {
      c' := ShortEscapeStep(c, ch, tail, legacy);
    } else {
      c' := UnicodeEscapeStep(c, ch, tail, legacy);
    }
  }

  /** The closing quote ends the string read so far. */
  lemma ReadClosingQuote(c: Cursor, more: Text, legacy: bool)
    requires !c.eof && Ahead(c) == [QUOTE] + more
    ensures NextString(c, QUOTE, legacy) == Ok(([], Next(c).1))
    ensures Ahead(Next(c).1) == more && !Next(c).1.eof
  {
    NextAhead(c);
    assert ([QUOTE] + more)[1..] == more;
  }

  /** `nextString('"')` reads back what `escape` wrote, up to the closing
      quote, and stops right after it. */
  lemma {:induction false} ReadEscaped(c: Cursor, s: Text, more: Text, legacy: bool)
    requires !c.eof && Ahead(c) == Escape(s) + [QUOTE] + more
    ensures NextString(c, QUOTE, legacy).Ok?
    ensures NextString(c, QUOTE, legacy).value.0 == s
    ensures Ahead(NextString(c, QUOTE, legacy).value.1) == more
    ensures !NextString(c, QUOTE, legacy).value.1.eof
    decreases |s|
  {
    if |s| == 0 {
      assert Escape(s) + [QUOTE] + more == [QUOTE] + more;
      ReadClosingQuote(c, more, legacy);
    } else {
      var tail := Escape(s[1..]) + [QUOTE] + more;
      Regroup4(EscapeChar(s[0]), Escape(s[1..]), [QUOTE], more);
      var c' := EscapedStep(c, s[0], tail, legacy);
      ReadEscaped(c', s[1..], more, legacy);
      StepsOverFirst(c, c', s, legacy);
    }
  }

  /** Reading the first character of `s` and then the rest reads `s`. */
  lemma StepsOverFirst(c: Cursor, c': Cursor, s: Text, legacy: bool)
    requires |s| > 0 && StepsOver(c, c', s[0], legacy)
    requires NextString(c', QUOTE, legacy).Ok? && NextString(c', QUOTE, legacy).value.0 == s[1..]
    ensures NextString(c, QUOTE, legacy) == Ok((s, NextString(c', QUOTE, legacy).value.1))
  {
    assert [s[0]] + s[1..] == s;
  }

  /** The rendered form of a string, quotes included, is read back as the
      string, by either tokenizer. */
  lemma ReadRendered(c: Cursor, s: Text, more: Text, legacy: bool)
    requires !c.eof && Ahead(c) == RenderString(s) + more
    ensures NextSymbol(c).0 == QUOTE
    ensures var r := NextString(NextSymbol(c).1, QUOTE, legacy);
      r.Ok? && r.value.0 == s && Ahead(r.value.1) == more && !r.value.1.eof
  {
    RenderedText(s, more);
    SymbolAhead(c);
    ReadEscaped(NextSymbol(c).1, s, more, legacy);
  }

  lemma RenderedText(s: Text, more: Text)
    ensures var t := RenderString(s) + more;
      |t| > 0 && t[0] == QUOTE && t[1..] == Escape(s) + [QUOTE] + more
  {
    assert RenderString(s) + more == [QUOTE] + (Escape(s) + [QUOTE] + more);
  }

  // ---------------------------------------------------------------------
  // Scalars

  /** The scalars the renderer writes as bare words are classified back by
      `stringToValue`: null, true, false, every Int, and every Long (one in
      the 32-bit range coming back as an Int). */
  lemma ScalarsClassifyBack(h: Host, v: Value)
    requires v.Null? || v.Bool? || v.Int? || v.Long?
    ensures RenderValue(h, v, 0, 0, false).Ok?
    ensures StringToValue(h, RenderValue(h, v, 0, 0, false).value) ==
      if v.Long? && IsInt32(v.l) then Int(v.l) else v
  {
    match v
    case Int(i) => ClassifyDecimal(h, i);
    case Long(l) => ClassifyDecimal(h, l);
    case _ =>
  }
}
