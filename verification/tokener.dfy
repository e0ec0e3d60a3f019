/** The character cursor of the tokenizers and the scanning operations built
    on it: `next`, one character of push-back (`prev()` in the newer
    tokenizer, `back()` in the older one), `hasNext`, `nextSymbol` /
    `nextClean`, `nextText` / `next(n)`, `next(c)`, `nextString`, `nextTo`
    and the bare-token scan of `nextValue`.

    Both tokenizers read the same way; they differ in `isAtEnd`, in what
    `hasNext` does at the end of the input, and in whether reading `n`
    characters checks for the end. Those differences are separate functions
    here (the older ones are prefixed `Legacy`).

    The reader is the text not read yet: `reader.read()` delivers its first
    character, or -1 when it is empty. */
module Tokener {
  import opened Base
  import opened Numbers
  import opened Strings
  import opened Failures

  /** The tokenizer state. `prev` is the last character delivered and
      `usePrevious` says that it has been pushed back. */
  datatype Cursor = Cursor(
    rest: Text,
    index: int,
    character: int,
    line: int,
    eof: bool,
    prev: Char16,
    usePrevious: bool)

  /** A tokenizer over a string, before its first read. */
  function Start(text: Text): Cursor
  {
    Cursor(text, 0, 1, 1, false, NUL, false)
  }

  /** What is left to deliver, as a termination measure: two units per
      unread input character and one for a pushed-back character other
      than NUL (a pushed-back NUL at the end of the input stands for
      nothing). Every delivery of a character other than NUL lowers it. */
  function Budget(c: Cursor): nat
  {
    2 * |c.rest| + (if c.usePrevious && c.prev != NUL then 1 else 0)
  }

  /** `dehexchar(c)` of the older tokenizer: the value of a hexadecimal
      digit in either case, -1 for any other character. It agrees with the
      radix-16 digit value Java's number parsing uses. */
  function Dehexchar(c: Char16): (d: int)
    ensures -1 <= d < 16
    ensures d >= 0 <==> DigitValue(c, 16).Some?
    ensures d >= 0 ==> d == DigitValue(c, 16).value
  {
    if ZERO <= c <= ZERO + 9 then c - ZERO
    else if 0x41 <= c <= 0x46 then c - 0x41 + 10
    else if 0x61 <= c <= 0x66 then c - 0x61 + 10
    else -1
  }

  /** Every digit `toHexString` writes is read back by `dehexchar`. */
  lemma DehexcharInverse(d: nat)
    requires d < 16
    ensures Dehexchar(HexDigit(d)) == d
  {
  }

  // ---------------------------------------------------------------------
  // Reading and pushing back

  /** `next()`: the pushed-back character if there is one, otherwise the
      next input character, where end of input and a raw NUL both deliver
      NUL and set `eof`. Then `index` advances, `line` advances after a
      '\r' or at a '\n' (where `character` restarts) and `character`
      advances otherwise. */
  function Next(c: Cursor): (r: (Char16, Cursor))
    ensures r.1.prev == r.0 && !r.1.usePrevious
    ensures r.1.index == c.index + 1
    ensures c.usePrevious ==> r.0 == c.prev && r.1.rest == c.rest && r.1.eof == c.eof
    ensures !c.usePrevious ==> r.0 == (if |c.rest| > 0 then c.rest[0] else NUL)
    ensures !c.usePrevious ==> r.1.rest == (if |c.rest| > 0 then c.rest[1..] else [])
    ensures !c.usePrevious ==> r.1.eof == (c.eof || r.0 == NUL)
    ensures !AtEnd(r.1)
    ensures Budget(r.1) <= Budget(c)
    ensures r.0 != NUL ==> Budget(r.1) < Budget(c)
    ensures !c.usePrevious && |c.rest| > 0 ==> Budget(r.1) + 2 == Budget(c)
    ensures Budget(Unread(r.1)) <= Budget(c)
  {
    var ch := if c.usePrevious then c.prev else if |c.rest| == 0 then NUL else c.rest[0];
    var rest := if c.usePrevious || |c.rest| == 0 then c.rest else c.rest[1..];
    var eof := if c.usePrevious then c.eof else c.eof || ch == NUL;
    var line := if c.prev == CR || ch == LF then c.line + 1 else c.line;
    var character :=
      if c.prev == CR then (if ch == LF then 0 else 1)
      else if ch == LF then 0
      else c.character + 1;
    (ch, Cursor(rest, c.index + 1, character, line, eof, ch, false))
  }

  /** The state change of a push-back; callers read a character first. */
  function Unread(c: Cursor): (r: Cursor)
    requires !c.usePrevious
    ensures r.usePrevious && !r.eof && r.rest == c.rest && r.prev == c.prev
    ensures Budget(r) == Budget(c) + (if c.prev != NUL then 1 else 0)
  {
    c.(index := c.index - 1, character := c.character - 1, usePrevious := true, eof := false)
  }

  /** `prev()` of the newer tokenizer: pushes back the last character and
      returns it; a second push-back without a read in between throws a
      JSException. */
  function Prev(c: Cursor): (r: Result<(Char16, Cursor)>)
    ensures r.Fail? <==> c.usePrevious
    ensures r.Fail? ==> r.error == JSE
    ensures r.Ok? ==> r.value.0 == c.prev && r.value.1.rest == c.rest
    ensures r.Ok? ==> r.value.1.index == c.index - 1 && r.value.1.character == c.character - 1
    ensures r.Ok? ==> !AtEnd(r.value.1)
  {
    var _ :- CheckJson(!c.usePrevious);
    Ok((c.prev, Unread(c)))
  }

  /** `back()` of the older tokenizer: the same push-back, without a result. */
  function Back(c: Cursor): (r: Result<Cursor>)
    ensures r.Fail? <==> c.usePrevious
    ensures r.Fail? ==> r.error == JSE
    ensures r.Ok? ==> Prev(c) == Ok((c.prev, r.value))
  {
    var _ :- CheckJson(!c.usePrevious);
    Ok(Unread(c))
  }

  /** `isAtEnd` of the newer tokenizer: `eof && usePrevious`. */
  predicate AtEnd(c: Cursor)
  {
    c.eof && c.usePrevious
  }

  /** `isAtEnd` of the older tokenizer: `eof && !usePrevious`. */
  predicate LegacyAtEnd(c: Cursor)
  {
    c.eof && !c.usePrevious
  }

  /** A push-back followed by a read delivers the pushed-back character
      again and leaves the input and the index where they were. */
  lemma PrevThenNext(c: Cursor)
    requires !c.usePrevious
    ensures Prev(c).Ok? && Prev(Prev(c).value.1).Fail?
    ensures var n := Next(Prev(c).value.1);
      n.0 == c.prev && n.1.rest == c.rest && n.1.index == c.index && !n.1.usePrevious
    ensures c.prev != CR && c.prev != LF ==>
      var n := Next(Prev(c).value.1);
      n.1.character == c.character && n.1.line == c.line
  {
  }

  /** Reading, pushing back and reading again delivers the same character
      twice and ends where the first read ended. */
  lemma {:induction false} NextPrevNext(c: Cursor)
    ensures var (ch, c1) := Next(c);
      var again := Next(Prev(c1).value.1);
      again.0 == ch && again.1.rest == c1.rest && again.1.index == c1.index
  {
    var (ch, c1) := Next(c);
    PrevThenNext(c1);
  }

  /** Re-reading a pushed-back line break counts the line a second time:
      `next` advances `line` after any '\r' and at any '\n', including the
      one it re-delivers. */
  lemma PushedBackNewlineCountsTwice(c: Cursor)
    requires !c.usePrevious && (c.prev == CR || c.prev == LF)
    ensures Next(Prev(c).value.1).1.line == c.line + 1
  {
  }

  /** `hasNext()` of the newer tokenizer: reads one character and pushes it
      back unless `isAtEnd`, which never holds after a read, so it is always
      true, even at the end of the input. */
  function HasNext(c: Cursor): (r: Result<(bool, Cursor)>)
    ensures r.Ok? && r.value.0
    ensures r.value.1.index == c.index && r.value.1.rest == Next(c).1.rest
    ensures Next(r.value.1).0 == Next(c).0
  {
    var (_, c1) := Next(c);
    if AtEnd(c1) then Ok((false, c1))
    else
      match Prev(c1)
      case Ok(p) => Ok((true, p.1))
      case Fail(e) => Fail(e)
  }

  /** `hasNext()` of the older tokenizer: false exactly when the read hits
      the end (or a raw NUL), and then the read is not undone. */
  function LegacyHasNext(c: Cursor): (r: Result<(bool, Cursor)>)
    ensures r.Ok?
    ensures !r.value.0 <==> Next(c).1.eof
    ensures !r.value.0 ==> r.value.1 == Next(c).1
    ensures r.value.0 ==> r.value.1.index == c.index && Next(r.value.1).0 == Next(c).0
  {
    var (_, c1) := Next(c);
    if LegacyAtEnd(c1) then Ok((false, c1))
    else
      match Back(c1)
      case Ok(c2) => Ok((true, c2))
      case Fail(e) => Fail(e)
  }

  /** At the end of the input the two `hasNext` answer differently. */
  lemma HasNextAtEnd(c: Cursor)
    requires !c.usePrevious && |c.rest| == 0
    ensures HasNext(c).value.0
    ensures !LegacyHasNext(c).value.0
  {
  }

  // ---------------------------------------------------------------------
  // Skipping blanks

  /** Where the first character above ' ' or NUL sits in `t` (or `|t|`). */
  function SymbolAt(t: Text): (k: nat)
    ensures k <= |t|
    ensures forall i | 0 <= i < k :: NUL < t[i] <= SPACE
    ensures k < |t| ==> t[k] == NUL || t[k] > SPACE
  {
    if |t| == 0 || t[0] == NUL || t[0] > SPACE then 0 else 1 + SymbolAt(t[1..])
  }

  /** `nextSymbol()` (newer) / `nextClean()` (older): reads past the
      characters up to ' ' other than NUL and returns the first other one,
      or NUL at the end of the input. */
  function NextSymbol(c: Cursor): (r: (Char16, Cursor))
    ensures r.0 == NUL || r.0 > SPACE
    ensures r.1.prev == r.0 && !r.1.usePrevious
    ensures Budget(r.1) <= Budget(c)
    ensures r.0 != NUL ==> Budget(r.1) < Budget(c)
    ensures Budget(Unread(r.1)) <= Budget(c)
    ensures !c.usePrevious ==>
      var k := SymbolAt(c.rest);
      r.0 == (if k < |c.rest| then c.rest[k] else NUL) &&
      r.1.rest == (if k < |c.rest| then c.rest[k + 1..] else [])
    decreases Budget(c)
  {
    var (ch, c1) := Next(c);
    if NUL < ch <= SPACE then
      SymbolAtSkip(c.rest);
      NextSymbol(c1)
    else (ch, c1)
  }

  /** Past a leading blank, the first other character sits one further on. */
  lemma SymbolAtSkip(t: Text)
    ensures |t| > 0 && NUL < t[0] <= SPACE ==>
      var k := SymbolAt(t[1..]);
      SymbolAt(t) == k + 1 &&
      (k < |t| - 1 ==> t[1..][k] == t[k + 1] && t[1..][k + 1..] == t[k + 2..])
  {
  }

  // ---------------------------------------------------------------------
  // Reading a fixed number of characters

  /** The `CharArray(n) { next() ... }` loop of `nextText`, with its
      `isAtEnd` check. */
  function ReadChars(c: Cursor, n: nat): (r: Result<(Text, Cursor)>)
    ensures r.Ok? && |r.value.0| == n
    ensures Budget(r.value.1) <= Budget(c)
    ensures n > 0 ==> !r.value.1.usePrevious
    ensures !c.usePrevious && n <= |c.rest| ==>
      r.value.0 == c.rest[..n] && r.value.1.rest == c.rest[n..] &&
      (n == 0 || r.value.1.eof == (c.eof || Contains(c.rest[..n], NUL)))
    ensures !c.usePrevious ==> forall i | |c.rest| <= i < n :: r.value.0[i] == NUL
    decreases n
  {
    if n == 0 then Ok(([], c))
    else
      var (ch, c1) := Next(c);
      if AtEnd(c1) then SyntaxError(c1.index, c1.character, c1.line)
      else
        var p := ReadChars(c1, n - 1).value;
        PrefixSkip(c.rest, n);
        assert !c.usePrevious ==> forall i | |c.rest| <= i < n :: ([ch] + p.0)[i] == NUL by {
          if !c.usePrevious {
            forall i | |c.rest| <= i < n
              ensures ([ch] + p.0)[i] == NUL
            {
              if i > 0 {
                assert |c1.rest| <= i - 1;
              }
            }
          }
        }
        assert !c.usePrevious && n <= |c.rest| && n > 1 ==> (Contains(c.rest[..n], NUL) <==> ch == NUL || Contains(c1.rest[..n - 1], NUL));
        Ok(([ch] + p.0, p.1))
  }

  /** `nextText(n)` of the newer tokenizer: IllegalArgumentException for a
      negative length, "" for zero, otherwise exactly n characters; its
      bounds error can never fire, so past the end it returns NULs. */
  function NextText(c: Cursor, n: int): (r: Result<(Text, Cursor)>)
    ensures r.Fail? <==> n < 0
    ensures r.Fail? ==> r.error == IllegalArgument
    ensures r.Ok? ==> |r.value.0| == n && Budget(r.value.1) <= Budget(c)
    ensures n == 0 ==> r == Ok(([], c))
    ensures n > 0 ==> !r.value.1.usePrevious
    ensures !c.usePrevious && 0 <= n <= |c.rest| ==>
      r.value.0 == c.rest[..n] && r.value.1.rest == c.rest[n..]
    ensures !c.usePrevious && 0 < n <= |c.rest| ==>
      r.value.1.eof == (c.eof || Contains(c.rest[..n], NUL))
    ensures !c.usePrevious && n > |c.rest| ==>
      forall i | |c.rest| <= i < n :: r.value.0[i] == NUL
  {
    if n < 0 then Fail(IllegalArgument)
    else if n == 0 then Ok(([], c))
    else ReadChars(c, n)
  }

  /** `next(n)` of the older tokenizer: `CharArray(n)` throws for a negative
      n, and a read that reaches the end (or a raw NUL) is the syntax error
      "Substring bounds error". */
  function LegacyNextChars(c: Cursor, n: int): (r: Result<(Text, Cursor)>)
    ensures n < 0 ==> r == Fail(NegativeArraySize)
    ensures n == 0 ==> r == Ok(([], c))
    ensures n > 0 && r.Fail? ==> r.error.Syntax?
    ensures r.Ok? ==> |r.value.0| == n && Budget(r.value.1) <= Budget(c)
    ensures r.Ok? && n > 0 ==> !r.value.1.usePrevious
    ensures !c.usePrevious && !c.eof && n > 0 ==>
      (r.Ok? <==> n <= |c.rest| && !Contains(c.rest[..n], NUL))
    ensures !c.usePrevious && r.Ok? && n > 0 ==>
      n <= |c.rest| && r.value.0 == c.rest[..n] && r.value.1.rest == c.rest[n..] && !r.value.1.eof
  {
    if n < 0 then Fail(NegativeArraySize)
    else if n == 0 then Ok(([], c))
    else LegacyReadChars(c, n)
  }

  /** The read loop of the older `next(n)`. */
  function LegacyReadChars(c: Cursor, n: nat): (r: Result<(Text, Cursor)>)
    ensures r.Fail? ==> r.error.Syntax?
    ensures r.Ok? ==> |r.value.0| == n && Budget(r.value.1) <= Budget(c)
    ensures r.Ok? && n > 0 ==> !r.value.1.usePrevious
    ensures !c.usePrevious && !c.eof && n > 0 ==>
      (r.Ok? <==> n <= |c.rest| && !Contains(c.rest[..n], NUL))
    ensures !c.usePrevious && r.Ok? && n > 0 ==>
      n <= |c.rest| && r.value.0 == c.rest[..n] && r.value.1.rest == c.rest[n..] && !r.value.1.eof
    decreases n
  {
    if n == 0 then Ok(([], c))
    else
      var (ch, c1) := Next(c);
      if LegacyAtEnd(c1) then SyntaxError(c1.index, c1.character, c1.line)
      else
        var p :- LegacyReadChars(c1, n - 1);
        PrefixSkip(c.rest, n);
        Ok(([ch] + p.0, p.1))
  }

  /** The first `n` characters of a text are its first character followed
      by the first `n - 1` of the rest. */
  lemma PrefixSkip(t: Text, n: int)
    ensures 0 < n <= |t| ==>
      t[..n] == [t[0]] + t[1..][..n - 1] && t[n..] == t[1..][n - 1..] &&
      (Contains(t[..n], NUL) <==> t[0] == NUL || Contains(t[1..][..n - 1], NUL))
  {
    if 0 < n <= |t| {
      assert t[..n] == [t[0]] + t[1..][..n - 1];
    }
  }

  /** `next(c)`: reads one character and fails unless it is the expected one. */
  function NextExpect(c: Cursor, expected: Char16): (r: Result<(Char16, Cursor)>)
    ensures r.Ok? <==> Next(c).0 == expected
    ensures r.Ok? ==> r.value == Next(c)
    ensures r.Fail? ==> r.error.Syntax?
  {
    var (n, c1) := Next(c);
    if n != expected then SyntaxError(c1.index, c1.character, c1.line) else Ok((n, c1))
  }

  // ---------------------------------------------------------------------
  // Quoted strings

  /** The character a backslash escape stands for in `nextString`: `\b`,
      `\t`, `\n`, `\f`, `\r`, the four hex digits of `\u` read with
      `Integer.parseInt(_, 16)` and narrowed with `toChar()`, and `\"`,
      `\'`, `\\`, `\/`; anything else is the syntax error "Illegal escape".
      The newer tokenizer reads the hex digits with `nextText(4)`, the
      older one with `next(4)`. */
  function Unescape(c: Cursor, legacy: bool): (r: Result<(Char16, Cursor)>)
    ensures r.Fail? ==> r.error.Syntax?
    ensures r.Ok? ==> Budget(r.value.1) <= Budget(c) && !r.value.1.usePrevious
    ensures var (e, c1) := Next(c);
      e !in {LOWER_B, LOWER_T, LOWER_N, LOWER_F, LOWER_R, LOWER_U, QUOTE, APOS, BACKSLASH, SLASH} ==>
        r == SyntaxError(c1.index, c1.character, c1.line)
    ensures var (e, c1) := Next(c);
      e in {QUOTE, APOS, BACKSLASH, SLASH} ==> r == Ok((e, c1))
    ensures var (e, c1) := Next(c);
      e in {LOWER_B, LOWER_T, LOWER_N, LOWER_F, LOWER_R} ==>
        r == Ok((if e == LOWER_B then BS else if e == LOWER_T then TAB
          else if e == LOWER_N then LF else if e == LOWER_F then FF else CR, c1))
    ensures var (e, c1) := Next(c);
      var p := if legacy then LegacyNextChars(c1, 4) else NextText(c1, 4);
      e == LOWER_U ==>
        (r.Ok? <==> p.Ok? && ParseHexInt(p.value.0).Some?) &&
        (r.Ok? ==> r.value == (ParseHexInt(p.value.0).value % 0x1_0000, p.value.1))
  {
    var (e, c1) := Next(c);
    if e == LOWER_B then Ok((BS, c1))
    else if e == LOWER_T then Ok((TAB, c1))
    else if e == LOWER_N then Ok((LF, c1))
    else if e == LOWER_F then Ok((FF, c1))
    else if e == LOWER_R then Ok((CR, c1))
    else if e == LOWER_U then
      var p :- if legacy then LegacyNextChars(c1, 4) else NextText(c1, 4);
      match ParseHexInt(p.0)
      case Some(v) => Ok((v % 0x1_0000, p.1))
      case None => SyntaxError(p.1.index, p.1.character, p.1.line)
    else if e == QUOTE || e == APOS || e == BACKSLASH || e == SLASH then Ok((e, c1))
    else SyntaxError(c1.index, c1.character, c1.line)
  }

  /** `nextString(quote)`: the characters up to the closing quote, with
      escapes resolved; a raw NUL, '\r' or '\n' (or the end of the input)
      is the syntax error "Unterminated string". */
  function NextString(c: Cursor, quote: Char16, legacy: bool): (r: Result<(Text, Cursor)>)
    ensures r.Fail? ==> r.error.Syntax?
    ensures r.Ok? ==> Budget(r.value.1) < Budget(c)
    ensures r.Ok? ==> r.value.1.prev == quote && !r.value.1.usePrevious
    ensures r.Ok? ==> quote != NUL && quote != CR && quote != LF && quote != BACKSLASH
    decreases Budget(c)
  {
    var (ch, c1) := Next(c);
    if ch == NUL || ch == CR || ch == LF then SyntaxError(c1.index, c1.character, c1.line)
    else if ch == BACKSLASH then
      var u :- Unescape(c1, legacy);
      var s :- NextString(u.1, quote, legacy);
      Ok(([u.0] + s.0, s.1))
    else if ch == quote then Ok(([], c1))
    else
      var s :- NextString(c1, quote, legacy);
      Ok(([ch] + s.0, s.1))
  }

  // ---------------------------------------------------------------------
  // nextTo

  /** The characters `nextTo` stops at: a delimiter, '\n', '\r' or NUL. */
  predicate StopsAt(delimiters: Text, ch: Char16)
  {
    ch == NUL || ch == LF || ch == CR || Contains(delimiters, ch)
  }

  /** Where the first stopping character sits in `t` (or `|t|`). */
  function StopAt(t: Text, delimiters: Text): (k: nat)
    ensures k <= |t|
    ensures forall i | 0 <= i < k :: !StopsAt(delimiters, t[i])
    ensures k < |t| ==> StopsAt(delimiters, t[k])
  {
    if |t| == 0 || StopsAt(delimiters, t[0]) then 0 else 1 + StopAt(t[1..], delimiters)
  }

  /** The read loop of `nextTo`: the characters before the stopping one,
      which is pushed back unless it is NUL. */
  function ReadTo(c: Cursor, delimiters: Text): (r: (Text, Cursor))
    ensures forall i | 0 <= i < |r.0| :: !StopsAt(delimiters, r.0[i])
    ensures !c.usePrevious ==>
      var k := StopAt(c.rest, delimiters);
      r.0 == c.rest[..k] &&
      (k < |c.rest| && c.rest[k] != NUL ==>
        r.1.usePrevious && r.1.prev == c.rest[k] && r.1.rest == c.rest[k + 1..]) &&
      (k < |c.rest| && c.rest[k] == NUL ==> !r.1.usePrevious && r.1.rest == c.rest[k + 1..]) &&
      (k == |c.rest| ==> !r.1.usePrevious && r.1.rest == [])
    decreases Budget(c)
  {
    var (ch, c1) := Next(c);
    if ch == NUL then ([], c1)
    else if StopsAt(delimiters, ch) then ([], Unread(c1))
    else
      var r := ReadTo(c1, delimiters);
      StopAtSkip(c.rest, delimiters);
      ([ch] + r.0, r.1)
  }

  /** Past a leading character that does not stop `nextTo`, the stopping
      character sits one further on. */
  lemma StopAtSkip(t: Text, delimiters: Text)
    ensures |t| > 0 && !StopsAt(delimiters, t[0]) ==>
      var k := StopAt(t[1..], delimiters);
      StopAt(t, delimiters) == k + 1 && t[..k + 1] == [t[0]] + t[1..][..k] &&
      (k < |t| - 1 ==> t[1..][k] == t[k + 1] && t[1..][k + 1..] == t[k + 2..])
  {
    if |t| > 0 && !StopsAt(delimiters, t[0]) {
      var k := StopAt(t[1..], delimiters);
      assert t[..k + 1] == [t[0]] + t[1..][..k];
    }
  }

  /** `nextTo(delimiters)`, and `nextTo(delimiter)` with one delimiter: the
      text up to the stopping character, trimmed. Both tokenizers agree. */
  function NextTo(c: Cursor, delimiters: Text): (r: (Text, Cursor))
    ensures !c.usePrevious ==> r.0 == Trim(c.rest[..StopAt(c.rest, delimiters)])
    ensures forall i | 0 <= i < |r.0| :: !StopsAt(delimiters, r.0[i])
  {
    var (t, c1) := ReadTo(c, delimiters);
    (Trim(t), c1)
  }

  // ---------------------------------------------------------------------
  // Bare tokens

  /** The characters a bare token stops at besides those below ' '. */
  const BareStops: Text := [COMMA, COLON, RBRACKET, RBRACE, SLASH, BACKSLASH, QUOTE, LBRACKET, LBRACE, SEMI, EQ, HASH]

  /** The characters `nextValue` collects into a bare token: ' ' and above,
      except `,:]}/\"[{;=#`. Inner spaces are kept. */
  predicate BareChar(ch: Char16)
  {
    ch >= SPACE && !Contains(BareStops, ch)
  }

  /** Where the first character that ends a bare token sits in `t` (or `|t|`). */
  function BareEnd(t: Text): (k: nat)
    ensures k <= |t|
    ensures forall i | 0 <= i < k :: BareChar(t[i])
    ensures k < |t| ==> !BareChar(t[k])
  {
    if |t| == 0 || !BareChar(t[0]) then 0 else 1 + BareEnd(t[1..])
  }

  /** The collecting loop of `nextValue`, given the character in hand and
      the cursor just after it: collects while the character is a bare
      character, reading the next one each time. The cursor it returns has
      just read the character that stopped the loop. */
  function BareRun(c: Cursor, ch: Char16): (r: (Text, Cursor))
    requires !c.usePrevious
    ensures !r.1.usePrevious
    ensures forall i | 0 <= i < |r.0| :: BareChar(r.0[i])
    ensures !BareChar(ch) ==> r == ([], c)
    ensures BareChar(ch) ==> |r.0| > 0 && r.0[0] == ch && Budget(Unread(r.1)) <= Budget(c)
    ensures BareChar(ch) ==>
      var k := BareEnd(c.rest);
      r.0 == [ch] + c.rest[..k] &&
      (k < |c.rest| ==> r.1.prev == c.rest[k] && r.1.rest == c.rest[k + 1..]) &&
      (k == |c.rest| ==> r.1.prev == NUL && r.1.rest == [])
    decreases Budget(c) + (if BareChar(ch) then 1 else 0)
  {
    if !BareChar(ch) then ([], c)
    else
      var (ch2, c2) := Next(c);
      var r := BareRun(c2, ch2);
      BareEndSkip(c.rest);
      ([ch] + r.0, r.1)
  }

  /** Past a leading bare character, the end of the token sits one further
      on. */
  lemma BareEndSkip(t: Text)
    ensures |t| > 0 && BareChar(t[0]) ==>
      var k := BareEnd(t[1..]);
      BareEnd(t) == k + 1 && t[..k + 1] == [t[0]] + t[1..][..k] &&
      (k < |t| - 1 ==> t[1..][k] == t[k + 1] && t[1..][k + 1..] == t[k + 2..])
  {
    if |t| > 0 && BareChar(t[0]) {
      var k := BareEnd(t[1..]);
      assert t[..k + 1] == [t[0]] + t[1..][..k];
    }
  }
}
