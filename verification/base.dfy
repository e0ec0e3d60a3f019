/** Shared vocabulary of the model: UTF-16 text, the failure kinds the library
    throws, and failure-compatible Option and Result types.

    The library is written in Kotlin, whose `Char` is a UTF-16 code unit (any
    value 0..0xFFFF, surrogates included). Dafny's `char` excludes surrogates,
    so text is modelled as a sequence of code units instead. */
module Base {

  /** A Kotlin `Char`: one UTF-16 code unit. */
  type Char16 = c: int | 0 <= c < 0x1_0000

  /** A Kotlin `String`. */
  type Text = seq<Char16>

  /** Converts a Dafny string literal whose characters are all in the Basic
      Multilingual Plane into code units. */
  function Lit(s: string): (t: Text)
    requires forall i | 0 <= i < |s| :: (s[i] as int) < 0x1_0000
    ensures |t| == |s|
    ensures forall i | 0 <= i < |s| :: t[i] == s[i] as int
  {
    if |s| == 0 then [] else [s[0] as int] + Lit(s[1..])
  }

  // Code units the tokenizers and renderers compare against.
  const NUL: Char16 := 0
  const BS: Char16 := 0x08
  const TAB: Char16 := 0x09
  const LF: Char16 := 0x0A
  const FF: Char16 := 0x0C
  const CR: Char16 := 0x0D
  const SPACE: Char16 := 0x20
  const QUOTE: Char16 := 0x22
  const HASH: Char16 := 0x23
  const APOS: Char16 := 0x27
  const PLUS: Char16 := 0x2B
  const COMMA: Char16 := 0x2C
  const MINUS: Char16 := 0x2D
  const DOT: Char16 := 0x2E
  const SLASH: Char16 := 0x2F
  const ZERO: Char16 := 0x30
  const COLON: Char16 := 0x3A
  const SEMI: Char16 := 0x3B
  const EQ: Char16 := 0x3D
  const UPPER_E: Char16 := 0x45
  const LBRACKET: Char16 := 0x5B
  const BACKSLASH: Char16 := 0x5C
  const RBRACKET: Char16 := 0x5D
  const LOWER_B: Char16 := 0x62
  const LOWER_E: Char16 := 0x65
  const LOWER_F: Char16 := 0x66
  const LOWER_N: Char16 := 0x6E
  const LOWER_R: Char16 := 0x72
  const LOWER_T: Char16 := 0x74
  const LOWER_U: Char16 := 0x75
  const LBRACE: Char16 := 0x7B
  const RBRACE: Char16 := 0x7D

  /** The keyword texts the renderers write and `stringToValue` recognises. */
  const TRUE_WORD: Text := Lit("true")
  const FALSE_WORD: Text := Lit("false")
  const NULL_WORD: Text := Lit("null")

  /** True when `c` occurs in `t` (Kotlin `c in t`, `indexOf(c) >= 0`). */
  predicate Contains(t: Text, c: Char16)
  {
    exists i | 0 <= i < |t| :: t[i] == c
  }

  /** The occurrences of `c` in `t`. */
  function Count(t: Text, c: Char16): (n: nat)
    ensures n <= |t|
    ensures n == 0 <==> !Contains(t, c)
  {
    if |t| == 0 then 0 else (if t[0] == c then 1 else 0) + Count(t[1..], c)
  }

  lemma {:induction false} CountAppend(a: Text, b: Text, c: Char16)
    ensures Count(a + b, c) == Count(a, c) + Count(b, c)
    decreases |a|
  {
    if |a| > 0 {
      assert (a + b)[1..] == a[1..] + b;
      CountAppend(a[1..], b, c);
    } else {
      assert a + b == b;
    }
  }

  lemma Assoc(x: Text, y: Text, z: Text)
    ensures x + y + z == x + (y + z)
  {
  }

  /** Regrouping a concatenation of four texts around its first part. */
  lemma Regroup4(a: Text, b: Text, q: Text, m: Text)
    ensures a + b + q + m == a + (b + q + m)
  {
    Assoc(a, b, q);
    Assoc(a, b + q, m);
  }

  /** Regrouping a concatenation of five texts around its second part. */
  lemma Regroup(a: Text, b: Text, t: Text, r: Text, m: Text)
    ensures a + b + t + r + m == a + (b + (t + r + m))
  {
    Assoc(a + b, t, r);
    Assoc(a + b, t + r, m);
    Assoc(a, b, t + r + m);
  }

  /** Empty texts in a concatenation leave it unchanged. */
  lemma DropEmpty(e: Text, a: Text, b: Text, t: Text)
    requires e == []
    ensures e + a + b + e + t == a + b + t
  {
  }

  /** The range of a Kotlin `Int`. */
  predicate IsInt32(n: int)
  {
    -0x8000_0000 <= n < 0x8000_0000
  }

  /** The range of a Kotlin `Long`. */
  predicate IsInt64(n: int)
  {
    -0x8000_0000_0000_0000 <= n < 0x8000_0000_0000_0000
  }

  type Int32 = n: int | -0x8000_0000 <= n < 0x8000_0000
  type Int64 = n: int | -0x8000_0000_0000_0000 <= n < 0x8000_0000_0000_0000

  /** Where a tokenizer stood when it raised a syntax error: the values its
      `toString` prints as "at index [character c line l]". */
  datatype Position = Position(index: int, character: int, line: int)

  /** The exception kinds the library throws. Messages are not modelled; a
      `JSException` may carry the failure it wraps as its cause. */
  datatype Error =
    | JSException(cause: Option<Error>)
    | Syntax(at: Position)
    | IndexOutOfBounds
    | IllegalArgument
    | IllegalState
    | NullPointer
    | ClassCast
    | NegativeArraySize

  /** A plain `JSException` without a cause. */
  const JSE: Error := JSException(None)

  /** Kotlin's nullable `T?` where no exception is involved. */
  datatype Option<+T> = None | Some(value: T) {
    predicate IsFailure() { None? }

    function PropagateFailure<U>(): Option<U>
      requires None?
    {
      None
    }

    function Extract(): T
      requires Some?
    {
      value
    }
  }

  /** The outcome of a call that may throw. */
  datatype Result<+T> = Ok(value: T) | Fail(error: Error) {
    predicate IsFailure() { Fail? }

    function PropagateFailure<U>(): Result<U>
      requires Fail?
    {
      Fail(error)
    }

    function Extract(): T
      requires Ok?
    {
      value
    }
  }
}
