/** `stringToValue`: how the tokenizers classify a bare (unquoted) token.
    Keywords become Boolean or null, a canonical decimal integer becomes an
    Int when it fits 32 bits and a Long otherwise, a token with a decimal
    point or exponent (or "-0") becomes a finite Double, and everything
    else is kept as the string itself. */
module Literals {
  import opened Base
  import opened Numbers
  import opened Values
  import opened Failures

  predicate IsDigit(c: Char16)
  {
    ZERO <= c <= ZERO + 9
  }

  /** The tokens read as floating point: they contain '.', 'e' or 'E', or
      are exactly "-0". */
  predicate LooksFloating(s: Text)
  {
    Contains(s, DOT) || Contains(s, LOWER_E) || Contains(s, UPPER_E) || s == Lit("-0")
  }

  /** The block inside `ignored { ... }`: Fail when `toDouble`/`toLong`
      throws, Ok(Some(v)) when it returns `v` early, Ok(None) when it falls
      through to `return str`. */
  function NumericLiteral(h: Host, s: Text): (r: Result<Option<Value>>)
    ensures r.Ok? && r.value.Some? ==>
      var v := r.value.value;
      (v.Double? && LooksFloating(s) && h.parseDouble(s) == Some(v.d) && h.isFinite(v.d))
      || (v.Int? && !LooksFloating(s) && s == Decimal(v.i))
      || (v.Long? && !LooksFloating(s) && s == Decimal(v.l) && !IsInt32(v.l))
  {
    if LooksFloating(s) then
      var d :- CheckNotNull(h.parseDouble(s));
      Ok(if h.isFinite(d) then Some(Double(d)) else None)
    else
      var n :- CheckNotNull(ParseLong(s));
      if s == Decimal(n) then
        Ok(Some(if IsInt32(n) then Int(n) else Long(n)))
      else Ok(None)
  }

  /** `stringToValue(str)`; it never fails. */
  function StringToValue(h: Host, s: Text): (v: Value)
    ensures v.Str? || v.Bool? || v.Null? || v.Int? || v.Long? || v.Double?
    ensures v.Str? ==> v.s == s
    ensures |s| == 0 ==> v == Str(s)
    ensures s == TRUE_WORD ==> v == Bool(true)
    ensures s == FALSE_WORD ==> v == Bool(false)
    ensures s == NULL_WORD ==> v == Null
    ensures v.Bool? || v.Null? ==> s == TRUE_WORD || s == FALSE_WORD || s == NULL_WORD
    ensures |s| > 0 && !IsDigit(s[0]) && s[0] != MINUS && !v.Bool? && !v.Null? ==> v == Str(s)
    ensures v.Int? ==> s == Decimal(v.i)
    ensures v.Long? ==> s == Decimal(v.l) && !IsInt32(v.l)
    ensures v.Double? ==> LooksFloating(s) && h.parseDouble(s) == Some(v.d) && h.isFinite(v.d)
  {
    if |s| == 0 then Str(s)
    else if s == TRUE_WORD then Bool(true)
    else if s == FALSE_WORD then Bool(false)
    else if s == NULL_WORD then Null
    else if IsDigit(s[0]) || s[0] == MINUS then
      var early: Option<Option<Value>> := Ignored(NumericLiteral(h, s));
      if early.Some? && early.value.Some? then early.value.value else Str(s)
    else Str(s)
  }

  /** The decimal text of any 64-bit integer is classified back as that
      number: an Int when it fits 32 bits, a Long otherwise. */
  lemma ClassifyDecimal(h: Host, n: int)
    requires IsInt64(n)
    ensures StringToValue(h, Decimal(n)) == if IsInt32(n) then Int(n) else Long(n)
  {
    var s := Decimal(n);
    DecimalRoundTrip(n, -0x8000_0000_0000_0000, 0x7FFF_FFFF_FFFF_FFFF);
    DecimalNotFloating(n);
    assert s != TRUE_WORD && s != FALSE_WORD && s != NULL_WORD by {
      assert s[0] == MINUS || IsDigit(s[0]);
    }
  }

  /** The decimal text of an integer has no '.', 'e' or 'E' and is not "-0". */
  lemma DecimalNotFloating(n: int)
    ensures !LooksFloating(Decimal(n))
  {
    var s := Decimal(n);
    assert forall i | 0 <= i < |s| :: s[i] == MINUS || IsDigit(s[i]) by {
      if n < 0 {
        assert forall i | 1 <= i < |s| :: s[i] == Digits(-n)[i - 1];
      }
    }
  }

  /** A text with a redundant leading zero is no number's decimal text. */
  lemma LeadingZeroNotDecimal(s: Text, n: int)
    requires |s| > 1 && (s[0] == ZERO || (s[0] == MINUS && |s| > 2 && s[1] == ZERO))
    ensures Decimal(n) != s
  {
    if n < 0 {
      assert Decimal(n)[1..] == Digits(-n);
    }
  }

  /** A token that reads as neither a keyword, nor floating point, nor the
      decimal text of a number stays the string itself. */
  lemma {:induction false} NotClassified(h: Host, s: Text)
    requires s != TRUE_WORD && s != FALSE_WORD && s != NULL_WORD
    requires !LooksFloating(s)
    requires forall n: int :: Decimal(n) != s
    ensures StringToValue(h, s) == Str(s)
  {
  }

  /** Integer texts that are not canonical ("007", "-00", "+1") are kept as
      strings. */
  lemma LeadingZerosStay(h: Host)
    ensures StringToValue(h, Lit("007")) == Str(Lit("007"))
  {
    var a := Lit("007");
    assert a == [ZERO, ZERO, ZERO + 7];
    assert a[0] != TRUE_WORD[0] && a[0] != FALSE_WORD[0] && a[0] != NULL_WORD[0];
    assert !LooksFloating(a) by { assert forall i | 0 <= i < |a| :: IsDigit(a[i]); }
    forall n: int ensures Decimal(n) != a { LeadingZeroNotDecimal(a, n); }
    NotClassified(h, a);
  }

  lemma NegativeZerosStay(h: Host)
    ensures StringToValue(h, Lit("-00")) == Str(Lit("-00"))
  {
    var b := Lit("-00");
    assert b == [MINUS, ZERO, ZERO];
    assert b[0] != TRUE_WORD[0] && b[0] != FALSE_WORD[0] && b[0] != NULL_WORD[0];
    assert !LooksFloating(b) by { assert b != Lit("-0"); }
    forall n: int ensures Decimal(n) != b { LeadingZeroNotDecimal(b, n); }
    NotClassified(h, b);
  }

  lemma PlusSignStays(h: Host)
    ensures StringToValue(h, Lit("+1")) == Str(Lit("+1"))
  {
    var c := Lit("+1");
    assert c[0] == PLUS;
  }
}
