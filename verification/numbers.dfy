/** Integer text conversions of the Kotlin/Java runtime that the library
    relies on, written out over ASCII digits:
    - `Int.toString`, `Long.toString` and `BigInteger.toString` (decimal),
    - `String.toLong()` / `toLongOrNull()` / `toIntOrNull()` and
      `Integer.parseInt(s, 16)`: an optional '+' or '-', then one or more
      digits of the radix, with the value in the target range,
    - `Integer.toHexString` (lowercase, unpadded) and `padStart`. */
module Numbers {
  import opened Base

  /** The value of one ASCII digit in `radix`, or None when `c` is not one
      (Java's `Character.digit` on ASCII input). */
  function DigitValue(c: Char16, radix: nat): (d: Option<nat>)
    requires 2 <= radix <= 36
    ensures d.Some? ==> d.value < radix
    ensures d.Some? && radix <= 10 ==> ZERO <= c < ZERO + radix && d.value == c - ZERO
  {
    var v :=
      if '0' as int <= c <= '9' as int then c - ('0' as int)
      else if 'a' as int <= c <= 'z' as int then c - ('a' as int) + 10
      else if 'A' as int <= c <= 'Z' as int then c - ('A' as int) + 10
      else radix;
    if v < radix then Some(v) else None
  }

  /** The value of a run of digits read most significant first; None when a
      character is not a digit of the radix. */
  function DigitsValue(s: Text, radix: nat): Option<nat>
    requires 2 <= radix <= 36
    decreases |s|
  {
    if |s| == 0 then Some(0)
    else
      var high :- DigitsValue(s[..|s| - 1], radix);
      var low :- DigitValue(s[|s| - 1], radix);
      Some(high * radix + low)
  }

  /** Java's `Long.parseLong`/`Integer.parseInt` and Kotlin's
      `toLongOrNull`/`toIntOrNull` in `radix`, with the target range
      `lo..hi`: None stands for the NumberFormatException or the null. */
  function ParseInteger(s: Text, radix: nat, lo: int, hi: int): (r: Option<int>)
    requires 2 <= radix <= 36
    ensures r.Some? ==> lo <= r.value <= hi && |s| > 0
  {
    if |s| == 0 then None
    else if s[0] == MINUS || s[0] == PLUS then
      if |s| == 1 then None
      else
        var m :- DigitsValue(s[1..], radix);
        var v: int := if s[0] == MINUS then -(m as int) else m;
        if lo <= v <= hi then Some(v) else None
    else
      var m :- DigitsValue(s, radix);
      if lo <= m <= hi then Some(m) else None
  }

  /** `String.toLong()` / `toLongOrNull()`. */
  function ParseLong(s: Text): (r: Option<int>)
    ensures r.Some? ==> IsInt64(r.value)
  {
    ParseInteger(s, 10, -0x8000_0000_0000_0000, 0x7FFF_FFFF_FFFF_FFFF)
  }

  /** `String.toIntOrNull()`. */
  function ParseInt(s: Text): (r: Option<int>)
    ensures r.Some? ==> IsInt32(r.value)
  {
    ParseInteger(s, 10, -0x8000_0000, 0x7FFF_FFFF)
  }

  /** `Integer.parseInt(s, 16)`. */
  function ParseHexInt(s: Text): (r: Option<int>)
    ensures r.Some? ==> IsInt32(r.value)
  {
    ParseInteger(s, 16, -0x8000_0000, 0x7FFF_FFFF)
  }

  /** The decimal digits of a natural number, without leading zeros. */
  function Digits(n: nat): (t: Text)
    ensures |t| >= 1
    ensures forall i | 0 <= i < |t| :: ZERO <= t[i] <= ZERO + 9
    ensures |t| > 1 ==> t[0] != ZERO
    decreases n
  {
    if n < 10 then [ZERO + n] else Digits(n / 10) + [ZERO + n % 10]
  }

  /** `Int.toString()`, `Long.toString()`, `BigInteger.toString()`. */
  function Decimal(n: int): (t: Text)
    ensures |t| >= 1
    ensures t[0] == MINUS <==> n < 0
    ensures t[0] == MINUS || ZERO <= t[0] <= ZERO + 9
  {
    if n < 0 then [MINUS] + Digits(-n) else Digits(n)
  }

  /** A lowercase hexadecimal digit. */
  function HexDigit(d: nat): (c: Char16)
    requires d < 16
    ensures DigitValue(c, 16) == Some(d)
  {
    if d < 10 then ZERO + d else ('a' as int) + d - 10
  }

  /** The hexadecimal digits of a natural number, without leading zeros. */
  function HexDigits(n: nat): (t: Text)
    ensures |t| >= 1
    decreases n
  {
    if n < 16 then [HexDigit(n)] else HexDigits(n / 16) + [HexDigit(n % 16)]
  }

  /** `Integer.toHexString`: the unsigned 32-bit reading of the value in
      lowercase hexadecimal, unpadded. */
  function ToHexString(i: Int32): (t: Text)
    ensures i >= 0 ==> DigitsValue(t, 16) == Some(i)
    ensures i < 0 ==> DigitsValue(t, 16) == Some(i + 0x1_0000_0000)
  {
    var u: nat := if i < 0 then i + 0x1_0000_0000 else i;
    HexDigitsValue(u);
    HexDigits(u)
  }

  /** `padStart(len, pad)`: left-pads `t` with `pad` up to `len` units. */
  function PadStart(t: Text, len: nat, pad: Char16): (r: Text)
    ensures |r| == if |t| >= len then |t| else len
    ensures r[|r| - |t|..] == t
    ensures forall i | 0 <= i < |r| - |t| :: r[i] == pad
  {
    if |t| >= len then t else seq(len - |t|, _ => pad) + t
  }

  // ---------------------------------------------------------------------
  // Round trips

  /** Reading back the decimal digits of `n` gives `n`. */
  lemma {:induction false} DigitsValue10(n: nat)
    ensures DigitsValue(Digits(n), 10) == Some(n)
    decreases n
  {
    if n >= 10 {
      DigitsValue10(n / 10);
      var t := Digits(n);
      assert t[..|t| - 1] == Digits(n / 10);
    }
  }

  /** Reading back the hexadecimal digits of `n` gives `n`. */
  lemma {:induction false} HexDigitsValue(n: nat)
    ensures DigitsValue(HexDigits(n), 16) == Some(n)
    decreases n
  {
    if n >= 16 {
      HexDigitsValue(n / 16);
      var t := HexDigits(n);
      assert t[..|t| - 1] == HexDigits(n / 16);
    }
  }

  /** A number below 16^k has at most k hexadecimal digits. */
  lemma {:induction false} HexDigitsLength(n: nat, k: nat)
    requires k >= 1 && n < Pow16(k)
    ensures |HexDigits(n)| <= k
    decreases n
  {
    if n >= 16 {
      assert k >= 2 && n / 16 < Pow16(k - 1);
      HexDigitsLength(n / 16, k - 1);
    }
  }

  function Pow16(k: nat): (p: nat)
    ensures p >= 1
  {
    if k == 0 then 1 else 16 * Pow16(k - 1)
  }

  /** Leading zeros do not change the value of a digit run. */
  lemma {:induction false} LeadingZeros(k: nat, s: Text, radix: nat)
    requires 2 <= radix <= 36
    ensures DigitsValue(seq(k, _ => ZERO) + s, radix) == DigitsValue(s, radix)
    decreases |s|, k
  {
    var z: Text := seq(k, _ => ZERO);
    if |s| == 0 {
      assert z + s == z;
      if k > 0 {
        assert z[..|z| - 1] == seq(k - 1, _ => ZERO) + [];
        LeadingZeros(k - 1, [], radix);
      }
    } else {
      assert (z + s)[..|z + s| - 1] == z + s[..|s| - 1];
      LeadingZeros(k, s[..|s| - 1], radix);
    }
  }

  /** Decimal rendering and parsing agree: any value in the target range
      survives `toString` followed by `toLong`/`toIntOrNull`. */
  lemma DecimalRoundTrip(n: int, lo: int, hi: int)
    requires lo <= n <= hi
    ensures ParseInteger(Decimal(n), 10, lo, hi) == Some(n)
  {
    var m: nat := if n < 0 then -n else n;
    DigitsValue10(m);
    if n < 0 {
      assert Decimal(n)[1..] == Digits(m);
    }
  }

  /** A code unit written as four zero-padded hex digits (the renderer's
      `\uXXXX`) is read back by `Integer.parseInt(_, 16)`. */
  lemma HexRoundTrip(c: Char16)
    ensures |PadStart(ToHexString(c), 4, ZERO)| == 4
    ensures ParseHexInt(PadStart(ToHexString(c), 4, ZERO)) == Some(c)
  {
    var h := ToHexString(c);
    HexDigitsLength(c, 4);
    var p := PadStart(h, 4, ZERO);
    assert p == seq(4 - |h|, _ => ZERO) + h;
    LeadingZeros(4 - |h|, h, 16);
    assert p[0] != MINUS && p[0] != PLUS by {
      if |h| < 4 { assert p[0] == ZERO; }
      else {
        assert p == h && h == HexDigits(c);
        HexDigitFirst(c);
      }
    }
  }

  /** The first hexadecimal digit is never a sign. */
  lemma {:induction false} HexDigitFirst(n: nat)
    ensures HexDigits(n)[0] != MINUS && HexDigits(n)[0] != PLUS
    decreases n
  {
    if n >= 16 {
      HexDigitFirst(n / 16);
    }
  }
}
