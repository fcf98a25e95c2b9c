/**
 * Lenient numeric coercion of raw captures (safe_int, safe_float) and the
 * integer-or-token rule for upstream_status.
 *
 * `int(s)` and `float(s)` are modelled on ASCII text: surrounding whitespace
 * is ignored, an optional sign is allowed, and the digits are ASCII. A value
 * `float` would reject makes `float` raise, which safe_float turns into
 * "absent"; the two coercions therefore never fail. Floating-point values are
 * modelled as exact reals.
 */
module Coerce {
  import opened Wrappers
  import opened Text

  predicate IsSign(c: char) {
    c == '+' || c == '-'
  }

  /** The text after an optional leading sign. */
  function Unsigned(t: string): string {
    if |t| > 0 && IsSign(t[0]) then t[1..] else t
  }

  function SignOf(t: string): int {
    if |t| > 0 && t[0] == '-' then -1 else 1
  }

  /** The text `int()` accepts once stripped: an optional sign and one or more digits. */
  predicate IsIntLiteral(t: string) {
    IsDigitString(Unsigned(t))
  }

  function IntLiteralValue(t: string): int
    requires IsIntLiteral(t)
  {
    SignOf(t) * DigitsValue(Unsigned(t))
  }

  /** `int(s)` in base 10, or None where it raises ValueError. */
  function ParseInt(s: string): Option<int> {
    var t := Strip(s);
    if IsIntLiteral(t) then Some(IntLiteralValue(t)) else None
  }

  /** parser.py's safe_int: "-" and "" are absent, and so is anything int() rejects. */
  function SafeInt(s: string): Option<int> {
    if s == "-" || s == "" then None else ParseInt(s)
  }

  /** Python's `str(n)`. */
  function ShowInt(n: int): string {
    if n < 0 then "-" + ShowNat(-n) else ShowNat(n)
  }

  /** `str(n)` is already stripped, and its unsigned part is the magnitude. */
  lemma ShowIntShape(n: int)
    ensures Strip(ShowInt(n)) == ShowInt(n)
    ensures Unsigned(ShowInt(n)) == ShowNat(if n < 0 then -n else n)
    ensures SignOf(ShowInt(n)) == (if n < 0 then -1 else 1)
  {
    var s := ShowInt(n);
    var d := ShowNat(if n < 0 then -n else n);
    assert s[|s| - 1] == d[|d| - 1];
    StripSolidEnds(s);
  }

  /** safe_int reads back every integer Python prints. */
  lemma SafeIntShowInt(n: int)
    ensures SafeInt(ShowInt(n)) == Some(n)
  {
    ShowIntShape(n);
    ShowNatValue(if n < 0 then -n else n);
  }

  /** A string of decimal digits yields its value. */
  lemma SafeIntDigits(s: string)
    requires IsDigitString(s)
    ensures SafeInt(s) == Some(DigitsValue(s))
  {
    StripSolidEnds(s);
  }

  /** An integer literal holds only digits and a leading sign. */
  lemma IntLiteralChars(t: string, j: nat)
    requires j < |t| && !IsDigit(t[j]) && !IsSign(t[j])
    ensures !IsIntLiteral(t)
  {
    if IsSign(t[0]) {
      assert Unsigned(t)[j - 1] == t[j];
    }
  }

  /**
   * A non-blank character that is neither a digit, a sign nor the '_' `int()`
   * allows between digits makes safe_int absent.
   */
  lemma SafeIntRejects(s: string, i: nat)
    requires i < |s| && !IsDigit(s[i]) && !IsSpace(s[i]) && !IsSign(s[i]) && s[i] != '_'
    ensures SafeInt(s) == None
  {
    StripKeeps(s, i);
    IntLiteralChars(Strip(s), i - Span(IsSpace, s));
  }

  /** `10 ** e` as an exact real, for any integer exponent. */
  function Pow10Real(e: int): (p: real)
    ensures p > 0.0
  {
    if e >= 0 then Pow10(e) as real else 1.0 / (Pow10(-e) as real)
  }

  predicate IsExponentMark(c: char) {
    c == 'e' || c == 'E'
  }

  /** The number written `whole.frac` in decimal. */
  function DecimalValue(whole: string, frac: string): real
    requires AllDigits(whole) && AllDigits(frac)
  {
    DigitsValue(whole) as real + DigitsValue(frac) as real / Pow10(|frac|) as real
  }

  /** Value of an unsigned decimal mantissa `D+`, `D+.D*` or `.D+`. */
  function MantissaValue(m: string): Option<real> {
    var dot := IndexOf(m, '.');
    var whole := m[..dot];
    var frac := if dot < |m| then m[dot + 1..] else "";
    if AllDigits(whole) && AllDigits(frac) && |whole| + |frac| > 0 then
      Some(DecimalValue(whole, frac))
    else None
  }

  /** An unsigned mantissa with an optional exponent `e[+-]D+`. */
  function UnsignedFloat(t: string): Option<real> {
    var e := Span(c => !IsExponentMark(c), t);
    match MantissaValue(t[..e])
    case None => None
    case Some(m) =>
      if e == |t| then Some(m)
      else if IsIntLiteral(t[e + 1..]) then Some(m * Pow10Real(IntLiteralValue(t[e + 1..])))
      else None
  }

  /** `float(s)` on finite decimal notation, or None where it raises ValueError. */
  function ParseFloat(s: string): Option<real> {
    var t := Strip(s);
    match UnsignedFloat(Unsigned(t))
    case None => None
    case Some(m) => Some(SignOf(t) as real * m)
  }

  /** parser.py's safe_float: "-" and "" are absent, and so is anything float() rejects. */
  function SafeFloat(s: string): Option<real> {
    if s == "-" || s == "" then None else ParseFloat(s)
  }

  /** Text without exponent marks is read as a mantissa alone. */
  lemma UnsignedFloatPlain(t: string)
    requires forall i :: 0 <= i < |t| ==> !IsExponentMark(t[i])
    ensures UnsignedFloat(t) == MantissaValue(t)
  {
    assert Span(c => !IsExponentMark(c), t) == |t|;
    assert t[..|t|] == t;
  }

  /** A decimal without a fractional part is its whole number. */
  lemma DecimalWhole(t: string)
    requires AllDigits(t)
    ensures DecimalValue(t, "") == DigitsValue(t) as real
  {
    assert DigitsValue("") == 0 && Pow10(0) == 1;
  }

  /** A digit string read as a mantissa is its integer value. */
  lemma MantissaDigits(t: string)
    requires IsDigitString(t)
    ensures MantissaValue(t) == Some(DigitsValue(t) as real)
  {
    NotInDigits(t, '.');
    IndexOfAt(t, '.', |t|);
    assert t[..|t|] == t;
    DecimalWhole(t);
  }

  /** A digit string read as a float is its integer value. */
  lemma UnsignedFloatDigits(t: string)
    requires IsDigitString(t)
    ensures UnsignedFloat(t) == Some(DigitsValue(t) as real)
  {
    UnsignedFloatPlain(t);
    MantissaDigits(t);
  }

  lemma SignedReal(sign: int, n: nat)
    requires sign == 1 || sign == -1
    ensures (sign * n) as real == sign as real * n as real
  {
  }

  /** `float()` reads an integer literal as the integer `int()` reads. */
  lemma ParseFloatIntLiteral(t: string)
    requires IsIntLiteral(t)
    ensures UnsignedFloat(Unsigned(t)) == Some(DigitsValue(Unsigned(t)) as real)
    ensures SignOf(t) as real * DigitsValue(Unsigned(t)) as real == IntLiteralValue(t) as real
  {
    UnsignedFloatDigits(Unsigned(t));
    SignedReal(SignOf(t), DigitsValue(Unsigned(t)));
  }

  /** Wherever safe_int yields an integer, safe_float yields the same number. */
  lemma SafeFloatExtendsSafeInt(s: string)
    requires SafeInt(s).Some?
    ensures SafeFloat(s) == Some(SafeInt(s).value as real)
  {
    assert s != "-" && s != "";
    ParseFloatIntLiteral(Strip(s));
  }

  /** A mantissa holds only digits and at most its first '.'. */
  lemma MantissaChars(m: string, j: nat)
    requires j < |m| && !IsDigit(m[j]) && m[j] != '.'
    ensures MantissaValue(m) == None
  {
    var dot := IndexOf(m, '.');
    if j < dot {
      assert m[..dot][j] == m[j];
    } else {
      assert m[dot + 1..][j - dot - 1] == m[j];
    }
  }

  lemma UnsignedFloatChars(t: string, j: nat)
    requires j < |t| && !IsDigit(t[j]) && !IsSign(t[j]) && t[j] != '.' && !IsExponentMark(t[j])
    ensures UnsignedFloat(t) == None
  {
    var e := Span(c => !IsExponentMark(c), t);
    if j < e {
      assert t[..e][j] == t[j];
      MantissaChars(t[..e], j);
    } else {
      assert t[e + 1..][j - e - 1] == t[j];
      IntLiteralChars(t[e + 1..], j - e - 1);
    }
  }

  /** A letter of "inf", "infinity" or "nan", which `float()` reads in any case. */
  predicate IsSpecialLetter(c: char) {
    c in "aAfFiInNtTyY"
  }

  /**
   * A character that can appear neither in a decimal literal nor in the
   * spellings of infinity and NaN makes safe_float absent.
   */
  lemma SafeFloatRejects(s: string, i: nat)
    requires i < |s| && !IsDigit(s[i]) && !IsSpace(s[i]) && !IsSign(s[i])
    requires s[i] != '.' && s[i] != '_' && !IsExponentMark(s[i]) && !IsSpecialLetter(s[i])
    ensures SafeFloat(s) == None
  {
    StripKeeps(s, i);
    var t := Strip(s);
    var k := i - Span(IsSpace, s);
    var j := if IsSign(t[0]) then k - 1 else k;
    assert Unsigned(t)[j] == s[i];
    UnsignedFloatChars(Unsigned(t), j);
  }

  /** The mantissa `whole.frac` denotes its decimal value. */
  lemma MantissaOfDecimal(whole: string, frac: string)
    requires AllDigits(whole) && AllDigits(frac) && |whole| + |frac| > 0
    ensures MantissaValue(whole + "." + frac) == Some(DecimalValue(whole, frac))
  {
    var m := whole + "." + frac;
    assert forall i :: 0 <= i < |whole| ==> whole[i] != '.';
    assert m == whole + ("." + frac);
    IndexOfAfterFree(whole, '.', "." + frac);
    assert m[..|whole|] == whole;
    assert m[|whole| + 1..] == frac;
  }

  /** A decimal `whole.frac` reads as the exact value it denotes. */
  lemma SafeFloatDecimal(whole: string, frac: string)
    requires IsDigitString(whole) && AllDigits(frac)
    ensures SafeFloat(whole + "." + frac) == Some(DecimalValue(whole, frac))
  {
    var s := whole + "." + frac;
    assert s[0] == whole[0];
    StripSolidEnds(s);
    forall i | 0 <= i < |s| ensures !IsExponentMark(s[i]) {
      if i < |whole| {
        assert s[i] == whole[i];
      } else if i > |whole| {
        assert s[i] == frac[i - |whole| - 1];
      }
    }
    UnsignedFloatPlain(s);
    MantissaOfDecimal(whole, frac);
    assert !IsSign(s[0]) && s[0] != '-';
    assert Unsigned(s) == s && SignOf(s) == 1;
    assert ParseFloat(s) == Some(1.0 * DecimalValue(whole, frac));
  }

  /** upstream_status: an integer when the token is all digits, else the raw token. */
  datatype UpstreamStatus = Code(code: int) | Raw(token: string)

  /** parser.py's `safe_int(tok) if tok.isdigit() else tok`. */
  function UpstreamStatusOf(tok: string): (u: UpstreamStatus)
    ensures u.Code? <==> IsDigitString(tok)
    ensures u.Code? ==> SafeInt(tok) == Some(u.code) && u.code >= 0
    ensures u.Raw? ==> u.token == tok
  {
    if IsDigitString(tok) then
      SafeIntDigits(tok);
      Code(DigitsValue(tok))
    else Raw(tok)
  }
}
