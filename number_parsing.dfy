/** The invariant-culture parsers the type detection relies on: `bool.TryParse`,
    `int.TryParse` with `NumberStyles.Integer` and `double.TryParse` with `NumberStyles.Number`
    (as a grammar only: the floating-point value is not modelled). */
module NumberParsing {
  import opened Wrappers
  import opened Text
  import opened Sequences

  const Int32Min: int := -0x8000_0000
  const Int32Max: int := 0x7FFF_FFFF

  predicate IsDigit(c: char) { '0' <= c <= '9' }

  predicate AllDigits(s: string) { forall i :: 0 <= i < |s| ==> IsDigit(s[i]) }

  /** The white space that `AllowLeadingWhite` and `AllowTrailingWhite` skip. */
  predicate IsNumberWhite(c: char) { '\U{9}' <= c <= '\U{D}' || c == ' ' }

  /** The invariant culture's `PositiveSign` and `NegativeSign`. */
  predicate IsSign(c: char) { c == '+' || c == '-' }

  /** What `bool.TryParse` strips before comparing: white space and NUL characters. */
  predicate IsBoolTrimmed(c: char) { IsWhiteSpace(c) || c == '\0' }

  /** `bool.TryParse` (and `Convert.ToBoolean`): "true" or "false" in any letter case,
      after stripping leading and trailing white space and NULs. */
  function ParseBool(s: string): (r: Option<bool>)
    ensures r == Some(true) <==> EqualsIgnoreCase(TrimBy(s, IsBoolTrimmed), "true")
    ensures r == Some(false) <==> EqualsIgnoreCase(TrimBy(s, IsBoolTrimmed), "false")
  {
    var t := TrimBy(s, IsBoolTrimmed);
    if EqualsIgnoreCase(t, "true") then Some(true)
    else if EqualsIgnoreCase(t, "false") then Some(false)
    else None
  }

  /** The value of a string of decimal digits. */
  function DigitsValue(s: string): nat
    requires AllDigits(s)
  {
    if s == [] then 0 else 10 * DigitsValue(s[..|s| - 1]) + (s[|s| - 1] as int - '0' as int)
  }

  /** The digits of an `int.TryParse` input with `NumberStyles.Integer`: the string without
      its white space and its optional leading sign. */
  function IntegerDigits(s: string): string {
    var t := TrimBy(s, IsNumberWhite);
    if |t| > 0 && IsSign(t[0]) then t[1..] else t
  }

  predicate IsNegativeLiteral(s: string) {
    var t := TrimBy(s, IsNumberWhite);
    |t| > 0 && t[0] == '-'
  }

  /** `int.TryParse(s, NumberStyles.Integer, CultureInfo.InvariantCulture)` (also
      `Convert.ToInt32`): optional white space, an optional sign, at least one digit,
      optional white space, and a value that fits in 32 bits. */
  function ParseInt32(s: string): (r: Option<int>)
    ensures r.Some? <==>
      var d := IntegerDigits(s);
      && d != [] && AllDigits(d)
      && Int32Min <= (if IsNegativeLiteral(s) then -(DigitsValue(d) as int) else DigitsValue(d) as int) <= Int32Max
    ensures r.Some? ==> Int32Min <= r.value <= Int32Max
  {
    var d := IntegerDigits(s);
    if d == [] || !AllDigits(d) then None
    else
      var v: int := if IsNegativeLiteral(s) then -(DigitsValue(d) as int) else DigitsValue(d) as int;
      if Int32Min <= v <= Int32Max then Some(v) else None
  }

  /** The integral digits under `AllowThousands`: a digit, then digits and group separators. */
  predicate IsIntegralPart(s: string) {
    |s| > 0 && IsDigit(s[0]) && forall i :: 0 <= i < |s| ==> IsDigit(s[i]) || s[i] == ','
  }

  /** An unsigned decimal under `AllowDecimalPoint`: integral digits with an optional
      '.' and fractional digits, or '.' followed by at least one digit. */
  predicate IsUnsignedNumber(m: string) {
    var p := FirstIndexOf(m, '.');
    if p == |m| then IsIntegralPart(m)
    else AllDigits(m[p + 1..]) && (if p == 0 then p + 1 < |m| else IsIntegralPart(m[..p]))
  }

  /** `double.TryParse(s, NumberStyles.Number, CultureInfo.InvariantCulture)` as a grammar:
      optional white space, an unsigned decimal with either a leading or a trailing sign,
      optional white space. */
  predicate IsNumberLiteral(s: string) {
    var t := TrimBy(s, IsNumberWhite);
    || IsUnsignedNumber(t)
    || (|t| > 0 && IsSign(t[0]) && IsUnsignedNumber(t[1..]))
    || (|t| > 0 && IsSign(t[|t| - 1]) && IsUnsignedNumber(t[..|t| - 1]))
  }

  predicate IsExponentMarker(c: char) { c == 'e' || c == 'E' }

  /** Index of the first exponent marker ('e' or 'E'), or `|s|` if there is none. */
  function ExponentIndex(s: string): (r: nat)
    ensures r <= |s|
    ensures r < |s| ==> s[r] == 'e' || s[r] == 'E'
    ensures forall i :: 0 <= i < r ==> s[i] != 'e' && s[i] != 'E'
  {
    IndexWhere(s, IsExponentMarker)
  }

  /** An exponent under `AllowExponent`: the marker, an optional sign, at least one digit. */
  predicate IsExponent(e: string) {
    |e| >= 2 && (e[0] == 'e' || e[0] == 'E') &&
    var d := if IsSign(e[1]) then e[2..] else e[1..];
    d != [] && AllDigits(d)
  }

  /** `double.Parse(s, CultureInfo.InvariantCulture)`, which `Convert.ToDouble` calls, as a
      grammar: `NumberStyles.Float | NumberStyles.AllowThousands`, that is optional white
      space, an optional LEADING sign only, an unsigned decimal, an optional exponent,
      optional white space. */
  predicate IsFloatLiteral(s: string) {
    var t := TrimBy(s, IsNumberWhite);
    var m := if |t| > 0 && IsSign(t[0]) then t[1..] else t;
    var p := ExponentIndex(m);
    IsUnsignedNumber(m[..p]) && (p == |m| || IsExponent(m[p..]))
  }

  /** Without a trailing sign, the two grammars agree: every number literal whose last
      non-white character is not a sign is also accepted by `double.Parse`. */
  lemma NumberLiteralWithoutTrailingSignIsFloat(s: string)
    requires IsNumberLiteral(s)
    requires var t := TrimBy(s, IsNumberWhite); t != [] && !IsSign(t[|t| - 1])
    ensures IsFloatLiteral(s)
  {
    var t := TrimBy(s, IsNumberWhite);
    var m := if IsSign(t[0]) then t[1..] else t;
    assert IsUnsignedNumber(m);
    UnsignedNumberHasNoExponent(m);
    assert m[..|m|] == m;
  }

  /** An unsigned decimal holds no exponent marker. */
  lemma UnsignedNumberHasNoExponent(m: string)
    requires IsUnsignedNumber(m)
    ensures ExponentIndex(m) == |m|
  {
    var p := FirstIndexOf(m, '.');
    forall i | 0 <= i < |m|
      ensures m[i] != 'e' && m[i] != 'E'
    {
      if i < p {
        if p < |m| { assert m[..p][i] == m[i]; }
      } else if i > p {
        assert m[p + 1..][i - p - 1] == m[i];
      }
    }
  }

  /** Digits followed by a sign are a number literal: a trailing sign is allowed when
      detecting a number ... */
  lemma TrailingSignIsNumberLiteral(d: string, c: char)
    requires d != [] && AllDigits(d) && IsSign(c)
    ensures IsNumberLiteral(d + [c])
  {
    var s := d + [c];
    TrimByNoOp(s, IsNumberWhite);
    assert s[..|s| - 1] == d;
    DigitsAreUnsignedNumber(d);
  }

  /** ... and refused when converting it: digits followed by a sign are not a
      `double.Parse` input. */
  lemma TrailingSignIsNotFloat(d: string, c: char)
    requires d != [] && AllDigits(d) && IsSign(c)
    ensures !IsFloatLiteral(d + [c])
  {
    var s := d + [c];
    TrimByNoOp(s, IsNumberWhite);
    assert !IsSign(s[0]);
    assert forall i :: 0 <= i < |s| ==> IsDigit(s[i]) || IsSign(s[i]);
    assert ExponentIndex(s) == |s|;
    assert FirstIndexOf(s, '.') == |s|;
    assert s[..|s|] == s;
    assert !IsIntegralPart(s);
  }

  /** The decimal rendering of a natural number. */
  function DecimalDigits(n: nat): (s: string)
    ensures s != [] && AllDigits(s)
  {
    var last := [(('0' as int) + n % 10) as char];
    if n < 10 then last else DecimalDigits(n / 10) + last
  }

  /** The decimal rendering of an integer, with '-' for negatives. */
  function DecimalString(n: int): string {
    if n < 0 then "-" + DecimalDigits(-n) else DecimalDigits(n)
  }

  lemma {:induction false} DecimalDigitsValue(n: nat)
    ensures DigitsValue(DecimalDigits(n)) == n
  {
    var s := DecimalDigits(n);
    if n >= 10 {
      DecimalDigitsValue(n / 10);
      assert s[..|s| - 1] == DecimalDigits(n / 10);
    }
  }

  /** `int.TryParse` reads back the decimal rendering of every 32-bit integer. */
  lemma ParseInt32ReadsDecimalString(n: int)
    requires Int32Min <= n <= Int32Max
    ensures ParseInt32(DecimalString(n)) == Some(n)
  {
    var m: nat := if n < 0 then -n else n;
    DecimalDigitsValue(m);
    SignedDigits(DecimalDigits(m), n < 0);
  }

  /** The digits and sign `int.TryParse` reads from digits with an optional '-' in front. */
  lemma SignedDigits(d: string, negative: bool)
    requires d != [] && AllDigits(d)
    ensures var s := if negative then "-" + d else d;
      IntegerDigits(s) == d && IsNegativeLiteral(s) == negative
  {
    var s := if negative then "-" + d else d;
    assert !IsNumberWhite(s[0]) && !IsNumberWhite(s[|s| - 1]);
    TrimByNoOp(s, IsNumberWhite);
    if negative {
      assert s[1..] == d;
    } else {
      assert !IsSign(s[0]);
    }
  }

  /** A string of digits is an unsigned number. */
  lemma DigitsAreUnsignedNumber(d: string)
    requires d != [] && AllDigits(d)
    ensures IsUnsignedNumber(d)
  {
    assert forall i :: 0 <= i < |d| ==> d[i] != '.';
  }

  /** Every 32-bit integer literal is also a number literal: only the order of the
      detectors keeps it from being classified as a Double. */
  lemma Int32LiteralIsNumberLiteral(s: string)
    requires ParseInt32(s).Some?
    ensures IsNumberLiteral(s)
  {
    var t := TrimBy(s, IsNumberWhite);
    DigitsAreUnsignedNumber(IntegerDigits(s));
  }

  /** A whole number too large for 32 bits is not an `int` but is a number literal. */
  lemma WholeNumberBeyondInt32(d: string)
    requires d != [] && AllDigits(d) && DigitsValue(d) > Int32Max
    ensures ParseInt32(d) == None && IsNumberLiteral(d)
  {
    TrimByNoOp(d, IsNumberWhite);
    assert !IsSign(d[0]);
    DigitsAreUnsignedNumber(d);
  }

  /** A character that cannot begin a number: not a digit, sign or decimal point. */
  predicate IsNonNumeric(c: char) {
    !IsDigit(c) && !IsSign(c) && c != '.'
  }

  /** An unsigned number begins with a digit or the decimal point. */
  lemma UnsignedNumberStart(m: string)
    ensures IsUnsignedNumber(m) ==> m != [] && (IsDigit(m[0]) || m[0] == '.')
  {
    var p := FirstIndexOf(m, '.');
    if 0 < p < |m| {
      assert m[..p][0] == m[0];
    }
  }

  /** When the first character `bool.TryParse` keeps is `s[k]`, and it cannot start
      "true" or "false", the string is not a Boolean. */
  lemma NotBoolWhenFirstIs(s: string, k: int)
    requires 0 <= k < |s| && !IsBoolTrimmed(s[k])
    requires forall j :: 0 <= j < k ==> IsBoolTrimmed(s[j])
    requires FoldChar(s[k]) != 't' && FoldChar(s[k]) != 'f'
    ensures ParseBool(s) == None
  {
    TrimByStartsAt(s, IsBoolTrimmed, k);
    var t := TrimBy(s, IsBoolTrimmed);
    assert Fold(t)[0] == FoldChar(s[k]);
    assert Fold(t) != "true" && Fold(t) != "false";
  }

  /** A string whose number-trimmed form begins with a digit, a sign or the decimal
      point is not a Boolean. */
  lemma NumberStartIsNotBool(s: string)
    requires TrimBy(s, IsNumberWhite) != [] && !IsNonNumeric(TrimBy(s, IsNumberWhite)[0])
    ensures ParseBool(s) == None
  {
    TrimBySlice(s, IsNumberWhite);
    var n := TrimStart(s, IsNumberWhite);
    NumberWhiteIsBoolTrimmed(s[..n]);
    assert TrimBy(s, IsNumberWhite)[0] == s[n];
    NotBoolWhenFirstIs(s, n);
  }

  lemma NumberWhiteIsBoolTrimmed(w: string)
    requires forall j :: 0 <= j < |w| ==> IsNumberWhite(w[j])
    ensures forall j :: 0 <= j < |w| ==> IsBoolTrimmed(w[j])
  {
  }

  /** A 32-bit integer literal is never a Boolean. */
  lemma Int32LiteralIsNotBool(s: string)
    requires ParseInt32(s).Some?
    ensures ParseBool(s) == None
  {
    var t := TrimBy(s, IsNumberWhite);
    assert IntegerDigits(s)[0] == t[0] || IsSign(t[0]);
    NumberStartIsNotBool(s);
  }

  /** A number literal is never a Boolean. */
  lemma NumberLiteralIsNotBool(s: string)
    requires IsNumberLiteral(s)
    ensures ParseBool(s) == None
  {
    var t := TrimBy(s, IsNumberWhite);
    UnsignedNumberStart(t);
    if !IsUnsignedNumber(t) && !(|t| > 0 && IsSign(t[0])) {
      var m := t[..|t| - 1];
      UnsignedNumberStart(m);
      assert m[0] == t[0];
    }
    NumberStartIsNotBool(s);
  }

  /** A trimmed string that cannot begin a number: its first character is neither a
      digit, a sign nor the decimal point, or it is a sign followed by a character that
      is neither a digit nor the decimal point. */
  predicate CannotStartNumber(t: string) {
    t != [] && (IsNonNumeric(t[0]) || (IsSign(t[0]) && |t| > 1 && !IsDigit(t[1]) && t[1] != '.'))
  }

  lemma NoNumberFrom(t: string)
    requires CannotStartNumber(t)
    ensures !IsUnsignedNumber(t)
    ensures !(IsSign(t[0]) && IsUnsignedNumber(t[1..]))
    ensures !(IsSign(t[|t| - 1]) && IsUnsignedNumber(t[..|t| - 1]))
    ensures var d := if IsSign(t[0]) then t[1..] else t; d == [] || !AllDigits(d)
  {
    UnsignedNumberStart(t);
    var m := t[..|t| - 1];
    assert |m| > 0 ==> m[0] == t[0];
    UnsignedNumberStart(m);
    if IsSign(t[0]) {
      assert t[1..][0] == t[1];
      UnsignedNumberStart(t[1..]);
    }
  }

  /** The first character `int.TryParse` keeps, when `s[k]` is the first non-white one. */
  lemma NumberTrimAt(s: string, k: int)
    requires 0 <= k < |s| && !IsWhiteSpace(s[k])
    requires forall j :: 0 <= j < k ==> IsWhiteSpace(s[j])
    requires !IsDigit(s[k]) && s[k] != '.'
    requires IsSign(s[k]) ==> k + 1 < |s| && !IsNumberWhite(s[k + 1]) && !IsDigit(s[k + 1]) && s[k + 1] != '.'
    ensures CannotStartNumber(TrimBy(s, IsNumberWhite))
  {
    TrimBySlice(s, IsNumberWhite);
    var n := TrimStart(s, IsNumberWhite);
    var t := TrimBy(s, IsNumberWhite);
    assert n <= k < n + |t|;
    assert t[0] == s[n];
    if n == k && IsSign(s[k]) {
      assert k + 1 < n + |t| && t[1] == s[k + 1];
    }
  }

  /** A value whose first non-white character `s[k]` cannot start a Boolean or a number
      (and, if it is a sign, is followed by a character that cannot continue one) is
      neither a Boolean, nor an `int`, nor a number literal. */
  lemma NotScalarAt(s: string, k: int)
    requires 0 <= k < |s| && !IsWhiteSpace(s[k]) && s[k] != '\0'
    requires forall j :: 0 <= j < k ==> IsWhiteSpace(s[j])
    requires FoldChar(s[k]) != 't' && FoldChar(s[k]) != 'f'
    requires !IsDigit(s[k]) && s[k] != '.'
    requires IsSign(s[k]) ==> k + 1 < |s| && !IsNumberWhite(s[k + 1]) && !IsDigit(s[k + 1]) && s[k + 1] != '.'
    ensures ParseBool(s) == None && ParseInt32(s) == None && !IsNumberLiteral(s)
  {
    NotBoolWhenFirstIs(s, k);
    NumberTrimAt(s, k);
    NoNumberFrom(TrimBy(s, IsNumberWhite));
  }
}
