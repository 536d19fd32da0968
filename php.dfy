/**
 * The PHP built-ins the board's core leans on, written out on `string`
 * (a sequence of characters): trim(), empty(), the (int) cast,
 * FILTER_VALIDATE_INT, htmlspecialchars(), strtolower()/mb_strtolower(),
 * strpos(), preg_split('/\s+/'), basename() and pathinfo(PATHINFO_FILENAME).
 */
module Php {
  import opened Base

  // ---------------------------------------------------------------- classes

  /** The characters trim() strips by default: " \t\n\r\0\x0B". */
  predicate IsTrimChar(c: char) {
    c == ' ' || c == '\t' || c == '\n' || c == '\r' || c == '\0' || c == '\U{000B}'
  }

  /** PCRE's `\s` without the /u modifier: space, \t, \n, \v, \f, \r. */
  predicate IsSpace(c: char) {
    c == ' ' || c == '\t' || c == '\n' || c == '\U{000B}' || c == '\U{000C}' || c == '\r'
  }

  predicate IsDigit(c: char) { '0' <= c <= '9' }

  predicate AllDigits(s: string) { forall i :: 0 <= i < |s| ==> IsDigit(s[i]) }

  /** PHP's empty() on a string that may be absent (null): null, "" and "0". */
  predicate Empty(v: Option<string>) {
    v.None? || v.value == "" || v.value == "0"
  }

  /** A string PHP treats as false in a boolean context (`?:`, `if ($s)`). */
  predicate Falsy(s: string) { s == "" || s == "0" }

  // ------------------------------------------------------------------ trim

  function TrimLeft(s: string): (r: string)
    ensures |r| <= |s| && r == s[|s| - |r|..]
    ensures forall k :: 0 <= k < |s| - |r| ==> IsTrimChar(s[k])
    ensures r != [] ==> !IsTrimChar(r[0])
  {
    if s != [] && IsTrimChar(s[0]) then TrimLeft(s[1..]) else s
  }

  function TrimRight(s: string): (r: string)
    ensures |r| <= |s| && r == s[..|r|]
    ensures forall k :: |r| <= k < |s| ==> IsTrimChar(s[k])
    ensures r != [] ==> !IsTrimChar(r[|r| - 1])
  {
    if s != [] && IsTrimChar(s[|s| - 1]) then TrimRight(s[..|s| - 1]) else s
  }

  /** trim(): `s` without its leading and trailing run of trim characters. */
  function Trim(s: string): (r: string)
    ensures |r| <= |s|
    ensures r != [] ==> !IsTrimChar(r[0]) && !IsTrimChar(r[|r| - 1])
  {
    var l := TrimLeft(s);
    var r := TrimRight(l);
    assert r != [] ==> r[0] == l[0];
    r
  }

  /**
   * What trim() cuts away: with l = TrimLeft(s) and r = TrimRight(l) (which
   * is Trim(s)), r is the slice of s at i = |s| - |l| and every character
   * outside it is a trim character.
   */
  lemma {:induction false} TrimShape(s: string, l: string, r: string)
    requires l == TrimLeft(s) && r == TrimRight(l)
    ensures |s| - |l| + |r| <= |s| && r == s[|s| - |l|..|s| - |l| + |r|]
    ensures forall k :: 0 <= k < |s| - |l| ==> IsTrimChar(s[k])
    ensures forall k :: |s| - |l| + |r| <= k < |s| ==> IsTrimChar(s[k])
  {
    TrimSlice(s, l, r);
    TrimRightTail(s, l, r);
  }

  /** TrimRight() of TrimLeft(s) is a slice of `s`. */
  lemma {:induction false} TrimSlice(s: string, l: string, r: string)
    requires l == TrimLeft(s) && r == TrimRight(l)
    ensures |s| - |l| + |r| <= |s| && r == s[|s| - |l|..|s| - |l| + |r|]
  {
    assert l == s[|s| - |l|..] && r == l[..|r|];
  }

  /** What TrimRight() cuts from TrimLeft(s) is trim characters of `s`. */
  lemma {:induction false} TrimRightTail(s: string, l: string, r: string)
    requires l == TrimLeft(s) && r == TrimRight(l)
    ensures forall k :: |s| - |l| + |r| <= k < |s| ==> IsTrimChar(s[k])
  {
    var i := |s| - |l|;
    assert l == s[i..];
    forall k | i + |r| <= k < |s|
      ensures IsTrimChar(s[k])
    {
      assert s[k] == l[k - i];
    }
  }

  lemma {:induction false} TrimIdempotent(s: string)
    ensures Trim(Trim(s)) == Trim(s)
  {
    var t := Trim(s);
    if t != [] {
      assert TrimLeft(t) == t;
      assert TrimRight(t) == t;
    }
  }

  // -------------------------------------------------------------- numbers

  /** The value of a string of decimal digits. */
  function DigitsValue(d: string): nat
    requires AllDigits(d)
  {
    if d == [] then 0
    else DigitsValue(d[..|d| - 1]) * 10 + (d[|d| - 1] as int - '0' as int)
  }

  /** The longest prefix of `s` made of digits. */
  function DigitPrefix(s: string): (r: string)
    ensures AllDigits(r) && |r| <= |s| && r == s[..|r|]
    ensures |r| < |s| ==> !IsDigit(s[|r|])
  {
    if s != [] && IsDigit(s[0]) then [s[0]] + DigitPrefix(s[1..]) else []
  }

  function DigitChar(d: nat): (c: char)
    requires d < 10
    ensures IsDigit(c) && c as int - '0' as int == d
  {
    (d + '0' as int) as char
  }

  /** Decimal rendering of a natural number, as PHP's string conversion writes it. */
  function NatToString(n: nat): (r: string)
    ensures r != [] && AllDigits(r)
    ensures DigitsValue(r) == n
    ensures r[0] == '0' ==> n == 0
  {
    if n < 10 then [DigitChar(n)]
    else
      var p := NatToString(n / 10);
      var r := p + [DigitChar(n % 10)];
      assert r[..|r| - 1] == p;
      r
  }

  function SkipNumericLead(s: string): (r: string)
    ensures |r| <= |s| && r == s[|s| - |r|..]
    ensures r != [] ==> !IsSpace(r[0])
  {
    if s != [] && IsSpace(s[0]) then SkipNumericLead(s[1..]) else s
  }

  const PHP_INT_MAX: int := 9223372036854775807
  const PHP_INT_MIN: int := -9223372036854775808

  /** PHP's decimal rendering of an integer. */
  function IntToString(n: int): (r: string)
  {
    if n < 0 then "-" + NatToString(-n) else NatToString(n)
  }

  function Pow10(n: nat): (r: nat)
    ensures r >= 1
  {
    if n == 0 then 1 else 10 * Pow10(n - 1)
  }

  predicate IsSign(c: char) { c == '-' || c == '+' }

  /**
   * The numeral a string-to-number conversion reads: a sign, the digits
   * before the point, the digits after it, and the exponent's sign and
   * digits (none when there is no exponent).
   */
  datatype Numeral = Numeral(neg: bool, whole: string, frac: string, expNeg: bool, exp: string)

  /** An exponent at the start of `s`: 'e' or 'E', an optional sign, then at least one digit. */
  function ExponentPart(s: string): (r: (bool, string))
    ensures AllDigits(r.1)
  {
    if s != [] && (s[0] == 'e' || s[0] == 'E') then
      var t := s[1..];
      var d := DigitPrefix(if t != [] && IsSign(t[0]) then t[1..] else t);
      if d == [] then (false, []) else (t[0] == '-', d)
    else (false, [])
  }

  /**
   * The numeral at the start of `s`, after its leading whitespace: an
   * optional sign, then an unsigned numeral.
   */
  function LeadingNumeral(s: string): (r: Option<Numeral>)
    ensures r.Some? ==> AllDigits(r.value.whole) && AllDigits(r.value.frac) && AllDigits(r.value.exp)
  {
    var t := SkipNumericLead(s);
    if t != [] && IsSign(t[0]) then UnsignedNumeral(t[1..], t[0] == '-') else UnsignedNumeral(t, false)
  }

  /**
   * Digits, optionally a '.' and more digits, optionally an exponent; None
   * when there is no digit before or right after the point.
   */
  function UnsignedNumeral(u: string, neg: bool): (r: Option<Numeral>)
    ensures r.Some? ==> AllDigits(r.value.whole) && AllDigits(r.value.frac) && AllDigits(r.value.exp)
  {
    var whole := DigitPrefix(u);
    var rest := u[|whole|..];
    if rest != [] && rest[0] == '.' then
      var frac := DigitPrefix(rest[1..]);
      if whole == [] && frac == [] then None
      else
        var e := ExponentPart(rest[1 + |frac|..]);
        Some(Numeral(neg, whole, frac, e.0, e.1))
    else if whole == [] then None
    else
      var e := ExponentPart(rest);
      Some(Numeral(neg, whole, [], e.0, e.1))
  }

  /**
   * m * 10^e for e >= 0; for e < 0, m with its last -e decimal digits
   * dropped (m / 10^-e).
   */
  function Shifted(m: nat, e: int): nat
    decreases if e >= 0 then e else -e
  {
    if e == 0 then m
    else if e > 0 then Shifted(m * 10, e - 1)
    else Shifted(m / 10, e + 1)
  }

  /** The numeral's exact value with its fraction dropped (truncated toward zero). */
  function Truncated(n: Numeral): int
    requires AllDigits(n.whole) && AllDigits(n.frac) && AllDigits(n.exp)
  {
    assert AllDigits(n.whole + n.frac);
    var e: int := (if n.expNeg then -(DigitsValue(n.exp) as int) else DigitsValue(n.exp)) - |n.frac|;
    var mag: int := Shifted(DigitsValue(n.whole + n.frac), e);
    if n.neg then -mag else mag
  }

  /** 2^1024 - 2^970: the least magnitude strtod() rounds to infinity. */
  const DOUBLE_OVERFLOW: int := 0xffff_ffff_ffff_fc00_0000_0000_0000_0000_0000_0000_0000_0000_0000_0000_0000_0000_0000_0000_0000_0000_0000_0000_0000_0000_0000_0000_0000_0000_0000_0000_0000_0000_0000_0000_0000_0000_0000_0000_0000_0000_0000_0000_0000_0000_0000_0000_0000_0000_0000_0000_0000_0000_0000_0000_0000_0000_0000_0000_0000_0000_0000_0000_0000_0000

  /**
   * The (int) cast of a string (PHP 8): the leading numeral, fraction and
   * exponent included, truncated toward zero and saturated at the 64-bit
   * limits; 0 when there is no numeral, and 0 when the numeral overflows a
   * double (an infinite double casts to 0).
   */
  function IntCast(s: string): (r: int)
    ensures PHP_INT_MIN <= r <= PHP_INT_MAX
    ensures LeadingNumeral(s).None? ==> r == 0
  {
    match LeadingNumeral(s)
    case None => 0
    case Some(n) =>
      var v := Truncated(n);
      if v >= DOUBLE_OVERFLOW || -v >= DOUBLE_OVERFLOW then 0
      else if v > PHP_INT_MAX then PHP_INT_MAX
      else if v < PHP_INT_MIN then PHP_INT_MIN
      else v
  }

  /** A run of digits followed by a non-digit: the run is the digit prefix. */
  lemma {:induction false} DigitPrefixOf(d: string, rest: string)
    requires AllDigits(d) && (rest == [] || !IsDigit(rest[0]))
    ensures DigitPrefix(d + rest) == d
  {
    if d != [] {
      DigitPrefixOf(d[1..], rest);
      assert (d + rest)[1..] == d[1..] + rest;
    } else {
      assert d + rest == rest;
    }
  }

  /** Shifting up by e multiplies by 10^e. */
  lemma {:induction false} ShiftedUp(m: nat, e: nat)
    ensures Shifted(m, e) == m * Pow10(e)
    decreases e
  {
    if e > 0 {
      ShiftedUp(m * 10, e - 1);
      assert m * 10 * Pow10(e - 1) == m * (10 * Pow10(e - 1));
    }
  }

  /** Shifting a digit string's value down by k drops its last k digits. */
  lemma {:induction false} ShiftedDown(x: string, k: nat)
    requires AllDigits(x) && k <= |x|
    ensures Shifted(DigitsValue(x), -(k as int)) == DigitsValue(x[..|x| - k])
  {
    if k == 0 {
      assert x[..|x|] == x;
    } else {
      var x' := x[..|x| - 1];
      assert DigitsValue(x) / 10 == DigitsValue(x');
      ShiftedDown(x', k - 1);
      assert x'[..|x'| - (k - 1)] == x[..|x| - k];
    }
  }

  /** A numeral with a fraction but no exponent is worth its whole digits. */
  lemma {:induction false} TruncatedFraction(n: Numeral)
    requires AllDigits(n.whole) && AllDigits(n.frac) && n.exp == []
    ensures Truncated(n) == if n.neg then -(DigitsValue(n.whole) as int) else DigitsValue(n.whole)
  {
    var x := n.whole + n.frac;
    assert AllDigits(x);
    ShiftedDown(x, |n.frac|);
    assert x[..|x| - |n.frac|] == n.whole;
  }

  /** A numeral with a non-negative exponent and no fraction is worth its digits times 10^exp. */
  lemma {:induction false} TruncatedScaled(n: Numeral)
    requires AllDigits(n.whole) && n.frac == [] && AllDigits(n.exp) && !n.expNeg
    ensures Truncated(n) == if n.neg then -(DigitsValue(n.whole) * Pow10(DigitsValue(n.exp))) as int
                            else DigitsValue(n.whole) * Pow10(DigitsValue(n.exp))
  {
    assert n.whole + n.frac == n.whole;
    ShiftedUp(DigitsValue(n.whole), DigitsValue(n.exp));
  }

  /** IntCast() of a string whose numeral is known. */
  lemma {:induction false} IntCastOf(s: string, n: Numeral)
    requires LeadingNumeral(s) == Some(n)
    ensures var v := Truncated(n);
            IntCast(s) == if v >= DOUBLE_OVERFLOW || -v >= DOUBLE_OVERFLOW then 0
                          else if v > PHP_INT_MAX then PHP_INT_MAX
                          else if v < PHP_INT_MIN then PHP_INT_MIN
                          else v
  {
  }

  /**
   * PHP's rendering of any 64-bit integer casts back to that integer: a
   * plain decimal is read exactly.
   */
  lemma {:induction false} IntCastRoundTrip(n: int)
    requires PHP_INT_MIN <= n <= PHP_INT_MAX
    ensures IntCast(IntToString(n)) == n
  {
    var d := NatToString(if n < 0 then -n else n);
    var s := IntToString(n);
    NumeralOfDigits(s, n < 0, d);
    var num := Numeral(n < 0, d, [], false, []);
    TruncatedFraction(num);
    IntCastOf(s, num);
  }

  /** An optionally negated run of digits is read whole. */
  lemma {:induction false} NumeralOfDigits(s: string, neg: bool, d: string)
    requires d != [] && AllDigits(d)
    requires s == (if neg then "-" else "") + d
    ensures LeadingNumeral(s) == Some(Numeral(neg, d, [], false, []))
  {
    var u := if neg then s[1..] else s;
    assert u == d + [] && s[0] == (if neg then '-' else d[0]);
    SignedStart(s, neg, u);
    UnsignedWhole(u, neg, d, []);
    NoExponent([]);
  }

  /** An optionally negated decimal "d.f" is read with its fraction and no exponent. */
  lemma {:induction false} NumeralOfDecimal(s: string, neg: bool, d: string, f: string)
    requires d != [] && AllDigits(d) && AllDigits(f)
    requires s == (if neg then "-" else "") + d + "." + f
    ensures LeadingNumeral(s) == Some(Numeral(neg, d, f, false, []))
  {
    var u := if neg then s[1..] else s;
    assert u == d + ("." + (f + [])) && s[0] == (if neg then '-' else d[0]);
    SignedStart(s, neg, u);
    UnsignedPoint(u, neg, d, f, []);
    NoExponent([]);
  }

  /** "dex" is read as digits d with exponent x. */
  lemma {:induction false} NumeralOfExponent(s: string, d: string, x: string)
    requires d != [] && AllDigits(d) && x != [] && AllDigits(x)
    requires s == d + "e" + x
    ensures LeadingNumeral(s) == Some(Numeral(false, d, [], false, x))
  {
    assert s == d + ("e" + x) && s[0] == d[0];
    SignedStart(s, false, s);
    UnsignedWhole(s, false, d, "e" + x);
    ExponentOfDigits(x);
  }

  /** A string starting with a sign or a digit is read as that sign and the unsigned numeral after it. */
  lemma {:induction false} SignedStart(s: string, neg: bool, u: string)
    requires s != []
    requires neg ==> s[0] == '-' && u == s[1..]
    requires !neg ==> IsDigit(s[0]) && u == s
    ensures LeadingNumeral(s) == UnsignedNumeral(u, neg)
  {
    NoLeadBlank(s);
  }

  lemma {:induction false} NoLeadBlank(t: string)
    requires t != [] && !IsSpace(t[0])
    ensures SkipNumericLead(t) == t
  {
  }

  /** Digits then something other than a point: the digits and the exponent after them. */
  lemma {:induction false} UnsignedWhole(u: string, neg: bool, d: string, rest: string)
    requires d != [] && AllDigits(d) && u == d + rest
    requires rest == [] || (!IsDigit(rest[0]) && rest[0] != '.')
    ensures UnsignedNumeral(u, neg) == Some(Numeral(neg, d, [], ExponentPart(rest).0, ExponentPart(rest).1))
  {
    DigitPrefixOf(d, rest);
    assert u[|d|..] == rest;
  }

  /** Digits, a point and digits: the two runs and the exponent after them. */
  lemma {:induction false} UnsignedPoint(u: string, neg: bool, d: string, f: string, rest: string)
    requires AllDigits(d) && AllDigits(f) && (d != [] || f != [])
    requires u == d + ("." + (f + rest)) && (rest == [] || !IsDigit(rest[0]))
    ensures UnsignedNumeral(u, neg) == Some(Numeral(neg, d, f, ExponentPart(rest).0, ExponentPart(rest).1))
  {
    var tail := "." + (f + rest);
    DigitPrefixOf(d, tail);
    assert u[|d|..] == tail && tail[1..] == f + rest;
    DigitPrefixOf(f, rest);
    assert tail[1 + |f|..] == rest;
  }

  lemma {:induction false} NoExponent(s: string)
    requires s == [] || (s[0] != 'e' && s[0] != 'E')
    ensures ExponentPart(s) == (false, [])
  {
  }

  /** "ex" with x a run of digits is an exponent of x. */
  lemma {:induction false} ExponentOfDigits(x: string)
    requires x != [] && AllDigits(x)
    ensures ExponentPart("e" + x) == (false, x)
  {
    assert ("e" + x)[1..] == x;
    DigitPrefixOf(x, []);
    assert x + [] == x;
  }

  /**
   * The fraction is dropped: "d.f" casts to d, and "-d.f" to -d (toward
   * zero, so "-1.9" gives -1).
   */
  lemma {:induction false} IntCastFraction(s: string, neg: bool, d: string, f: string)
    requires d != [] && AllDigits(d) && AllDigits(f) && DigitsValue(d) <= PHP_INT_MAX
    requires s == (if neg then "-" else "") + d + "." + f
    ensures IntCast(s) == if neg then -(DigitsValue(d) as int) else DigitsValue(d)
  {
    var n := Numeral(neg, d, f, false, []);
    NumeralOfDecimal(s, neg, d, f);
    TruncatedFraction(n);
    IntCastOf(s, n);
  }

  /**
   * An exponent scales: "dex" casts to d * 10^x, saturated at PHP_INT_MAX,
   * and to 0 once the value overflows a double.
   */
  lemma {:induction false} IntCastExponent(d: string, x: string)
    requires d != [] && AllDigits(d) && x != [] && AllDigits(x)
    ensures var v := DigitsValue(d) * Pow10(DigitsValue(x));
            IntCast(d + "e" + x) == if v >= DOUBLE_OVERFLOW then 0 else Min(v, PHP_INT_MAX)
  {
    var n := Numeral(false, d, [], false, x);
    NumeralOfExponent(d + "e" + x, d, x);
    TruncatedScaled(n);
    IntCastOf(d + "e" + x, n);
  }

  /** Digits beyond the 64-bit range saturate (until they overflow a double). */
  lemma {:induction false} IntCastSaturates(d: string)
    requires d != [] && AllDigits(d) && PHP_INT_MAX < DigitsValue(d) < DOUBLE_OVERFLOW
    ensures IntCast(d) == PHP_INT_MAX
    ensures IntCast("-" + d) == PHP_INT_MIN
  {
    var n := Numeral(false, d, [], false, []);
    NumeralOfDigits(d, false, d);
    TruncatedFraction(n);
    IntCastOf(d, n);
    NumeralOfDigits("-" + d, true, d);
    TruncatedFraction(n.(neg := true));
    IntCastOf("-" + d, n.(neg := true));
  }

  /** "1e3" is 1000, "0.5e1" is 5, "-2.5" is -2, and " 12abc" is 12. */
  lemma {:induction false} IntCastExamples(a: string, b: string, c: string, e: string)
    requires a == "1e3" && b == "0.5e1" && c == "-2.5" && e == " 12abc"
    ensures IntCast(a) == 1000 && IntCast(b) == 5 && IntCast(c) == -2 && IntCast(e) == 12
  {
    IntCastThousand(a);
    IntCastScaledFraction(b);
    IntCastNegativeFraction(c);
    IntCastBlankExample(e);
  }

  lemma {:induction false} IntCastBlankExample(e: string)
    requires e == " 12abc"
    ensures IntCast(e) == 12
  {
    assert e == " " + "12" + "abc";
    assert DigitsValue("12") == 12;
    IntCastLeadingBlank(" ", "12", "abc");
  }

  lemma {:induction false} IntCastThousand(a: string)
    requires a == "1e3"
    ensures IntCast(a) == 1000
  {
    var n := Numeral(false, "1", [], false, "3");
    assert a == "1" + "e" + "3";
    NumeralOfExponent(a, "1", "3");
    ThousandValue();
    IntCastInRange(a, n);
  }

  lemma {:induction false} ThousandValue()
    ensures Truncated(Numeral(false, "1", [], false, "3")) == 1000
  {
    var n := Numeral(false, "1", [], false, "3");
    assert DigitsValue("1") == 1 && DigitsValue("3") == 3;
    assert Pow10(3) == 1000;
    TruncatedScaled(n);
  }

  lemma {:induction false} IntCastNegativeFraction(c: string)
    requires c == "-2.5"
    ensures IntCast(c) == -2
  {
    assert DigitsValue("2") == 2;
    IntCastFraction(c, true, "2", "5");
  }

  lemma {:induction false} IntCastScaledFraction(b: string)
    requires b == "0.5e1"
    ensures IntCast(b) == 5
  {
    var n := Numeral(false, "0", "5", false, "1");
    ScaledFractionNumeral(b);
    ScaledFractionValue();
    IntCastInRange(b, n);
  }

  lemma {:induction false} ScaledFractionValue()
    ensures Truncated(Numeral(false, "0", "5", false, "1")) == 5
  {
    var x := "0" + "5";
    assert x[..1] == "0" && x[1] == '5';
    SingleDigitValue("0");
    SingleDigitValue("1");
    assert DigitsValue(x) == 5;
  }

  lemma {:induction false} SingleDigitValue(d: string)
    requires |d| == 1 && IsDigit(d[0])
    ensures DigitsValue(d) == d[0] as int - '0' as int
  {
    assert d[..0] == [];
  }

  /** A numeral inside the 64-bit range casts to its truncated value. */
  lemma {:induction false} IntCastInRange(s: string, n: Numeral)
    requires LeadingNumeral(s) == Some(n) && PHP_INT_MIN <= Truncated(n) <= PHP_INT_MAX
    ensures IntCast(s) == Truncated(n)
  {
    IntCastOf(s, n);
  }

  lemma {:induction false} ScaledFractionNumeral(b: string)
    requires b == "0.5e1"
    ensures LeadingNumeral(b) == Some(Numeral(false, "0", "5", false, "1"))
  {
    assert b == "0" + ("." + ("5" + ("e" + "1"))) && b[0] == '0';
    SignedStart(b, false, b);
    UnsignedPoint(b, false, "0", "5", "e" + "1");
    ExponentOfDigits("1");
  }

  /**
   * Leading whitespace is skipped and whatever follows the digits is
   * ignored when it cannot continue a numeral: ws + d + junk casts to d.
   */
  lemma {:induction false} IntCastLeadingBlank(ws: string, d: string, junk: string)
    requires forall k :: 0 <= k < |ws| ==> IsSpace(ws[k])
    requires d != [] && AllDigits(d) && DigitsValue(d) <= PHP_INT_MAX
    requires junk == [] || (!IsDigit(junk[0]) && junk[0] != '.' && junk[0] != 'e' && junk[0] != 'E')
    ensures IntCast(ws + d + junk) == DigitsValue(d)
  {
    var n := Numeral(false, d, [], false, []);
    var s := ws + d + junk;
    assert s == ws + (d + junk);
    SkipBlanks(ws, d + junk);
    DigitsThenJunk(d + junk, d, junk);
    TruncatedFraction(n);
    IntCastInRange(s, n);
  }

  /** Blanks in front do not change the numeral read. */
  lemma {:induction false} SkipBlanks(ws: string, t: string)
    requires forall k :: 0 <= k < |ws| ==> IsSpace(ws[k])
    ensures LeadingNumeral(ws + t) == LeadingNumeral(t)
    decreases |ws|
  {
    if ws == [] {
      assert ws + t == t;
    } else {
      assert (ws + t)[1..] == ws[1..] + t;
      SkipBlanks(ws[1..], t);
    }
  }

  /** Digits followed by nothing that continues a numeral are read as those digits. */
  lemma {:induction false} DigitsThenJunk(t: string, d: string, junk: string)
    requires d != [] && AllDigits(d) && t == d + junk
    requires junk == [] || (!IsDigit(junk[0]) && junk[0] != '.' && junk[0] != 'e' && junk[0] != 'E')
    ensures LeadingNumeral(t) == Some(Numeral(false, d, [], false, []))
  {
    assert t[0] == d[0];
    SignedStart(t, false, t);
    UnsignedWhole(t, false, d, junk);
    NoExponent(junk);
  }

  /** The whitespace FILTER_VALIDATE_INT trims: ' ', '\t', '\r', '\v', '\n'. */
  predicate IsFilterTrimChar(c: char) {
    c == ' ' || c == '\t' || c == '\r' || c == '\U{000B}' || c == '\n'
  }

  function FilterTrimLeft(s: string): (r: string)
    ensures |r| <= |s|
  {
    if s != [] && IsFilterTrimChar(s[0]) then FilterTrimLeft(s[1..]) else s
  }

  function FilterTrimRight(s: string): (r: string)
    ensures |r| <= |s|
  {
    if s != [] && IsFilterTrimChar(s[|s| - 1]) then FilterTrimRight(s[..|s| - 1]) else s
  }

  /** An unsigned integer literal FILTER_VALIDATE_INT accepts: "0", or no leading zero. */
  predicate CanonicalDigits(d: string) {
    d != [] && AllDigits(d) && (d[0] == '0' ==> d == "0")
  }

  /** The text FILTER_VALIDATE_INT parses: `s` without its leading and trailing filter whitespace. */
  function FilterTrim(s: string): (r: string)
    ensures |r| <= |s|
  {
    FilterTrimRight(FilterTrimLeft(s))
  }

  /**
   * filter_var($v, FILTER_VALIDATE_INT, [min_range, max_range]): the
   * integer when the trimmed text is an optionally signed canonical decimal
   * inside the 64-bit range and inside [lo, hi]; None otherwise (also for a
   * missing value).
   */
  function ValidateInt(v: Option<string>, lo: int, hi: int): (r: Option<int>)
    ensures r.Some? ==> lo <= r.value <= hi && PHP_INT_MIN <= r.value <= PHP_INT_MAX
  {
    if v.None? then None else ParseFilterInt(FilterTrim(v.value), lo, hi)
  }

  /** The parse of the trimmed text: an optional sign, then "0" or digits without a leading zero. */
  function ParseFilterInt(t: string, lo: int, hi: int): (r: Option<int>)
    ensures r.Some? ==> lo <= r.value <= hi && PHP_INT_MIN <= r.value <= PHP_INT_MAX
  {
    var neg := t != [] && t[0] == '-';
    var digits := if t != [] && (t[0] == '-' || t[0] == '+') then t[1..] else t;
    if !CanonicalDigits(digits) then None
    else
      var n: int := if neg then 0 - DigitsValue(digits) else DigitsValue(digits);
      if n < PHP_INT_MIN || n > PHP_INT_MAX || n < lo || n > hi then None else Some(n)
  }

  /**
   * The spellings of `n` FILTER_VALIDATE_INT reads: its decimal rendering,
   * a non-negative value with a '+' in front, and "-0" for zero.
   */
  predicate Spells(t: string, n: int) {
    t == IntToString(n) || (n >= 0 && t == "+" + IntToString(n)) || (n == 0 && t == "-0")
  }

  /**
   * FILTER_VALIDATE_INT accepts exactly the spellings of a value inside
   * both the 64-bit range and [lo, hi], after trimming, and reads that
   * value.
   */
  lemma {:induction false} ValidateIntIff(s: string, n: int, lo: int, hi: int)
    ensures ValidateInt(Some(s), lo, hi) == Some(n)
            <==> Spells(FilterTrim(s), n) && PHP_INT_MIN <= n <= PHP_INT_MAX && lo <= n <= hi
  {
    ParseFilterIntIff(FilterTrim(s), n, lo, hi);
  }

  /**
   * Whitespace around a spelling is trimmed: "  42\n", "+42" and "-0"
   * validate to 42, 42 and 0 when inside the range.
   */
  lemma {:induction false} ValidateIntAccepts(ws1: string, x: string, ws2: string, n: int, lo: int, hi: int)
    requires AllFilterTrim(ws1) && AllFilterTrim(ws2) && Spells(x, n)
    requires PHP_INT_MIN <= n <= PHP_INT_MAX && lo <= n <= hi
    ensures ValidateInt(Some(ws1 + x + ws2), lo, hi) == Some(n)
  {
    SpellingEnds(x, n);
    FilterTrimOf(ws1, x, ws2);
    ValidateIntIff(ws1 + x + ws2, n, lo, hi);
  }

  /** An accepted value is spelled by the trimmed text. */
  lemma {:induction false} ValidateIntSpelling(v: Option<string>, lo: int, hi: int)
    ensures var r := ValidateInt(v, lo, hi);
            r.Some? ==> Spells(FilterTrim(v.value), r.value)
  {
    var r := ValidateInt(v, lo, hi);
    if r.Some? {
      ParseFilterIntIff(FilterTrim(v.value), r.value, lo, hi);
    }
  }

  /** A spelling of a non-zero value, with or without whitespace around it, is not an empty field. */
  lemma {:induction false} SpelledNotEmpty(ws1: string, x: string, ws2: string, n: int)
    requires Spells(x, n) && n != 0
    ensures !Empty(Some(ws1 + x + ws2))
  {
    SpellingEnds(x, n);
    SingleDigitValue("0");
    assert x != "0";
    assert |ws1 + x + ws2| == 1 ==> ws1 + x + ws2 == x;
  }

  predicate AllFilterTrim(ws: string) {
    forall k :: 0 <= k < |ws| ==> IsFilterTrimChar(ws[k])
  }

  /** A spelling starts with a sign or a digit and ends with a digit. */
  lemma {:induction false} SpellingEnds(x: string, n: int)
    requires Spells(x, n)
    ensures x != [] && !IsFilterTrimChar(x[0]) && IsDigit(x[|x| - 1])
  {
    if x != "-0" {
      var d := NatToString(if n < 0 then -n else n);
      assert x[|x| - 1] == d[|d| - 1];
    }
  }

  lemma {:induction false} FilterTrimOf(ws1: string, x: string, ws2: string)
    requires AllFilterTrim(ws1) && AllFilterTrim(ws2)
    requires x != [] && !IsFilterTrimChar(x[0]) && !IsFilterTrimChar(x[|x| - 1])
    ensures FilterTrim(ws1 + x + ws2) == x
  {
    assert ws1 + x + ws2 == ws1 + (x + ws2);
    FilterTrimLeftOf(ws1, x + ws2);
    FilterTrimRightOf(x, ws2);
  }

  lemma {:induction false} FilterTrimLeftOf(ws: string, y: string)
    requires AllFilterTrim(ws) && y != [] && !IsFilterTrimChar(y[0])
    ensures FilterTrimLeft(ws + y) == y
    decreases |ws|
  {
    if ws == [] {
      assert ws + y == y;
    } else {
      assert (ws + y)[1..] == ws[1..] + y;
      FilterTrimLeftOf(ws[1..], y);
    }
  }

  lemma {:induction false} FilterTrimRightOf(y: string, ws: string)
    requires AllFilterTrim(ws) && y != [] && !IsFilterTrimChar(y[|y| - 1])
    ensures FilterTrimRight(y + ws) == y
    decreases |ws|
  {
    if ws == [] {
      assert y + ws == y;
    } else {
      var w := ws[..|ws| - 1];
      assert (y + ws)[..|y + ws| - 1] == y + w;
      FilterTrimRightOf(y, w);
    }
  }

  /** php_filter_parse_int() reads exactly the spellings of an in-range value. */
  lemma {:induction false} ParseFilterIntIff(t: string, n: int, lo: int, hi: int)
    ensures ParseFilterInt(t, lo, hi) == Some(n)
            <==> Spells(t, n) && PHP_INT_MIN <= n <= PHP_INT_MAX && lo <= n <= hi
  {
    if ParseFilterInt(t, lo, hi) == Some(n) {
      ParsedIsSpelling(t, n, lo, hi);
    }
    if Spells(t, n) && PHP_INT_MIN <= n <= PHP_INT_MAX && lo <= n <= hi {
      SpellingIsParsed(t, n, lo, hi);
    }
  }

  lemma {:induction false} ParsedIsSpelling(t: string, n: int, lo: int, hi: int)
    requires ParseFilterInt(t, lo, hi) == Some(n)
    ensures Spells(t, n)
  {
    var digits := if t != [] && (t[0] == '-' || t[0] == '+') then t[1..] else t;
    CanonicalRoundTrip(digits);
    if t != [] && t[0] == '-' {
      assert t == "-" + digits;
      if n == 0 {
        assert digits == NatToString(0);
      }
    } else if t != [] && t[0] == '+' {
      assert t == "+" + digits;
    }
  }

  lemma {:induction false} SpellingIsParsed(t: string, n: int, lo: int, hi: int)
    requires Spells(t, n) && PHP_INT_MIN <= n <= PHP_INT_MAX && lo <= n <= hi
    ensures ParseFilterInt(t, lo, hi) == Some(n)
  {
    var d := NatToString(if n < 0 then -n else n);
    NatToStringCanonical(if n < 0 then -n else n);
    if t == "-0" {
      assert t[1..] == "0" && DigitsValue("0") == DigitsValue([]) * 10 + 0;
    } else if n >= 0 && t == "+" + d {
      assert t[1..] == d;
    } else if n < 0 {
      assert t == "-" + d && t[1..] == d;
    } else {
      assert t == d && IsDigit(t[0]);
    }
  }

  /** The decimal rendering is canonical. */
  lemma {:induction false} NatToStringCanonical(n: nat)
    ensures CanonicalDigits(NatToString(n))
  {
    if NatToString(n)[0] == '0' {
      assert n == 0;
    }
  }

  /** A canonical digit string is the rendering of its value. */
  lemma {:induction false} CanonicalRoundTrip(d: string)
    requires CanonicalDigits(d)
    ensures NatToString(DigitsValue(d)) == d
    decreases |d|
  {
    var v := DigitsValue(d);
    if |d| == 1 {
      SingleDigitValue(d);
      assert NatToString(v) == [DigitChar(v)];
    } else {
      var p := d[..|d| - 1];
      assert p[0] == d[0] && CanonicalDigits(p);
      LeadingDigitPositive(p);
      CanonicalRoundTrip(p);
      assert v / 10 == DigitsValue(p) && v % 10 == d[|d| - 1] as int - '0' as int;
      assert NatToString(v) == NatToString(v / 10) + [DigitChar(v % 10)];
    }
  }

  /** Digits that do not start with '0' have a positive value. */
  lemma {:induction false} LeadingDigitPositive(d: string)
    requires d != [] && AllDigits(d) && d[0] != '0'
    ensures DigitsValue(d) >= 1
    decreases |d|
  {
    if |d| > 1 {
      var p := d[..|d| - 1];
      assert p[0] == d[0];
      LeadingDigitPositive(p);
    } else {
      assert d[..0] == [];
    }
  }

  // ---------------------------------------------------------------- case

  /** mb_strtolower() on one character, for ASCII and Latin-1 letters. */
  function LowerChar(c: char): char {
    if 'A' <= c <= 'Z' then (c as int + 32) as char
    else if '\U{00C0}' <= c <= '\U{00DE}' && c != '\U{00D7}' then (c as int + 32) as char
    else c
  }

  function Lower(s: string): (r: string)
    ensures |r| == |s|
    ensures forall i :: 0 <= i < |s| ==> r[i] == LowerChar(s[i])
  {
    if s == [] then [] else [LowerChar(s[0])] + Lower(s[1..])
  }

  /** `\p{L}` or `\p{N}`, for characters up to U+017F. */
  predicate IsLetterOrDigit(c: char) {
    ('a' <= c <= 'z') || ('A' <= c <= 'Z') || IsDigit(c)
    || c == '\U{00AA}' || c == '\U{00B2}' || c == '\U{00B3}' || c == '\U{00B5}'
    || c == '\U{00B9}' || c == '\U{00BA}' || ('\U{00BC}' <= c <= '\U{00BE}')
    || ('\U{00C0}' <= c <= '\U{017F}' && c != '\U{00D7}' && c != '\U{00F7}')
  }

  // ------------------------------------------------------------- strings

  /** `needle` occurs in `hay` at position `i`. */
  predicate OccursAt(hay: string, needle: string, i: int) {
    0 <= i && i + |needle| <= |hay| && hay[i..i + |needle|] == needle
  }

  /** An occurrence in a suffix of `hay` is an occurrence in `hay`. */
  lemma {:induction false} OccursInSuffix(hay: string, off: int, needle: string, i: int)
    requires 0 <= off <= |hay| && OccursAt(hay[off..], needle, i)
    ensures OccursAt(hay, needle, off + i)
  {
    assert hay[off + i..off + i + |needle|] == hay[off..][i..i + |needle|];
  }

  /** strpos($hay, $needle) !== false (an empty needle is found at 0). */
  function Contains(hay: string, needle: string): (b: bool)
    ensures b <==> exists i :: OccursAt(hay, needle, i)
    decreases |hay|
  {
    if |needle| > |hay| then false
    else if hay[..|needle|] == needle then
      assert OccursAt(hay, needle, 0);
      true
    else
      var b := Contains(hay[1..], needle);
      forall i
        ensures OccursAt(hay[1..], needle, i) <==> OccursAt(hay, needle, i + 1)
      {
        if 0 <= i && i + |needle| <= |hay| - 1 {
          assert hay[1..][i..i + |needle|] == hay[i + 1..i + 1 + |needle|];
        }
      }
      assert !OccursAt(hay, needle, 0);
      assert (exists i :: OccursAt(hay, needle, i)) ==> exists i :: OccursAt(hay[1..], needle, i)
        by {
          if exists i :: OccursAt(hay, needle, i) {
            var i :| OccursAt(hay, needle, i);
            assert i >= 1;
            assert OccursAt(hay[1..], needle, i - 1);
          }
        }
      b
  }

  /** htmlspecialchars() with ENT_QUOTES on one character. */
  function EscapeChar(c: char): string {
    if c == '&' then "&amp;"
    else if c == '"' then "&quot;"
    else if c == '\'' then "&#039;"
    else if c == '<' then "&lt;"
    else if c == '>' then "&gt;"
    else [c]
  }

  /**
   * htmlspecialchars(): no '<', '>', '"' or '\'' survives, nothing is lost
   * (decoding gives the text back), and the text only grows.
   */
  function HtmlSpecialChars(s: string): (r: string)
    ensures '<' !in r && '>' !in r && '"' !in r && '\'' !in r
    ensures HtmlDecode(r) == s
    ensures |r| >= |s|
  {
    if s == [] then []
    else
      EscapeCharSafe(s[0]);
      EscapeCharDecodes(s[0], HtmlSpecialChars(s[1..]));
      EscapeChar(s[0]) + HtmlSpecialChars(s[1..])
  }

  /** One escaped character holds no markup character and is never empty. */
  lemma {:induction false} EscapeCharSafe(c: char)
    ensures var e := EscapeChar(c);
            '<' !in e && '>' !in e && '"' !in e && '\'' !in e && |e| >= 1
  {
  }

  /**
   * htmlspecialchars_decode() with ENT_QUOTES, for the five entities
   * htmlspecialchars() writes: each becomes its character again, and every
   * other character stays.
   */
  function HtmlDecode(s: string): (r: string)
    decreases |s|
  {
    if s == [] then []
    else if |s| >= 5 && s[..5] == "&amp;" then "&" + HtmlDecode(s[5..])
    else if |s| >= 6 && s[..6] == "&quot;" then "\"" + HtmlDecode(s[6..])
    else if |s| >= 6 && s[..6] == "&#039;" then "'" + HtmlDecode(s[6..])
    else if |s| >= 4 && s[..4] == "&lt;" then "<" + HtmlDecode(s[4..])
    else if |s| >= 4 && s[..4] == "&gt;" then ">" + HtmlDecode(s[4..])
    else [s[0]] + HtmlDecode(s[1..])
  }

  /** Decoding reads an escaped character back and goes on with the rest. */
  lemma {:induction false} EscapeCharDecodes(c: char, rest: string)
    ensures HtmlDecode(EscapeChar(c) + rest) == [c] + HtmlDecode(rest)
  {
    if c == '&' {
      DecodesEntity("&amp;", '&', rest);
    } else if c == '"' {
      DecodesEntity("&quot;", '"', rest);
    } else if c == '\'' {
      DecodesEntity("&#039;", '\'', rest);
    } else if c == '<' {
      DecodesEntity("&lt;", '<', rest);
    } else if c == '>' {
      DecodesEntity("&gt;", '>', rest);
    } else {
      DecodesPlain(c, rest);
    }
  }

  /** An entity at the head decodes to its character. */
  lemma {:induction false} DecodesEntity(ent: string, c: char, rest: string)
    requires (ent, c) in {("&amp;", '&'), ("&quot;", '"'), ("&#039;", '\''), ("&lt;", '<'), ("&gt;", '>')}
    ensures HtmlDecode(ent + rest) == [c] + HtmlDecode(rest)
  {
    var t := ent + rest;
    assert t[..|ent|] == ent && t[|ent|..] == rest;
    assert t[1] == ent[1];
    if |t| >= 5 { assert t[..5][1] == t[1]; }
    if |t| >= 6 { assert t[..6][1] == t[1]; }
    assert t[..4][1] == t[1] && t[..4][2] == t[2];
  }

  /** A character other than the five stays as it is. */
  lemma {:induction false} DecodesPlain(c: char, rest: string)
    requires c != '&'
    ensures HtmlDecode([c] + rest) == [c] + HtmlDecode(rest)
  {
    var t := [c] + rest;
    assert t[0] == c && t[1..] == rest;
    if |t| >= 4 { assert t[..4][0] == c; }
    if |t| >= 5 { assert t[..5][0] == c; }
    if |t| >= 6 { assert t[..6][0] == c; }
  }

  /** substr($s, 0, $n) for n >= 0. */
  function Prefix(s: string, n: nat): (r: string)
    ensures |r| == Min(n, |s|) && r == s[..|r|]
  {
    if |s| <= n then s else s[..n]
  }

  // ---------------------------------------------------------- preg_split

  function DropSpaces(s: string): (r: string)
    ensures |r| <= |s| && r == s[|s| - |r|..]
    ensures r != [] ==> !IsSpace(r[0])
  {
    if s != [] && IsSpace(s[0]) then DropSpaces(s[1..]) else s
  }

  /** The token being built (`cur`) followed by the tokens of `s`. */
  function SplitFrom(s: string, cur: string): (r: seq<string>)
    ensures r != []
    ensures forall i, k :: 0 <= i < |r| && 0 <= k < |r[i]| ==> !IsSpace(r[i][k])
    requires forall k :: 0 <= k < |cur| ==> !IsSpace(cur[k])
    decreases |s|
  {
    if s == [] then [cur]
    else if IsSpace(s[0]) then [cur] + SplitFrom(DropSpaces(s), [])
    else SplitFrom(s[1..], cur + [s[0]])
  }

  /**
   * preg_split('/\s+/', $s): the pieces between runs of whitespace, with an
   * empty first (last) piece when `s` starts (ends) with whitespace.
   */
  function SplitSpaces(s: string): (r: seq<string>)
    ensures r != []
    ensures forall i, k :: 0 <= i < |r| && 0 <= k < |r[i]| ==> !IsSpace(r[i][k])
  {
    SplitFrom(s, [])
  }

  lemma {:induction false} SplitFromNoSpace(s: string, cur: string)
    requires forall k :: 0 <= k < |cur| ==> !IsSpace(cur[k])
    requires forall k :: 0 <= k < |s| ==> !IsSpace(s[k])
    ensures SplitFrom(s, cur) == [cur + s]
    decreases |s|
  {
    if s != [] {
      SplitFromNoSpace(s[1..], cur + [s[0]]);
      assert cur + [s[0]] + s[1..] == cur + s;
    } else {
      assert cur + s == cur;
    }
  }

  /** A text without whitespace is a single token. */
  lemma {:induction false} SplitSpacesSingle(s: string)
    requires forall k :: 0 <= k < |s| ==> !IsSpace(s[k])
    ensures SplitSpaces(s) == [s]
  {
    SplitFromNoSpace(s, []);
    assert [] + s == s;
  }

  /** preg_replace('/\s+/', ' ', $s): every run of whitespace becomes one space. */
  function CollapseSpaces(s: string): (r: string)
    ensures |r| <= |s|
    decreases |s|
  {
    if s == [] then []
    else if IsSpace(s[0]) then [' '] + CollapseSpaces(DropSpaces(s))
    else [s[0]] + CollapseSpaces(s[1..])
  }

  /** implode($sep, $parts). */
  function Join(parts: seq<string>, sep: string): (r: string)
  {
    if parts == [] then []
    else if |parts| == 1 then parts[0]
    else parts[0] + sep + Join(parts[1..], sep)
  }

  /**
   * preg_split('/\s+/') and preg_replace('/\s+/', ' ') agree: joining the
   * pieces with single spaces gives the collapsed text. Only the first and
   * the last piece can be empty, the first exactly when the text is empty
   * or starts with whitespace, the last exactly when it is empty or ends
   * with whitespace.
   */
  lemma {:induction false} SplitSpacesSpec(s: string)
    ensures var r := SplitSpaces(s);
            && Join(r, " ") == CollapseSpaces(s)
            && (forall i :: 0 < i < |r| - 1 ==> r[i] != [])
            && (r[0] == [] <==> s == [] || IsSpace(s[0]))
            && (r[|r| - 1] == [] <==> s == [] || IsSpace(s[|s| - 1]))
  {
    SplitFromJoin(s, []);
    assert [] + CollapseSpaces(s) == CollapseSpaces(s);
    SplitFromInterior(s, []);
    SplitSpacesFirst(s);
    SplitSpacesLast(s);
  }

  lemma {:induction false} SplitSpacesFirst(s: string)
    ensures var r := SplitSpaces(s); r[0] == [] <==> s == [] || IsSpace(s[0])
  {
    SplitFromFirst(s, []);
  }

  lemma {:induction false} SplitSpacesLast(s: string)
    ensures var r := SplitSpaces(s); r[|r| - 1] == [] <==> s == [] || IsSpace(s[|s| - 1])
  {
    SplitFromLast(s, []);
  }

  lemma {:induction false} SplitFromJoin(s: string, cur: string)
    requires forall k :: 0 <= k < |cur| ==> !IsSpace(cur[k])
    ensures Join(SplitFrom(s, cur), " ") == cur + CollapseSpaces(s)
    decreases |s|
  {
    if s == [] {
      assert cur + CollapseSpaces(s) == cur;
    } else if IsSpace(s[0]) {
      SplitFromJoin(DropSpaces(s), []);
      assert [] + CollapseSpaces(DropSpaces(s)) == CollapseSpaces(DropSpaces(s));
      JoinAfterSpace(s, cur);
    } else {
      SplitFromJoin(s[1..], cur + [s[0]]);
      JoinAfterChar(s, cur);
    }
  }

  /** One step of SplitFromJoin: a whitespace run closes the current piece. */
  lemma {:induction false} JoinAfterSpace(s: string, cur: string)
    requires s != [] && IsSpace(s[0])
    requires forall k :: 0 <= k < |cur| ==> !IsSpace(cur[k])
    requires Join(SplitFrom(DropSpaces(s), []), " ") == CollapseSpaces(DropSpaces(s))
    ensures Join(SplitFrom(s, cur), " ") == cur + CollapseSpaces(s)
  {
    var rest := SplitFrom(DropSpaces(s), []);
    assert SplitFrom(s, cur) == [cur] + rest;
    JoinSpaceStep(cur, rest, CollapseSpaces(DropSpaces(s)));
  }

  /** Joining one more piece in front adds it and a space. */
  lemma {:induction false} JoinSpaceStep(x: string, rest: seq<string>, c: string)
    requires rest != [] && Join(rest, " ") == c
    ensures Join([x] + rest, " ") == x + ([' '] + c)
  {
    JoinCons(x, rest, " ");
    assert x + " " + c == x + ([' '] + c);
  }

  /** One step of SplitFromJoin: a visible character extends the current piece. */
  lemma {:induction false} JoinAfterChar(s: string, cur: string)
    requires s != [] && !IsSpace(s[0])
    requires forall k :: 0 <= k < |cur| ==> !IsSpace(cur[k])
    requires Join(SplitFrom(s[1..], cur + [s[0]]), " ") == cur + [s[0]] + CollapseSpaces(s[1..])
    ensures Join(SplitFrom(s, cur), " ") == cur + CollapseSpaces(s)
  {
    assert SplitFrom(s, cur) == SplitFrom(s[1..], cur + [s[0]]);
    assert CollapseSpaces(s) == [s[0]] + CollapseSpaces(s[1..]);
    assert cur + [s[0]] + CollapseSpaces(s[1..]) == cur + ([s[0]] + CollapseSpaces(s[1..]));
  }

  lemma {:induction false} JoinCons(x: string, rest: seq<string>, sep: string)
    requires rest != []
    ensures Join([x] + rest, sep) == x + sep + Join(rest, sep)
  {
    assert ([x] + rest)[1..] == rest;
  }

  /** The first piece is the token being built followed by the text up to the first whitespace. */
  lemma {:induction false} SplitFromFirst(s: string, cur: string)
    requires forall k :: 0 <= k < |cur| ==> !IsSpace(cur[k])
    ensures var r := SplitFrom(s, cur);
            cur <= r[0] && (r[0] == [] <==> cur == [] && (s == [] || IsSpace(s[0])))
    decreases |s|
  {
    if s != [] && !IsSpace(s[0]) {
      SplitFromFirst(s[1..], cur + [s[0]]);
      assert (cur + [s[0]])[..|cur|] == cur;
      assert (cur + [s[0]])[|cur|] == s[0];
    }
  }

  /** The last piece is empty exactly when nothing follows the last whitespace. */
  lemma {:induction false} SplitFromLast(s: string, cur: string)
    requires forall k :: 0 <= k < |cur| ==> !IsSpace(cur[k])
    ensures LastSpec(s, cur)
    decreases |s|
  {
    if s == [] {
    } else if IsSpace(s[0]) {
      SplitFromLast(DropSpaces(s), []);
      LastAfterSpace(s, cur);
    } else {
      SplitFromLast(s[1..], cur + [s[0]]);
      LastAfterChar(s, cur);
    }
  }

  /** The last of a non-empty list of pieces is empty. */
  predicate LastEmpty(r: seq<string>) {
    r != [] && r[|r| - 1] == []
  }

  /** What SplitFromLast() states about the last piece. */
  predicate LastSpec(s: string, cur: string)
    requires forall k :: 0 <= k < |cur| ==> !IsSpace(cur[k])
  {
    LastEmpty(SplitFrom(s, cur)) <==> (s == [] && cur == []) || (s != [] && IsSpace(s[|s| - 1]))
  }

  /** One step of SplitFromLast: a whitespace run closes the current piece. */
  lemma {:induction false} LastAfterSpace(s: string, cur: string)
    requires s != [] && IsSpace(s[0])
    requires forall k :: 0 <= k < |cur| ==> !IsSpace(cur[k])
    requires LastSpec(DropSpaces(s), [])
    ensures LastSpec(s, cur)
  {
    LastPieceAfterSpace(s, cur);
    DropSpacesLast(s);
  }

  lemma {:induction false} LastPieceAfterSpace(s: string, cur: string)
    requires s != [] && IsSpace(s[0])
    requires forall k :: 0 <= k < |cur| ==> !IsSpace(cur[k])
    ensures LastEmpty(SplitFrom(s, cur)) <==> LastEmpty(SplitFrom(DropSpaces(s), []))
  {
    var rest := SplitFrom(DropSpaces(s), []);
    var r := SplitFrom(s, cur);
    assert |r| == |rest| + 1 && r[|r| - 1] == rest[|rest| - 1];
  }

  /** Dropping leading whitespace keeps the last character, unless nothing is left. */
  lemma {:induction false} DropSpacesLast(s: string)
    requires s != [] && IsSpace(s[0])
    ensures var d := DropSpaces(s);
            (d == [] || IsSpace(d[|d| - 1])) <==> IsSpace(s[|s| - 1])
  {
    var d := DropSpaces(s);
    if d != [] {
      assert d[|d| - 1] == s[|s| - 1];
    } else {
      DropSpacesAll(s);
    }
  }

  /** One step of SplitFromLast: a visible character extends the current piece. */
  lemma {:induction false} LastAfterChar(s: string, cur: string)
    requires s != [] && !IsSpace(s[0])
    requires forall k :: 0 <= k < |cur| ==> !IsSpace(cur[k])
    requires LastSpec(s[1..], cur + [s[0]])
    ensures LastSpec(s, cur)
  {
    assert SplitFrom(s, cur) == SplitFrom(s[1..], cur + [s[0]]);
    if |s| > 1 {
      assert s[1..][|s[1..]| - 1] == s[|s| - 1];
    }
  }

  /** Every piece between the first and the last holds something. */
  lemma {:induction false} SplitFromInterior(s: string, cur: string)
    requires forall k :: 0 <= k < |cur| ==> !IsSpace(cur[k])
    ensures var r := SplitFrom(s, cur);
            forall i :: 0 < i < |r| - 1 ==> r[i] != []
    decreases |s|
  {
    if s == [] {
    } else if IsSpace(s[0]) {
      var d := DropSpaces(s);
      SplitFromInterior(d, []);
      var r := SplitFrom(s, cur);
      var rest := SplitFrom(d, []);
      assert r[1..] == rest;
      if |rest| > 1 {
        SplitFromFirst(d, []);
        SplitFromLast(d, []);
        assert d != [];
      }
      forall i | 0 < i < |r| - 1
        ensures r[i] != []
      {
        assert r[i] == rest[i - 1];
      }
    } else {
      SplitFromInterior(s[1..], cur + [s[0]]);
      assert SplitFrom(s, cur) == SplitFrom(s[1..], cur + [s[0]]);
    }
  }

  /** Dropping the leading whitespace leaves nothing only when all of it was whitespace. */
  lemma {:induction false} DropSpacesAll(s: string)
    requires DropSpaces(s) == []
    ensures forall k :: 0 <= k < |s| ==> IsSpace(s[k])
    decreases |s|
  {
    if s != [] {
      DropSpacesAll(s[1..]);
      forall k | 1 <= k < |s|
        ensures IsSpace(s[k])
      {
        assert s[k] == s[1..][k - 1];
      }
    }
  }

  // ------------------------------------------------------------- paths

  /** `s` without the run of '/' at its end. */
  function StripTrailingSlashes(s: string): (r: string)
    ensures |r| <= |s| && r == s[..|r|]
    ensures r != [] ==> r[|r| - 1] != '/'
    ensures forall k :: |r| <= k < |s| ==> s[k] == '/'
  {
    if s != [] && s[|s| - 1] == '/' then StripTrailingSlashes(s[..|s| - 1]) else s
  }

  /** The part of `s` after its last '/'. */
  function AfterLastSlash(s: string): (r: string)
    ensures |r| <= |s| && r == s[|s| - |r|..]
    ensures '/' !in r
    ensures |r| < |s| ==> s[|s| - |r| - 1] == '/'
  {
    if s == [] then []
    else if s[|s| - 1] == '/' then []
    else
      var r := AfterLastSlash(s[..|s| - 1]) + [s[|s| - 1]];
      r
  }

  /** basename(): the last path component, ignoring trailing slashes. */
  function Basename(path: string): (r: string)
    ensures '/' !in r
    ensures var t := StripTrailingSlashes(path);
            |r| <= |t| && r == t[|t| - |r|..] && (|r| < |t| ==> t[|t| - |r| - 1] == '/')
  {
    AfterLastSlash(StripTrailingSlashes(path))
  }

  /** basename("dir/name///") is "name" for a name without '/'. */
  lemma {:induction false} BasenameOf(dir: string, name: string, slashes: string)
    requires name != [] && '/' !in name
    requires forall k :: 0 <= k < |slashes| ==> slashes[k] == '/'
    ensures Basename(dir + "/" + name + slashes) == name
  {
    var p := dir + "/";
    assert dir + "/" + name + slashes == (p + name) + slashes;
    StripSlashesOf(p + name, slashes);
    AfterLastSlashOf(p, name);
  }

  lemma {:induction false} StripSlashesOf(x: string, slashes: string)
    requires x != [] && x[|x| - 1] != '/'
    requires forall k :: 0 <= k < |slashes| ==> slashes[k] == '/'
    ensures StripTrailingSlashes(x + slashes) == x
    decreases |slashes|
  {
    if slashes == [] {
      assert x + slashes == x;
    } else {
      var w := slashes[..|slashes| - 1];
      assert (x + slashes)[..|x + slashes| - 1] == x + w;
      StripSlashesOf(x, w);
    }
  }

  lemma {:induction false} AfterLastSlashOf(p: string, name: string)
    requires p != [] && p[|p| - 1] == '/' && '/' !in name
    ensures AfterLastSlash(p + name) == name
    decreases |name|
  {
    var q := p + name;
    if name == [] {
      assert q == p;
    } else {
      var w := name[..|name| - 1];
      var c := name[|name| - 1];
      assert q[|q| - 1] == c && c != '/';
      assert q[..|q| - 1] == p + w;
      AfterLastSlashOf(p, w);
      assert AfterLastSlash(q) == AfterLastSlash(p + w) + [c];
      assert name == w + [c];
    }
  }

  /** The part of `s` before its last '.'. */
  function BeforeLastDot(s: string): (r: string)
    requires '.' in s
    ensures |r| < |s| && r == s[..|r|] && s[|r|] == '.'
    ensures '.' !in s[|r| + 1..]
  {
    if s[|s| - 1] == '.' then s[..|s| - 1]
    else
      assert '.' in s[..|s| - 1] by {
        var i :| 0 <= i < |s| && s[i] == '.';
        assert s[..|s| - 1][i] == '.';
      }
      var r := BeforeLastDot(s[..|s| - 1]);
      assert s[|r| + 1..] == s[..|s| - 1][|r| + 1..] + [s[|s| - 1]];
      r
  }

  /** pathinfo($path, PATHINFO_FILENAME): the basename up to its last '.'. */
  function PathFilename(path: string): (r: string)
    ensures var b := Basename(path);
            ('.' !in b ==> r == b) && ('.' in b ==> |r| < |b| && b[..|r|] == r && b[|r|] == '.' && '.' !in b[|r| + 1..])
  {
    var b := Basename(path);
    if '.' in b then BeforeLastDot(b) else b
  }
}
