/**
  Fixed-point decimal columns (clickhouse/columns/decimal.cpp): strings are validated, normalised to an
  integer scaled by 10^scale, narrowed to 32, 64 or 128 bits and printed back. 128-bit integers are read and
  printed through four signed limbs (clickhouse/types/bignum.cpp).
 */
module DecimalColumn {
  import opened Arith
  import opened DecimalText
  import opened BignumString
  import opened Optional

  const TWO_31: nat := 0x8000_0000
  const TWO_63: nat := 0x8000_0000_0000_0000
  const TWO_64: nat := 0x1_0000_0000_0000_0000
  const TWO_127: nat := 0x8000_0000_0000_0000_0000_0000_0000_0000

  type Int128 = v: int | 0 - TWO_127 <= v < TWO_127

  datatype DataType = Int32 | Int64 | Int128Code

  // ----- 128-bit integers as strings -----

  lemma FourLimbs(s: seq<Limb>)
    requires |s| == 4
    ensures Limbs(s) == s[0] + BASE * s[1] + TWO_64 * (s[2] + BASE * s[3])
    ensures Span(4) == 2 * TWO_127
  {
    Spans();
    assert s[1..][1..] == s[2..] && s[2..][1..] == s[3..] && s[3..][1..] == [];
    assert Limbs(s[3..]) == s[3];
    assert Limbs(s[2..]) == s[2] + BASE * s[3];
  }

  method StringToInt128(str: string) returns (r: Option<Int128>)
    ensures r.Some? <==> WellFormed(str, SIGNED) && 0 - TWO_127 <= Parsed(str, SIGNED) < TWO_127
    ensures r.Some? ==> r.value == Parsed(str, SIGNED)
  {
    var limbs := new Limb[4];
    var status := StrToLimbArr(Some(str), SIGNED, limbs);
    FourLimbs(limbs[..]);
    LimbsBound(limbs[..]);
    if status != OK {
      return None;
    }
    var low := limbs[0] + BASE * limbs[1];
    var high := limbs[2] + BASE * limbs[3];
    return Some(TWO_64 * (if high >= TWO_63 then high - TWO_64 else high) + low);
  }

  method Int128ToString(x: Int128) returns (str: string)
    ensures str == Printed(x)
  {
    var low, high := x % TWO_64, (x / TWO_64) % TWO_64;
    var limbs := new Limb[4];
    limbs[0], limbs[1], limbs[2], limbs[3] := low % BASE, low / BASE, high % BASE, high / BASE;
    FourLimbs(limbs[..]);
    assert Decoded(limbs[..], SIGNED) == x;
    var buf := new char[41];
    var start := LimbArrToStr(limbs, SIGNED, buf);
    return buf[start.value..40];
  }

  // ----- what a decimal string means -----

  function Unsigned(s: string): string {
    if |s| > 0 && s[0] == '-' then s[1..] else s
  }

  predicate Negative(s: string) {
    |s| > 0 && s[0] == '-'
  }

  /** The position of the first '.', or the length when there is none. */
  function Dot(u: string): (k: nat)
    ensures k <= |u| && (k < |u| ==> u[k] == '.')
    ensures forall i :: 0 <= i < k ==> u[i] != '.'
  {
    if u == [] || u[0] == '.' then 0 else 1 + Dot(u[1..])
  }

  predicate HasDot(s: string) {
    Dot(Unsigned(s)) < |Unsigned(s)|
  }

  function IntPart(s: string): string {
    Unsigned(s)[..Dot(Unsigned(s))]
  }

  function FracPart(s: string): string {
    if HasDot(s) then Unsigned(s)[Dot(Unsigned(s)) + 1..] else []
  }

  /** Optional '-', digits with at most one '.', and at least one digit. */
  predicate Syntactic(s: string) {
    AllDigits(IntPart(s)) && AllDigits(FracPart(s)) && |IntPart(s)| + |FracPart(s)| > 0
  }

  /** n * 10^scale / 10^len, truncated. */
  function Rescaled(n: nat, scale: nat, len: nat): nat {
    Quotient(n * Pow(10, scale), Pow(10, len))
  }

  function Quotient(a: nat, b: nat): nat
    requires b > 0
  {
    a / b
  }

  /**
    The magnitude that is stored: the number times 10^scale truncated toward zero when there is a dot,
    and the raw integer when there is none.
   */
  function Scaled(s: string, scale: nat): nat
    requires Syntactic(s)
  {
    var n := Value(IntPart(s) + FracPart(s));
    if HasDot(s) then Rescaled(n, scale, |FracPart(s)|) else n
  }

  function Stored(s: string, scale: nat): int
    requires Syntactic(s)
  {
    if Negative(s) then 0 - Scaled(s, scale) else Scaled(s, scale)
  }

  /** Which strings a Decimal(precision, scale) column takes. */
  predicate Acceptable(s: string, precision: nat, scale: nat) {
    && Syntactic(s)
    && (HasDot(s) ==> scale <= precision && (IntPart(s) != [] || scale > 0))
    && Scaled(s, scale) < Pow(10, precision)
    && 0 - TWO_127 <= Stored(s, scale) < TWO_127
  }

  /** The integral part of a magnitude with scale fraction digits. */
  function Whole(m: nat, scale: nat): nat {
    m / Pow(10, scale)
  }

  /** The text of a stored value: sign, integral part, and exactly scale fraction digits. */
  function Fixed(v: int, scale: nat): string {
    var m: nat := if v < 0 then -v else v;
    var sign := if v < 0 then "-" else "";
    if scale == 0 then sign + Numeral(m)
    else sign + Numeral(Whole(m, scale)) + "." + Padded(m, scale)
  }

  // ----- counting significant digits -----

  lemma {:induction false} StripZerosAppend(s: string, c: char)
    requires AllDigits(s) && IsDigit(c)
    ensures StripZeros(s + [c]) == if StripZeros(s) == [] then (if c == '0' then [] else [c]) else StripZeros(s) + [c]
    decreases |s|
  {
    if s == [] {
      assert s + [c] == [c] && [c][1..] == [];
    } else if s[0] == '0' {
      assert (s + [c])[1..] == s[1..] + [c];
      StripZerosAppend(s[1..], c);
    }
  }

  /** A number has at most m significant digits exactly when it is below 10^m. */
  lemma SignificantDigits(s: string, m: nat)
    requires AllDigits(s)
    ensures |StripZeros(s)| <= m <==> Value(s) < Pow(10, m)
  {
    var t := StripZeros(s);
    StripZerosValue(s);
    if t != [] {
      LeadingDigitPositive(t);
      NumeralUnique(t);
      NumeralLengthLower(Value(t));
      if m < |t| {
        PowMonotone(10, m, |t| - 1);
      } else {
        ValueBound(t);
        PowMonotone(10, |t|, m);
      }
    }
  }

  /** A string is syntactic exactly if it has a digit and nothing else besides the sign and the first dot. */
  lemma SyntacticChars(s: string)
    ensures var u := Unsigned(s);
            Syntactic(s) <==> u != [] && u != "." && forall j :: 0 <= j < |u| && j != Dot(u) ==> IsDigit(u[j])
  {
    hide Dot;
    var u := Unsigned(s);
    var k, whole, frac := Dot(u), IntPart(s), FracPart(s);
    assert forall j :: 0 <= j < k ==> whole[j] == u[j];
    if k < |u| {
      assert forall j :: 0 <= j < |frac| ==> frac[j] == u[k + 1 + j];
      assert forall j :: k < j < |u| ==> u[j] == frac[j - k - 1];
      assert u == "." <==> |u| == 1;
      assert |whole| + |frac| == |u| - 1;
    } else {
      assert |whole| == |u| && frac == [];
      assert u != [] ==> u[0] != '.';
    }
    assert AllDigits(whole) && AllDigits(frac) <==> forall j :: 0 <= j < |u| && j != k ==> IsDigit(u[j]) by {
      assert AllDigits(whole) <==> forall j :: 0 <= j < k ==> IsDigit(u[j]);
      assert AllDigits(frac) <==> forall j :: k < j < |u| ==> IsDigit(u[j]);
    }
  }

  method ValidateDecimalString(value: string, precision: nat, scale: nat) returns (ok: bool)
    ensures ok <==> Syntactic(value)
                    && |StripZeros(IntPart(value))| + (if HasDot(value) then scale else 0) <= precision
  {
    hide Syntactic;
    SyntacticChars(value);
    if value == "" || value == "." || value == "-" || value == "-." {
      return false;
    }
    var u := Unsigned(value);
    ghost var k := Dot(u);
    var dot, padding, digits := false, true, 0;
    var i := 0;
    assert u[..0] == [] && StripZeros("") == "";
    hide StripZeros, Dot;
    while i < |u|
      invariant 0 <= i <= |u|
      invariant dot <==> k < i
      invariant forall j :: 0 <= j < i && j != k ==> IsDigit(u[j])
      invariant digits == |StripZeros(u[..if i < k then i else k])|
      invariant i <= k ==> (padding <==> digits == 0)
    {
      if u[i] == '.' && !dot {
        dot := true;
      } else if !IsDigit(u[i]) {
        return false;
      } else {
        if i < k {
          assert u[..i + 1] == u[..i] + [u[i]];
          StripZerosAppend(u[..i], u[i]);
        }
        padding := padding && u[i] == '0';
        digits := digits + if !dot && !padding then 1 else 0;
      }
      i := i + 1;
    }
    if dot {
      digits := digits + scale;
    }
    return digits <= precision;
  }

  // ----- normalising -----

  /** A fraction cut or zero-padded to scale digits. */
  function KeptFraction(frac: string, scale: nat): (kept: string)
    ensures |kept| == scale && (AllDigits(frac) ==> AllDigits(kept))
  {
    if |frac| >= scale then frac[..scale] else frac + Zeros(scale - |frac|)
  }

  function CleanDigits(s: string, scale: nat): string {
    if HasDot(s) then IntPart(s) + KeptFraction(FracPart(s), scale) else IntPart(s)
  }

  function Cleaned(s: string, scale: nat): string {
    (if Negative(s) then "-" else "") + CleanDigits(s, scale)
  }

  lemma CancelFactor(n: nat, p: nat, q: nat, kept: nat, dropped: nat)
    requires p > 0 && n == kept * q + dropped && dropped < q
    ensures n * p / (q * p) == kept
  {
    assert n * p == (kept * q) * p + dropped * p;
    assert (kept * q) * p == (q * p) * kept;
    MulLe(p, dropped + 1, q);
    assert p * (dropped + 1) == dropped * p + p;
    DivModUnique(n * p, q * p, kept, dropped * p);
  }

  lemma ScaleDown(n: nat, scale: nat, len: nat, kept: nat, dropped: nat)
    requires scale <= len
    requires n == kept * Pow(10, len - scale) + dropped && dropped < Pow(10, len - scale)
    ensures n * Pow(10, scale) / Pow(10, len) == kept
  {
    PowAdd(10, len - scale, scale);
    CancelFactor(n, Pow(10, scale), Pow(10, len - scale), kept, dropped);
  }

  lemma DivideOut(n: nat, p: nat, q: nat)
    requires q > 0
    ensures n * (q * p) / q == n * p
  {
    assert n * (q * p) == q * (n * p);
    DivModUnique(n * (q * p), q, n * p, 0);
  }

  lemma ScaleUp(n: nat, scale: nat, len: nat)
    requires len <= scale
    ensures n * Pow(10, scale) / Pow(10, len) == n * Pow(10, scale - len)
  {
    PowAdd(10, len, scale - len);
    DivideOut(n, Pow(10, scale - len), Pow(10, len));
  }

  /** Moving the dot by cutting or zero-padding digits is multiplication by 10^scale truncated toward zero. */
  lemma CleanValue(s: string, scale: nat)
    requires Syntactic(s)
    ensures AllDigits(CleanDigits(s, scale)) && Value(CleanDigits(s, scale)) == Scaled(s, scale)
  {
    hide Value, Pow, Zeros, Dot, Unsigned;
    var whole, frac := IntPart(s), FracPart(s);
    if !HasDot(s) {
      assert whole + frac == whole;
    } else if |frac| >= scale {
      var kept, cut := whole + frac[..scale], frac[scale..];
      assert whole + frac == kept + cut;
      ValueConcat(kept, cut);
      ValueBound(cut);
      ScaleDown(Value(whole + frac), scale, |frac|, Value(kept), Value(cut));
    } else {
      var zeros := Zeros(scale - |frac|);
      assert CleanDigits(s, scale) == (whole + frac) + zeros;
      ValueConcat(whole + frac, zeros);
      ZerosValue(scale - |frac|);
      ScaleUp(Value(whole + frac), scale, |frac|);
    }
  }

  lemma TopPart(a: nat, g: nat, p: nat, q: nat)
    requires g < p
    ensures a * p + g < p * q <==> a < q
  {
    if a < q {
      MulLe(p, a + 1, q);
      assert p * (a + 1) == a * p + p;
    } else {
      MulLe(p, q, a);
    }
  }

  /** The digit count of the integral part decides whether the scaled number is below 10^precision. */
  lemma IntPartBound(s: string, precision: nat, scale: nat)
    requires Syntactic(s) && HasDot(s) && scale <= precision
    ensures Scaled(s, scale) < Pow(10, precision) <==> |StripZeros(IntPart(s))| + scale <= precision
  {
    hide Value, StripZeros, Pow, Zeros, Scaled, Dot, Unsigned;
    var whole, frac := IntPart(s), FracPart(s);
    var kept := KeptFraction(frac, scale);
    assert CleanDigits(s, scale) == whole + kept;
    CleanValue(s, scale);
    ValueConcat(whole, kept);
    ValueBound(kept);
    PowAdd(10, scale, precision - scale);
    TopPart(Value(whole), Value(kept), Pow(10, scale), Pow(10, precision - scale));
    SignificantDigits(whole, precision - scale);
  }

  /** What the normalised text parses to. */
  lemma CleanedParses(s: string, scale: nat)
    requires Syntactic(s)
    ensures WellFormed(Cleaned(s, scale), SIGNED) <==> !HasDot(s) || IntPart(s) != [] || scale > 0
    ensures WellFormed(Cleaned(s, scale), SIGNED) ==> Parsed(Cleaned(s, scale), SIGNED) == Stored(s, scale)
  {
    CleanValue(s, scale);
    var c, digits := Cleaned(s, scale), CleanDigits(s, scale);
    if Negative(s) {
      assert c[1..] == digits;
    } else {
      assert c == digits;
      assert digits != [] ==> IsDigit(digits[0]);
    }
    assert Magnitude(c, SIGNED) == digits;
  }

  /** The digits before the dot, and what is kept of those after it, are the normalised digits. */
  lemma CleanParts(value: string, whole: string, tail: string, scale: nat)
    requires whole == Unsigned(value)[..Dot(Unsigned(value))]
    requires tail == if |whole| < |Unsigned(value)| then KeptFraction(Unsigned(value)[|whole| + 1..], scale) else ""
    ensures whole + tail == CleanDigits(value, scale)
  {
    hide Dot, KeptFraction;
  }

  method Clean(value: string, scale: nat) returns (cleaned: string)
    requires value != ""
    ensures cleaned == Cleaned(value, scale)
  {
    hide Dot, KeptFraction, CleanDigits;
    var negative := value[0] == '-';
    var u := if negative then value[1..] else value;
    var whole := CopyUntilDot(u);
    var tail := "";
    if |whole| < |u| {
      tail := CleanFraction(u[|whole| + 1..], scale);
    }
    CleanParts(value, whole, tail, scale);
    cleaned := (if negative then "-" else "") + (whole + tail);
  }

  method CopyUntilDot(u: string) returns (whole: string)
    ensures whole == u[..Dot(u)]
  {
    whole := "";
    var it := 0;
    while it < |u| && u[it] != '.'
      invariant 0 <= it <= Dot(u)
      invariant whole == u[..it]
    {
      whole := whole + [u[it]];
      it := it + 1;
    }
  }

  /** The fraction cut or zero-padded to scale digits. */
  method CleanFraction(frac: string, scale: nat) returns (kept: string)
    ensures kept == KeptFraction(frac, scale)
  {
    kept := "";
    var padLen := scale - |frac|;
    var realEnd := if padLen <= 0 then scale else |frac|;
    var it := 0;
    while it < realEnd
      invariant 0 <= it <= realEnd
      invariant kept == frac[..it]
    {
      kept := kept + [frac[it]];
      it := it + 1;
    }
    if padLen > 0 {
      kept := kept + Zeros(padLen);
    }
  }

  // ----- printing and reading back -----

  lemma {:induction false} DotAfterDigits(a: string, b: string)
    requires AllDigits(a)
    ensures Dot(a + "." + b) == |a|
  {
    if a == [] {
    } else {
      assert (a + "." + b)[1..] == a[1..] + "." + b;
      DotAfterDigits(a[1..], b);
    }
  }

  lemma {:induction false} NoDot(a: string)
    requires AllDigits(a)
    ensures Dot(a) == |a|
  {
    if a != [] {
      NoDot(a[1..]);
    }
  }

  /** The parts of a sign followed by digits. */
  lemma WholeParts(sign: string, a: string)
    requires AllDigits(a) && a != [] && (sign == "" || sign == "-")
    ensures var s := sign + a; Negative(s) == (sign == "-") && !HasDot(s) && IntPart(s) == a && FracPart(s) == []
  {
    hide Dot;
    assert Unsigned(sign + a) == a by { assert ("" + a)[0] == a[0]; }
    NoDot(a);
  }

  /** The parts of a sign followed by digits, a dot and digits. */
  lemma DottedParts(sign: string, a: string, b: string)
    requires AllDigits(a) && a != [] && (sign == "" || sign == "-")
    ensures var s := sign + a + "." + b;
            Negative(s) == (sign == "-") && HasDot(s) && IntPart(s) == a && FracPart(s) == b
  {
    hide Dot;
    var s, body := sign + a + "." + b, a + "." + b;
    assert s == sign + body && body[0] == a[0];
    assert Unsigned(s) == body by { assert ("" + body)[0] == a[0]; }
    DotAfterDigits(a, b);
  }

  /** The parts of a printed value. */
  lemma FixedParts(v: int, scale: nat)
    ensures var m: nat := if v < 0 then -v else v;
            var s := Fixed(v, scale);
            && Negative(s) == (v < 0)
            && HasDot(s) == (scale > 0)
            && IntPart(s) == (if scale == 0 then Numeral(m) else Numeral(Whole(m, scale)))
            && FracPart(s) == (if scale == 0 then [] else Padded(m, scale))
  {
    hide Numeral, Padded, Whole, Pow, Negative, HasDot, IntPart, FracPart;
    var m: nat := if v < 0 then -v else v;
    var sign := if v < 0 then "-" else "";
    WholeParts(sign, Numeral(m));
    DottedParts(sign, Numeral(Whole(m, scale)), Padded(m, scale));
  }

  lemma FixedScaled(v: int, scale: nat)
    ensures Syntactic(Fixed(v, scale)) && Stored(Fixed(v, scale), scale) == v
  {
    var m: nat := if v < 0 then -v else v;
    hide Fixed, Numeral, Padded, Pow, Value, Dot, Unsigned;
    var s, p := Fixed(v, scale), Pow(10, scale);
    FixedParts(v, scale);
    if scale == 0 {
      assert IntPart(s) + FracPart(s) == Numeral(m);
      NumeralValue(m);
    } else {
      ValueConcat(IntPart(s), FracPart(s));
      NumeralValue(Whole(m, scale));
      PaddedValue(m, scale);
      DivMod(m, p);
      Commute(Whole(m, scale), p);
      assert Value(IntPart(s) + FracPart(s)) == m;
      ScaleUp(m, scale, scale);
      TimesOne(m);
    }
  }

  lemma Commute(a: nat, b: nat)
    ensures a * b == b * a
  {
  }

  lemma TimesOne(m: nat)
    ensures m * Pow(10, 0) == m
  {
  }

  lemma Int128HoldsPrecision(precision: nat)
    requires precision <= 38
    ensures Pow(10, precision) <= TWO_127
  {
    TenPowers();
    PowMonotone(10, precision, 38);
  }

  /** A stored value survives printing and appending exactly when it has at most precision digits. */
  lemma PrintedIsAcceptable(v: int, precision: nat, scale: nat)
    requires scale <= precision <= 38
    ensures Acceptable(Fixed(v, scale), precision, scale) <==> 0 - Pow(10, precision) < v < Pow(10, precision)
    ensures Syntactic(Fixed(v, scale)) && Stored(Fixed(v, scale), scale) == v
  {
    FixedScaled(v, scale);
    FixedParts(v, scale);
    Int128HoldsPrecision(precision);
  }

  /** ".5" passes the validation of every column of scale zero but is accepted by none. */
  lemma PointFiveExample(precision: nat)
    ensures Syntactic(".5") && HasDot(".5") && |StripZeros(IntPart(".5"))| <= precision
    ensures !WellFormed(Cleaned(".5", 0), SIGNED) && !Acceptable(".5", precision, 0)
  {
    DottedHalf();
    CleanedParses(".5", 0);
  }

  lemma DottedHalf()
    ensures HasDot(".5") && IntPart(".5") == "" && FracPart(".5") == "5" && Syntactic(".5")
  {
    assert Dot(".5") == 0;
  }

  /** Up to 38 digits of precision the 128-bit range is no restriction. */
  lemma AcceptableWithin38(s: string, precision: nat, scale: nat)
    requires scale <= precision <= 38
    ensures Acceptable(s, precision, scale) <==>
              && Syntactic(s)
              && (HasDot(s) ==> IntPart(s) != [] || scale > 0)
              && Scaled(s, scale) < Pow(10, precision)
  {
    Int128HoldsPrecision(precision);
  }

  // ----- the column -----

  function Low64(v: Int128): nat {
    v % TWO_64
  }

  /** The casts to a signed 32- or 64-bit integer keep only the low bits. */
  function Narrow(code: DataType, v: Int128): Int128 {
    match code
    case Int32 => var low := Low64(v) % 0x1_0000_0000; if low >= TWO_31 then low - 0x1_0000_0000 else low
    case Int64 => var low := Low64(v); if low >= TWO_63 then low - TWO_64 else low
    case Int128Code => v
  }

  function CodeFor(precision: nat): DataType {
    if precision <= 9 then Int32 else if precision <= 18 then Int64 else Int128Code
  }

  lemma NarrowFits(v: Int128)
    ensures 0 - TWO_31 <= v < TWO_31 ==> Narrow(Int32, v) == v
    ensures 0 - TWO_63 <= v < TWO_63 ==> Narrow(Int64, v) == v
  {
    if 0 - TWO_63 <= v < TWO_63 {
      assert v % TWO_64 == if v < 0 then v + TWO_64 else v;
    }
  }

  /** A value of at most precision digits is never changed by narrowing. */
  lemma NarrowExact(precision: nat, v: Int128)
    requires 0 - Pow(10, precision) < v < Pow(10, precision)
    ensures Narrow(CodeFor(precision), v) == v
  {
    NarrowFits(v);
    Pow10Table(9);
    PowAdd(10, 9, 9);
    if precision <= 9 {
      PowMonotone(10, precision, 9);
    } else if precision <= 18 {
      PowMonotone(10, precision, 18);
    }
  }

  /** Whatever the value, narrowing changes it by a multiple of the width's span, into the width's range. */
  lemma NarrowWraps(v: Int128) returns (k32: int, k64: int)
    ensures Narrow(Int32, v) == v + 0x1_0000_0000 * k32 && 0 - TWO_31 <= Narrow(Int32, v) < TWO_31
    ensures Narrow(Int64, v) == v + TWO_64 * k64 && 0 - TWO_63 <= Narrow(Int64, v) < TWO_63
    ensures Narrow(Int128Code, v) == v
  {
    var q, low := v / TWO_64, v % TWO_64;
    var q', low' := low / 0x1_0000_0000, low % 0x1_0000_0000;
    k32 := 0 - 0x1_0000_0000 * q - q' - if low' >= TWO_31 then 1 else 0;
    k64 := 0 - q - if low >= TWO_63 then 1 else 0;
  }

  /** The narrowest of the three widths that holds every value of the precision is chosen. */
  lemma CodeForTight(precision: nat)
    ensures CodeFor(precision) == Int32 <==> Pow(10, precision) <= TWO_31
    ensures CodeFor(precision) == Int64 <==> TWO_31 < Pow(10, precision) <= TWO_63
  {
    Pow10Table(9);
    PowAdd(10, 9, 9);
    assert Pow(10, 10) == 10 * Pow(10, 9) && Pow(10, 19) == 10 * Pow(10, 18);
    if precision <= 9 {
      PowMonotone(10, precision, 9);
    } else if precision <= 18 {
      PowMonotone(10, 10, precision);
      PowMonotone(10, precision, 18);
    } else {
      PowMonotone(10, 19, precision);
    }
  }

  class ColumnDecimal {
    const precision: nat
    const scale: nat
    const code: DataType := CodeFor(precision)
    var data: seq<Int128>

    constructor (precision: nat, scale: nat)
      ensures this.precision == precision && this.scale == scale && data == []
    {
      this.precision, this.scale, this.data := precision, scale, [];
    }

    method AppendInt128(value: Int128)
      modifies this
      ensures data == old(data) + [Narrow(code, value)]
    {
      data := data + [Narrow(code, value)];
    }

    /** Appends the exact scaled value of an acceptable string; any other string throws and changes nothing. */
    method AppendString(value: string) returns (ok: bool)
      modifies this
      ensures ok <==> Acceptable(value, precision, scale)
      ensures data == if ok then old(data) + [Stored(value, scale)] else old(data)
    {
      ok := ValidateDecimalString(value, precision, scale);
      if Syntactic(value) {
        if HasDot(value) {
          if scale <= precision {
            IntPartBound(value, precision, scale);
          }
        } else {
          assert IntPart(value) + FracPart(value) == IntPart(value);
          SignificantDigits(IntPart(value), precision);
        }
      }
      if !ok {
        return;
      }
      var cleaned := Clean(value, scale);
      CleanedParses(value, scale);
      var parsed := StringToInt128(cleaned);
      ok := parsed.Some?;
      if ok {
        NarrowExact(precision, parsed.value);
        AppendInt128(parsed.value);
      }
    }

    method At(i: nat) returns (r: Option<Int128>)
      ensures r == if i < |data| then Some(data[i]) else None
    {
      if i < |data| {
        return Some(data[i]);
      }
      return None;
    }

    /** The text of row i, with exactly scale fraction digits. */
    method StringAt(i: nat) returns (r: Option<string>)
      ensures r == if i < |data| then Some(Fixed(data[i], scale)) else None
    {
      var val := At(i);
      if val.None? {
        return None;
      }
      var raw := Int128ToString(val.value);
      var ret := PlaceDot(raw, val.value, scale);
      return Some(ret);
    }

    /** Printing a row and appending the text again stores the same value. */
    method ReAppend(i: nat) returns (ok: bool)
      requires i < |data| && scale <= precision <= 38
      modifies this
      ensures ok <==> 0 - Pow(10, precision) < old(data)[i] < Pow(10, precision)
      ensures data == if ok then old(data) + [old(data)[i]] else old(data)
    {
      var text := StringAt(i);
      PrintedIsAcceptable(data[i], precision, scale);
      ok := AppendString(text.value);
    }
  }

  /** Puts the dot scale digits from the right of a printed integer, padding with zeros as needed. */
  method PlaceDot(raw: string, ghost v: int, scale: nat) returns (ret: string)
    requires raw == Printed(v)
    ensures ret == Fixed(v, scale)
  {
    ghost var m: nat := if v < 0 then -v else v;
    if scale == 0 {
      assert "" + Numeral(m) == Numeral(m);
      return raw;
    }
    ret := "";
    var it := 0;
    if raw[0] == '-' {
      ret := ret + [raw[0]];
      it := 1;
    }
    assert raw[it..] == Numeral(m) && ret == (if v < 0 then "-" else "") by {
      assert IsDigit(Numeral(m)[0]);
    }
    var tail := DotDigits(raw[it..], m, scale);
    ghost var sign, a, b := ret, Numeral(Whole(m, scale)), Padded(m, scale);
    assert sign + (a + "." + b) == sign + a + "." + b;
    ret := ret + tail;
  }

  method DotDigits(digits: string, ghost m: nat, scale: nat) returns (ret: string)
    requires digits == Numeral(m) && scale > 0
    ensures ret == Numeral(Whole(m, scale)) + "." + Padded(m, scale)
  {
    var integralLen := |digits| - scale;
    PlaceDotSplit(m, scale);
    if integralLen > 0 {
      ret := digits[..integralLen] + ['.'];
      ret := ret + digits[integralLen..];
    } else {
      ret := "0.";
      assert Numeral(0) + "." == ret;
      ret := ret + Zeros(-integralLen);
      ret := ret + digits;
    }
  }

  lemma PlaceDotSplit(m: nat, scale: nat)
    requires scale > 0
    ensures var len := |Numeral(m)| - scale;
            if len > 0 then
              Numeral(Whole(m, scale)) == Numeral(m)[..len] && Padded(m, scale) == Numeral(m)[len..]
            else
              Whole(m, scale) == 0 && Padded(m, scale) == Zeros(-len) + Numeral(m)
  {
    var p, len := Pow(10, scale), |Numeral(m)| - scale;
    if len > 0 {
      assert m >= p by {
        if m < p { NumeralLength(m, scale); }
      }
      NumeralSplit(m, scale);
    } else {
      NumeralValue(m);
      ValueBound(Numeral(m));
      PowMonotone(10, |Numeral(m)|, scale);
      DivModUnique(m, p, 0, m);
      PaddedNumeral(m, scale);
    }
  }
}
