/**
  Wide integers as little-endian arrays of 32-bit limbs, changed in place, and their conversion
  from and to decimal strings (clickhouse/base/bignum_string.h).
 */
module BignumString {
  import opened Arith
  import opened DecimalText
  import opened Optional

  const BASE: nat := 0x1_0000_0000
  const CHUNK: nat := 1_000_000_000

  type Limb = x: nat | x < BASE

  datatype SignMode = UNSIGNED | SIGNED
  datatype StatusCode = OK | TOO_LARGE | BAD_ARGUMENT | BAD_STRING

  // ----- what a limb array denotes -----

  ghost function Limbs(s: seq<Limb>): nat {
    if s == [] then 0 else s[0] + BASE * Limbs(s[1..])
  }

  /** The number of values n limbs can hold. */
  ghost function Span(n: nat): (p: nat)
    ensures p > 0
  {
    Pow(BASE, n)
  }

  /** The value of a limb array, in two's complement when signed. */
  ghost function Decoded(s: seq<Limb>, mode: SignMode): int {
    if mode.SIGNED? && 2 * Limbs(s) >= Span(|s|) then Limbs(s) - Span(|s|) else Limbs(s)
  }

  ghost predicate InRange(v: int, mode: SignMode, n: nat) {
    if mode.SIGNED? then 0 - Span(n) <= 2 * v < Span(n) else 0 <= v < Span(n)
  }

  // ----- what a string denotes -----

  predicate HasMinus(s: string, mode: SignMode) {
    mode.SIGNED? && |s| > 0 && s[0] == '-'
  }

  function Magnitude(s: string, mode: SignMode): string {
    if HasMinus(s, mode) then s[1..] else s
  }

  /** An optional '-' (signed mode only) and then one or more decimal digits. */
  predicate WellFormed(s: string, mode: SignMode) {
    Magnitude(s, mode) != [] && AllDigits(Magnitude(s, mode))
  }

  function Parsed(s: string, mode: SignMode): int
    requires WellFormed(s, mode)
  {
    if HasMinus(s, mode) then 0 - Value(Magnitude(s, mode)) else Value(s)
  }

  function Printed(v: int): string {
    if v < 0 then "-" + Numeral(-v) else Numeral(v)
  }

  /** Leading zeros dropped, "-0" turned into "0". */
  function Canonical(s: string, mode: SignMode): string
    requires WellFormed(s, mode)
  {
    var digits := StripZeros(Magnitude(s, mode));
    if digits == [] then "0" else if HasMinus(s, mode) then "-" + digits else digits
  }

  // ----- limb lemmas -----

  lemma {:induction false} LimbsAppend(s: seq<Limb>, x: Limb)
    ensures Limbs(s + [x]) == Limbs(s) + x * Span(|s|)
  {
    if s == [] {
      assert (s + [x])[1..] == [];
    } else {
      assert (s + [x])[1..] == s[1..] + [x];
      LimbsAppend(s[1..], x);
      assert BASE * (x * Span(|s| - 1)) == x * Span(|s|);
    }
  }

  lemma {:induction false} LimbsBound(s: seq<Limb>)
    ensures Limbs(s) < Span(|s|)
  {
    if s != [] {
      LimbsBound(s[1..]);
      MulLe(BASE, Limbs(s[1..]) + 1, Span(|s| - 1));
    }
  }

  lemma {:induction false} LimbsInjective(s: seq<Limb>, t: seq<Limb>)
    requires |s| == |t| && Limbs(s) == Limbs(t)
    ensures s == t
  {
    if s != [] {
      SameQuotient(BASE, Limbs(s[1..]), s[0], Limbs(t[1..]), t[0]);
      LimbsInjective(s[1..], t[1..]);
      assert s == [s[0]] + s[1..] && t == [t[0]] + t[1..];
    }
  }

  lemma {:induction false} LimbsZero(s: seq<Limb>)
    ensures Limbs(s) == 0 <==> forall i :: 0 <= i < |s| ==> s[i] == 0
  {
    if s != [] {
      LimbsZero(s[1..]);
      assert forall i :: 0 < i < |s| ==> s[i] == s[1..][i - 1];
      assert forall i :: 0 <= i < |s| - 1 ==> s[1..][i] == s[i + 1];
    }
  }

  /** The top limb against the top bit: the upper half of the range. */
  lemma TopLimb(s: seq<Limb>)
    requires s != []
    ensures var low, top := s[..|s| - 1], s[|s| - 1];
            && Limbs(s) == Limbs(low) + top * Span(|s| - 1)
            && Limbs(low) < Span(|s| - 1)
            && Span(|s|) == BASE * Span(|s| - 1)
            && (top >= 0x8000_0000 <==> 2 * Limbs(s) >= Span(|s|))
  {
    var low, top, p := s[..|s| - 1], s[|s| - 1], Span(|s| - 1);
    assert s == low + [top];
    LimbsAppend(low, top);
    LimbsBound(low);
    UpperHalf(top, Limbs(low), p);
  }

  lemma UpperHalf(top: Limb, low: nat, p: nat)
    requires low < p
    ensures top >= 0x8000_0000 <==> 2 * (low + top * p) >= BASE * p
  {
    if top >= 0x8000_0000 {
      MulLe(p, 0x8000_0000, top);
    } else {
      MulLe(p, top + 1, 0x8000_0000);
      assert p * (top + 1) == top * p + p;
    }
  }

  lemma DecodedInRange(s: seq<Limb>, mode: SignMode)
    ensures InRange(Decoded(s, mode), mode, |s|)
  {
    LimbsBound(s);
  }

  lemma DecodedInjective(s: seq<Limb>, t: seq<Limb>, mode: SignMode)
    requires |s| == |t| && Decoded(s, mode) == Decoded(t, mode)
    ensures s == t
  {
    LimbsBound(s);
    LimbsBound(t);
    LimbsInjective(s, t);
  }

  // ----- the in-place primitives, for any number of limbs -----

  function LimbArrStrLen(size: nat): nat {
    if size == 4 then 41 else if size == 8 then 79 else if size == 16 then 156 else 0
  }

  method LimbArrIsZero(limbs: array<Limb>) returns (zero: bool)
    ensures zero <==> Limbs(limbs[..]) == 0
  {
    var any := false;
    for i := 0 to limbs.Length
      invariant !any <==> forall k :: 0 <= k < i ==> limbs[k] == 0
    {
      any := any || limbs[i] != 0;
    }
    LimbsZero(limbs[..]);
    return !any;
  }

  method LimbArrNegateInPlace(limbs: array<Limb>)
    modifies limbs
    ensures Limbs(limbs[..]) == if old(Limbs(limbs[..])) == 0 then 0 else Span(limbs.Length) - old(Limbs(limbs[..]))
  {
    ghost var was := limbs[..];
    var carry: Limb := 1;
    var i := 0;
    assert limbs[..0] == [] && was[..0] == [] && Limbs([]) == 0;
    hide Limbs, Span;
    while i < limbs.Length
      invariant 0 <= i <= limbs.Length && carry <= 1
      invariant limbs[i..] == was[i..]
      invariant Limbs(limbs[..i]) + Limbs(was[..i]) == (1 - carry) * Span(i)
    {
      ghost var done, c := limbs[..i], carry;
      var inverted := BASE - 1 - limbs[i];
      assert limbs[i] == was[i];
      limbs[i] := (inverted + carry) % BASE;
      carry := if limbs[i] < carry then 1 else 0;
      assert limbs[..i + 1] == done + [limbs[i]] && was[..i + 1] == was[..i] + [was[i]];
      NegateNext(done, was[..i], limbs[i], was[i], c, carry);
      i := i + 1;
    }
    assert limbs[..i] == limbs[..] && was[..i] == was;
    LimbsBound(was);
    LimbsBound(limbs[..]);
  }

  /** One more limb: the limbs done and those they came from add up to the span, less a carry. */
  lemma NegateNext(done: seq<Limb>, was: seq<Limb>, y: Limb, x: Limb, c: nat, c': nat)
    requires |done| == |was| && c <= 1 && c' <= 1 && Limbs(done) + Limbs(was) == (1 - c) * Span(|done|)
    requires y == (BASE - 1 - x + c) % BASE && c' == (if y < c then 1 else 0)
    ensures Limbs(done + [y]) + Limbs(was + [x]) == (1 - c') * Span(|done| + 1)
  {
    hide Limbs;
    LimbsAppend(done, y);
    LimbsAppend(was, x);
    NegateStep(Span(|done|), y, x, c, c');
  }

  lemma NegateStep(p: nat, y: Limb, x: Limb, c: nat, c': nat)
    requires c <= 1 && c' <= 1
    requires y == (BASE - 1 - x + c) % BASE && c' == (if y < c then 1 else 0)
    ensures (1 - c) * p + y * p + x * p == (1 - c') * (BASE * p)
  {
    assert y + x == BASE * (1 - c') - (1 - c);
    assert (y + x) * p == (BASE * (1 - c') - (1 - c)) * p;
  }

  /** One step of long division; the quotient digit fits a limb, so the cast back to 32 bits loses nothing. */
  function DivDigit(r: Limb, x: Limb, d: Limb): (qr: (Limb, Limb))
    requires r < d
    ensures r * BASE + x == d * qr.0 + qr.1 && qr.1 < d
  {
    var acc := r * BASE + x;
    DivMod(acc, d);
    DivLess(acc, d, BASE);
    (acc / d, acc % d)
  }

  method LimbArrDivModInPlace(limbs: array<Limb>, divisor: Limb) returns (remainder: Limb)
    requires divisor > 0
    modifies limbs
    ensures remainder < divisor
    ensures old(Limbs(limbs[..])) == divisor * Limbs(limbs[..]) + remainder
  {
    ghost var was := limbs[..];
    remainder := 0;
    var i := limbs.Length;
    assert divisor * 0 == 0;
    while i > 0
      invariant 0 <= i <= limbs.Length && remainder < divisor
      invariant limbs[..i] == was[..i]
      invariant Limbs(was[i..]) == divisor * Limbs(limbs[i..]) + remainder
    {
      ghost var done, r := limbs[i..], remainder;
      i := i - 1;
      assert limbs[i] == limbs[..i + 1][i] == was[i];
      var (q, rem) := DivDigit(remainder, limbs[i], divisor);
      limbs[i], remainder := q, rem;
      assert limbs[i..] == [q] + done && was[i..] == [was[i]] + was[i + 1..];
      DivStep(divisor, Limbs(done), r, was[i], q, rem);
      assert limbs[..i] == was[..i] by { assert was[..i] == was[..i + 1][..i]; }
    }
    assert limbs[0..] == limbs[..] && was[0..] == was;
  }

  lemma DivStep(d: nat, done: nat, r: nat, x: nat, q: nat, r': nat)
    requires r * BASE + x == d * q + r'
    ensures x + BASE * (d * done + r) == d * (q + BASE * done) + r'
  {
    assert d * (BASE * done) == BASE * (d * done);
    assert d * (q + BASE * done) == d * q + d * (BASE * done);
  }

  /** One step of multiplication by a limb; the 64-bit accumulator cannot overflow and its carry fits a limb. */
  function MulDigit(x: Limb, mul: Limb, carry: Limb): (yc: (Limb, Limb))
    ensures x * mul + carry == yc.1 * BASE + yc.0
  {
    AccumulatorFits(x, mul, carry);
    var acc := x * mul + carry;
    (acc % BASE, acc / BASE)
  }

  lemma AccumulatorFits(x: Limb, mul: Limb, carry: Limb)
    ensures (x * mul + carry) / BASE < BASE
  {
    MulLe(x, mul, BASE - 1);
    DivLess(x * mul + carry, BASE, BASE);
  }

  method LimbArrMulAddInPlace(limbs: array<Limb>, mul: Limb, add: Limb) returns (carry: Limb)
    modifies limbs
    ensures Limbs(limbs[..]) + carry * Span(limbs.Length) == old(Limbs(limbs[..])) * mul + add
  {
    ghost var was := limbs[..];
    carry := add;
    var i := 0;
    while i < limbs.Length
      invariant 0 <= i <= limbs.Length
      invariant limbs[i..] == was[i..]
      invariant Limbs(limbs[..i]) + carry * Span(i) == Limbs(was[..i]) * mul + add
    {
      ghost var done, c := limbs[..i], carry;
      assert limbs[i] == was[i];
      var (y, next) := MulDigit(limbs[i], mul, carry);
      limbs[i], carry := y, next;
      assert limbs[..i + 1] == done + [y] && was[..i + 1] == was[..i] + [was[i]];
      LimbsAppend(done, y);
      LimbsAppend(was[..i], was[i]);
      MulAddStep(Span(i), Limbs(done), Limbs(was[..i]), was[i], mul, add, c, y, next);
      i := i + 1;
    }
    assert limbs[..i] == limbs[..] && was[..i] == was;
  }

  lemma MulAddStep(p: nat, done: nat, w: nat, x: nat, mul: nat, add: nat, c: nat, y: nat, c': nat)
    requires done + c * p == w * mul + add
    requires x * mul + c == c' * BASE + y
    ensures done + y * p + c' * (BASE * p) == (w + x * p) * mul + add
  {
    calc {
      done + y * p + c' * (BASE * p);
      done + (y + c' * BASE) * p;
      done + (x * mul + c) * p;
      done + c * p + x * mul * p;
      w * mul + add + (x * p) * mul;
      (w + x * p) * mul + add;
    }
  }

  method LimbArrIsSignedMin(limbs: array<Limb>) returns (min: bool)
    ensures min <==> limbs.Length > 0 && 2 * Limbs(limbs[..]) == Span(limbs.Length)
  {
    if limbs.Length == 0 {
      return false;
    }
    var n := limbs.Length - 1;
    TopLimb(limbs[..]);
    LimbsZero(limbs[..n]);
    assert limbs[..][..n] == limbs[..n];
    if limbs[n] != 0x8000_0000 {
      NotHalf(limbs[n], Limbs(limbs[..n]), Span(n));
      return false;
    }
    var any := false;
    for i := 0 to n
      invariant !any <==> forall k :: 0 <= k < i ==> limbs[k] == 0
    {
      any := any || limbs[i] != 0;
    }
    return !any;
  }

  lemma NotHalf(top: Limb, low: nat, p: nat)
    requires top != 0x8000_0000 && low < p
    ensures 2 * (low + top * p) != BASE * p
  {
    if top < 0x8000_0000 {
      MulLe(p, top + 1, 0x8000_0000);
      assert p * (top + 1) == top * p + p;
    } else {
      MulLe(p, 0x8000_0001, top);
      assert p * 0x8000_0001 == 0x8000_0000 * p + p;
    }
  }

  // ----- parsing -----

  const POW_10: seq<nat> := [1, 10, 100, 1_000, 10_000, 100_000, 1_000_000, 10_000_000, 100_000_000, 1_000_000_000]

  lemma Pow10Table(k: nat)
    requires k <= 9
    ensures Pow(10, k) == POW_10[k]
  {
    if k > 0 {
      Pow10Table(k - 1);
    }
  }

  /** The digits s[i..i + k] as a 32-bit number; nine digits always fit. */
  method ReadChunk(s: string, i: nat, k: nat) returns (chunk: Limb)
    requires AllDigits(s) && k <= 9 && i + k <= |s|
    ensures chunk == Value(s[i..i + k])
  {
    chunk := 0;
    Pow10Table(9);
    for j := 0 to k
      invariant chunk == Value(s[i..i + j])
    {
      assert s[i..i + j + 1][..j] == s[i..i + j];
      ValueBound(s[i..i + j + 1]);
      PowMonotone(10, j + 1, 9);
      chunk := chunk * 10 + DigitOf(s[i + j]);
    }
  }

  lemma CarryOut(low: nat, carry: nat, span: nat, total: nat)
    requires low + carry * span == total
    ensures if carry == 0 then total == low else total >= span
  {
    if carry != 0 {
      MulLe(span, 1, carry);
    }
  }

  /** Consuming one more chunk: either the limbs hold the longer prefix, or the whole number is too large. */
  method AppendChunk(limbs: array<Limb>, s: string, i: nat, k: nat) returns (overflow: bool)
    requires AllDigits(s) && 0 < k <= 9 && i + k <= |s|
    requires Limbs(limbs[..]) == Value(s[..i])
    modifies limbs
    ensures !overflow ==> Limbs(limbs[..]) == Value(s[..i + k])
    ensures overflow ==> Value(s) >= Span(limbs.Length)
  {
    hide Limbs, Value, Pow;
    var chunk := ReadChunk(s, i, k);
    Pow10Table(k);
    assert POW_10[k] < BASE;
    assert s[..i + k] == s[..i] + s[i..i + k];
    ValueConcat(s[..i], s[i..i + k]);
    var mul := POW_10[k];
    var carry := LimbArrMulAddInPlace(limbs, mul, chunk);
    ValuePrefix(s, i + k);
    CarryOut(Limbs(limbs[..]), carry, Span(limbs.Length), Value(s[..i + k]));
    return carry != 0;
  }

  method ZeroFill(limbs: array<Limb>)
    modifies limbs
    ensures Limbs(limbs[..]) == 0
  {
    for i := 0 to limbs.Length
      invariant forall k :: 0 <= k < i ==> limbs[k] == 0
    {
      limbs[i] := 0;
    }
    LimbsZero(limbs[..]);
  }

  /** Zeroes the limbs and feeds them the digits chunk by chunk, stopping at the first carry out of the top limb. */
  method ParseDigits(s: string, limbs: array<Limb>) returns (overflow: bool)
    requires AllDigits(s)
    modifies limbs
    ensures overflow <==> Value(s) >= Span(limbs.Length)
    ensures !overflow ==> Limbs(limbs[..]) == Value(s)
  {
    ZeroFill(limbs);
    var i, first := 0, |s| % 9;
    overflow := false;
    if first != 0 {
      overflow := AppendChunk(limbs, s, 0, first);
      if overflow {
        return;
      }
      i := first;
    }
    while i < |s|
      invariant 0 <= i <= |s| && (|s| - i) % 9 == 0 && !overflow
      invariant Limbs(limbs[..]) == Value(s[..i])
    {
      overflow := AppendChunk(limbs, s, i, 9);
      if overflow {
        return;
      }
      i := i + 9;
    }
    assert s[..i] == s;
    LimbsBound(limbs[..]);
  }

  method ValidChars(s: string) returns (valid: bool)
    ensures valid <==> AllDigits(s)
  {
    valid := true;
    for i := 0 to |s|
      invariant valid <==> forall k :: 0 <= k < i ==> IsDigit(s[k])
    {
      valid := valid && IsDigit(s[i]);
    }
  }

  method StrToLimbArr(str: Option<string>, mode: SignMode, limbs: array?<Limb>) returns (status: StatusCode)
    modifies limbs
    ensures status == BAD_ARGUMENT <==> str.None? || limbs == null || LimbArrStrLen(limbs.Length) == 0
    ensures status != BAD_ARGUMENT ==>
              && (status == BAD_STRING <==> !WellFormed(str.value, mode))
              && (status == TOO_LARGE <==>
                  WellFormed(str.value, mode) && !InRange(Parsed(str.value, mode), mode, limbs.Length))
              && (status == OK ==> Decoded(limbs[..], mode) == Parsed(str.value, mode))
    ensures limbs != null && (status == BAD_ARGUMENT || status == BAD_STRING) ==> limbs[..] == old(limbs[..])
  {
    if str.None? || limbs == null {
      return BAD_ARGUMENT;
    }
    if LimbArrStrLen(limbs.Length) == 0 {
      return BAD_ARGUMENT;
    }
    var negative := HasMinus(str.value, mode);
    var s := if negative then str.value[1..] else str.value;
    if |s| == 0 {
      return BAD_STRING;
    }
    var valid := ValidChars(s);
    if !valid {
      return BAD_STRING;
    }
    var overflow := ParseDigits(s, limbs);
    if overflow {
      return TOO_LARGE;
    }
    TopLimb(limbs[..]);
    var top := limbs[limbs.Length - 1] >= 0x8000_0000;
    if mode.SIGNED? && !negative && top {
      return TOO_LARGE;
    }
    var min := LimbArrIsSignedMin(limbs);
    if negative && top && !min {
      return TOO_LARGE;
    }
    if negative {
      LimbArrNegateInPlace(limbs);
    }
    return OK;
  }

  // ----- printing -----

  lemma TenPowers()
    ensures Pow(10, 39) == 1_000_000_000_000_000_000_000_000_000_000_000_000_000
    ensures Pow(10, 40) == 10 * Pow(10, 39)
    ensures Pow(10, 77) == Pow(10, 39) * 100_000_000_000_000_000_000_000_000_000_000_000_000
    ensures Pow(10, 78) == 10 * Pow(10, 77)
    ensures Pow(10, 154) == Pow(10, 77) * Pow(10, 77)
    ensures Pow(10, 155) == 10 * Pow(10, 154)
  {
    Pow10Table(9);
    PowAdd(10, 9, 9);
    PowAdd(10, 18, 18);
    Pow10Table(3);
    Pow10Table(2);
    PowAdd(10, 36, 2);
    PowAdd(10, 36, 3);
    PowAdd(10, 39, 38);
    PowAdd(10, 77, 77);
  }

  lemma Spans()
    ensures Span(4) == 340282366920938463463374607431768211456
    ensures Span(8) == Span(4) * Span(4)
    ensures Span(16) == Span(8) * Span(8)
  {
    assert Span(1) == BASE * Span(0);
    PowAdd(BASE, 1, 1);
    PowAdd(BASE, 2, 2);
    PowAdd(BASE, 4, 4);
    PowAdd(BASE, 8, 8);
  }

  /** How many decimal digits a supported width needs. */
  lemma SpanDigits(n: nat)
    requires LimbArrStrLen(n) != 0
    ensures Span(n) <= Pow(10, LimbArrStrLen(n) - 1)
    ensures Span(n) < 2 * Pow(10, LimbArrStrLen(n) - 2)
  {
    hide Pow, Span;
    TenPowers();
    Spans();
  }

  /** The sign, digits and NUL always fit the sizes 41, 79 and 156. */
  lemma PrintedFits(v: nat, n: nat)
    requires LimbArrStrLen(n) != 0
    ensures v < Span(n) ==> |Numeral(v)| + 1 <= LimbArrStrLen(n)
    ensures 2 * v <= Span(n) ==> |Numeral(v)| + 2 <= LimbArrStrLen(n)
  {
    SpanDigits(n);
    if v < Span(n) {
      NumeralLength(v, LimbArrStrLen(n) - 1);
    }
    if 2 * v <= Span(n) {
      NumeralLength(v, LimbArrStrLen(n) - 2);
    }
  }

  /** The sizes are the least: the most negative number of each width needs all of its characters. */
  lemma SizesTight(n: nat)
    requires LimbArrStrLen(n) != 0
    ensures n in {4, 8, 16} && InRange(0 - Span(n) / 2, SIGNED, n)
    ensures |Printed(0 - Span(n) / 2)| + 1 == LimbArrStrLen(n)
  {
    hide Pow, Span, Numeral;
    var k, v := LimbArrStrLen(n) - 2, Span(n) / 2;
    HalfSpan(n);
    PrintedFits(v, n);
    if |Numeral(v)| < k {
      NumeralValue(v);
      ValueBound(Numeral(v));
      PowMonotone(10, |Numeral(v)|, k - 1);
    }
  }

  lemma HalfSpan(n: nat)
    requires LimbArrStrLen(n) != 0
    ensures Span(n) % 2 == 0 && Span(n) / 2 >= Pow(10, LimbArrStrLen(n) - 3)
  {
    hide Pow, Span;
    TenPowers();
    Spans();
    TenBelow(39);
    TenBelow(77);
    TenBelow(154);
  }

  lemma TenBelow(k: nat)
    requires k > 0
    ensures Pow(10, k) == 10 * Pow(10, k - 1)
  {
  }

  /** The buffer ends in text, which starts at position it, and is otherwise as it was. */
  ghost predicate Shows(now: string, it: nat, text: string, was: string) {
    it <= |now| == |was| && now[..it] == was[..it] && now[it..] == text
  }

  lemma ShowsNothing(was: string)
    ensures Shows(was, |was|, [], was)
  {
  }

  /** Moving the cursor back by one and storing a character puts it in front of the text. */
  lemma ShowsStep(now: string, it: nat, text: string, was: string, c: char)
    requires it > 0 && Shows(now, it, text, was)
    ensures Shows(now[it - 1 := c], it - 1, [c] + text, was)
  {
    assert now[it - 1 := c][..it - 1] == now[..it][..it - 1] == was[..it][..it - 1];
  }

  /** Stores one character in front of the text. */
  method Put(buf: array<char>, it: nat, c: char, ghost text: string, ghost was: string)
    requires it > 0 && Shows(buf[..], it, text, was)
    modifies buf
    ensures Shows(buf[..], it - 1, [c] + text, was)
  {
    ShowsStep(buf[..], it, text, was, c);
    ghost var before := buf[..];
    buf[it - 1] := c;
    assert buf[..] == before[it - 1 := c];
  }

  /** Writes nine digits backwards from position from. */
  method EmitPadded(buf: array<char>, from: nat, number: Limb, ghost text: string, ghost was: string)
    requires from >= 9 && Shows(buf[..], from, text, was)
    modifies buf
    ensures Shows(buf[..], from - 9, Padded(number, 9) + text, was)
  {
    hide Shows;
    var chunk := number;
    ghost var written := [];
    assert [] + text == text;
    for i := 0 to 9
      invariant |written| == i && Padded(number, 9) == Padded(chunk, 9 - i) + written
      invariant Shows(buf[..], from - i, written + text, was)
    {
      var c := CharOf(chunk % 10);
      Put(buf, from - i, c, written + text, was);
      assert [c] + (written + text) == ([c] + written) + text;
      written := [c] + written;
      chunk := chunk / 10;
    }
    assert Padded(chunk, 0) + written == written;
  }

  /** Writes the digits of a positive number without leading zeros. */
  method EmitLeading(buf: array<char>, from: nat, number: Limb, ghost text: string, ghost was: string) returns (it: nat)
    requires number > 0 && |Numeral(number)| <= from && Shows(buf[..], from, text, was)
    modifies buf
    ensures it == from - |Numeral(number)| && Shows(buf[..], it, Numeral(number) + text, was)
  {
    hide Shows;
    var chunk := number;
    ghost var written := [];
    it := from;
    assert [] + text == text;
    while chunk != 0
      invariant it == from - |written|
      invariant Numeral(number) == (if chunk == 0 then [] else Numeral(chunk)) + written
      invariant Shows(buf[..], it, written + text, was)
    {
      var c := CharOf(chunk % 10);
      Put(buf, it, c, written + text, was);
      it := it - 1;
      assert [c] + (written + text) == ([c] + written) + text;
      written := [c] + written;
      chunk := chunk / 10;
    }
    assert [] + written == written;
  }

  lemma ChunkSplit(total: nat, quotient: nat, chunk: Limb)
    requires total == CHUNK * quotient + chunk && chunk < CHUNK && quotient > 0
    ensures Numeral(total) == Numeral(quotient) + Padded(chunk, 9)
  {
    Pow10Table(9);
    DivModUnique(total, CHUNK, quotient, chunk);
    NumeralSplit(total, 9);
    PaddedMod(total, 9);
  }

  /** Prints the non-zero number in copy, right-aligned against from, consuming copy. */
  method EmitNumber(copy: array<Limb>, buf: array<char>, from: nat, ghost text: string, ghost was: string)
    returns (it: nat)
    requires Limbs(copy[..]) > 0 && |Numeral(Limbs(copy[..]))| <= from && Shows(buf[..], from, text, was)
    modifies copy, buf
    ensures it == from - |Numeral(old(Limbs(copy[..])))|
    ensures Shows(buf[..], it, Numeral(old(Limbs(copy[..]))) + text, was)
  {
    hide Shows, Limbs, Numeral, Padded;
    ghost var total := Limbs(copy[..]);
    ghost var written := [];
    it := from;
    var chunk: Limb := LimbArrDivModInPlace(copy, CHUNK);
    var zero := LimbArrIsZero(copy);
    assert [] + text == text && Numeral(total) + [] == Numeral(total);
    while !zero
      invariant it == from - |written| && chunk < CHUNK
      invariant zero <==> Limbs(copy[..]) == 0
      invariant CHUNK * Limbs(copy[..]) + chunk > 0
      invariant Numeral(total) == Numeral(CHUNK * Limbs(copy[..]) + chunk) + written
      invariant Shows(buf[..], it, written + text, was)
      decreases Limbs(copy[..])
    {
      ChunkSplit(CHUNK * Limbs(copy[..]) + chunk, Limbs(copy[..]), chunk);
      assert Padded(chunk, 9) + (written + text) == Padded(chunk, 9) + written + text;
      written := Padded(chunk, 9) + written;
      assert Numeral(total) == Numeral(Limbs(copy[..])) + written;
      EmitPadded(buf, it, chunk, written[9..] + text, was);
      it := it - 9;
      chunk := LimbArrDivModInPlace(copy, CHUNK);
      zero := LimbArrIsZero(copy);
    }
    it := EmitLeading(buf, it, chunk, written + text, was);
    assert Numeral(chunk) + (written + text) == Numeral(total) + text;
  }

  /** The magnitude of a non-zero number in a fresh array, leaving the input alone. */
  method AbsoluteCopy(limbs: array<Limb>, mode: SignMode) returns (copy: array<Limb>, negative: bool)
    requires LimbArrStrLen(limbs.Length) != 0 && Limbs(limbs[..]) > 0
    ensures fresh(copy)
    ensures negative <==> Decoded(limbs[..], mode) < 0
    ensures Limbs(copy[..]) == if negative then -Decoded(limbs[..], mode) else Decoded(limbs[..], mode)
    ensures Limbs(copy[..]) > 0
    ensures |Numeral(Limbs(copy[..]))| + (if negative then 2 else 1) <= LimbArrStrLen(limbs.Length)
  {
    var n := limbs.Length;
    copy := new Limb[n];
    for i := 0 to n
      invariant copy[..i] == limbs[..i]
    {
      copy[i] := limbs[i];
    }
    assert copy[..] == limbs[..];
    TopLimb(limbs[..]);
    LimbsBound(limbs[..]);
    negative := mode.SIGNED? && copy[n - 1] >= 0x8000_0000;
    if negative {
      LimbArrNegateInPlace(copy);
    }
    PrintedFits(Limbs(copy[..]), n);
  }

  /** Formats into a buffer that is large enough. */
  method Format(limbs: array<Limb>, mode: SignMode, buf: array<char>) returns (it: nat)
    requires LimbArrStrLen(limbs.Length) != 0 && buf.Length >= LimbArrStrLen(limbs.Length)
    modifies buf
    ensures Shows(buf[..], it, Printed(Decoded(limbs[..], mode)) + ['\0'], old(buf[..]))
  {
    hide Limbs, Padded, Shows, Span;
    assert Numeral(0) == "0";
    hide Numeral;
    assert Shows(buf[..], buf.Length, [], buf[..]) by { ShowsNothing(buf[..]); }
    ghost var was := buf[..];
    it := buf.Length;
    Put(buf, it, '\0', [], was);
    it := it - 1;
    assert ['\0'] + [] == ['\0'];
    var zero := LimbArrIsZero(limbs);
    if zero {
      Put(buf, it, '0', ['\0'], was);
      it := it - 1;
    } else {
      var magnitude, negative := AbsoluteCopy(limbs, mode);
      ghost var digits := Numeral(Limbs(magnitude[..]));
      it := EmitNumber(magnitude, buf, it, ['\0'], was);
      if negative {
        Put(buf, it, '-', digits + ['\0'], was);
        it := it - 1;
        assert ['-'] + (digits + ['\0']) == ("-" + digits) + ['\0'];
      }
    }
  }

  method LimbArrToStr(limbs: array?<Limb>, mode: SignMode, buf: array?<char>) returns (start: Option<nat>)
    modifies buf
    ensures start.None? <==>
              || buf == null || limbs == null
              || LimbArrStrLen(limbs.Length) == 0 || buf.Length < LimbArrStrLen(limbs.Length)
    ensures start.Some? ==>
              && start.value < buf.Length
              && buf[start.value..buf.Length - 1] == Printed(Decoded(limbs[..], mode))
              && buf[buf.Length - 1] == '\0'
              && buf[..start.value] == old(buf[..start.value])
  {
    if buf == null || limbs == null {
      return None;
    }
    if LimbArrStrLen(limbs.Length) == 0 || buf.Length < LimbArrStrLen(limbs.Length) {
      return None;
    }
    ghost var was := buf[..];
    var it := Format(limbs, mode, buf);
    ShowsText(buf[..], it, Printed(Decoded(limbs[..], mode)), was);
    assert buf[..][it..buf.Length - 1] == buf[it..buf.Length - 1] && buf[..][..it] == buf[..it];
    return Some(it);
  }

  lemma ShowsText(now: string, it: nat, text: string, was: string)
    requires Shows(now, it, text + ['\0'], was)
    ensures it < |now| && now[it..|now| - 1] == text && now[|now| - 1] == '\0' && now[..it] == was[..it]
  {
    assert |now| == it + |now[it..]|;
    assert now[it..|now| - 1] == now[it..][..|text|];
  }

  // ----- round trips -----

  /** Every printed number parses back to itself, in every width that holds it. */
  lemma ParseOfPrint(v: int, mode: SignMode, n: nat)
    requires InRange(v, mode, n)
    ensures WellFormed(Printed(v), mode) && Parsed(Printed(v), mode) == v
  {
    if v < 0 {
      NumeralValue(-v);
      assert Printed(v)[1..] == Numeral(-v);
    } else {
      NumeralValue(v);
      assert Numeral(v)[0] != '-';
    }
  }

  /** Printing what a well-formed string denotes gives the string's canonical form. */
  lemma PrintOfParse(s: string, mode: SignMode)
    requires WellFormed(s, mode)
    ensures Printed(Parsed(s, mode)) == Canonical(s, mode)
  {
    var digits := Magnitude(s, mode);
    StripZerosValue(digits);
    if StripZeros(digits) != [] {
      LeadingDigitPositive(StripZeros(digits));
      NumeralUnique(StripZeros(digits));
    }
  }

  /** Printing any supported limb array and parsing the text restores the array limb for limb. */
  method PrintThenParse(limbs: array<Limb>, mode: SignMode) returns (back: array<Limb>, text: string)
    requires LimbArrStrLen(limbs.Length) != 0
    ensures back[..] == limbs[..]
    ensures text == Printed(Decoded(limbs[..], mode))
  {
    var buf := new char[LimbArrStrLen(limbs.Length)];
    var start := LimbArrToStr(limbs, mode, buf);
    text := buf[start.value..buf.Length - 1];
    back := new Limb[limbs.Length];
    DecodedInRange(limbs[..], mode);
    ParseOfPrint(Decoded(limbs[..], mode), mode, limbs.Length);
    var status := StrToLimbArr(Some(text), mode, back);
    DecodedInjective(back[..], limbs[..], mode);
  }

  /** Parsing any accepted string and printing the limbs gives the string's canonical form. */
  method ParseThenPrint(s: string, mode: SignMode, n: nat) returns (status: StatusCode, text: string)
    requires LimbArrStrLen(n) != 0
    ensures status == OK <==> WellFormed(s, mode) && InRange(Parsed(s, mode), mode, n)
    ensures status == OK ==> text == Canonical(s, mode)
  {
    var limbs := new Limb[n];
    status := StrToLimbArr(Some(s), mode, limbs);
    text := "";
    if status == OK {
      DecodedInRange(limbs[..], mode);
      PrintOfParse(s, mode);
      var buf := new char[LimbArrStrLen(n)];
      var start := LimbArrToStr(limbs, mode, buf);
      text := buf[start.value..buf.Length - 1];
    }
  }
}
