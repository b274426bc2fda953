/** Decimal numerals: the value of a digit string, and the canonical and zero-padded numerals of a number. */
module DecimalText {
  import opened Arith

  predicate IsDigit(c: char) {
    '0' <= c <= '9'
  }

  predicate AllDigits(s: string) {
    forall i :: 0 <= i < |s| ==> IsDigit(s[i])
  }

  function DigitOf(c: char): (d: nat)
    requires IsDigit(c)
    ensures d < 10
  {
    c as int - '0' as int
  }

  function CharOf(d: nat): (c: char)
    requires d < 10
    ensures IsDigit(c) && DigitOf(c) == d
  {
    (d + '0' as int) as char
  }

  /** The number a digit string denotes; the empty string denotes zero. */
  function Value(s: string): nat
    requires AllDigits(s)
  {
    if s == [] then 0 else Value(s[..|s| - 1]) * 10 + DigitOf(s[|s| - 1])
  }

  /** The canonical numeral: no leading zero except in "0" itself. */
  function Numeral(v: nat): (s: string)
    ensures AllDigits(s) && |s| > 0
  {
    if v < 10 then [CharOf(v)] else Numeral(v / 10) + [CharOf(v % 10)]
  }

  /** The last k decimal digits of v. */
  function Padded(v: nat, k: nat): (s: string)
    ensures AllDigits(s) && |s| == k
  {
    if k == 0 then [] else Padded(v / 10, k - 1) + [CharOf(v % 10)]
  }

  function Zeros(k: nat): (s: string)
    ensures AllDigits(s) && |s| == k
  {
    if k == 0 then [] else Zeros(k - 1) + ['0']
  }

  function StripZeros(s: string): (r: string)
    requires AllDigits(s)
    ensures AllDigits(r)
  {
    if |s| > 0 && s[0] == '0' then StripZeros(s[1..]) else s
  }

  lemma {:induction false} ValueConcat(s: string, t: string)
    requires AllDigits(s) && AllDigits(t)
    ensures AllDigits(s + t) && Value(s + t) == Value(s) * Pow(10, |t|) + Value(t)
  {
    if t == [] {
      assert s + t == s;
    } else {
      var t' := t[..|t| - 1];
      ValueConcat(s, t');
      assert (s + t)[..|s + t| - 1] == s + t';
      TimesTen(Value(s), Pow(10, |t'|));
    }
  }

  lemma TimesTen(a: nat, p: nat)
    ensures a * (10 * p) == 10 * (a * p)
  {
  }

  lemma {:induction false} ValueBound(s: string)
    requires AllDigits(s)
    ensures Value(s) < Pow(10, |s|)
  {
    if s != [] {
      ValueBound(s[..|s| - 1]);
    }
  }

  /** Leading digits never make a number smaller than they are. */
  lemma ValuePrefix(s: string, k: nat)
    requires AllDigits(s) && k <= |s|
    ensures Value(s[..k]) <= Value(s)
  {
    ValueConcat(s[..k], s[k..]);
    assert s[..k] + s[k..] == s;
    var v, p := Value(s[..k]), Pow(10, |s| - k);
    assert v * p >= v * 1 by { MulLe(v, 1, p); }
  }

  lemma {:induction false} NumeralValue(v: nat)
    ensures Value(Numeral(v)) == v
    decreases v
  {
    if v >= 10 {
      NumeralValue(v / 10);
      assert Numeral(v)[..|Numeral(v)| - 1] == Numeral(v / 10);
    } else {
      assert Numeral(v)[..0] == [];
    }
  }

  /** Dividing by ten and then by p is dividing by 10 * p. */
  lemma DivModTen(v: nat, p: nat)
    requires p > 0
    ensures v / (10 * p) == v / 10 / p
    ensures v % (10 * p) == (v / 10 % p) * 10 + v % 10
  {
    var q, r := v / 10 / p, v / 10 % p;
    DivMod(v / 10, p);
    assert v == 10 * (p * q + r) + v % 10;
    assert (10 * p) * q == 10 * (p * q);
    DivModUnique(v, 10 * p, q, r * 10 + v % 10);
  }

  lemma {:induction false} PaddedValue(v: nat, k: nat)
    ensures Value(Padded(v, k)) == v % Pow(10, k)
    decreases k
  {
    if k != 0 {
      PaddedValue(v / 10, k - 1);
      assert Padded(v, k)[..k - 1] == Padded(v / 10, k - 1);
      DivModTen(v, Pow(10, k - 1));
    }
  }

  /** Only the last k digits of a number show in k padded digits. */
  lemma {:induction false} PaddedMod(v: nat, k: nat)
    ensures Padded(v % Pow(10, k), k) == Padded(v, k)
    decreases k
  {
    if k != 0 {
      var p := Pow(10, k - 1);
      DivModTen(v, p);
      DivModUnique(v % (10 * p), 10, v / 10 % p, v % 10);
      PaddedMod(v / 10, k - 1);
    }
  }

  /** A canonical numeral starts with a zero only if it is "0". */
  lemma {:induction false} NumeralNoLeadingZero(v: nat)
    ensures Numeral(v)[0] == '0' <==> v == 0
    decreases v
  {
    if v >= 10 {
      NumeralNoLeadingZero(v / 10);
    }
  }

  /** Splitting a numeral k digits from the right. */
  lemma {:induction false} NumeralSplit(v: nat, k: nat)
    requires v >= Pow(10, k)
    ensures Numeral(v) == Numeral(v / Pow(10, k)) + Padded(v, k)
    decreases k
  {
    if k == 0 {
      assert v / 1 == v;
      assert Numeral(v) + [] == Numeral(v);
    } else {
      var p := Pow(10, k - 1);
      assert v / 10 >= p;
      NumeralSplit(v / 10, k - 1);
      DivModTen(v, p);
      assert Numeral(v / 10 / p) + Padded(v / 10, k - 1) + [CharOf(v % 10)]
          == Numeral(v / 10 / p) + (Padded(v / 10, k - 1) + [CharOf(v % 10)]);
    }
  }

  /** How many digits a canonical numeral has. */
  lemma {:induction false} NumeralLength(v: nat, k: nat)
    requires v < Pow(10, k) && k > 0
    ensures |Numeral(v)| <= k
    decreases k
  {
    if v >= 10 {
      assert k > 1;
      DivLess(v, 10, Pow(10, k - 1));
      NumeralLength(v / 10, k - 1);
    }
  }

  lemma {:induction false} NumeralLengthLower(v: nat)
    requires v > 0
    ensures v >= Pow(10, |Numeral(v)| - 1)
    decreases v
  {
    if v >= 10 {
      NumeralLengthLower(v / 10);
      MulLe(10, Pow(10, |Numeral(v / 10)| - 1), v / 10);
    }
  }

  /** Zero-padding a canonical numeral. */
  lemma {:induction false} PaddedNumeral(v: nat, k: nat)
    requires |Numeral(v)| <= k
    ensures Padded(v, k) == Zeros(k - |Numeral(v)|) + Numeral(v)
    decreases v
  {
    if v < 10 {
      PaddedZero(k - 1);
    } else {
      PaddedNumeral(v / 10, k - 1);
      assert |Numeral(v)| == |Numeral(v / 10)| + 1;
    }
  }

  lemma {:induction false} PaddedZero(k: nat)
    ensures Padded(0, k) == Zeros(k)
  {
    if k != 0 { PaddedZero(k - 1); }
  }

  lemma {:induction false} ZerosValue(k: nat)
    ensures Value(Zeros(k)) == 0
  {
    if k != 0 {
      ZerosValue(k - 1);
      assert Zeros(k)[..k - 1] == Zeros(k - 1);
    }
  }

  lemma {:induction false} StripZerosValue(s: string)
    requires AllDigits(s)
    ensures Value(StripZeros(s)) == Value(s)
    ensures StripZeros(s) == [] || StripZeros(s)[0] != '0'
    decreases |s|
  {
    if |s| > 0 && s[0] == '0' {
      StripZerosValue(s[1..]);
      ValueConcat(s[..1], s[1..]);
      assert s[..1] + s[1..] == s;
      assert s[..1][..0] == [];
      assert Value(s[..1]) == 0;
    }
  }

  /** The only numeral without a leading zero that denotes v > 0 is the canonical one. */
  lemma {:induction false} NumeralUnique(s: string)
    requires AllDigits(s) && s != [] && s[0] != '0'
    ensures Numeral(Value(s)) == s
    decreases |s|
  {
    var n := |s|;
    var s', d := s[..n - 1], DigitOf(s[n - 1]);
    if n == 1 {
      assert s' == [];
    } else {
      NumeralUnique(s');
      assert Value(s') > 0 by { LeadingDigitPositive(s'); }
      DivModUnique(Value(s), 10, Value(s'), d);
      assert s == s' + [s[n - 1]];
    }
  }

  lemma {:induction false} LeadingDigitPositive(s: string)
    requires AllDigits(s) && s != [] && s[0] != '0'
    ensures Value(s) > 0
    decreases |s|
  {
    if |s| > 1 {
      LeadingDigitPositive(s[..|s| - 1]);
    }
  }
}
