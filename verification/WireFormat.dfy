/**
  The byte formats of clickhouse/base/wire_format.cpp as functions on byte sequences: varints (unsigned LEB128,
  section 7.6 of DWARF version 5), little-endian fixed-width integers, length-prefixed strings and quoted strings.
 */
module WireFormat {
  import opened Arith

  type byte = x: nat | x < 256

  const TWO_64: nat := 0x1_0000_0000_0000_0000
  const MAX_VARINT_BYTES: nat := 10
  const MAX_STRING: nat := 0x00FF_FFFF

  /** The outcome of reading from a byte sequence: a value and the bytes after it, or failure. */
  datatype Parse<+T> = Got(value: T, rest: seq<byte>) | Fail

  // ----- sequences -----

  lemma Concat3(a: seq<byte>, b: seq<byte>, c: seq<byte>)
    ensures a + (b + c) == a + b + c
  {
  }

  /** Moving n bytes of what is left to the end of what is done. */
  lemma Advance(done: seq<byte>, data: seq<byte>, i: nat, n: nat)
    requires i + n <= |data|
    ensures done + data[i..][..n] + data[i + n..] == done + data[i..]
    ensures data[i..i + n] == data[i..][..n]
  {
    assert data[i..] == data[i..][..n] + data[i + n..];
    Concat3(done, data[i..][..n], data[i + n..]);
  }

  // ----- varints -----

  function Varint(v: nat): (s: seq<byte>)
    ensures s != []
  {
    if v < 128 then [v] else [v % 128 + 128] + Varint(v / 128)
  }

  /** What a byte contributes at position i: its low seven bits shifted left by 7 * i, cut to 64 bits. */
  function Shifted(b: byte, i: nat): (v: nat)
    ensures v < TWO_64
  {
    b % 128 * Pow(128, i) % TWO_64
  }

  /** Bitwise or, bit by bit. */
  function Or(a: nat, b: nat): nat {
    if a == 0 && b == 0 then 0 else 2 * Or(a / 2, b / 2) + if a % 2 == 1 || b % 2 == 1 then 1 else 0
  }

  lemma {:induction false} OrZero(b: nat)
    ensures Or(0, b) == b
  {
    if b != 0 { OrZero(b / 2); }
  }

  /** Numbers that share no bit: their bitwise or is their sum. */
  lemma {:induction false} OrIsSum(a: nat, y: nat, k: nat)
    requires a < Pow(2, k)
    ensures Or(a, y * Pow(2, k)) == a + y * Pow(2, k)
    decreases k
  {
    var p := Pow(2, k);
    if k == 0 {
      OrZero(y);
    } else {
      var half := Pow(2, k - 1);
      assert y * p == 2 * (y * half);
      DivModUnique(y * p, 2, y * half, 0);
      OrIsSum(a / 2, y, k - 1);
    }
  }

  lemma {:induction false} SevenBits(i: nat)
    ensures Pow(128, i) == Pow(2, 7 * i)
  {
    if i != 0 {
      SevenBits(i - 1);
      PowAdd(2, 7, 7 * (i - 1));
      PowAdd(2, 3, 4);
      assert Pow(2, 3) == 8 && Pow(2, 4) == 16;
      assert 7 + 7 * (i - 1) == 7 * i;
    }
  }

  /** What a byte contributes is a multiple of 128^i below 128^(i + 1), even where it is cut to 64 bits. */
  lemma ShiftedPlace(b: byte, i: nat) returns (y: nat)
    requires i < MAX_VARINT_BYTES
    ensures y < 128 && Shifted(b, i) == y * Pow(128, i)
  {
    var p, x := Pow(128, i), b % 128;
    NinePlaces();
    if i < 9 {
      PowMonotone(128, i, 8);
      MulLe(p, x, 127);
      y := x;
    } else {
      y := x % 2;
      assert x * p == TWO_64 * (x / 2) + y * p;
      DivModUnique(x * p, TWO_64, x / 2, y * p);
    }
  }

  lemma NinePlaces()
    ensures Pow(128, 8) == 0x100_0000_0000_0000 && Pow(128, 9) == 0x8000_0000_0000_0000
  {
    assert Pow(128, 2) == 16384 by { assert Pow(128, 1) == 128; }
    PowAdd(128, 2, 2);
    PowAdd(128, 4, 4);
  }

  /** The reader's bitwise or adds the next byte's contribution to those before. */
  lemma OrNextByte(value: nat, b: byte, i: nat)
    requires i < MAX_VARINT_BYTES && value < Pow(128, i)
    ensures Or(value, Shifted(b, i)) == value + Shifted(b, i) < Pow(128, i + 1)
  {
    hide Shifted;
    var y := ShiftedPlace(b, i);
    SevenBits(i);
    OrIsSum(value, y, 7 * i);
    MulLe(Pow(128, i), y, 127);
  }

  /** Reads the varint bytes from position i on: the sum of what they contribute. */
  function DecodeVarintFrom(s: seq<byte>, i: nat): Parse<nat>
    decreases |s|
  {
    if i >= MAX_VARINT_BYTES || s == [] then Fail
    else if s[0] < 128 then Got(Shifted(s[0], i), s[1..])
    else match DecodeVarintFrom(s[1..], i + 1)
         case Got(v, rest) => Got(Shifted(s[0], i) + v, rest)
         case Fail => Fail
  }

  function DecodeVarint(s: seq<byte>): Parse<nat> {
    DecodeVarintFrom(s, 0)
  }

  lemma {:induction false} VarintLength(v: nat, k: nat)
    requires k > 0 && v < Pow(128, k)
    ensures |Varint(v)| <= k
    decreases k
  {
    if v >= 128 {
      assert k > 1;
      DivLess(v, 128, Pow(128, k - 1));
      VarintLength(v / 128, k - 1);
    }
  }

  /** Every 64-bit value takes at most ten bytes. */
  lemma VarintFits(v: nat)
    requires v < TWO_64
    ensures |Varint(v)| <= MAX_VARINT_BYTES
  {
    assert Pow(128, 2) == 16384 by { assert Pow(128, 1) == 128; }
    PowAdd(128, 2, 2);
    PowAdd(128, 4, 4);
    PowAdd(128, 8, 2);
    VarintLength(v, 10);
  }

  lemma SplitShift(v: nat, p: nat)
    ensures v * p == (v % 128) * p + (v / 128) * (128 * p)
    ensures (v % 128) * p <= v * p
  {
    assert v == 128 * (v / 128) + v % 128;
    assert (128 * (v / 128)) * p == (v / 128) * (128 * p);
    assert v * p == (128 * (v / 128)) * p + (v % 128) * p;
    MulLe(p, v % 128, v);
  }

  lemma ShiftedExact(b: byte, i: nat)
    requires (b % 128) * Pow(128, i) < TWO_64
    ensures Shifted(b, i) == (b % 128) * Pow(128, i)
  {
  }

  lemma {:induction false} VarintRoundTripFrom(v: nat, i: nat, tail: seq<byte>)
    requires i + |Varint(v)| <= MAX_VARINT_BYTES && v * Pow(128, i) < TWO_64
    ensures DecodeVarintFrom(Varint(v) + tail, i) == Got(v * Pow(128, i), tail)
    decreases v
  {
    hide Shifted;
    var p := Pow(128, i);
    if v < 128 {
      assert ([v] + tail)[1..] == tail;
      ShiftedExact(v, i);
    } else {
      var b: byte := v % 128 + 128;
      assert (Varint(v) + tail)[1..] == Varint(v / 128) + tail && (Varint(v) + tail)[0] == b;
      SplitShift(v, p);
      ShiftedExact(b, i);
      VarintRoundTripFrom(v / 128, i + 1, tail);
    }
  }

  /** A 64-bit value reads back whatever bytes follow it. */
  lemma VarintRoundTrip(v: nat, tail: seq<byte>)
    requires v < TWO_64
    ensures |Varint(v)| <= 10
    ensures DecodeVarint(Varint(v) + tail) == Got(v, tail)
  {
    VarintFits(v);
    assert v * Pow(128, 0) == v;
    VarintRoundTripFrom(v, 0, tail);
  }

  /** A tenth byte with the top bit set, or the end of the bytes before a byte without it, is refused. */
  lemma {:induction false} EndlessVarintRefused(s: seq<byte>, i: nat)
    requires i <= 10 && forall j :: 0 <= j < |s| && j < 10 - i ==> s[j] >= 128
    ensures DecodeVarintFrom(s, i) == Fail
    decreases |s|
  {
    if i < 10 && s != [] {
      EndlessVarintRefused(s[1..], i + 1);
    }
  }

  // ----- fixed-width integers -----

  /** The n low bytes of v, least significant first. */
  function Fixed(v: nat, n: nat): (s: seq<byte>)
    ensures |s| == n
  {
    if n == 0 then [] else [v % 256] + Fixed(v / 256, n - 1)
  }

  function FromFixed(s: seq<byte>): nat {
    if s == [] then 0 else s[0] + 256 * FromFixed(s[1..])
  }

  function Take(s: seq<byte>, n: nat): (r: Parse<seq<byte>>)
  {
    if n <= |s| then Got(s[..n], s[n..]) else Fail
  }

  function DecodeFixed(s: seq<byte>, n: nat): Parse<nat> {
    if n <= |s| then Got(FromFixed(s[..n]), s[n..]) else Fail
  }

  lemma {:induction false} FixedValue(v: nat, n: nat)
    requires v < Pow(256, n)
    ensures FromFixed(Fixed(v, n)) == v
    decreases n
  {
    if n != 0 {
      DivLess(v, 256, Pow(256, n - 1));
      FixedValue(v / 256, n - 1);
      assert Fixed(v, n)[1..] == Fixed(v / 256, n - 1);
    }
  }

  lemma FixedRoundTrip(v: nat, n: nat, tail: seq<byte>)
    requires v < Pow(256, n)
    ensures DecodeFixed(Fixed(v, n) + tail, n) == Got(v, tail)
  {
    FixedValue(v, n);
    assert (Fixed(v, n) + tail)[..n] == Fixed(v, n) && (Fixed(v, n) + tail)[n..] == tail;
  }

  lemma BytePowers()
    ensures Pow(256, 1) == 0x100 && Pow(256, 4) == 0x1_0000_0000 && Pow(256, 8) == TWO_64
  {
    assert Pow(256, 1) == 256 * Pow(256, 0);
    PowAdd(256, 1, 1);
    PowAdd(256, 2, 2);
    PowAdd(256, 4, 4);
  }

  // ----- strings -----

  function EncodeString(s: seq<byte>): seq<byte> {
    Varint(|s|) + s
  }

  function DecodeString(s: seq<byte>): Parse<seq<byte>> {
    match DecodeVarint(s)
    case Got(len, rest) => if len > MAX_STRING then Fail else Take(rest, len)
    case Fail => Fail
  }

  lemma StringRoundTrip(s: seq<byte>, tail: seq<byte>)
    requires |s| <= 0x00FF_FFFF
    ensures DecodeString(EncodeString(s) + tail) == Got(s, tail)
  {
    assert EncodeString(s) + tail == Varint(|s|) + (s + tail);
    VarintRoundTrip(|s|, s + tail);
    assert (s + tail)[..|s|] == s && (s + tail)[|s|..] == tail;
  }

  /** Above the limit a 64-bit length is still written, but every reader refuses it. */
  lemma LongStringRefused(s: seq<byte>, tail: seq<byte>)
    requires 0x00FF_FFFF < |s| < TWO_64
    ensures DecodeString(EncodeString(s) + tail) == Fail
  {
    assert EncodeString(s) + tail == Varint(|s|) + (s + tail);
    VarintRoundTrip(|s|, s + tail);
  }

  // ----- more bytes -----

  /** What a reader makes of some bytes it makes of them with more behind, which it leaves. */
  function Longer<T>(p: Parse<T>, more: seq<byte>): Parse<T> {
    match p case Got(v, rest) => Got(v, rest + more) case Fail => Fail
  }

  lemma {:induction false} VarintLonger(s: seq<byte>, i: nat, more: seq<byte>)
    requires DecodeVarintFrom(s, i).Got?
    ensures DecodeVarintFrom(s + more, i) == Longer(DecodeVarintFrom(s, i), more)
    ensures |DecodeVarintFrom(s, i).rest| < |s|
    decreases |s|
  {
    hide Shifted;
    assert (s + more)[1..] == s[1..] + more;
    if s[0] >= 128 { VarintLonger(s[1..], i + 1, more); }
  }

  lemma FixedLonger(s: seq<byte>, n: nat, more: seq<byte>)
    requires DecodeFixed(s, n).Got?
    ensures DecodeFixed(s + more, n) == Longer(DecodeFixed(s, n), more)
  {
    assert (s + more)[..n] == s[..n] && (s + more)[n..] == s[n..] + more;
  }

  lemma StringLonger(s: seq<byte>, more: seq<byte>)
    requires DecodeString(s).Got?
    ensures DecodeString(s + more) == Longer(DecodeString(s), more)
  {
    VarintLonger(s, 0, more);
    var p := DecodeVarint(s);
    assert (p.rest + more)[..p.value] == p.rest[..p.value] && (p.rest + more)[p.value..] == p.rest[p.value..] + more;
  }

  // ----- quoted strings -----

  const QUOTE: byte := 0x27
  const BACKSLASH: byte := 0x5C

  predicate MustEscape(b: byte) {
    b == 0 || b == 8 || b == 9 || b == 10 || b == QUOTE || b == BACKSLASH
  }

  /** The three bytes that follow the backslash of an escaped byte: x00, x08, \\t, \\n, x27 or \\\. */
  function EscapeTail(b: byte): (s: seq<byte>)
    requires MustEscape(b)
    ensures |s| == 3
  {
    if b == 0 then [0x78, 0x30, 0x30]
    else if b == 8 then [0x78, 0x30, 0x38]
    else if b == 9 then [BACKSLASH, BACKSLASH, 0x74]
    else if b == 10 then [BACKSLASH, BACKSLASH, 0x6E]
    else if b == QUOTE then [0x78, 0x32, 0x37]
    else [BACKSLASH, BACKSLASH, BACKSLASH]
  }

  function Escape(b: byte): seq<byte> {
    if MustEscape(b) then [BACKSLASH] + EscapeTail(b) else [b]
  }

  function EscapeAll(s: seq<byte>): seq<byte> {
    if s == [] then [] else Escape(s[0]) + EscapeAll(s[1..])
  }

  function CountEscapes(s: seq<byte>): nat {
    if s == [] then 0 else (if MustEscape(s[0]) then 1 else 0) + CountEscapes(s[1..])
  }

  function Quoted(s: seq<byte>): seq<byte> {
    [QUOTE] + EscapeAll(s) + [QUOTE]
  }

  /** A number kept in a 32-bit int, where too large a one wraps around. */
  function Int32(v: nat): int {
    var low := v % 0x1_0000_0000;
    if low >= 0x8000_0000 then low - 0x1_0000_0000 else low
  }

  /** The length that is announced: three bytes for each escape, counted in an int, added to an unsigned 64-bit size. */
  function Announced(s: seq<byte>): (len: nat)
    ensures len < TWO_64
  {
    (|s| + 2 + Int32(3 * CountEscapes(s))) % TWO_64
  }

  lemma {:induction false} EscapesBounded(s: seq<byte>)
    ensures CountEscapes(s) <= |s|
  {
    if s != [] { EscapesBounded(s[1..]); }
  }

  /** The announced length is that of the quoted text exactly while three times the escape count fits an int. */
  lemma AnnouncedExactly(s: seq<byte>)
    requires 4 * |s| + 2 < TWO_64
    ensures Announced(s) == |Quoted(s)| <==> 3 * CountEscapes(s) < 0x8000_0000
  {
    hide Int32, EscapeAll;
    EscapedLength(s);
    EscapesBounded(s);
    WrapExactly(|s| + 2, 3 * CountEscapes(s));
  }

  /** A string of 2^30 quotes: the announced length is less than that of the string itself. */
  lemma OverflowExample(s: seq<byte>)
    requires |s| == 0x4000_0000 && forall i :: 0 <= i < |s| ==> s[i] == QUOTE
    ensures Announced(s) == 2 != |Quoted(s)|
  {
    AllEscaped(s);
    EscapedLength(s);
  }

  lemma {:induction false} AllEscaped(s: seq<byte>)
    requires forall i :: 0 <= i < |s| ==> MustEscape(s[i])
    ensures CountEscapes(s) == |s|
  {
    if s != [] { AllEscaped(s[1..]); }
  }

  lemma WrapExactly(n: nat, v: nat)
    requires n + v < TWO_64 && v <= 3 * n
    ensures (n + Int32(v)) % TWO_64 == n + v <==> v < 0x8000_0000
  {
  }

  function HexDigit(b: byte): (v: nat)
    ensures v <= 16
  {
    if 0x30 <= b <= 0x39 then b - 0x30
    else if 0x41 <= b <= 0x46 then b - 0x41 + 10
    else if 0x61 <= b <= 0x66 then b - 0x61 + 10
    else 16
  }

  /**
    The byte that three bytes behind a backslash stand for: 'x' and two hexadecimal digits, or two more backslashes
    and 't', 'n' or a backslash.
   */
  function EscapedByte(t: seq<byte>): Parse<byte>
    requires |t| == 3
  {
    if t[0] == 0x78 then
      var high, low := HexDigit(t[1]), HexDigit(t[2]);
      if high < 16 && low < 16 then Got(16 * high + low, []) else Fail
    else if t[0] == BACKSLASH && t[1] == BACKSLASH then
      if t[2] == 0x74 then Got(9, [])
      else if t[2] == 0x6E then Got(10, [])
      else if t[2] == BACKSLASH then Got(BACKSLASH, [])
      else Fail
    else Fail
  }

  /** Reads an escaped text back. */
  function UnescapeAll(s: seq<byte>): Parse<seq<byte>> {
    if s == [] then Got([], [])
    else if s[0] != BACKSLASH then Prepend(s[0], UnescapeAll(s[1..]))
    else if |s| < 4 then Fail
    else match EscapedByte(s[1..4])
      case Got(b, _) => Prepend(b, UnescapeAll(s[4..]))
      case Fail => Fail
  }

  function Prepend(b: byte, p: Parse<seq<byte>>): Parse<seq<byte>> {
    match p case Got(v, rest) => Got([b] + v, rest) case Fail => Fail
  }

  /** The payload is exactly as long as the length prefix announces. */
  lemma {:induction false} EscapedLength(s: seq<byte>)
    ensures |EscapeAll(s)| == |s| + 3 * CountEscapes(s)
  {
    if s != [] { EscapedLength(s[1..]); }
  }

  /** Which bytes are escaped: NUL, backspace, tab, newline, the quote and the backslash. */
  lemma EscapesExactly(b: byte)
    ensures |Escape(b)| == if b in {0, 8, 9, 10, 39, 92} then 4 else 1
    ensures b !in {0, 8, 9, 10, 39, 92} ==> Escape(b) == [b]
  {
  }

  /** No control byte that must be escaped, and no quote, is left in the escaped text. */
  lemma {:induction false} EscapedIsClean(s: seq<byte>)
    ensures forall b :: b in EscapeAll(s) ==> b !in {0, 8, 9, 10, 39}
  {
    if s != [] { EscapedIsClean(s[1..]); }
  }

  lemma {:induction false} UnescapeEscape(s: seq<byte>)
    ensures UnescapeAll(EscapeAll(s)) == Got(s, [])
  {
    if s != [] {
      var e, tail := Escape(s[0]), EscapeAll(s[1..]);
      UnescapeEscape(s[1..]);
      assert s == [s[0]] + s[1..];
      if MustEscape(s[0]) {
        assert (e + tail)[1..4] == EscapeTail(s[0]);
        assert (e + tail)[4..] == tail;
        EscapeReadsBack(s[0]);
      } else {
        assert (e + tail)[1..] == tail;
      }
    }
  }

  lemma EscapeReadsBack(b: byte)
    requires MustEscape(b)
    ensures EscapedByte(EscapeTail(b)) == Got(b, [])
  {
  }

  /** The quotes delimit the payload, and the payload determines the string. */
  lemma QuotedFormat(s: seq<byte>)
    ensures |Quoted(s)| == |s| + 2 + 3 * CountEscapes(s)
    ensures forall i :: 0 <= i < |Quoted(s)| ==> (Quoted(s)[i] == QUOTE <==> i == 0 || i == |Quoted(s)| - 1)
    ensures forall i :: 0 <= i < |Quoted(s)| ==> Quoted(s)[i] !in {0, 8, 9, 10}
    ensures UnescapeAll(Quoted(s)[1..|Quoted(s)| - 1]) == Got(s, [])
  {
    hide EscapeAll, UnescapeAll, CountEscapes;
    EscapedLength(s);
    EscapedIsClean(s);
    UnescapeEscape(s);
    var q, e := Quoted(s), EscapeAll(s);
    assert q[1..|q| - 1] == e;
    forall i | 0 < i < |q| - 1
      ensures q[i] !in {0, 8, 9, 10, 39}
    {
      assert q[i] == e[i - 1] && e[i - 1] in e;
    }
  }

  lemma QuotedInjective(s: seq<byte>, t: seq<byte>)
    requires Quoted(s) == Quoted(t)
    ensures s == t
  {
    QuotedFormat(s);
    QuotedFormat(t);
  }
}
