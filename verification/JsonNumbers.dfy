/** The text of JSON integers: valueToString writes it, decodeNumber reads it. */
module JsonNumbers {
  import opened Bytes
  import opened JsonValue

  const MINUS: byte := 45
  const PLUS: byte := 43
  const DOT: byte := 46
  const ZERO: byte := 48
  const NINE: byte := 57
  const LOWER_E: byte := 101
  const UPPER_E: byte := 69

  predicate IsDigit(c: byte) {
    ZERO <= c <= NINE
  }

  /** The characters that the scanner takes into a number. */
  predicate IsNumberChar(c: byte) {
    IsDigit(c) || c == DOT || c == LOWER_E || c == UPPER_E || c == PLUS || c == MINUS
  }

  function DigitChar(d: nat): (c: byte)
    requires d < 10
    ensures IsDigit(c)
  {
    ZERO + d as byte
  }

  function DigitOf(c: byte): (d: nat)
    requires IsDigit(c)
    ensures d < 10
  {
    (c - ZERO) as nat
  }

  lemma DigitRoundTrip(d: nat)
    requires d < 10
    ensures DigitOf(DigitChar(d)) == d
  {
    assert d == 0 || d == 1 || d == 2 || d == 3 || d == 4 || d == 5 || d == 6 || d == 7 || d == 8 || d == 9;
  }

  // ------------------------------------------------------------ writing

  /** The decimal digits of a number. */
  function Decimal(n: nat): (r: bytes)
    ensures r != [] && forall i :: 0 <= i < |r| ==> IsDigit(r[i])
  {
    if n < 10 then [DigitChar(n)] else Decimal(n / 10) + [DigitChar(n % 10)]
  }

  function IntText(i: int): bytes {
    if i < 0 then [MINUS] + Decimal(-i) else Decimal(i)
  }

  function Pow10(k: nat): (p: nat)
    ensures p > 0
  {
    if k == 0 then 1 else 10 * Pow10(k - 1)
  }

  lemma QuotientBelow(value: nat, k: nat)
    requires value < Pow10(k) && k > 0
    ensures value / 10 < Pow10(k - 1)
    ensures value >= 10 ==> k > 1
  {
    assert Pow10(1) == 10 * Pow10(0);
  }

  lemma DecimalStep(v: nat, tail: bytes)
    ensures v < 10 ==> Decimal(v) + tail == [DigitChar(v % 10)] + tail
    ensures v >= 10 ==> Decimal(v) + tail == Decimal(v / 10) + ([DigitChar(v % 10)] + tail)
  {
  }

  /** uintToString: digits and a NUL go into the buffer, from `end` downwards. */
  method UintToString(value: nat, buffer: array<byte>, end: nat) returns (current: nat)
    requires value <= MAX_UINT && 11 <= end <= buffer.Length
    modifies buffer
    ensures end - 11 <= current < end - 1
    ensures buffer[current..end - 1] == Decimal(value) && buffer[end - 1] == 0
    ensures forall i :: 0 <= i < buffer.Length && !(current <= i < end) ==> buffer[i] == old(buffer[i])
  {
    var v: nat := value;
    current := end - 1;
    buffer[current] := 0;
    ghost var k := 10;
    assert Pow10(10) == 10_000_000_000;
    assert buffer[current..end - 1] == [];
    assert Decimal(v) + [] == Decimal(v);
    while true
      invariant 1 <= k <= 10 && v < Pow10(k) && current == end - 11 + k
      invariant Decimal(v) + buffer[current..end - 1] == Decimal(value) && buffer[end - 1] == 0
      invariant forall i :: 0 <= i < buffer.Length && !(current <= i < end) ==> buffer[i] == old(buffer[i])
      decreases v
    {
      hide Pow10, DigitChar;
      QuotientBelow(v, k);
      ghost var tail := buffer[current..end - 1];
      DecimalStep(v, tail);
      hide Decimal;
      current := current - 1;
      buffer[current] := DigitChar(v % 10);
      assert buffer[current..end - 1] == [DigitChar(v % 10)] + tail;
      if v < 10 {
        return;
      }
      v := v / 10;
      k := k - 1;
    }
  }

  lemma IntTextIs(i: int)
    ensures IntText(i) == if i < 0 then [MINUS] + Decimal(-i) else Decimal(i)
  {
    hide Decimal;
  }

  /** valueToString( Int ).  Negation wraps around for the smallest number. */
  method IntToString(value: int) returns (text: bytes)
    requires MIN_INT <= value <= MAX_INT
    ensures text == IntText(value)
  {
    hide Decimal, IntText;
    IntTextIs(value);
    var buffer := new byte[32];
    var v := value;
    if v < 0 {
      v := if v == MIN_INT then MIN_INT else -v;
    }
    var current := UintToString(if v < 0 then v + 0x1_0000_0000 else v, buffer, 32);
    if value < 0 {
      ghost var digits := buffer[current..31];
      current := current - 1;
      buffer[current] := MINUS;
      assert buffer[current + 1..31] == digits;
      assert buffer[current..31] == [MINUS] + digits;
    }
    text := buffer[current..31];
  }

  /** valueToString( UInt ). */
  method UIntToString(value: nat) returns (text: bytes)
    requires value <= MAX_UINT
    ensures text == Decimal(value)
  {
    hide Decimal;
    var buffer := new byte[32];
    var current := UintToString(value, buffer, 32);
    text := buffer[current..31];
  }

  // ------------------------------------------------------------ reading

  /** What decodeNumber makes of a token: an integer, a text that is left to
      decodeDouble, or an error. */
  datatype Number = Whole(value: Value) | Double | NotANumber

  /** True if some character after the first `i` makes the token a double. */
  predicate LooksDouble(text: bytes, i: nat)
    decreases |text| - i
  {
    i < |text| &&
    (|| text[i] == DOT || text[i] == LOWER_E || text[i] == UPPER_E || text[i] == PLUS
     || (text[i] == MINUS && i != 0)
     || LooksDouble(text, i + 1))
  }

  function Threshold(negative: bool): (t: nat)
    ensures t > 0
  {
    if negative then 214748364 else 429496729
  }

  function DecodeNumber(text: bytes): Number {
    if LooksDouble(text, 0) then Double
    else
      var negative := text != [] && text[0] == MINUS;
      Accumulate(if negative then text[1..] else text, 0, negative)
  }

  /** The digit loop; the accumulator is a 32-bit number. */
  function Accumulate(digits: bytes, value: nat, negative: bool): Number {
    if digits == [] then
      Whole(if negative then Int(0 - value) else if value <= MAX_INT then Int(value) else UInt(value))
    else if !IsDigit(digits[0]) then NotANumber
    else if value >= Threshold(negative) then Double
    else Accumulate(digits[1..], (value * 10 + DigitOf(digits[0])) % 0x1_0000_0000, negative)
  }

  method Decode(text: bytes) returns (r: Number)
    ensures r == DecodeNumber(text)
  {
    var isDouble := false;
    var inspect := 0;
    while inspect < |text|
      invariant 0 <= inspect <= |text|
      invariant LooksDouble(text, 0) == (isDouble || LooksDouble(text, inspect))
    {
      var c := text[inspect];
      isDouble := isDouble || c == DOT || c == LOWER_E || c == UPPER_E || c == PLUS
               || (c == MINUS && inspect != 0);
      inspect := inspect + 1;
    }
    if isDouble {
      return Double;
    }
    var current := 0;
    var negative := |text| > 0 && text[0] == MINUS;
    if negative {
      current := 1;
    }
    var threshold := Threshold(negative);
    var value: nat := 0;
    assert text[0..] == text;
    while current < |text|
      invariant 0 <= current <= |text| && 0 <= value
      invariant DecodeNumber(text) == Accumulate(text[current..], value, negative)
    {
      var c := text[current];
      assert text[current..][0] == c && text[current..][1..] == text[current + 1..];
      current := current + 1;
      if !IsDigit(c) {
        return NotANumber;
      }
      if value >= threshold {
        return Double;
      }
      value := (value * 10 + DigitOf(c)) % 0x1_0000_0000;
    }
    if negative {
      return Whole(Int(0 - value));
    } else if value <= MAX_INT {
      return Whole(Int(value));
    }
    return Whole(UInt(value));
  }

  // --------------------------------------------------------- properties

  predicate AllDigits(digits: bytes) {
    forall i :: 0 <= i < |digits| ==> IsDigit(digits[i])
  }

  /** The number that the digits stand for, continued from `value`. */
  function NumberFrom(value: nat, digits: bytes): nat
    requires AllDigits(digits)
    decreases |digits|
  {
    if digits == [] then value
    else NumberFrom(value * 10 + DigitOf(digits[0]), digits[1..])
  }

  lemma {:induction false} NumberGrows(value: nat, digits: bytes)
    requires AllDigits(digits)
    ensures NumberFrom(value, digits) >= value
    ensures digits != [] ==> NumberFrom(value, digits) >= 10 * value
    decreases |digits|
  {
    if digits != [] {
      NumberGrows(value * 10 + DigitOf(digits[0]), digits[1..]);
    }
  }

  lemma AccumulateStep(digits: bytes, value: nat, negative: bool)
    requires AllDigits(digits) && digits != []
    ensures value >= Threshold(negative) ==> Accumulate(digits, value, negative) == Double
    ensures var next := value * 10 + DigitOf(digits[0]);
            value < Threshold(negative) ==>
              next < 10 * Threshold(negative) && Accumulate(digits, value, negative) == Accumulate(digits[1..], next, negative)
  {
    hide DigitOf;
    assert value < Threshold(negative) ==> value * 10 + DigitOf(digits[0]) < 0x1_0000_0000;
  }

  lemma NumberFromStep(digits: bytes, value: nat)
    requires AllDigits(digits) && digits != []
    ensures AllDigits(digits[1..])
    ensures NumberFrom(value, digits) == NumberFrom(value * 10 + DigitOf(digits[0]), digits[1..])
  {
    hide DigitOf;
  }

  lemma NumberFromEnd(value: nat)
    ensures NumberFrom(value, []) == value
  {
  }

  /** The accumulator never overflows, and an integer comes out exactly when the
      number is below ten times the threshold; it is then the right one. */
  lemma {:induction false} AccumulateIsExact(digits: bytes, value: nat, negative: bool)
    requires AllDigits(digits) && value < 10 * Threshold(negative)
    ensures NumberFrom(value, digits) < 10 * Threshold(negative) ==>
              Accumulate(digits, value, negative) == Accumulate([], NumberFrom(value, digits), negative)
    ensures NumberFrom(value, digits) >= 10 * Threshold(negative) ==>
              Accumulate(digits, value, negative) == Double
  {
    hide Accumulate, NumberFrom, Threshold, DigitOf, IsDigit;
    if digits == [] {
      NumberFromEnd(value);
    } else {
      NumberGrows(value, digits);
      AccumulateStep(digits, value, negative);
      NumberFromStep(digits, value);
      if value < Threshold(negative) {
        AccumulateIsExact(digits[1..], value * 10 + DigitOf(digits[0]), negative);
      }
    }
  }

  lemma {:induction false} NoDouble(text: bytes, i: nat)
    requires i <= |text| && AllDigits(text[i..])
    ensures !LooksDouble(text, i)
    decreases |text| - i
  {
    if i < |text| {
      assert text[i] == text[i..][0] && text[i + 1..] == text[i..][1..];
      NoDouble(text, i + 1);
    }
  }

  function Magnitude(text: bytes): nat
    requires IsInteger(text)
  {
    NumberFrom(0, if text[0] == MINUS then text[1..] else text)
  }

  /** An optional minus sign and digits, leading zeros included. */
  predicate IsInteger(text: bytes) {
    text != [] && AllDigits(if text[0] == MINUS then text[1..] else text)
  }

  /** An integer token of any length: the exact value, or a double if the
      magnitude is out of range. */
  lemma IntegersDecodeExactly(text: bytes)
    requires IsInteger(text)
    ensures var negative := text[0] == MINUS;
            var n := Magnitude(text);
            DecodeNumber(text) ==
              if n >= 10 * Threshold(negative) then Double
              else if negative then Whole(Int(0 - n))
              else Whole(if n <= MAX_INT then Int(n) else UInt(n))
  {
    hide Accumulate, NumberFrom, LooksDouble, Threshold, DigitOf;
    var negative := text[0] == MINUS;
    if negative {
      MinusIsNoDouble(text);
      NoDouble(text, 1);
      AccumulateIsExact(text[1..], 0, true);
    } else {
      assert text[0..] == text;
      NoDouble(text, 0);
      AccumulateIsExact(text, 0, false);
    }
    AccumulateEnd(Magnitude(text), negative);
  }

  lemma MinusIsNoDouble(text: bytes)
    requires text != [] && text[0] == MINUS
    ensures LooksDouble(text, 0) == LooksDouble(text, 1)
  {
  }

  lemma AccumulateEnd(n: nat, negative: bool)
    ensures Accumulate([], n, negative) == Whole(if negative then Int(0 - n) else if n <= MAX_INT then Int(n) else UInt(n))
  {
  }

  lemma {:induction false} NumberAppend(value: nat, digits: bytes, c: byte)
    requires AllDigits(digits) && IsDigit(c)
    ensures NumberFrom(value, digits + [c]) == NumberFrom(value, digits) * 10 + DigitOf(c)
    decreases |digits|
  {
    if digits == [] {
      assert digits + [c] == [c] && [c][1..] == [];
    } else {
      assert (digits + [c])[1..] == digits[1..] + [c];
      NumberAppend(value * 10 + DigitOf(digits[0]), digits[1..], c);
    }
  }

  lemma {:induction false} DecimalRoundTrip(n: nat)
    ensures NumberFrom(0, Decimal(n)) == n
  {
    if n < 10 {
      DigitRoundTrip(n);
      assert [DigitChar(n)][1..] == [];
    } else {
      DecimalRoundTrip(n / 10);
      DigitRoundTrip(n % 10);
      NumberAppend(0, Decimal(n / 10), DigitChar(n % 10));
    }
  }

  /** decodeNumber inverts valueToString on the exact range, and only there. */
  lemma IntRoundTrip(i: int)
    requires MIN_INT <= i <= MAX_INT
    ensures DecodeNumber(IntText(i)) == Whole(Int(i)) <==> i >= -2147483639
    ensures i < -2147483639 ==> DecodeNumber(IntText(i)) == Double
  {
    var text := IntText(i);
    DecimalRoundTrip(if i < 0 then -i else i);
    assert i < 0 ==> text[1..] == Decimal(-i);
    IntegersDecodeExactly(text);
  }

  lemma UIntRoundTrip(u: nat)
    requires u <= MAX_UINT
    ensures DecodeNumber(Decimal(u)) == Whole(Norm(UInt(u))) <==> u <= 4294967289
    ensures u > 4294967289 ==> DecodeNumber(Decimal(u)) == Double
  {
    DecimalRoundTrip(u);
    IntegersDecodeExactly(Decimal(u));
  }

  /** A number is printed without leading zeros. */
  lemma {:induction false} NoLeadingZero(n: nat)
    ensures n > 0 ==> Decimal(n)[0] != 48
    ensures n < 10 ==> |Decimal(n)| == 1
  {
    if n >= 10 {
      NoLeadingZero(n / 10);
    }
  }

  /** The ten digits are the characters that they should be. */
  lemma DigitsInOrder()
    ensures Decimal(9876543210) == [57, 56, 55, 54, 53, 52, 51, 50, 49, 48]
    ensures forall c: byte :: IsDigit(c) ==> DigitOf(c) == c as nat - 48
  {
    assert Decimal(9) == [57];
    assert Decimal(98) == [57, 56];
    assert Decimal(987) == [57, 56, 55];
    assert Decimal(9876) == [57, 56, 55, 54];
    assert Decimal(98765) == [57, 56, 55, 54, 53];
    assert Decimal(987654) == [57, 56, 55, 54, 53, 52];
    assert Decimal(9876543) == [57, 56, 55, 54, 53, 52, 51];
    assert Decimal(98765432) == [57, 56, 55, 54, 53, 52, 51, 50];
    assert Decimal(987654321) == [57, 56, 55, 54, 53, 52, 51, 50, 49];
  }
}
