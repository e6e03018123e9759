/** JSON string literals (section 7 of RFC 8259): valueToQuotedString writes
    them, readString finds their end and decodeString takes them apart. */
module JsonStrings {
  import opened Bytes

  const QUOTE: byte := 34
  const BACKSLASH: byte := 92
  const SLASH: byte := 47
  const LETTER_U: byte := 117
  const NUMERAL_0: byte := 48

  // ------------------------------------------------------------ writing

  predicate IsControl(c: byte) {
    0 < c <= 0x1f
  }

  /** The letter that stands for a character after a backslash, or 0. */
  function ShortEscape(c: byte): byte {
    if c == QUOTE then QUOTE
    else if c == BACKSLASH then BACKSLASH
    else if c == 8 then 98        // \b
    else if c == 12 then 102      // \f
    else if c == 10 then 110      // \n
    else if c == 13 then 114      // \r
    else if c == 9 then 116       // \t
    else 0
  }

  function UpperHex(n: byte): byte {
    if n < 10 then NUMERAL_0 + n else 55 + n
  }

  function Escape(c: byte): bytes {
    if ShortEscape(c) != 0 then [BACKSLASH, ShortEscape(c)]
    else if IsControl(c) then
      [BACKSLASH, LETTER_U, NUMERAL_0, NUMERAL_0, UpperHex(c >> 4), UpperHex(c & 0xf)]
    else [c]
  }

  function EscapeAll(s: bytes): bytes {
    if s == [] then [] else Escape(s[0]) + EscapeAll(s[1..])
  }

  function Quote(s: bytes): bytes {
    [QUOTE] + EscapeAll(s) + [QUOTE]
  }

  /** The test for the fast path: strpbrk and containsControlCharacter find nothing. */
  predicate Plain(s: bytes) {
    forall i :: 0 <= i < |s| ==> ShortEscape(s[i]) == 0 && !IsControl(s[i])
  }

  /** It is taken exactly if there is no quote, backslash or control character. */
  lemma PlainExactly(s: bytes)
    ensures Plain(s) <==> forall i :: 0 <= i < |s| ==> s[i] != 34 && s[i] != 92 && (s[i] == 0 || s[i] >= 32)
  {
  }

  /** Where nothing needs an escape the escaping loop copies its input. */
  lemma {:induction false} PlainNeedsNoEscape(s: bytes)
    requires Plain(s)
    ensures EscapeAll(s) == s
  {
    if s != [] {
      PlainNeedsNoEscape(s[1..]);
      assert s == [s[0]] + s[1..];
    }
  }

  /** valueToQuotedString, with its fast path and its escaping loop. */
  method ToQuotedString(value: bytes) returns (text: bytes)
    requires 0 !in value
    ensures text == Quote(value)
  {
    var plain := IsPlain(value);
    if plain {
      PlainNeedsNoEscape(value);
      return [QUOTE] + value + [QUOTE];
    }
    text := [QUOTE];
    var i := 0;
    while i < |value|
      invariant 0 <= i <= |value|
      invariant text + EscapeAll(value[i..]) == [QUOTE] + EscapeAll(value)
    {
      assert value[i..][0] == value[i] && value[i..][1..] == value[i + 1..];
      assert (text + Escape(value[i])) + EscapeAll(value[i + 1..])
          == text + (Escape(value[i]) + EscapeAll(value[i + 1..]));
      text := text + Escape(value[i]);
      i := i + 1;
    }
    assert EscapeAll(value[i..]) == [];
    text := text + [QUOTE];
  }

  method IsPlain(value: bytes) returns (plain: bool)
    ensures plain <==> Plain(value)
  {
    var i := 0;
    while i < |value|
      invariant 0 <= i <= |value| && Plain(value[..i])
    {
      if ShortEscape(value[i]) != 0 || IsControl(value[i]) {
        return false;
      }
      assert value[..i + 1] == value[..i] + [value[i]];
      i := i + 1;
    }
    assert value[..i] == value;
    return true;
  }

  // ----------------------------------------------------------- scanning

  /** readString after the opening quote: what follows the literal, and whether
      a closing quote was found. */
  function AfterString(d: bytes): (r: (bytes, bool))
    ensures |r.0| <= |d|
    ensures r.1 ==> |r.0| < |d|
  {
    if d == [] then ([], false)
    else if d[0] == BACKSLASH then AfterString(if |d| > 1 then d[2..] else [])
    else if d[0] == QUOTE then (d[1..], true)
    else AfterString(d[1..])
  }

  lemma EscapeIsSkipped(c: byte, rest: bytes)
    ensures AfterString(Escape(c) + rest) == AfterString(rest)
  {
    var d := Escape(c) + rest;
    if ShortEscape(c) != 0 {
      assert d[2..] == rest;
    } else if IsControl(c) {
      assert UpperHex(c >> 4) != QUOTE && UpperHex(c >> 4) != BACKSLASH;
      assert UpperHex(c & 0xf) != QUOTE && UpperHex(c & 0xf) != BACKSLASH;
      PlainIsSkipped([NUMERAL_0, NUMERAL_0, UpperHex(c >> 4), UpperHex(c & 0xf)], rest);
      assert d[2..] == [NUMERAL_0, NUMERAL_0, UpperHex(c >> 4), UpperHex(c & 0xf)] + rest;
    } else {
      assert d[1..] == rest;
    }
  }

  lemma {:induction false} PlainIsSkipped(s: bytes, rest: bytes)
    requires QUOTE !in s && BACKSLASH !in s
    ensures AfterString(s + rest) == AfterString(rest)
  {
    if s == [] {
      assert s + rest == rest;
    } else {
      assert s[0] in s && (s + rest)[0] == s[0];
      assert (s + rest)[1..] == s[1..] + rest;
      PlainIsSkipped(s[1..], rest);
    }
  }

  /** The scanner stops exactly behind a quoted string. */
  lemma {:induction false} QuotedIsScanned(s: bytes, rest: bytes)
    ensures AfterString(EscapeAll(s) + [QUOTE] + rest) == (rest, true)
  {
    if s == [] {
      assert EscapeAll(s) + [QUOTE] + rest == [QUOTE] + rest;
      assert ([QUOTE] + rest)[1..] == rest;
    } else {
      assert EscapeAll(s) + [QUOTE] + rest == Escape(s[0]) + (EscapeAll(s[1..]) + [QUOTE] + rest);
      EscapeIsSkipped(s[0], EscapeAll(s[1..]) + [QUOTE] + rest);
      QuotedIsScanned(s[1..], rest);
    }
  }

  // ----------------------------------------------------------- decoding

  /** The bytes of codePointToUTF8: a leading byte of two, three or four, and the
      bytes that follow it. */
  function Lead2(bits: bv32): byte {
    (0xc0 | (0x1f & bits)) as byte
  }

  function Lead3(bits: bv32): byte {
    (0xe0 | (0xf & bits)) as byte
  }

  function Lead4(bits: bv32): byte {
    (0xf0 | (0x7 & bits)) as byte
  }

  function Tail(bits: bv32): byte {
    (0x80 | (0x3f & bits)) as byte
  }

  /** codePointToUTF8. */
  function ToUtf8(cp: bv32): bytes {
    if cp <= 0x7f then [cp as byte]
    else if cp <= 0x7ff then [Lead2(cp >> 6), Tail(cp)]
    else if cp <= 0xffff then [Lead3(cp >> 12), Tail(cp >> 6), Tail(cp)]
    else if cp <= 0x10ffff then [Lead4(cp >> 18), Tail(cp >> 12), Tail(cp >> 6), Tail(cp)]
    else []
  }

  /** The value of a hexadecimal digit, or 16. */
  function HexValue(c: byte): bv32 {
    if NUMERAL_0 <= c <= 57 then (c - NUMERAL_0) as bv32
    else if 97 <= c <= 102 then (c - 97) as bv32 + 10
    else if 65 <= c <= 70 then (c - 65) as bv32 + 10
    else 16
  }

  function AddDigit(unicode: bv32, digit: bv32): bv32 {
    unicode * 16 + digit
  }

  /** The character of two surrogates. */
  function Combine(first: bv32, second: bv32): bv32 {
    0x10000 + ((first & 0x3ff) << 10) + (second & 0x3ff)
  }

  datatype Point = Point(cp: bv32, used: nat) | NoPoint

  /** decodeUnicodeEscapeSequence: four hexadecimal digits. */
  function FourDigits(d: bytes, n: nat, unicode: bv32): (p: Point)
    requires n <= 4
    ensures p.Point? ==> p.used == n && |d| >= n
    decreases n
  {
    if n == 0 then Point(unicode, 0)
    else if |d| < n || HexValue(d[0]) == 16 then NoPoint
    else match FourDigits(d[1..], n - 1, AddDigit(unicode, HexValue(d[0])))
      case NoPoint => NoPoint
      case Point(cp, used) => Point(cp, used + 1)
  }

  /** decodeUnicodeCodePoint, after \u. */
  function DecodePoint(d: bytes): (p: Point)
    ensures p.Point? ==> 0 < p.used <= |d|
  {
    var first := FourDigits(d, 4, 0);
    if first.Point? && 0xd800 <= first.cp <= 0xdbff then
      if |d| - 4 < 6 || d[4] != BACKSLASH || d[5] != LETTER_U then NoPoint
      else
        match FourDigits(d[6..], 4, 0)
        case NoPoint => NoPoint
        case Point(second, _) =>
          Point(Combine(first.cp, second), 10)
    else first
  }

  datatype Decoded = Decoded(s: bytes) | BadString

  function Prepend(s: bytes, r: Decoded): Decoded {
    if r.BadString? then r else Decoded(s + r.s)
  }

  /** The character that a letter stands for after a backslash, or 0. */
  function Unescape(letter: byte): byte {
    if letter == QUOTE || letter == SLASH || letter == BACKSLASH then letter
    else if letter == 98 then 8
    else if letter == 102 then 12
    else if letter == 110 then 10
    else if letter == 114 then 13
    else if letter == 116 then 9
    else 0
  }

  /** decodeString on what is between the quotes. */
  function DecodeBody(d: bytes): Decoded
    decreases |d|
  {
    if d == [] || d[0] == QUOTE then Decoded([])
    else if d[0] != BACKSLASH then Prepend([d[0]], DecodeBody(d[1..]))
    else if |d| == 1 then BadString
    else if d[1] == LETTER_U then
      match DecodePoint(d[2..])
      case NoPoint => BadString
      case Point(cp, used) => Prepend(ToUtf8(cp), DecodeBody(d[2 + used..]))
    else if Unescape(d[1]) == 0 then BadString
    else Prepend([Unescape(d[1])], DecodeBody(d[2..]))
  }

  function DecodeString(text: bytes): Decoded
    requires |text| >= 2
  {
    DecodeBody(text[1..|text| - 1])
  }

  /** The loop of decodeUnicodeEscapeSequence; `current` is left behind the digits. */
  method ReadFourDigits(d: bytes, start: nat) returns (ok: bool, unicode: bv32, current: nat)
    requires start <= |d|
    ensures ok ==> FourDigits(d[start..], 4, 0) == Point(unicode, 4) && current == start + 4 <= |d|
    ensures !ok ==> FourDigits(d[start..], 4, 0) == NoPoint
  {
    unicode, current := 0, start;
    if |d| - start < 4 {
      return false, 0, start;
    }
    var index := 0;
    hide HexValue, AddDigit;
    while index < 4
      invariant 0 <= index <= 4 && current == start + index
      invariant FourDigits(d[start..], 4, 0) ==
                match FourDigits(d[current..], 4 - index, unicode)
                case NoPoint => NoPoint
                case Point(cp, used) => Point(cp, used + index)
    {
      assert d[current..][0] == d[current] && d[current..][1..] == d[current + 1..];
      var digit := HexValue(d[current]);
      current := current + 1;
      if digit == 16 {
        return false, 0, current;
      }
      unicode := AddDigit(unicode, digit);
      index := index + 1;
    }
    ok := true;
  }

  method ReadCodePoint(d: bytes, start: nat) returns (ok: bool, unicode: bv32, current: nat)
    requires start <= |d|
    ensures ok ==> start <= current <= |d| && DecodePoint(d[start..]) == Point(unicode, current - start)
    ensures !ok ==> DecodePoint(d[start..]) == NoPoint
  {
    hide FourDigits, Combine;
    ok, unicode, current := ReadFourDigits(d, start);
    if ok && 0xd800 <= unicode <= 0xdbff {
      if |d| - current < 6 {
        return false, unicode, current;
      }
      if d[current] != BACKSLASH || d[current + 1] != LETTER_U {
        return false, unicode, current;
      }
      assert d[start..][6..] == d[current + 2..];
      var pair: bv32;
      ok, pair, current := ReadFourDigits(d, current + 2);
      unicode := Combine(unicode, pair);
    }
  }

  /** decodeString: what is between the quotes, character by character. */
  method Decode(d: bytes) returns (ok: bool, decoded: bytes)
    ensures DecodeBody(d) == if ok then Decoded(decoded) else BadString
  {
    decoded := [];
    var current := 0;
    assert d[0..] == d && forall r :: Prepend([], r) == r;
    while current != |d|
      invariant 0 <= current <= |d|
      invariant DecodeBody(d) == Prepend(decoded, DecodeBody(d[current..]))
      decreases |d| - current
    {
      hide DecodePoint, Unescape, ToUtf8;
      ghost var rest := d[current..];
      var c := d[current];
      assert rest[0] == c && rest[1..] == d[current + 1..];
      current := current + 1;
      if c == QUOTE {
        break;
      }
      if c != BACKSLASH {
        Appended(decoded, [c], DecodeBody(d[current..]));
        decoded := decoded + [c];
        continue;
      }
      if current == |d| {
        return false, decoded;
      }
      var escape := d[current];
      assert rest[1] == escape && rest[2..] == d[current + 1..];
      current := current + 1;
      if escape == LETTER_U {
        var good, unicode, next := ReadCodePoint(d, current);
        if !good {
          return false, decoded;
        }
        assert rest[2 + (next - current)..] == d[next..];
        Appended(decoded, ToUtf8(unicode), DecodeBody(d[next..]));
        current := next;
        decoded := decoded + ToUtf8(unicode);
      } else if Unescape(escape) != 0 {
        Appended(decoded, [Unescape(escape)], DecodeBody(d[current..]));
        decoded := decoded + [Unescape(escape)];
      } else {
        return false, decoded;
      }
    }
    assert decoded + [] == decoded;
    ok := true;
  }

  lemma Appended(s: bytes, t: bytes, r: Decoded)
    ensures Prepend(s, Prepend(t, r)) == Prepend(s + t, r)
  {
    assert r.Decoded? ==> s + (t + r.s) == (s + t) + r.s;
  }

  // ------------------------------------------------------------ Unicode

  predicate IsScalarValue(cp: bv32) {
    cp <= 0x10ffff && !(0xd800 <= cp <= 0xdfff)
  }

  predicate IsTail(c: byte) {
    0x80 <= c <= 0xbf
  }

  /** The character that a byte string encodes by the syntax of section 4 of RFC
      3629, or a number above every scalar value if it encodes none. */
  function Utf8Meaning(s: bytes): bv32 {
    if |s| == 1 && s[0] <= 0x7f then s[0] as bv32
    else if |s| == 2 && 0xc2 <= s[0] <= 0xdf && IsTail(s[1]) then
      Join(Bits(s[0], 0x1f), s[1])
    else if |s| == 3 && 0xe0 <= s[0] <= 0xef && IsTail(s[1]) && IsTail(s[2])
         && (s[0] == 0xe0 ==> 0xa0 <= s[1]) && (s[0] == 0xed ==> s[1] <= 0x9f) then
      Join(Join(Bits(s[0], 0xf), s[1]), s[2])
    else if |s| == 4 && 0xf0 <= s[0] <= 0xf4 && IsTail(s[1]) && IsTail(s[2]) && IsTail(s[3])
         && (s[0] == 0xf0 ==> 0x90 <= s[1]) && (s[0] == 0xf4 ==> s[1] <= 0x8f) then
      Join(Join(Join(Bits(s[0], 0x7), s[1]), s[2]), s[3])
    else 0xffff_ffff
  }

  function Bits(c: byte, mask: bv32): bv32 {
    c as bv32 & mask
  }

  /** Six more bits from a continuation byte. */
  function Join(bits: bv32, tail: byte): bv32 {
    (bits << 6) | (tail as bv32 & 0x3f)
  }

  lemma OneByte(cp: bv32)
    requires cp <= 0x7f
    ensures cp as byte <= 0x7f && (cp as byte) as bv32 == cp
  {
  }

  lemma TwoBytes(cp: bv32)
    requires 0x7f < cp <= 0x7ff
    ensures 0xc2 <= Lead2(cp >> 6) <= 0xdf && IsTail(Tail(cp))
    ensures Join(Bits(Lead2(cp >> 6), 0x1f), Tail(cp)) == cp
  {
  }

  lemma ThreeBytes(cp: bv32)
    requires 0x7ff < cp <= 0xffff && IsScalarValue(cp)
    ensures 0xe0 <= Lead3(cp >> 12) <= 0xef && IsTail(Tail(cp >> 6)) && IsTail(Tail(cp))
    ensures Lead3(cp >> 12) == 0xe0 ==> 0xa0 <= Tail(cp >> 6)
    ensures Lead3(cp >> 12) == 0xed ==> Tail(cp >> 6) <= 0x9f
    ensures Join(Join(Bits(Lead3(cp >> 12), 0xf), Tail(cp >> 6)), Tail(cp)) == cp
  {
  }

  lemma FourBytes(cp: bv32)
    requires 0xffff < cp <= 0x10ffff
    ensures 0xf0 <= Lead4(cp >> 18) <= 0xf4
    ensures IsTail(Tail(cp >> 12)) && IsTail(Tail(cp >> 6)) && IsTail(Tail(cp))
    ensures Lead4(cp >> 18) == 0xf0 ==> 0x90 <= Tail(cp >> 12)
    ensures Lead4(cp >> 18) == 0xf4 ==> Tail(cp >> 12) <= 0x8f
  {
  }

  lemma FourBytesJoin(cp: bv32)
    requires 0xffff < cp <= 0x10ffff
    ensures Join(Join(Join(Bits(Lead4(cp >> 18), 0x7), Tail(cp >> 12)), Tail(cp >> 6)), Tail(cp)) == cp
  {
  }

  /** codePointToUTF8 gives every scalar value its UTF-8 form. */
  lemma Utf8RoundTrip(cp: bv32)
    requires IsScalarValue(cp)
    ensures Utf8Meaning(ToUtf8(cp)) == cp
  {
    if cp <= 0x7f { OneByte(cp); }
    else if cp <= 0x7ff { TwoBytes(cp); }
    else if cp <= 0xffff { ThreeBytes(cp); }
    else {
      FourBytes(cp);
      FourBytesJoin(cp);
    }
    hide Lead2, Lead3, Lead4, Tail, Join, IsTail, Bits;
  }

  /** `d` begins with four digits, of either case, that spell `unit`. */
  predicate Spells(d: bytes, unit: bv32) {
    && |d| >= 4 && unit <= 0xffff
    && HexValue(d[0]) == unit >> 12
    && HexValue(d[1]) == (unit >> 8) & 0xf
    && HexValue(d[2]) == (unit >> 4) & 0xf
    && HexValue(d[3]) == unit & 0xf
  }

  lemma DigitsJoin(unit: bv32)
    requires unit <= 0xffff
    ensures AddDigit(AddDigit(AddDigit(AddDigit(0, unit >> 12), (unit >> 8) & 0xf), (unit >> 4) & 0xf), unit & 0xf)
         == unit
    ensures unit >> 12 < 16 && (unit >> 8) & 0xf < 16 && (unit >> 4) & 0xf < 16 && unit & 0xf < 16
  {
  }

  lemma SpelledUnit(d: bytes, unit: bv32)
    requires Spells(d, unit)
    ensures FourDigits(d, 4, 0) == Point(unit, 4)
  {
    DigitsJoin(unit);
    SpelledDigits(d, HexValue(d[0]), HexValue(d[1]), HexValue(d[2]), HexValue(d[3]));
    hide AddDigit, HexValue, FourDigits;
  }

  lemma SpelledDigits(d: bytes, a: bv32, b: bv32, c: bv32, e: bv32)
    requires |d| >= 4 && a != 16 && b != 16 && c != 16 && e != 16
    requires a == HexValue(d[0]) && b == HexValue(d[1]) && c == HexValue(d[2]) && e == HexValue(d[3])
    ensures FourDigits(d, 4, 0) == Point(AddDigit(AddDigit(AddDigit(AddDigit(0, a), b), c), e), 4)
  {
    hide AddDigit, HexValue;
    assert d[1..][0] == d[1] && d[1..][1..] == d[2..] && d[2..][0] == d[2];
    assert d[2..][1..] == d[3..] && d[3..][0] == d[3];
    var x3 := AddDigit(AddDigit(AddDigit(0, a), b), c);
    assert FourDigits(d[3..], 1, x3) == Point(AddDigit(x3, e), 1);
    assert FourDigits(d[2..], 2, AddDigit(AddDigit(0, a), b)) == Point(AddDigit(x3, e), 2);
  }

  lemma ControlDigits(c: byte)
    requires IsControl(c)
    ensures HexValue(NUMERAL_0) == c as bv32 >> 12 && HexValue(NUMERAL_0) == (c as bv32 >> 8) & 0xf
    ensures HexValue(UpperHex(c >> 4)) == (c as bv32 >> 4) & 0xf
    ensures HexValue(UpperHex(c & 0xf)) == c as bv32 & 0xf
    ensures 0 < c as bv32 <= 0x1f && (c as bv32) as byte == c
  {
  }

  lemma ControlEscapeDecodes(c: byte, rest: bytes)
    requires IsControl(c)
    ensures DecodePoint([NUMERAL_0, NUMERAL_0, UpperHex(c >> 4), UpperHex(c & 0xf)] + rest)
         == Point(c as bv32, 4)
    ensures ToUtf8(c as bv32) == [c]
  {
    ControlDigits(c);
    hide HexValue, UpperHex;
    SpelledUnit([NUMERAL_0, NUMERAL_0, UpperHex(c >> 4), UpperHex(c & 0xf)] + rest, c as bv32);
    hide FourDigits, Combine;
  }

  lemma EscapeDecodes(c: byte, rest: bytes)
    requires c != 0
    ensures DecodeBody(Escape(c) + rest) == Prepend([c], DecodeBody(rest))
  {
    var d := Escape(c) + rest;
    hide UpperHex, HexValue, ToUtf8, DecodePoint;
    if ShortEscape(c) != 0 {
      ShortEscapeDecodes(c);
      assert d[2..] == rest;
      hide ShortEscape, Unescape;
    } else if IsControl(c) {
      ControlEscapeDecodes(c, rest);
      assert d[2..] == [NUMERAL_0, NUMERAL_0, UpperHex(c >> 4), UpperHex(c & 0xf)] + rest && d[6..] == rest;
      hide ShortEscape, Unescape;
    } else {
      assert d[1..] == rest;
    }
  }

  lemma ShortEscapeDecodes(c: byte)
    requires ShortEscape(c) != 0
    ensures Unescape(ShortEscape(c)) == c && c != 0 && ShortEscape(c) != LETTER_U
  {
  }

  /** Decoding inverts escaping. */
  lemma {:induction false} EscapeRoundTrip(s: bytes)
    requires 0 !in s
    ensures DecodeBody(EscapeAll(s)) == Decoded(s)
  {
    if s != [] {
      assert s == [s[0]] + s[1..] && s[0] in s;
      EscapeDecodes(s[0], EscapeAll(s[1..]));
      EscapeRoundTrip(s[1..]);
    }
  }

  /** Scanning and then decoding a quoted string gives the string back, and the
      scanner stops where the quoted string ends. */
  lemma QuoteRoundTrip(s: bytes, rest: bytes)
    requires 0 !in s
    ensures AfterString((Quote(s) + rest)[1..]) == (rest, true)
    ensures DecodeString(Quote(s)) == Decoded(s)
  {
    assert (Quote(s) + rest)[1..] == EscapeAll(s) + [QUOTE] + rest;
    QuotedIsScanned(s, rest);
    assert Quote(s)[1..|Quote(s)| - 1] == EscapeAll(s);
    EscapeRoundTrip(s);
  }

  /** One escape spells a scalar value of the basic plane; its UTF-8 form comes out. */
  lemma EscapeYieldsUtf8(cp: bv32, digits: bytes, rest: bytes)
    requires IsScalarValue(cp) && cp <= 0xffff && |digits| == 4 && Spells(digits, cp)
    ensures DecodeBody([BACKSLASH, LETTER_U] + digits + rest) == Prepend(ToUtf8(cp), DecodeBody(rest))
  {
    var d := [BACKSLASH, LETTER_U] + digits + rest;
    assert d[2..] == digits + rest && d[6..] == rest;
    assert Spells(d[2..], cp);
    SpelledUnit(d[2..], cp);
    hide ToUtf8, Spells, FourDigits, HexValue, Combine;
  }

  /** The two units of the surrogate pair for the scalar value 0x10000 + x
      (section 2.1 of RFC 2781, where x is called U'). */
  function High(x: bv32): bv32 {
    0xd800 + (x >> 10)
  }

  function Low(x: bv32): bv32 {
    0xdc00 + (x & 0x3ff)
  }

  lemma PairJoins(x: bv32)
    requires x < 0x100000
    ensures High(x) <= 0xdbff && High(x) >= 0xd800
    ensures Low(x) <= 0xdfff && Low(x) >= 0xdc00
    ensures Combine(High(x), Low(x)) == 0x10000 + x
  {
  }

  /** A surrogate pair of escapes spells any scalar value above 0xffff. */
  lemma PairYieldsUtf8(x: bv32, high: bytes, low: bytes, rest: bytes)
    requires x < 0x100000 && |high| == |low| == 4
    requires Spells(high, High(x)) && Spells(low, Low(x))
    ensures DecodeBody([BACKSLASH, LETTER_U] + high + [BACKSLASH, LETTER_U] + low + rest)
         == Prepend(ToUtf8(0x10000 + x), DecodeBody(rest))
  {
    var d := [BACKSLASH, LETTER_U] + high + [BACKSLASH, LETTER_U] + low + rest;
    var e := d[2..];
    assert e == high + [BACKSLASH, LETTER_U] + low + rest;
    assert e[6..] == low + rest && d[12..] == rest;
    assert Spells(e, High(x)) && Spells(e[6..], Low(x));
    SpelledUnit(e, High(x));
    SpelledUnit(e[6..], Low(x));
    PairJoins(x);
    hide ToUtf8, Spells, FourDigits, High, Low, Combine, HexValue;
    assert DecodePoint(e) == Point(0x10000 + x, 10);
  }

  // What comes out of escapes in general.

  predicate IsHighSurrogate(unit: bv32) {
    0xd800 <= unit <= 0xdbff
  }

  predicate IsLowSurrogate(unit: bv32) {
    0xdc00 <= unit <= 0xdfff
  }

  lemma JoinedBelow(a: bv32, b: bv32, c: bv32, e: bv32)
    requires a < 16 && b < 16 && c < 16 && e < 16
    ensures AddDigit(AddDigit(AddDigit(AddDigit(0, a), b), c), e) <= 0xffff
  {
  }

  lemma HexValueBelow(c: byte)
    ensures HexValue(c) <= 16
  {
  }

  lemma DigitsAreThere(d: bytes)
    requires FourDigits(d, 4, 0).Point?
    ensures |d| >= 4
    ensures HexValue(d[0]) != 16 && HexValue(d[1]) != 16 && HexValue(d[2]) != 16 && HexValue(d[3]) != 16
  {
    hide HexValue, AddDigit;
    assert d[1..][0] == d[1] && d[1..][1..] == d[2..] && d[2..][0] == d[2];
    assert d[2..][1..] == d[3..] && d[3..][0] == d[3];
  }

  /** Four digits are a unit of UTF-16. */
  lemma UnitBelow(d: bytes)
    requires FourDigits(d, 4, 0).Point?
    ensures FourDigits(d, 4, 0).cp <= 0xffff
  {
    hide HexValue, AddDigit, FourDigits;
    DigitsAreThere(d);
    HexValueBelow(d[0]);
    HexValueBelow(d[1]);
    HexValueBelow(d[2]);
    HexValueBelow(d[3]);
    SpelledDigits(d, HexValue(d[0]), HexValue(d[1]), HexValue(d[2]), HexValue(d[3]));
    JoinedBelow(HexValue(d[0]), HexValue(d[1]), HexValue(d[2]), HexValue(d[3]));
  }

  lemma CombineIsScalar(first: bv32, second: bv32)
    ensures 0xffff < Combine(first, second) <= 0x10ffff
  {
  }

  lemma SurrogateHasNoMeaning(cp: bv32)
    requires 0xd800 <= cp <= 0xdfff
    ensures Utf8Meaning(ToUtf8(cp)) == 0xffff_ffff
  {
    LeadOfSurrogate(cp);
    hide Lead3, Tail, Join, Bits;
  }

  lemma LeadOfSurrogate(cp: bv32)
    requires 0xd800 <= cp <= 0xdfff
    ensures Lead3(cp >> 12) == 0xed && Tail(cp >> 6) > 0x9f
  {
  }

  /** An escape that is decoded yields a scalar value, and bytes that mean it, if and
      only if it does not begin with a low surrogate. */
  lemma PointIsScalarExactly(d: bytes)
    requires DecodePoint(d).Point?
    ensures FourDigits(d, 4, 0).Point?
    ensures var cp := DecodePoint(d).cp;
            && (IsScalarValue(cp) <==> !IsLowSurrogate(FourDigits(d, 4, 0).cp))
            && (Utf8Meaning(ToUtf8(cp)) == cp <==> IsScalarValue(cp))
  {
    hide FourDigits, Combine, ToUtf8, Utf8Meaning;
    var cp := DecodePoint(d).cp;
    UnitBelow(d);
    if DecodePoint(d).used == 10 {
      CombineIsScalar(FourDigits(d, 4, 0).cp, FourDigits(d[6..], 4, 0).cp);
    }
    if IsScalarValue(cp) { Utf8RoundTrip(cp); } else { SurrogateHasNoMeaning(cp); }
  }

  /** The two units are the surrogate pair of the scalar value 0x10000 + x, and that
      is the result. */
  predicate PairFor(first: bv32, second: bv32, cp: bv32, x: bv32) {
    x < 0x100000 && first == High(x) && second == Low(x) && cp == 0x10000 + x
  }

  /** After a high surrogate any four digits are taken for the low one.  The result
      is what the two units mean by section 2.2 of RFC 2781 if and only if the second
      is a low surrogate. */
  lemma PairIsReadExactly(d: bytes)
    requires DecodePoint(d).Point? && IsHighSurrogate(FourDigits(d, 4, 0).cp)
    ensures |d| >= 10 && FourDigits(d[6..], 4, 0).Point? && DecodePoint(d).used == 10
    ensures var first, second := FourDigits(d, 4, 0).cp, FourDigits(d[6..], 4, 0).cp;
            (exists x: bv32 :: PairFor(first, second, DecodePoint(d).cp, x)) <==> IsLowSurrogate(second)
  {
    hide FourDigits, PairFor, Combine, IsLowSurrogate;
    var first, second := FourDigits(d, 4, 0).cp, FourDigits(d[6..], 4, 0).cp;
    if IsLowSurrogate(second) {
      PairSplits(first, second);
    }
    forall x: bv32 | PairFor(first, second, DecodePoint(d).cp, x)
      ensures IsLowSurrogate(second)
    {
      SecondIsLow(first, second, DecodePoint(d).cp, x);
    }
  }

  lemma SecondIsLow(first: bv32, second: bv32, cp: bv32, x: bv32)
    requires PairFor(first, second, cp, x)
    ensures IsLowSurrogate(second)
  {
    PairJoins(x);
    hide Low, High;
  }

  lemma PairSplits(first: bv32, second: bv32)
    requires IsHighSurrogate(first) && IsLowSurrogate(second)
    ensures PairFor(first, second, Combine(first, second), JoinHalves(first & 0x3ff, second & 0x3ff))
  {
    hide PairFor, Combine, IsHighSurrogate, IsLowSurrogate, JoinHalves;
    UnitParts(first, second);
    CombineIs(first, second);
    PairFromHalves(first, second, first & 0x3ff, second & 0x3ff);
  }

  function JoinHalves(a: bv32, b: bv32): bv32 {
    (a << 10) + b
  }

  lemma CombineIs(first: bv32, second: bv32)
    ensures Combine(first, second) == 0x10000 + JoinHalves(first & 0x3ff, second & 0x3ff)
  {
    SumRegroups((first & 0x3ff) << 10, second & 0x3ff);
  }

  lemma PairFromHalves(first: bv32, second: bv32, a: bv32, b: bv32)
    requires first == 0xd800 + a && second == 0xdc00 + b && a <= 0x3ff && b <= 0x3ff
    ensures PairFor(first, second, 0x10000 + JoinHalves(a, b), JoinHalves(a, b))
  {
    HalvesJoin(a, b);
    hide JoinHalves;
  }

  lemma UnitParts(first: bv32, second: bv32)
    requires IsHighSurrogate(first) && IsLowSurrogate(second)
    ensures first == 0xd800 + (first & 0x3ff) && second == 0xdc00 + (second & 0x3ff)
    ensures first & 0x3ff <= 0x3ff && second & 0x3ff <= 0x3ff
  {
  }

  lemma HalvesJoin(a: bv32, b: bv32)
    requires a <= 0x3ff && b <= 0x3ff
    ensures var x := JoinHalves(a, b); x < 0x100000 && x >> 10 == a && x & 0x3ff == b
  {
  }

  lemma SumRegroups(a: bv32, b: bv32)
    ensures 0x10000 + a + b == 0x10000 + (a + b)
  {
  }

  // Characters one by one.

  /** The escapes that are written: quote and backslash, the five letters, and four
      upper-case digits for the other control characters; everything else is itself. */
  lemma EscapesAreExactly(c: byte)
    requires c != 0
    ensures Escape(c) ==
              if c == 34 then [92, 34]
              else if c == 92 then [92, 92]
              else if c == 8 then [92, 98]
              else if c == 12 then [92, 102]
              else if c == 10 then [92, 110]
              else if c == 13 then [92, 114]
              else if c == 9 then [92, 116]
              else if c < 16 then [92, 117, 48, 48, 48, if c < 10 then 48 + c else 55 + c]
              else if c < 32 then [92, 117, 48, 48, 49, if c < 26 then 32 + c else 39 + c]
              else [c]
  {
  }

  /** The letters that may stand behind a backslash, besides the u. */
  lemma UnescapesAreExactly(letter: byte)
    ensures Unescape(letter) ==
              if letter == 34 || letter == 47 || letter == 92 then letter
              else if letter == 98 then 8
              else if letter == 102 then 12
              else if letter == 110 then 10
              else if letter == 114 then 13
              else if letter == 116 then 9
              else 0
  {
  }

  /** A hexadecimal digit is of either case. */
  lemma HexValueExactly(c: byte, v: bv32)
    requires v < 16
    ensures HexValue(c) == v <==> (v < 10 && c as bv32 == 48 + v) || (v >= 10 && (c as bv32 == 87 + v || c as bv32 == 55 + v))
  {
  }

  /** A backslash in front of any other character, or of none, is an error. */
  lemma BadEscapesFail(letter: byte, rest: bytes)
    requires letter != 117 && Unescape(letter) == 0
    ensures DecodeBody([92, letter] + rest).BadString? && DecodeBody([92]).BadString?
  {
  }
}
