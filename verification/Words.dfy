/** Words of 32 bits on a byte stream. */
module Words {
  import opened Bytes

  /** One bit of a byte. */
  function Bit(on: bool, weight: byte): byte {
    if on then weight else 0
  }

  function Odd(n: nat): bool {
    n % 2 == 1
  }

  function Half(n: nat): nat {
    n / 2
  }

  function ByteOf(n: nat): byte
    requires n < 256
  {
    var h1 := Half(n);
    var h2 := Half(h1);
    var h3 := Half(h2);
    var h4 := Half(h3);
    var h5 := Half(h4);
    var h6 := Half(h5);
    var h7 := Half(h6);
    Joined(Odd(h7), Odd(h6), Odd(h5), Odd(h4), Odd(h3), Odd(h2), Odd(h1), Odd(n))
  }

  function Worth(c: byte, weight: byte, n: nat): nat {
    if c & weight != 0 then n else 0
  }

  function ValueOf(c: byte): nat {
    Worth(c, 128, 128) + Worth(c, 64, 64) + Worth(c, 32, 32) + Worth(c, 16, 16)
    + Worth(c, 8, 8) + Worth(c, 4, 4) + Worth(c, 2, 2) + Worth(c, 1, 1)
  }

  lemma BitsApart(b7: bool, b6: bool, b5: bool, b4: bool, b3: bool, b2: bool, b1: bool, b0: bool)
    ensures var c := Bit(b7, 128) | Bit(b6, 64) | Bit(b5, 32) | Bit(b4, 16) | Bit(b3, 8) | Bit(b2, 4) | Bit(b1, 2) | Bit(b0, 1);
            && (c & 128 != 0 <==> b7) && (c & 64 != 0 <==> b6) && (c & 32 != 0 <==> b5) && (c & 16 != 0 <==> b4)
            && (c & 8 != 0 <==> b3) && (c & 4 != 0 <==> b2) && (c & 2 != 0 <==> b1) && (c & 1 != 0 <==> b0)
  {
  }

  function Part(on: bool, n: nat): nat {
    if on then n else 0
  }

  function Joined(b7: bool, b6: bool, b5: bool, b4: bool, b3: bool, b2: bool, b1: bool, b0: bool): byte {
    Bit(b7, 128) | Bit(b6, 64) | Bit(b5, 32) | Bit(b4, 16) | Bit(b3, 8) | Bit(b2, 4) | Bit(b1, 2) | Bit(b0, 1)
  }

  function Total(b7: bool, b6: bool, b5: bool, b4: bool, b3: bool, b2: bool, b1: bool, b0: bool): nat {
    Part(b7, 128) + Part(b6, 64) + Part(b5, 32) + Part(b4, 16) + Part(b3, 8) + Part(b2, 4) + Part(b1, 2) + Part(b0, 1)
  }

  lemma JoinedIsWorthTotal(b7: bool, b6: bool, b5: bool, b4: bool, b3: bool, b2: bool, b1: bool, b0: bool)
    ensures ValueOf(Joined(b7, b6, b5, b4, b3, b2, b1, b0)) == Total(b7, b6, b5, b4, b3, b2, b1, b0)
  {
    BitsApart(b7, b6, b5, b4, b3, b2, b1, b0);
    hide Bit;
  }

  lemma Halved(n: nat, bound: nat)
    requires n < 2 * bound
    ensures n == 2 * Half(n) + Part(Odd(n), 1) && Half(n) < bound
  {
  }

  lemma Weigh(b7: bool, b6: bool, b5: bool, b4: bool, b3: bool, b2: bool, b1: bool, b0: bool)
    ensures Total(b7, b6, b5, b4, b3, b2, b1, b0)
         == 128 * Part(b7, 1) + 64 * Part(b6, 1) + 32 * Part(b5, 1) + 16 * Part(b4, 1)
            + 8 * Part(b3, 1) + 4 * Part(b2, 1) + 2 * Part(b1, 1) + Part(b0, 1)
  {
  }

  lemma AddUp(n: nat, h1: nat, h2: nat, h3: nat, h4: nat, h5: nat, h6: nat, h7: nat, b: seq<bool>)
    requires |b| == 8
    requires n == 2 * h1 + Part(b[0], 1) && h1 == 2 * h2 + Part(b[1], 1) && h2 == 2 * h3 + Part(b[2], 1)
    requires h3 == 2 * h4 + Part(b[3], 1) && h4 == 2 * h5 + Part(b[4], 1) && h5 == 2 * h6 + Part(b[5], 1)
    requires h6 == 2 * h7 + Part(b[6], 1) && h7 == Part(b[7], 1)
    ensures Total(b[7], b[6], b[5], b[4], b[3], b[2], b[1], b[0]) == n
  {
    Weigh(b[7], b[6], b[5], b[4], b[3], b[2], b[1], b[0]);
    hide Part, Total;
  }

  lemma LowBits(n: nat)
    requires n < 256
    ensures var h1 := Half(n);
            var h2 := Half(h1);
            var h3 := Half(h2);
            var h4 := Half(h3);
            && n == 2 * h1 + Part(Odd(n), 1) && h1 == 2 * h2 + Part(Odd(h1), 1)
            && h2 == 2 * h3 + Part(Odd(h2), 1) && h3 == 2 * h4 + Part(Odd(h3), 1) && h4 < 16
  {
    hide Odd, Half, Part;
    Halved(n, 128);
    Halved(Half(n), 64);
    Halved(Half(Half(n)), 32);
    Halved(Half(Half(Half(n))), 16);
  }

  lemma HighBits(n: nat)
    requires n < 16
    ensures var h1 := Half(n);
            var h2 := Half(h1);
            var h3 := Half(h2);
            && n == 2 * h1 + Part(Odd(n), 1) && h1 == 2 * h2 + Part(Odd(h1), 1)
            && h2 == 2 * h3 + Part(Odd(h2), 1) && h3 == Part(Odd(h3), 1)
  {
    hide Odd, Half, Part;
    Halved(n, 8);
    Halved(Half(n), 4);
    Halved(Half(Half(n)), 2);
    Halved(Half(Half(Half(n))), 1);
  }

  /** The value of the byte for a number is the number. */
  lemma ByteRoundTrip(n: nat)
    requires n < 256
    ensures ValueOf(ByteOf(n)) == n
  {
    hide Odd, Half, Part, Total, Joined, ValueOf;
    var h1 := Half(n);
    var h2 := Half(h1);
    var h3 := Half(h2);
    var h4 := Half(h3);
    var h5 := Half(h4);
    var h6 := Half(h5);
    var h7 := Half(h6);
    LowBits(n);
    HighBits(h4);
    AddUp(n, h1, h2, h3, h4, h5, h6, h7, [Odd(n), Odd(h1), Odd(h2), Odd(h3), Odd(h4), Odd(h5), Odd(h6), Odd(h7)]);
    JoinedIsWorthTotal(Odd(h7), Odd(h6), Odd(h5), Odd(h4), Odd(h3), Odd(h2), Odd(h1), Odd(n));
  }

  /** Bytes count upwards from nothing. */
  lemma ValueCounts(c: byte)
    ensures ValueOf(0) == 0 && (c < 255 ==> ValueOf(c + 1) == ValueOf(c) + 1)
  {
  }

  lemma SameTotal(b7: bool, b6: bool, b5: bool, b4: bool, b3: bool, b2: bool, b1: bool, b0: bool,
                  c7: bool, c6: bool, c5: bool, c4: bool, c3: bool, c2: bool, c1: bool, c0: bool)
    requires Total(b7, b6, b5, b4, b3, b2, b1, b0) == Total(c7, c6, c5, c4, c3, c2, c1, c0)
    ensures b7 == c7 && b6 == c6 && b5 == c5 && b4 == c4 && b3 == c3 && b2 == c2 && b1 == c1 && b0 == c0
  {
  }

  /** An unsigned word of 32 bits in little-endian order. */
  function Word(n: nat): (r: bytes)
    ensures |r| == 4
  {
    [ByteOf(n % 256), ByteOf(n / 256 % 256), ByteOf(n / 256 / 256 % 256), ByteOf(n / 256 / 256 / 256 % 256)]
  }

  function WordValue(s: bytes): (n: nat)
    requires |s| == 4
  {
    ValueOf(s[0]) + 256 * (ValueOf(s[1]) + 256 * (ValueOf(s[2]) + 256 * ValueOf(s[3])))
  }

  lemma WordRoundTrip(n: nat)
    requires n < 0x1_0000_0000
    ensures WordValue(Word(n)) == n
  {
    hide ByteOf, ValueOf;
    var n1 := n / 256;
    var n2 := n1 / 256;
    var n3 := n2 / 256;
    ByteRoundTrip(n % 256);
    ByteRoundTrip(n1 % 256);
    ByteRoundTrip(n2 % 256);
    ByteRoundTrip(n3 % 256);
    assert n3 % 256 == n3;
    var w := Word(n);
    assert w[0] == ByteOf(n % 256) && w[1] == ByteOf(n1 % 256) && w[2] == ByteOf(n2 % 256) && w[3] == ByteOf(n3 % 256);
    hide Word;
  }

  lemma BitsDecide(c: byte, d: byte)
    requires (c & 128 != 0) == (d & 128 != 0) && (c & 64 != 0) == (d & 64 != 0)
    requires (c & 32 != 0) == (d & 32 != 0) && (c & 16 != 0) == (d & 16 != 0)
    requires (c & 8 != 0) == (d & 8 != 0) && (c & 4 != 0) == (d & 4 != 0)
    requires (c & 2 != 0) == (d & 2 != 0) && (c & 1 != 0) == (d & 1 != 0)
    ensures c == d
  {
  }

  lemma ValueIsTotal(c: byte)
    ensures ValueOf(c) == Total(c & 128 != 0, c & 64 != 0, c & 32 != 0, c & 16 != 0,
                                c & 8 != 0, c & 4 != 0, c & 2 != 0, c & 1 != 0) < 256
  {
  }

  /** The byte for the value of a byte is the byte. */
  lemma ValueRoundTrip(c: byte)
    ensures ValueOf(c) < 256 && ByteOf(ValueOf(c)) == c
  {
    hide ValueOf, ByteOf, Total;
    ValueIsTotal(c);
    var d := ByteOf(ValueOf(c));
    ByteRoundTrip(ValueOf(c));
    ValueIsTotal(d);
    SameTotal(c & 128 != 0, c & 64 != 0, c & 32 != 0, c & 16 != 0, c & 8 != 0, c & 4 != 0, c & 2 != 0, c & 1 != 0,
              d & 128 != 0, d & 64 != 0, d & 32 != 0, d & 16 != 0, d & 8 != 0, d & 4 != 0, d & 2 != 0, d & 1 != 0);
    BitsDecide(c, d);
  }

  lemma Split(low: nat, high: nat)
    requires low < 256
    ensures (low + 256 * high) % 256 == low && (low + 256 * high) / 256 == high
  {
  }

  /** Every four bytes are the word for their value. */
  lemma ValueOfWord(s: bytes)
    requires |s| == 4
    ensures Word(WordValue(s)) == s && WordValue(s) < 0x1_0000_0000
  {
    hide ValueOf, ByteOf;
    ValueRoundTrip(s[0]);
    ValueRoundTrip(s[1]);
    ValueRoundTrip(s[2]);
    ValueRoundTrip(s[3]);
    var n3 := ValueOf(s[3]);
    var n2 := ValueOf(s[2]) + 256 * n3;
    var n1 := ValueOf(s[1]) + 256 * n2;
    Split(ValueOf(s[2]), n3);
    Split(ValueOf(s[1]), n2);
    Split(ValueOf(s[0]), n1);
    assert n3 % 256 == n3;
  }

  /** The low byte comes first. */
  lemma LittleEnd()
    ensures Word(0x01020304) == [4, 3, 2, 1] && Word(0x00010000) == [0, 0, 1, 0]
  {
    assert WordValue([4, 3, 2, 1]) == 0x01020304;
    assert WordValue([0, 0, 1, 0]) == 0x00010000;
    ValueOfWord([4, 3, 2, 1]);
    ValueOfWord([0, 0, 1, 0]);
  }
}
