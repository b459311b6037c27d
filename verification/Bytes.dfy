/** Big-endian fields and UTF-8 validity (RFC 3629, section 4) over byte sequences. */
module Bytes {
  import opened Bits

  function E16(n: U16): (b: seq<Byte>)
    ensures |b| == 2
  {
    [n / 0x100, n % 0x100]
  }

  function E24(n: nat): (b: seq<Byte>)
    requires n < 0x100_0000
    ensures |b| == 3
  {
    [n / 0x1_0000, n / 0x100 % 0x100, n % 0x100]
  }

  /** Two or three bytes read as one big-endian number, as (a << 8) | b does. */
  function Be16(a: Byte, b: Byte): (n: nat)
    ensures n < 0x1_0000
  {
    a * 0x100 + b
  }

  function Be24(a: Byte, b: Byte, c: Byte): (n: nat)
    ensures n < 0x100_0000
  {
    a * 0x1_0000 + b * 0x100 + c
  }

  lemma WriteRead16(a: Byte, b: Byte)
    ensures E16(Be16(a, b)) == [a, b]
  {
  }

  lemma ReadWrite16(n: U16)
    ensures Be16(E16(n)[0], E16(n)[1]) == n
  {
  }

  lemma WriteRead24(a: Byte, b: Byte, c: Byte)
    ensures E24(Be24(a, b, c)) == [a, b, c]
  {
    var n := Be24(a, b, c);
    assert n / 0x100 == a * 0x100 + b;
    assert n % 0x100 == c;
  }

  lemma ReadWrite24(n: nat)
    requires n < 0x100_0000
    ensures Be24(E24(n)[0], E24(n)[1], E24(n)[2]) == n
  {
  }

  predicate Continues(b: Byte) {
    0x80 <= b <= 0xBF
  }

  /** The length of the UTF-8 sequence at the front, or 0 when there is none. */
  function SequenceLength(b: seq<Byte>): (n: nat)
    ensures n <= |b|
  {
    if b == [] then 0
    else if b[0] < 0x80 then 1
    else if |b| >= 2 && 0xC2 <= b[0] <= 0xDF && Continues(b[1]) then 2
    else if |b| >= 3 && Continues(b[2])
            && ((b[0] == 0xE0 && 0xA0 <= b[1] <= 0xBF)
                || (b[0] == 0xED && 0x80 <= b[1] <= 0x9F)
                || (0xE1 <= b[0] <= 0xEF && b[0] != 0xED && Continues(b[1]))) then 3
    else if |b| >= 4 && Continues(b[2]) && Continues(b[3])
            && ((b[0] == 0xF0 && 0x90 <= b[1] <= 0xBF)
                || (0xF1 <= b[0] <= 0xF3 && Continues(b[1]))
                || (b[0] == 0xF4 && 0x80 <= b[1] <= 0x8F)) then 4
    else 0
  }

  /** String::from_utf8 succeeds. */
  predicate ValidUtf8(b: seq<Byte>) {
    b == [] || (SequenceLength(b) > 0 && ValidUtf8(b[SequenceLength(b)..]))
  }

  /** What a big-endian field of any width stands for, the last byte being the units. */
  function BigEndian(b: seq<Byte>): nat {
    if b == [] then 0 else 0x100 * BigEndian(b[..|b| - 1]) + b[|b| - 1]
  }

  lemma ReadsBigEndian(a: Byte, b: Byte, c: Byte)
    ensures Be16(a, b) == BigEndian([a, b]) && Be24(a, b, c) == BigEndian([a, b, c])
  {
    assert [a][..0] == [] && BigEndian([a]) == a;
    assert [a, b][..1] == [a] && BigEndian([a, b]) == 0x100 * a + b;
    assert [a, b, c][..2] == [a, b];
  }

  /** Fields are read and written with the high byte first. */
  lemma FieldsAreBigEndian(a: Byte, b: Byte, c: Byte, n: nat)
    ensures Be16(a, b) == BigEndian([a, b]) && Be24(a, b, c) == BigEndian([a, b, c])
    ensures n < 0x1_0000 ==> BigEndian(E16(n)) == n
    ensures n < 0x100_0000 ==> BigEndian(E24(n)) == n
  {
    ReadsBigEndian(a, b, c);
    if n < 0x1_0000 {
      ReadWrite16(n);
      ReadsBigEndian(E16(n)[0], E16(n)[1], c);
      Whole2(E16(n));
    }
    if n < 0x100_0000 {
      ReadWrite24(n);
      ReadsBigEndian(E24(n)[0], E24(n)[1], E24(n)[2]);
      Whole3(E24(n));
    }
    hide E16, E24, Be16, Be24, BigEndian;
  }

  lemma Whole2(e: seq<Byte>)
    requires |e| == 2
    ensures e == [e[0], e[1]]
  {
  }

  lemma Whole3(e: seq<Byte>)
    requires |e| == 3
    ensures e == [e[0], e[1], e[2]]
  {
  }

  // ---- UTF-8 by its encoder (RFC 3629, section 3) ----

  /** A Unicode scalar value: every code point but the surrogates. */
  type Scalar = n: nat | n < 0xD800 || 0xE000 <= n < 0x11_0000

  function EncodeScalar(c: Scalar): (b: seq<Byte>)
    ensures 0 < |b|
  {
    if c < 0x80 then [c]
    else if c < 0x800 then [0xC0 + c / 0x40, 0x80 + c % 0x40]
    else if c < 0x1_0000 then [0xE0 + c / 0x1000, 0x80 + c / 0x40 % 0x40, 0x80 + c % 0x40]
    else [0xF0 + c / 0x4_0000, 0x80 + c / 0x1000 % 0x40, 0x80 + c / 0x40 % 0x40, 0x80 + c % 0x40]
  }

  function EncodeText(text: seq<Scalar>): seq<Byte> {
    if text == [] then [] else EncodeScalar(text[0]) + EncodeText(text[1..])
  }

  lemma ScalarReads(c: Scalar, rest: seq<Byte>)
    ensures SequenceLength(EncodeScalar(c) + rest) == |EncodeScalar(c)|
  {
    var b := EncodeScalar(c) + rest;
    if 0x800 <= c {
      if c < 0x1_0000 {
        assert c / 0x1000 == 0 ==> c / 0x40 % 0x40 >= 0x20;
        assert c / 0x1000 == 0xD ==> c / 0x40 % 0x40 < 0x20;
      } else {
        assert c / 0x4_0000 == 0 ==> c / 0x1000 % 0x40 >= 0x10;
        assert c / 0x4_0000 == 4 ==> c / 0x1000 % 0x40 < 0x10;
      }
    }
  }

  lemma Scalar2(x: nat, y: nat) returns (c: Scalar)
    requires 2 <= x < 0x20 && y < 0x40
    ensures EncodeScalar(c) == [0xC0 + x, 0x80 + y]
  {
    c := x * 0x40 + y;
  }

  lemma Scalar3(x: nat, y: nat, z: nat) returns (c: Scalar)
    requires x < 0x10 && y < 0x40 && z < 0x40
    requires (x == 0 ==> 0x20 <= y) && (x == 0xD ==> y < 0x20)
    ensures EncodeScalar(c) == [0xE0 + x, 0x80 + y, 0x80 + z]
  {
    var top := x * 0x40 + y;
    c := top * 0x40 + z;
    assert c / 0x40 == top && top / 0x40 == x;
    assert c / 0x1000 == x;
  }

  lemma Scalar4(x: nat, y: nat, z: nat, w: nat) returns (c: Scalar)
    requires x < 5 && y < 0x40 && z < 0x40 && w < 0x40
    requires (x == 0 ==> 0x10 <= y) && (x == 4 ==> y < 0x10)
    ensures EncodeScalar(c) == [0xF0 + x, 0x80 + y, 0x80 + z, 0x80 + w]
  {
    var top := x * 0x40 + y;
    var high := top * 0x40 + z;
    c := high * 0x40 + w;
    assert c / 0x40 == high && high / 0x40 == top && top / 0x40 == x;
    assert c / 0x1000 == top && c / 0x4_0000 == x;
  }

  lemma SequenceIsScalar(b: seq<Byte>) returns (c: Scalar)
    requires SequenceLength(b) > 0
    ensures EncodeScalar(c) == b[..SequenceLength(b)]
  {
    var n := SequenceLength(b);
    if n == 1 {
      c := b[0];
    } else {
      hide EncodeScalar;
      if n == 2 {
        c := Scalar2(b[0] - 0xC0, b[1] - 0x80);
      } else if n == 3 {
        c := Scalar3(b[0] - 0xE0, b[1] - 0x80, b[2] - 0x80);
      } else {
        c := Scalar4(b[0] - 0xF0, b[1] - 0x80, b[2] - 0x80, b[3] - 0x80);
      }
    }
  }

  lemma {:induction false} EncodedIsValid(text: seq<Scalar>)
    ensures ValidUtf8(EncodeText(text))
  {
    hide SequenceLength, EncodeScalar;
    if text != [] {
      var b := EncodeText(text);
      ScalarReads(text[0], EncodeText(text[1..]));
      assert b[|EncodeScalar(text[0])|..] == EncodeText(text[1..]);
      EncodedIsValid(text[1..]);
    }
  }

  lemma {:induction false} ValidIsEncoded(b: seq<Byte>) returns (text: seq<Scalar>)
    requires ValidUtf8(b)
    ensures b == EncodeText(text)
  {
    hide SequenceLength, EncodeScalar;
    text := [];
    if b != [] {
      var c := SequenceIsScalar(b);
      var rest := ValidIsEncoded(b[SequenceLength(b)..]);
      text := [c] + rest;
      assert text[1..] == rest;
    }
  }

  /** The bytes that validate are exactly the encodings of sequences of scalar values. */
  lemma ValidUtf8Iff(b: seq<Byte>)
    ensures ValidUtf8(b) <==> exists text :: b == EncodeText(text)
  {
    hide ValidUtf8, EncodeText;
    if ValidUtf8(b) {
      var text := ValidIsEncoded(b);
    }
    if text :| b == EncodeText(text) {
      EncodedIsValid(text);
    }
  }

  /** Every ASCII byte string validates. */
  lemma {:induction false} AsciiIsValid(b: seq<Byte>)
    requires forall i :: 0 <= i < |b| ==> b[i] < 0x80
    ensures ValidUtf8(b)
  {
    if b != [] {
      AsciiIsValid(b[1..]);
    }
  }
}
