/** Well-formed UTF-8, as section 4 of RFC 3629 spells it out octet by octet. */
module Utf8 {
  import opened Bytes

  predicate Continuation(b: Byte) {
    0x80 <= b <= 0xBF
  }

  /** The length of the character `b` starts with, or 0 if it starts with none. */
  function CharLength(b: Octets): (n: nat)
    ensures n <= |b| && n <= 4
  {
    if |b| >= 1 && b[0] <= 0x7F then 1
    else if |b| >= 2 && 0xC2 <= b[0] <= 0xDF && Continuation(b[1]) then 2
    else if |b| >= 3 && ThreeOctetLead(b[0], b[1]) && Continuation(b[2]) then 3
    else if |b| >= 4 && FourOctetLead(b[0], b[1]) && Continuation(b[2]) && Continuation(b[3]) then 4
    else 0
  }

  predicate ThreeOctetLead(b0: Byte, b1: Byte) {
    || (b0 == 0xE0 && 0xA0 <= b1 <= 0xBF)
    || (0xE1 <= b0 <= 0xEC && Continuation(b1))
    || (b0 == 0xED && 0x80 <= b1 <= 0x9F)
    || (0xEE <= b0 <= 0xEF && Continuation(b1))
  }

  predicate FourOctetLead(b0: Byte, b1: Byte) {
    || (b0 == 0xF0 && 0x90 <= b1 <= 0xBF)
    || (0xF1 <= b0 <= 0xF3 && Continuation(b1))
    || (b0 == 0xF4 && 0x80 <= b1 <= 0x8F)
  }

  predicate ValidUtf8(b: Octets)
    decreases |b|
  {
    b == [] || (CharLength(b) > 0 && ValidUtf8(b[CharLength(b)..]))
  }

  /** A Rust `String` or `&str`, as its octets. */
  type Text = b: Octets | ValidUtf8(b) witness []

  predicate Ascii(b: Octets) {
    forall k :: 0 <= k < |b| ==> b[k] <= 0x7F
  }

  lemma {:induction false} AsciiIsUtf8(b: Octets)
    requires Ascii(b)
    ensures ValidUtf8(b)
    decreases |b|
  {
    if b != [] {
      AsciiIsUtf8(b[1..]);
    }
  }

  // ---------------------------------------------------------------------------
  // Well-formed is encoded
  // ---------------------------------------------------------------------------

  /** A Unicode scalar value: a code point up to U+10FFFF that is no surrogate. */
  type Scalar = c: nat | c < 0xD800 || 0xE000 <= c <= 0x10FFFF witness 0

  /** The octets of one character, by the table in section 3 of RFC 3629. */
  function Encoded(c: Scalar): (b: Octets)
    ensures 1 <= |b| <= 4
  {
    if c < 0x80 then [c]
    else if c < 0x800 then [0xC0 + c / 0x40, 0x80 + c % 0x40]
    else if c < 0x1_0000 then [0xE0 + c / 0x1000, 0x80 + c / 0x40 % 0x40, 0x80 + c % 0x40]
    else [0xF0 + c / 0x4_0000, 0x80 + c / 0x1000 % 0x40, 0x80 + c / 0x40 % 0x40, 0x80 + c % 0x40]
  }

  function EncodedText(cs: seq<Scalar>): Octets {
    if cs == [] then [] else Encoded(cs[0]) + EncodedText(cs[1..])
  }

  lemma LowDigit(q: nat, r: nat)
    requires r < 0x40
    ensures (q * 0x40 + r) / 0x40 == q && (q * 0x40 + r) % 0x40 == r
  {
  }

  /** The six-bit digits below a leading digit. */
  lemma SixBitDigits(a: nat, x: nat, y: nat, z: nat)
    requires x < 0x40 && y < 0x40 && z < 0x40
    ensures var c := a * 0x4_0000 + x * 0x1000 + y * 0x40 + z;
            c / 0x4_0000 == a && c / 0x1000 % 0x40 == x && c / 0x40 % 0x40 == y && c % 0x40 == z
            && c / 0x1000 == a * 0x40 + x && c / 0x40 == a * 0x1000 + x * 0x40 + y
  {
    var c := a * 0x4_0000 + x * 0x1000 + y * 0x40 + z;
    LowDigit(a, x);
    LowDigit(a * 0x40 + x, y);
    LowDigit(a * 0x1000 + x * 0x40 + y, z);
    assert c / 0x1000 == c / 0x40 / 0x40;
    assert c / 0x4_0000 == c / 0x1000 / 0x40;
  }

  /** The code point two octets spell, and so on. */
  lemma TwoOctets(b0: Byte, b1: Byte)
    requires 0xC2 <= b0 <= 0xDF && Continuation(b1)
    ensures exists c: Scalar :: Encoded(c) == [b0, b1]
  {
    var c: Scalar := (b0 as int - 0xC0) * 0x40 + (b1 as int - 0x80);
    assert Encoded(c) == [b0, b1];
  }

  lemma ThreeOctets(b0: Byte, b1: Byte, b2: Byte)
    requires ThreeOctetLead(b0, b1) && Continuation(b2)
    ensures exists c: Scalar :: Encoded(c) == [b0, b1, b2]
  {
    var x, y, z := b0 as int - 0xE0, b1 as int - 0x80, b2 as int - 0x80;
    SixBitDigits(0, x, y, z);
    var c: Scalar := x * 0x1000 + y * 0x40 + z;
    assert Encoded(c) == [b0, b1, b2];
  }

  lemma FourOctets(b0: Byte, b1: Byte, b2: Byte, b3: Byte)
    requires FourOctetLead(b0, b1) && Continuation(b2) && Continuation(b3)
    ensures exists c: Scalar :: Encoded(c) == [b0, b1, b2, b3]
  {
    var a, x, y, z := b0 as int - 0xF0, b1 as int - 0x80, b2 as int - 0x80, b3 as int - 0x80;
    SixBitDigits(a, x, y, z);
    var c: Scalar := a * 0x4_0000 + x * 0x1000 + y * 0x40 + z;
    assert Encoded(c) == [b0, b1, b2, b3];
  }

  /** A character at the front is the encoding of a scalar value. */
  lemma CharIsEncoded(b: Octets)
    requires CharLength(b) > 0
    ensures exists c: Scalar :: Encoded(c) == b[..CharLength(b)]
  {
    hide Encoded, ThreeOctetLead, FourOctetLead, Continuation;
    match CharLength(b) {
      case 1 =>
        assert b[..1] == [b[0]] == Encoded(b[0]) by { OneOctet(b[0]); }
      case 2 =>
        TwoOctets(b[0], b[1]);
        assert b[..2] == [b[0], b[1]];
      case 3 =>
        ThreeOctets(b[0], b[1], b[2]);
        assert b[..3] == [b[0], b[1], b[2]];
      case _ =>
        FourOctets(b[0], b[1], b[2], b[3]);
        assert b[..4] == [b[0], b[1], b[2], b[3]];
    }
  }

  lemma OneOctet(b0: Byte)
    requires b0 <= 0x7F
    ensures Encoded(b0) == [b0]
  {
  }

  lemma EncodedIsOneChar(c: Scalar)
    ensures CharLength(Encoded(c)) == |Encoded(c)|
  {
    if 0x800 <= c < 0x1_0000 {
      SixBitDigits(0, c / 0x1000, c / 0x40 % 0x40, c % 0x40);
    } else if 0x1_0000 <= c {
      SixBitDigits(c / 0x4_0000, c / 0x1000 % 0x40, c / 0x40 % 0x40, c % 0x40);
    }
  }

  lemma CharLengthOfPrefix(b: Octets, rest: Octets)
    ensures CharLength(b) > 0 ==> CharLength(b + rest) == CharLength(b)
  {
    assert forall k :: 0 <= k < |b| ==> (b + rest)[k] == b[k];
  }

  lemma {:induction false} EncodedTextIsUtf8(cs: seq<Scalar>)
    ensures ValidUtf8(EncodedText(cs))
  {
    hide Encoded, CharLength;
    if cs != [] {
      EncodedTextIsUtf8(cs[1..]);
      EncodedIsOneChar(cs[0]);
      CharLengthOfPrefix(Encoded(cs[0]), EncodedText(cs[1..]));
      assert EncodedText(cs)[|Encoded(cs[0])|..] == EncodedText(cs[1..]);
    }
  }

  /** Octets are well-formed UTF-8 exactly when they encode some sequence of scalar values. */
  lemma {:induction false} Utf8IsEncodedText(b: Octets)
    ensures ValidUtf8(b) <==> exists cs :: b == EncodedText(cs)
    decreases |b|
  {
    hide Encoded, CharLength;
    if b == [] {
      assert b == EncodedText([]);
    } else if ValidUtf8(b) {
      var n := CharLength(b);
      CharIsEncoded(b);
      Utf8IsEncodedText(b[n..]);
      var cs :| b[n..] == EncodedText(cs);
      var c: Scalar :| Encoded(c) == b[..n];
      assert ([c] + cs)[1..] == cs;
      assert b == b[..n] + b[n..] == EncodedText([c] + cs);
    }
    if cs :| b == EncodedText(cs) {
      EncodedTextIsUtf8(cs);
    }
  }
}
