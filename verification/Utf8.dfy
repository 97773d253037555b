/** UTF-8 well-formedness (table 3-7 of the Unicode Standard), as `String::from_utf8` checks it. */
module Utf8 {
  import opened Text

  predicate Within(b: Byte, low: nat, high: nat) { low <= b as int <= high }

  predicate IsTail(b: Byte) { Within(b, 0x80, 0xBF) }

  predicate TwoBytes(b: Bytes) {
    |b| >= 2 && Within(b[0], 0xC2, 0xDF) && IsTail(b[1])
  }

  predicate ThreeBytes(b: Bytes) {
    && |b| >= 3 && Within(b[0], 0xE0, 0xEF) && IsTail(b[1]) && IsTail(b[2])
    && (b[0] as int == 0xE0 ==> b[1] as int >= 0xA0)
    && (b[0] as int == 0xED ==> b[1] as int <= 0x9F)
  }

  predicate FourBytes(b: Bytes) {
    && |b| >= 4 && Within(b[0], 0xF0, 0xF4) && IsTail(b[1]) && IsTail(b[2]) && IsTail(b[3])
    && (b[0] as int == 0xF0 ==> b[1] as int >= 0x90)
    && (b[0] as int == 0xF4 ==> b[1] as int <= 0x8F)
  }

  /** Length of the encoded character at the front, or 0 when there is none. */
  function CharLength(b: Bytes): (n: nat)
    ensures n <= |b|
  {
    if |b| >= 1 && b[0] as int < 0x80 then 1
    else if TwoBytes(b) then 2
    else if ThreeBytes(b) then 3
    else if FourBytes(b) then 4
    else 0
  }

  predicate IsUtf8(b: Bytes)
    decreases |b|
  {
    b == [] || (CharLength(b) > 0 && IsUtf8(b[CharLength(b)..]))
  }

  lemma {:induction false} AsciiIsUtf8(b: Bytes)
    requires forall i :: 0 <= i < |b| ==> b[i] as int < 0x80
    ensures IsUtf8(b)
  {
    if b != [] {
      AsciiIsUtf8(b[1..]);
    }
  }

  /** No byte above 0xF4 occurs in UTF-8. */
  lemma {:induction false} NoHighByte(b: Bytes, i: nat)
    requires IsUtf8(b) && i < |b|
    ensures b[i] as int <= 0xF4
    decreases |b|
  {
    var n := CharLength(b);
    if i >= n {
      NoHighByte(b[n..], i - n);
    }
  }

  // The characters behind it.

  /** The encoding of a character (section 3 of RFC 3629): its bits in groups of six from the end. */
  function Encoded(c: char): (b: Bytes)
    ensures 1 <= |b| <= 4
  {
    var n := c as int;
    if n < 0x80 then [ByteOf(n)]
    else if n < 0x800 then [ByteOf(0xC0 + n / 64), ByteOf(0x80 + n % 64)]
    else if n < 0x1_0000 then [ByteOf(0xE0 + n / 4096), ByteOf(0x80 + n / 64 % 64), ByteOf(0x80 + n % 64)]
    else
      [ByteOf(0xF0 + n / 262144), ByteOf(0x80 + n / 4096 % 64), ByteOf(0x80 + n / 64 % 64), ByteOf(0x80 + n % 64)]
  }

  function EncodedText(s: string): Bytes { FlatMap(Encoded, s) }

  lemma ThreeLead(c: char, rest: Bytes)
    requires 0x800 <= c as int < 0x1_0000
    ensures CharLength(Encoded(c) + rest) == 3
  {
    var n := c as int;
    assert n / 4096 == 0 ==> n / 64 % 64 >= 0x20;
    assert n / 4096 == 13 ==> n / 64 % 64 < 0x20;
  }

  lemma FourLead(c: char, rest: Bytes)
    requires c as int >= 0x1_0000
    ensures CharLength(Encoded(c) + rest) == 4
  {
    var n := c as int;
    assert n / 262144 == 0 ==> n / 4096 % 64 >= 0x10;
    assert n / 262144 == 4 ==> n / 4096 % 64 < 0x10;
  }

  /** A character in front is recognised with all its bytes. */
  lemma EncodedLeads(c: char, rest: Bytes)
    ensures CharLength(Encoded(c) + rest) == |Encoded(c)|
  {
    if c as int >= 0x1_0000 {
      FourLead(c, rest);
    } else if c as int >= 0x800 {
      ThreeLead(c, rest);
    }
  }

  lemma Digits(w: nat, x: nat, y: nat, z: nat)
    requires x < 64 && y < 64 && z < 64
    ensures var n := 262144 * w + 4096 * x + 64 * y + z;
            n / 262144 == w && n / 4096 % 64 == x && n / 64 % 64 == y && n % 64 == z
            && n / 4096 == 64 * w + x && n / 64 == 4096 * w + 64 * x + y
  {
    var n := 262144 * w + 4096 * x + 64 * y + z;
    OneDigit(4096 * w + 64 * x + y, z, n);
    OneDigit(64 * w + x, y, n / 64);
    OneDigit(w, x, n / 64 / 64);
    assert n / 4096 == n / 64 / 64 && n / 262144 == n / 64 / 64 / 64;
  }

  lemma OneDigit(high: nat, low: nat, n: nat)
    requires low < 64 && n == 64 * high + low
    ensures n / 64 == high && n % 64 == low
  {
  }

  /** The six bits of a byte that continues a character. */
  function Low(b: Byte): nat
    requires IsTail(b)
  {
    b as int - 0x80
  }

  lemma TwoIsEncoded(b: Bytes) returns (c: char)
    requires TwoBytes(b)
    ensures b[..2] == Encoded(c)
  {
    Digits(0, 0, b[0] as int - 0xC0, Low(b[1]));
    c := (64 * (b[0] as int - 0xC0) + Low(b[1])) as char;
  }

  lemma ThreeIsEncoded(b: Bytes) returns (c: char)
    requires ThreeBytes(b)
    ensures b[..3] == Encoded(c)
  {
    Digits(0, b[0] as int - 0xE0, Low(b[1]), Low(b[2]));
    c := (4096 * (b[0] as int - 0xE0) + 64 * Low(b[1]) + Low(b[2])) as char;
  }

  lemma FourIsEncoded(b: Bytes) returns (c: char)
    requires FourBytes(b)
    ensures b[..4] == Encoded(c)
  {
    Digits(b[0] as int - 0xF0, Low(b[1]), Low(b[2]), Low(b[3]));
    c := (262144 * (b[0] as int - 0xF0) + 4096 * Low(b[1]) + 64 * Low(b[2]) + Low(b[3])) as char;
  }

  /** What is recognised in front is the encoding of a character. */
  lemma LeadIsEncoded(b: Bytes) returns (c: char)
    requires CharLength(b) > 0
    ensures b[..CharLength(b)] == Encoded(c)
  {
    hide TwoBytes, ThreeBytes, FourBytes;
    if b[0] as int < 0x80 {
      c := b[0];
    } else {
      hide Encoded;
      if TwoBytes(b) {
        c := TwoIsEncoded(b);
      } else if ThreeBytes(b) {
        c := ThreeIsEncoded(b);
      } else {
        c := FourIsEncoded(b);
      }
    }
  }

  lemma {:induction false} TextIsUtf8(s: string)
    ensures IsUtf8(EncodedText(s))
  {
    if s != "" {
      hide Encoded, CharLength;
      var first, rest := Encoded(s[0]), EncodedText(s[1..]);
      TextIsUtf8(s[1..]);
      EncodedLeads(s[0], rest);
      assert (first + rest)[|first|..] == rest;
    }
  }

  lemma EncodedCons(c: char, rest: string)
    ensures EncodedText([c] + rest) == Encoded(c) + EncodedText(rest)
  {
    hide Encoded;
    FlatMapConcat(Encoded, [c], rest);
    FlatMapOne(Encoded, c);
  }

  lemma FirstCharacter(b: Bytes) returns (c: char, rest: Bytes)
    requires b != [] && IsUtf8(b)
    ensures b == Encoded(c) + rest && IsUtf8(rest) && |rest| < |b|
  {
    var n := CharLength(b);
    c := LeadIsEncoded(b);
    rest := b[n..];
    hide Encoded, CharLength;
    assert b == b[..n] + b[n..];
  }

  lemma {:induction false} Utf8IsText(b: Bytes) returns (s: string)
    requires IsUtf8(b)
    ensures b == EncodedText(s)
    decreases |b|
  {
    hide Encoded, EncodedText;
    if b == [] {
      s := "";
      NothingEncoded();
    } else {
      var c, after := FirstCharacter(b);
      var rest := Utf8IsText(after);
      s := [c] + rest;
      EncodedCons(c, rest);
    }
  }

  lemma NothingEncoded()
    ensures EncodedText("") == []
  {
  }

  /** Well-formed bytes are exactly the encodings of texts. */
  lemma Utf8ExactlyWhen(b: Bytes)
    ensures IsUtf8(b) <==> exists s :: b == EncodedText(s)
  {
    hide EncodedText;
    if IsUtf8(b) {
      var s := Utf8IsText(b);
    }
    forall s | b == EncodedText(s) ensures IsUtf8(b) {
      TextIsUtf8(s);
    }
  }
}
