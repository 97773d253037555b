/** Standard base64 (section 4 of RFC 4648): canonical padding, no line breaks, and
    unused trailing bits must be zero when decoding. */
module Base64 {
  import opened Text

  type Sextet = n: nat | n < 64

  function Symbol(n: Sextet): (c: Byte) {
    if n < 26 then ByteOf('A' as int + n)
    else if n < 52 then ByteOf('a' as int + (n - 26))
    else if n < 62 then ByteOf('0' as int + (n - 52))
    else if n == 62 then '+'
    else '/'
  }

  /** The sextet a character stands for, or nothing outside the alphabet. */
  function ValueOf(c: char): Option<Sextet> {
    if 'A' <= c <= 'Z' then Some(c as int - 'A' as int)
    else if 'a' <= c <= 'z' then Some(c as int - 'a' as int + 26)
    else if '0' <= c <= '9' then Some(c as int - '0' as int + 52)
    else if c == '+' then Some(62)
    else if c == '/' then Some(63)
    else None
  }

  lemma SymbolValue(n: Sextet)
    ensures ValueOf(Symbol(n)) == Some(n) && Symbol(n) != '='
  {
  }

  lemma ValueSymbol(c: char)
    requires ValueOf(c).Some?
    ensures Symbol(ValueOf(c).value) == c
  {
  }

  /** The alphabet of table 1 of RFC 4648. */
  lemma Capitals(n: Sextet)
    requires n < 26
    ensures Symbol(n) == "ABCDEFGHIJKLMNOPQRSTUVWXYZ"[n]
  {
  }

  lemma SmallLetters(n: Sextet)
    requires 26 <= n < 52
    ensures Symbol(n) == "abcdefghijklmnopqrstuvwxyz"[n - 26]
  {
  }

  lemma DigitsAndSigns(n: Sextet)
    requires n >= 52
    ensures Symbol(n) == "0123456789+/"[n - 52]
  {
  }

  /** The first byte of a pair of sextets, the second of the next pair, and so on. */
  function Byte0(a: Sextet, b: Sextet): Byte { ByteOf(a * 4 + b / 16) }

  function Byte1(b: Sextet, c: Sextet): Byte { ByteOf(b % 16 * 16 + c / 4) }

  function Byte2(c: Sextet, d: Sextet): Byte { ByteOf(c % 4 * 64 + d) }

  function Sextet0(x: Byte): Sextet { x as int / 4 }

  function Sextet1(x: Byte, y: nat): Sextet
    requires y < 256
  {
    x as int % 4 * 16 + y / 16
  }

  function Sextet2(y: Byte, z: nat): Sextet
    requires z < 256
  {
    y as int % 16 * 4 + z / 64
  }

  function Sextet3(z: Byte): Sextet { z as int % 64 }

  function EncodeGroup(x: Byte, y: Byte, z: Byte): (s: Bytes)
    ensures |s| == 4
  {
    [Symbol(Sextet0(x)), Symbol(Sextet1(x, y as int)), Symbol(Sextet2(y, z as int)), Symbol(Sextet3(z))]
  }

  /** Three bytes are one number of 24 bits, and the four symbols are its digits to base 64. */
  lemma GroupIsNumber(x: Byte, y: Byte, z: Byte) returns (a: Sextet, b: Sextet, c: Sextet, d: Sextet)
    ensures EncodeGroup(x, y, z) == [Symbol(a), Symbol(b), Symbol(c), Symbol(d)]
    ensures 0x4_0000 * a + 0x1000 * b + 64 * c + d == 0x1_0000 * x as int + 0x100 * y as int + z as int
  {
    hide Symbol;
    a, b, c, d := Sextet0(x), Sextet1(x, y as int), Sextet2(y, z as int), Sextet3(z);
  }

  /** `STANDARD.encode`. */
  function Encode(b: Bytes): Bytes {
    if |b| == 0 then []
    else if |b| == 1 then [Symbol(Sextet0(b[0])), Symbol(Sextet1(b[0], 0)), '=', '=']
    else if |b| == 2 then
      [Symbol(Sextet0(b[0])), Symbol(Sextet1(b[0], b[1] as int)), Symbol(Sextet2(b[1], 0)), '=']
    else EncodeGroup(b[0], b[1], b[2]) + Encode(b[3..])
  }

  /** One or two bytes at the end are a group filled with zeros, of which the padding takes the rest. */
  lemma LastGroup(x: Byte, y: Byte)
    ensures Encode([x]) == EncodeGroup(x, '\0', '\0')[..2] + ['=', '=']
    ensures Encode([x, y]) == EncodeGroup(x, y, '\0')[..3] + ['=']
  {
    hide Symbol;
  }

  function DecodeTwo(s: string): Option<Bytes>
    requires |s| >= 2
  {
    match (ValueOf(s[0]), ValueOf(s[1]))
    case (Some(a), Some(b)) => if b % 16 == 0 then Some([Byte0(a, b)]) else None
    case _ => None
  }

  function DecodeThree(s: string): Option<Bytes>
    requires |s| >= 3
  {
    match (ValueOf(s[0]), ValueOf(s[1]), ValueOf(s[2]))
    case (Some(a), Some(b), Some(c)) => if c % 4 == 0 then Some([Byte0(a, b), Byte1(b, c)]) else None
    case _ => None
  }

  function DecodeFour(s: string): Option<Bytes>
    requires |s| >= 4
  {
    match (ValueOf(s[0]), ValueOf(s[1]), ValueOf(s[2]), ValueOf(s[3]))
    case (Some(a), Some(b), Some(c), Some(d)) => Some([Byte0(a, b), Byte1(b, c), Byte2(c, d)])
    case _ => None
  }

  /** `STANDARD.decode`: padding is required and canonical. */
  function Decode(s: string): Option<Bytes> {
    if |s| == 0 then Some([])
    else if |s| < 4 then None
    else if |s| == 4 && s[3] == '=' then
      if s[2] == '=' then DecodeTwo(s) else DecodeThree(s)
    else
      match (DecodeFour(s), Decode(s[4..]))
      case (Some(group), Some(rest)) => Some(group + rest)
      case _ => None
  }

  lemma BytesOfSextets(x: Byte, y: Byte, z: Byte)
    ensures Byte0(Sextet0(x), Sextet1(x, y as int)) == x
    ensures Byte1(Sextet1(x, y as int), Sextet2(y, z as int)) == y
    ensures Byte2(Sextet2(y, z as int), Sextet3(z)) == z
    ensures Byte0(Sextet0(x), Sextet1(x, 0)) == x
    ensures Byte1(Sextet1(x, y as int), Sextet2(y, 0)) == y
  {
  }

  lemma SextetsOfBytes(a: Sextet, b: Sextet, c: Sextet, d: Sextet)
    ensures Sextet0(Byte0(a, b)) == a
    ensures Sextet1(Byte0(a, b), Byte1(b, c) as int) == b
    ensures Sextet2(Byte1(b, c), Byte2(c, d) as int) == c
    ensures Sextet3(Byte2(c, d)) == d
    ensures b % 16 == 0 ==> Sextet1(Byte0(a, b), 0) == b
    ensures c % 4 == 0 ==> Sextet2(Byte1(b, c), 0) == c
  {
  }

  lemma DecodeEncodedGroup(x: Byte, y: Byte, z: Byte)
    ensures DecodeFour(EncodeGroup(x, y, z)) == Some([x, y, z])
    ensures EncodeGroup(x, y, z)[3] != '='
  {
    SymbolValue(Sextet0(x));
    SymbolValue(Sextet1(x, y as int));
    SymbolValue(Sextet2(y, z as int));
    SymbolValue(Sextet3(z));
    BytesOfSextets(x, y, z);
  }

  lemma DecodeEncodedOne(x: Byte)
    ensures Decode(Encode([x])) == Some([x])
  {
    var a, b := Sextet0(x), Sextet1(x, 0);
    SymbolValue(a);
    SymbolValue(b);
    BytesOfSextets(x, x, x);
    var s: string := [Symbol(a), Symbol(b), '=', '='];
    assert Encode([x]) == s;
    assert DecodeTwo(s) == Some([x]);
  }

  lemma DecodeEncodedTwo(x: Byte, y: Byte)
    ensures Decode(Encode([x, y])) == Some([x, y])
  {
    var a, b, c := Sextet0(x), Sextet1(x, y as int), Sextet2(y, 0);
    SymbolValue(a);
    SymbolValue(b);
    SymbolValue(c);
    BytesOfSextets(x, y, y);
    var s: string := [Symbol(a), Symbol(b), Symbol(c), '='];
    assert Encode([x, y]) == s;
    assert DecodeThree(s) == Some([x, y]);
  }

  lemma EncodeDecodedGroup(s: string)
    requires |s| >= 4 && DecodeFour(s).Some?
    ensures var g := DecodeFour(s).value; EncodeGroup(g[0], g[1], g[2]) == s[..4]
  {
    SextetsOfBytes(ValueOf(s[0]).value, ValueOf(s[1]).value, ValueOf(s[2]).value, ValueOf(s[3]).value);
    forall i | 0 <= i < 4 ensures Symbol(ValueOf(s[i]).value) == s[i] {
      ValueSymbol(s[i]);
    }
  }

  /** Encoding then decoding is the identity on every byte string. */
  lemma {:induction false} DecodeEncode(b: Bytes)
    ensures Decode(Encode(b)) == Some(b)
  {
    if |b| == 0 {
    } else if |b| == 1 {
      DecodeEncodedOne(b[0]);
      assert b == [b[0]];
    } else if |b| == 2 {
      DecodeEncodedTwo(b[0], b[1]);
      assert b == [b[0], b[1]];
    } else {
      DecodeEncode(b[3..]);
      DecodeEncodedGroup(b[0], b[1], b[2]);
      var group := EncodeGroup(b[0], b[1], b[2]);
      assert Encode(b)[..4] == group && Encode(b)[4..] == Encode(b[3..]);
      DecodeAppend(group, Encode(b[3..]));
      assert [b[0], b[1], b[2]] + b[3..] == b;
    }
  }

  /** A full group in front of a string decodes independently of what follows. */
  lemma DecodeAppend(group: string, rest: string)
    requires |group| == 4 && group[3] != '='
    ensures Decode(group + rest) ==
            match (DecodeFour(group), Decode(rest))
            case (Some(g), Some(r)) => Some(g + r)
            case _ => None
  {
    assert (group + rest)[4..] == rest;
    assert DecodeFour(group + rest) == DecodeFour(group);
  }

  /** A string decodes only when it is the encoding of the result: decoding is canonical. */
  lemma {:induction false} EncodeDecode(s: string)
    requires Decode(s).Some?
    ensures Encode(Decode(s).value) == s
  {
    if |s| == 0 {
    } else if |s| == 4 && s[3] == '=' {
      EncodeDecodeLast(s);
    } else {
      EncodeDecode(s[4..]);
      EncodeDecodedGroup(s);
      var group, rest := DecodeFour(s).value, Decode(s[4..]).value;
      assert (group + rest)[3..] == rest;
      assert s[..4] + s[4..] == s;
    }
  }

  lemma EncodeDecodeLast(s: string)
    requires |s| == 4 && s[3] == '=' && Decode(s).Some?
    ensures Encode(Decode(s).value) == s
  {
    var a, b := ValueOf(s[0]).value, ValueOf(s[1]).value;
    ValueSymbol(s[0]);
    ValueSymbol(s[1]);
    if s[2] == '=' {
      SextetsOfBytes(a, b, 0, 0);
    } else {
      ValueSymbol(s[2]);
      SextetsOfBytes(a, b, ValueOf(s[2]).value, 0);
    }
  }

  lemma OneMoreGroup(n: nat)
    requires n >= 3
    ensures (n + 2) / 3 == 1 + (n - 1) / 3 && n / 3 == 1 + (n - 3) / 3 && n % 3 == (n - 3) % 3
  {
  }

  lemma {:induction false} EncodedLength(b: Bytes)
    ensures |Encode(b)| == (|b| + 2) / 3 * 4
  {
    if |b| > 2 {
      EncodedLength(b[3..]);
      hide EncodeGroup, Symbol;
      assert |Encode(b)| == 4 + |Encode(b[3..])|;
      OneMoreGroup(|b|);
    }
  }

  // The same without padding (`STANDARD_NO_PAD`): a padding character is an error.

  function EncodeNoPad(b: Bytes): Bytes {
    if |b| == 0 then []
    else if |b| == 1 then Encode(b)[..2]
    else if |b| == 2 then Encode(b)[..3]
    else EncodeGroup(b[0], b[1], b[2]) + EncodeNoPad(b[3..])
  }

  function DecodeNoPad(s: string): Option<Bytes> {
    if |s| == 0 then Some([])
    else if |s| == 1 then None
    else if |s| == 2 then DecodeTwo(s)
    else if |s| == 3 then DecodeThree(s)
    else
      match (DecodeFour(s), DecodeNoPad(s[4..]))
      case (Some(group), Some(rest)) => Some(group + rest)
      case _ => None
  }

  lemma {:induction false} DecodeEncodeNoPad(b: Bytes)
    ensures DecodeNoPad(EncodeNoPad(b)) == Some(b)
  {
    if |b| == 1 {
      DecodeEncodedOne(b[0]);
      assert b == [b[0]];
      assert DecodeTwo(Encode(b)) == DecodeTwo(Encode(b)[..2]);
    } else if |b| == 2 {
      DecodeEncodedTwo(b[0], b[1]);
      assert b == [b[0], b[1]];
      DecodeEncodedThird(b);
    } else if |b| > 2 {
      DecodeEncodeNoPad(b[3..]);
      DecodeEncodedGroup(b[0], b[1], b[2]);
      var group, rest := EncodeGroup(b[0], b[1], b[2]), EncodeNoPad(b[3..]);
      assert EncodeNoPad(b)[4..] == rest;
      assert DecodeFour(group + rest) == DecodeFour(group);
      assert [b[0], b[1], b[2]] + b[3..] == b;
    }
  }

  lemma DecodeEncodedThird(b: Bytes)
    requires |b| == 2 && Decode(Encode(b)) == Some(b)
    ensures DecodeNoPad(Encode(b)[..3]) == Some(b)
  {
    var s: string := Encode(b);
    SymbolValue(Sextet2(b[1], 0));
    assert s[2] != '=' && s[3] == '=';
    assert DecodeThree(s) == DecodeThree(s[..3]);
  }

  lemma {:induction false} EncodeDecodeNoPad(s: string)
    requires DecodeNoPad(s).Some?
    ensures EncodeNoPad(DecodeNoPad(s).value) == s
  {
    if |s| == 2 || |s| == 3 {
      var padded := s + if |s| == 2 then "==" else "=";
      if |s| == 3 {
        assert ValueOf(s[2]).Some? && s[2] != '=';
        assert DecodeThree(padded) == DecodeThree(s);
      } else {
        assert DecodeTwo(padded) == DecodeTwo(s);
      }
      EncodeDecodeLast(padded);
      assert padded[..|s|] == s;
    } else if |s| >= 4 {
      EncodeDecodeNoPad(s[4..]);
      EncodeDecodedGroup(s);
      var group, rest := DecodeFour(s).value, DecodeNoPad(s[4..]).value;
      assert (group + rest)[3..] == rest;
      assert s[..4] + s[4..] == s;
    }
  }

  lemma {:induction false} EncodedNoPadLength(b: Bytes)
    ensures |EncodeNoPad(b)| == |b| / 3 * 4 + if |b| % 3 == 0 then 0 else |b| % 3 + 1
  {
    if |b| > 2 {
      EncodedNoPadLength(b[3..]);
      hide EncodeGroup, Symbol;
      assert |EncodeNoPad(b)| == 4 + |EncodeNoPad(b[3..])|;
      OneMoreGroup(|b|);
    }
  }

  // The characters of an encoding.

  predicate IsTextByte(c: char) {
    IsAsciiAlphanumeric(c) || c == '+' || c == '/' || c == '='
  }

  predicate IsText(s: string) {
    forall i :: 0 <= i < |s| ==> IsTextByte(s[i])
  }

  lemma SymbolIsText(n: Sextet)
    ensures IsTextByte(Symbol(n))
  {
  }

  lemma GroupIsText(x: Byte, y: Byte, z: Byte)
    ensures IsText(EncodeGroup(x, y, z))
  {
    SymbolIsText(Sextet0(x));
    SymbolIsText(Sextet1(x, y as int));
    SymbolIsText(Sextet2(y, z as int));
    SymbolIsText(Sextet3(z));
  }

  lemma PrefixIsText(s: string, k: nat)
    requires IsText(s) && k <= |s|
    ensures IsText(s[..k])
  {
  }

  lemma OneIsText(x: Byte)
    ensures IsText(Encode([x]))
  {
    SymbolIsText(Sextet0(x));
    SymbolIsText(Sextet1(x, 0));
    hide Symbol, Sextet0, Sextet1;
    var s: string := [Symbol(Sextet0(x)), Symbol(Sextet1(x, 0)), '=', '='];
    assert Encode([x]) == s;
  }

  lemma TwoAreText(x: Byte, y: Byte)
    ensures IsText(Encode([x, y]))
  {
    SymbolIsText(Sextet0(x));
    SymbolIsText(Sextet1(x, y as int));
    SymbolIsText(Sextet2(y, 0));
    hide Symbol, Sextet0, Sextet1, Sextet2;
    var s: string := [Symbol(Sextet0(x)), Symbol(Sextet1(x, y as int)), Symbol(Sextet2(y, 0)), '='];
    assert Encode([x, y]) == s;
  }

  lemma {:induction false} EncodedIsText(b: Bytes)
    ensures IsText(Encode(b)) && IsText(EncodeNoPad(b))
  {
    if |b| == 1 {
      OneIsText(b[0]);
      assert b == [b[0]];
      PrefixIsText(Encode(b), 2);
    } else if |b| == 2 {
      TwoAreText(b[0], b[1]);
      assert b == [b[0], b[1]];
      PrefixIsText(Encode(b), 3);
    } else if |b| > 2 {
      EncodedIsText(b[3..]);
      GroupIsText(b[0], b[1], b[2]);
    }
  }
}
