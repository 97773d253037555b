/** Percent-encoding (section 2.1 of RFC 3986) as the discovery cookie uses it. */
module Percent {
  import opened Text
  import Utf8

  datatype PercentError = TruncatedEscape | NotHexadecimal | NotUrlText

  /** What a `+` stands for: itself, or a form-encoded space. */
  datatype PlusSign = Keep | Space

  predicate Unreserved(b: Byte) {
    IsAsciiAlphanumeric(b) || b == '-' || b == '.' || b == '_' || b == '~'
  }

  function HexDigit(n: nat): (b: Byte)
    requires n < 16
  {
    if n < 10 then ByteOf('0' as int + n) else ByteOf('A' as int + n - 10)
  }

  /** `hex_value`: both letter cases are digits. */
  function HexValue(b: Byte): Option<nat> {
    if '0' <= b <= '9' then Some(b as int - '0' as int)
    else if 'a' <= b <= 'f' then Some(b as int - 'a' as int + 10)
    else if 'A' <= b <= 'F' then Some(b as int - 'A' as int + 10)
    else None
  }

  lemma HexRange(b: Byte)
    ensures HexValue(b).Some? ==> HexValue(b).value < 16
  {
  }

  lemma HexRoundTrip(n: nat)
    requires n < 16
    ensures HexValue(HexDigit(n)) == Some(n)
  {
  }

  /** The digits, in both cases of the letters and no others. */
  lemma HexDigits(b: Byte, n: nat)
    requires n < 16
    ensures HexDigit(n) == "0123456789ABCDEF"[n]
    ensures HexValue(b) == Some(n) <==> b == "0123456789abcdef"[n] || b == "0123456789ABCDEF"[n]
  {
  }

  function EscapeByte(b: Byte): Bytes {
    if Unreserved(b) then [b]
    else ['%', HexDigit(b as int / 16), HexDigit(b as int % 16)]
  }

  function Encoded(raw: Bytes): Bytes { FlatMap(EscapeByte, raw) }

  /** The unreserved characters of section 2.3 of RFC 3986 stand for themselves, every other byte is escaped. */
  lemma EscapeIs(b: Byte)
    ensures var plain := 'A' <= b <= 'Z' || 'a' <= b <= 'z' || '0' <= b <= '9'
                         || b == '-' || b == '.' || b == '_' || b == '~';
            EscapeByte(b)
            == if plain then [b] else ['%', "0123456789ABCDEF"[b as int / 16], "0123456789ABCDEF"[b as int % 16]]
  {
    hide HexDigit;
    HexDigits(b, b as int / 16);
    HexDigits(b, b as int % 16);
  }

  /** `encode_percent`. */
  method EncodePercent(raw: Bytes) returns (encoded: Bytes)
    ensures encoded == Encoded(raw)
  {
    encoded := [];
    for i := 0 to |raw|
      invariant encoded == Encoded(raw[..i])
    {
      var byte := raw[i];
      FlatMapSnoc(EscapeByte, raw[..i], byte);
      assert raw[..i + 1] == raw[..i] + [byte];
      if Unreserved(byte) {
        encoded := encoded + [byte];
      } else {
        encoded := encoded + ['%'];
        encoded := encoded + [HexDigit(byte as int / 16)];
        encoded := encoded + [HexDigit(byte as int % 16)];
      }
    }
    assert raw[..|raw|] == raw;
  }

  /** `prefix` in front of a successful result. */
  function After<E>(prefix: Bytes, r: Result<Bytes, E>): Result<Bytes, E> {
    match r
    case Ok(rest) => Ok(prefix + rest)
    case Err(e) => Err(e)
  }

  lemma AfterAfter<E>(a: Bytes, b: Bytes, r: Result<Bytes, E>)
    ensures After(a, After(b, r)) == After(a + b, r)
  {
    if r.Ok? {
      assert a + (b + r.value) == a + b + r.value;
    }
  }

  lemma AfterNothing<E>(r: Result<Bytes, E>)
    ensures After([], r) == r
  {
    if r.Ok? {
      assert [] + r.value == r.value;
    }
  }

  /** The bytes an encoded text stands for, before they are checked to be UTF-8. */
  function Unescaped(value: Bytes, plus: PlusSign): Result<Bytes, PercentError> {
    if value == [] then Ok([])
    else if value[0] == '+' && plus == Space then After([' '], Unescaped(value[1..], plus))
    else if value[0] == '%' then
      if |value| < 3 then Err(TruncatedEscape)
      else
        match (HexValue(value[1]), HexValue(value[2]))
        case (Some(high), Some(low)) =>
          HexRange(value[1]);
          HexRange(value[2]);
          After([ByteOf(high * 16 + low)], Unescaped(value[3..], plus))
        case _ => Err(NotHexadecimal)
    else if value[0] as int < 0x80 then After([value[0]], Unescaped(value[1..], plus))
    else Err(NotUrlText)
  }

  function Decoded(value: Bytes, plus: PlusSign): Result<Bytes, PercentError> {
    match Unescaped(value, plus)
    case Ok(bytes) => if Utf8.IsUtf8(bytes) then Ok(bytes) else Err(NotUrlText)
    case Err(e) => Err(e)
  }

  /** A result is always UTF-8, and what is not is refused like a byte that does not belong there. */
  lemma DecodedExactlyWhen(value: Bytes, plus: PlusSign, bytes: Bytes)
    ensures Decoded(value, plus) == Ok(bytes) <==> Unescaped(value, plus) == Ok(bytes) && Utf8.IsUtf8(bytes)
    ensures Unescaped(value, plus) == Ok(bytes) && !Utf8.IsUtf8(bytes) ==> Decoded(value, plus) == Err(NotUrlText)
  {
  }

  lemma AfterError<E>(prefix: Bytes, r: Result<Bytes, E>)
    ensures r.Err? ==> After(prefix, r) == r
  {
  }

  lemma AfterEnd<E>(prefix: Bytes, r: Result<Bytes, E>)
    requires r == Ok([])
    ensures After(prefix, r) == Ok(prefix)
  {
    assert prefix + [] == prefix;
  }

  lemma NothingUnescaped(plus: PlusSign)
    ensures Unescaped([], plus) == Ok([])
  {
  }

  /** The byte a text begins with, without an escape. */
  function FirstByte(value: Bytes, plus: PlusSign): Byte
    requires value != []
  {
    if value[0] == '+' && plus == Space then ' ' else value[0]
  }

  lemma TakesOne(value: Bytes, index: nat, plus: PlusSign)
    requires index < |value| && value[index] != '%'
    ensures value[index] as int < 0x80 ==>
              Unescaped(value[index..], plus)
              == After([FirstByte(value[index..], plus)], Unescaped(value[index + 1..], plus))
    ensures value[index] as int >= 0x80 ==> Unescaped(value[index..], plus) == Err(NotUrlText)
  {
    hide HexValue;
    assert value[index..][1..] == value[index + 1..];
  }

  lemma TakesEscape(value: Bytes, index: nat, plus: PlusSign)
    requires index < |value| && value[index] == '%'
    ensures index + 3 > |value| ==> Unescaped(value[index..], plus) == Err(TruncatedEscape)
    ensures index + 3 <= |value| ==>
              var high, low := HexValue(value[index + 1]), HexValue(value[index + 2]);
              if high.None? || low.None? then Unescaped(value[index..], plus) == Err(NotHexadecimal)
              else
                && high.value * 16 + low.value < 256
                && Unescaped(value[index..], plus)
                   == After([ByteOf(high.value * 16 + low.value)], Unescaped(value[index + 3..], plus))
  {
    if index + 3 <= |value| {
      HexRange(value[index + 1]);
      HexRange(value[index + 2]);
      hide HexValue;
      var rest := value[index..];
      assert rest[1] == value[index + 1] && rest[2] == value[index + 2] && rest[3..] == value[index + 3..];
    }
  }

  /** `decode_percent`. */
  method DecodePercent(value: Bytes, plus: PlusSign) returns (r: Result<Bytes, PercentError>)
    ensures r == Decoded(value, plus)
    ensures r.Ok? ==> Utf8.IsUtf8(r.value)
  {
    AfterNothing(Unescaped(value, plus));
    assert value[0..] == value;
    NothingUnescaped(plus);
    hide HexValue, Utf8.IsUtf8, Unescaped, After;
    var decoded: Bytes := [];
    var index := 0;
    while index < |value|
      invariant 0 <= index <= |value|
      invariant Unescaped(value, plus) == After(decoded, Unescaped(value[index..], plus))
    {
      var byte := value[index];
      if byte == '+' && plus == Space {
        TakesOne(value, index, plus);
        AfterAfter(decoded, [' '], Unescaped(value[index + 1..], plus));
        decoded := decoded + [' '];
        index := index + 1;
      } else if byte == '%' {
        TakesEscape(value, index, plus);
        AfterError(decoded, Unescaped(value[index..], plus));
        if index + 3 > |value| {
          return Err(TruncatedEscape);
        }
        var high, low := HexValue(value[index + 1]), HexValue(value[index + 2]);
        if high.None? || low.None? {
          return Err(NotHexadecimal);
        }
        var b := ByteOf(high.value * 16 + low.value);
        AfterAfter(decoded, [b], Unescaped(value[index + 3..], plus));
        decoded := decoded + [b];
        index := index + 3;
      } else if byte as int < 0x80 {
        TakesOne(value, index, plus);
        AfterAfter(decoded, [byte], Unescaped(value[index + 1..], plus));
        decoded := decoded + [byte];
        index := index + 1;
      } else {
        TakesOne(value, index, plus);
        AfterError(decoded, Unescaped(value[index..], plus));
        return Err(NotUrlText);
      }
    }
    assert value[index..] == [];
    AfterEnd(decoded, Unescaped([], plus));
    r := if Utf8.IsUtf8(decoded) then Ok(decoded) else Err(NotUrlText);
  }

  lemma UnescapeOne(b: Byte, rest: Bytes, plus: PlusSign)
    ensures Unescaped(EscapeByte(b) + rest, plus) == After([b], Unescaped(rest, plus))
  {
    var all := EscapeByte(b) + rest;
    if Unreserved(b) {
      assert all[1..] == rest;
    } else {
      HexRoundTrip(b as int / 16);
      HexRoundTrip(b as int % 16);
      assert all[3..] == rest;
      assert ByteOf(b as int / 16 * 16 + b as int % 16) == b;
    }
  }

  /** Escaped text in front of anything decodes to itself, whatever `+` means. */
  lemma {:induction false} UnescapeEncoded(raw: Bytes, rest: Bytes, plus: PlusSign)
    ensures Unescaped(Encoded(raw) + rest, plus) == After(raw, Unescaped(rest, plus))
  {
    if raw == [] {
      assert Encoded(raw) + rest == rest;
      AfterNothing(Unescaped(rest, plus));
    } else {
      UnescapeEncoded(raw[1..], rest, plus);
      UnescapeOne(raw[0], Encoded(raw[1..]) + rest, plus);
      assert Encoded(raw) + rest == EscapeByte(raw[0]) + (Encoded(raw[1..]) + rest);
      AfterAfter([raw[0]], raw[1..], Unescaped(rest, plus));
      assert [raw[0]] + raw[1..] == raw;
    }
  }

  /** Decoding inverts encoding on every UTF-8 text. */
  lemma DecodeEncoded(raw: Bytes, plus: PlusSign)
    requires Utf8.IsUtf8(raw)
    ensures Decoded(Encoded(raw), plus) == Ok(raw)
  {
    UnescapeEncoded(raw, [], plus);
    assert Encoded(raw) + [] == Encoded(raw);
    assert raw + [] == raw;
  }

  /** ASCII without escapes stands for itself when `+` is kept. */
  lemma {:induction false} UnescapePlain(raw: Bytes)
    requires forall i :: 0 <= i < |raw| ==> raw[i] as int < 0x80 && raw[i] != '%'
    ensures Unescaped(raw, Keep) == Ok(raw)
  {
    if raw != [] {
      UnescapePlain(raw[1..]);
      assert [raw[0]] + raw[1..] == raw;
    }
  }
}
