/** Base64 with whitespace removed and a limit on the decoded size.

    Here a `char` is a Unicode scalar value, because the two decoders disagree on which
    characters are whitespace; `Utf8Length` gives the bytes it takes in a Rust `str`. */
module Base64Limit {
  import opened Text
  import Base64
  import Utf8

  const USIZE_MAX: nat := 0xFFFF_FFFF_FFFF_FFFF

  type Usize = n: nat | n <= USIZE_MAX

  datatype LimitError = LimitExceeded | NotBase64

  function Utf8Length(c: char): nat {
    if c as int < 0x80 then 1 else if c as int < 0x800 then 2 else if c as int < 0x1_0000 then 3 else 4
  }

  lemma Utf8LengthIs(c: char)
    ensures Utf8Length(c) == |Utf8.Encoded(c)|
  {
  }

  function ByteLength(input: string): nat {
    if input == "" then 0 else Utf8Length(input[0]) + ByteLength(input[1..])
  }

  function Normalized(input: string): (r: string)
    ensures |r| <= |input|
  {
    if input == "" then ""
    else (if IsWhitespace(input[0]) then "" else [input[0]]) + Normalized(input[1..])
  }

  /** `base64_decode`. */
  function FullDecode(input: string): Option<Bytes> { Base64.Decode(Normalized(input)) }

  /** Bytes of the input that are not ASCII whitespace. */
  function NormalizedLength(input: string): nat {
    if input == "" then 0
    else
      var here := if IsAsciiSpace(input[0]) then 0 else Utf8Length(input[0]);
      here + NormalizedLength(input[1..])
  }

  /** Bytes of a white-space character that the early length test does not skip: the vertical tab, the two of
      ISO 8859-1, and the others of Unicode. */
  function OtherSpace(c: char): nat {
    var n := c as int;
    if n == 0x0B then 1
    else if n == 0x85 || n == 0xA0 then 2
    else if n == 0x1680 || 0x2000 <= n <= 0x200A || n == 0x2028 || n == 0x2029 || n == 0x202F || n == 0x205F then 3
    else if n == 0x3000 then 3
    else 0
  }

  /** Bytes of such characters in the input. */
  function OtherSpaceBytes(input: string): nat {
    if input == "" then 0 else OtherSpace(input[0]) + OtherSpaceBytes(input[1..])
  }

  function Saturated(n: nat): Usize { if n > USIZE_MAX then USIZE_MAX else n }

  function MaxEncodedLength(limit: Usize): Usize { Saturated(Saturated(limit + 2) / 3 * 4) }

  /** `base64_decode_with_limit`. */
  function LimitedDecode(input: string, limit: Usize): Result<Bytes, LimitError> {
    if NormalizedLength(input) > MaxEncodedLength(limit) then Err(LimitExceeded)
    else
      match FullDecode(input)
      case None => Err(NotBase64)
      case Some(out) => if |out| > limit then Err(LimitExceeded) else Ok(out)
  }

  predicate AllAscii(s: string) { forall i :: 0 <= i < |s| ==> s[i] as int < 0x80 }

  lemma EncodedIsAscii(b: Bytes)
    ensures AllAscii(Base64.Encode(b))
  {
    Base64.EncodedIsText(b);
    forall i | 0 <= i < |Base64.Encode(b)| ensures Base64.Encode(b)[i] as int < 0x80 {
      assert Base64.IsTextByte(Base64.Encode(b)[i]);
    }
  }

  lemma {:induction false} LengthsAgree(input: string)
    requires AllAscii(Normalized(input))
    ensures NormalizedLength(input) == |Normalized(input)| + OtherSpaceBytes(input)
    ensures NormalizedLength(input) <= ByteLength(input)
  {
    if input != "" {
      var rest := Normalized(input[1..]);
      if !IsWhitespace(input[0]) {
        assert Normalized(input)[0] == input[0] && Normalized(input)[1..] == rest;
      } else {
        assert Normalized(input) == "" + rest == rest;
      }
      LengthsAgree(input[1..]);
    }
  }

  /** The limit is exceeded exactly when the input is too long before it is decoded, or its decoding is. */
  lemma ExceededExactlyWhen(input: string, limit: Usize)
    ensures LimitedDecode(input, limit) == Err(LimitExceeded) <==>
              || NormalizedLength(input) > MaxEncodedLength(limit)
              || (FullDecode(input).Some? && |FullDecode(input).value| > limit)
    ensures limit <= 0xFFFF_FFFF ==> MaxEncodedLength(limit) == (limit + 2) / 3 * 4
  {
  }

  lemma RoomForLimit(size: nat, limit: Usize, encoded: nat)
    requires size <= limit && encoded == (size + 2) / 3 * 4 <= USIZE_MAX
    ensures encoded <= MaxEncodedLength(limit)
  {
  }

  /** Exactly when limited decoding gives `out`: full decoding gives it, it is within the limit, and
      the whitespace outside ASCII leaves room for it. */
  lemma LimitedDecodeExact(input: string, limit: Usize, out: Bytes)
    ensures LimitedDecode(input, limit) == Ok(out) <==>
            && FullDecode(input) == Some(out) && |out| <= limit
            && (|out| + 2) / 3 * 4 + OtherSpaceBytes(input) <= MaxEncodedLength(limit)
  {
    if FullDecode(input) == Some(out) {
      Base64.EncodeDecode(Normalized(input));
      Base64.EncodedLength(out);
      EncodedIsAscii(out);
      LengthsAgree(input);
    }
  }

  /** With only ASCII whitespace, for every machine-word limit, the early length test never rejects
      a message whose decoded size is within the limit. */
  lemma LimitedDecodeAgrees(input: string, limit: Usize, out: Bytes)
    requires ByteLength(input) <= USIZE_MAX && OtherSpaceBytes(input) == 0
    ensures LimitedDecode(input, limit) == Ok(out) <==> FullDecode(input) == Some(out) && |out| <= limit
  {
    LimitedDecodeExact(input, limit, out);
    if FullDecode(input) == Some(out) && |out| <= limit {
      Base64.EncodeDecode(Normalized(input));
      Base64.EncodedLength(out);
      EncodedIsAscii(out);
      LengthsAgree(input);
      RoomForLimit(|out|, limit, |Base64.Encode(out)|);
    }
  }

  lemma {:induction false} TextIsNormal(s: string)
    requires Base64.IsText(s)
    ensures Normalized(s) == s && NormalizedLength(s) == |s|
  {
    if s != "" {
      assert Base64.IsTextByte(s[0]);
      TextIsNormal(s[1..]);
      assert [s[0]] + s[1..] == s;
    }
  }

  /** A vertical tab is whitespace for one decoder and counts against the limit of the other: in front
      of whole groups it makes the limited decoder refuse what fits exactly. */
  lemma VerticalTabRejected(out: Bytes)
    requires |out| % 3 == 0 && |out| <= 0xFFFF
    ensures var input := ['\U{000B}'] + Base64.Encode(out);
            FullDecode(input) == Some(out) && LimitedDecode(input, |out|) == Err(LimitExceeded)
  {
    var encoded: string := Base64.Encode(out);
    var input := ['\U{000B}'] + encoded;
    Base64.EncodedIsText(out);
    TextIsNormal(encoded);
    Base64.DecodeEncode(out);
    Base64.EncodedLength(out);
    hide Base64.Decode, Base64.Encode;
    assert input[1..] == encoded;
    assert Normalized(input) == "" + encoded == encoded;
    assert NormalizedLength(input) == 1 + |encoded|;
  }
}
