/** The type 0x0004 artifact (section 3.6.4 of SAML Bindings 2.0): 44 bytes in base64, read with or
    without padding and kept in the padded spelling. */
module ArtifactCodec {
  import opened Text
  import Base64

  const ARTIFACT_LENGTH := 44

  type SourceId = b: Bytes | |b| == 20 witness seq(20, _ => 'x')

  type Index = n: nat | n < 0x1_0000

  datatype Artifact = Artifact(encoded: Bytes, endpointIndex: Index, sourceId: SourceId)

  datatype CodecError = HasWhitespace | NotBase64 | WrongLength | WrongType

  function U16(high: Byte, low: Byte): Index { high as int * 256 + low as int }

  /** `Artifact::try_from_encoded`. */
  function TryFromEncoded(encoded: string): Result<Artifact, CodecError> {
    if exists i :: 0 <= i < |encoded| && IsWhitespace(encoded[i]) then Err(HasWhitespace)
    else
      var padded := Base64.Decode(encoded);
      match if padded.Some? then padded else Base64.DecodeNoPad(encoded)
      case None => Err(NotBase64)
      case Some(bytes) =>
        if |bytes| != ARTIFACT_LENGTH then Err(WrongLength)
        else if U16(bytes[0], bytes[1]) != 4 then Err(WrongType)
        else Ok(ArtifactOf(bytes))
  }

  function ArtifactOf(bytes: Bytes): Artifact
    requires |bytes| == ARTIFACT_LENGTH
  {
    Artifact(Base64.Encode(bytes), U16(bytes[2], bytes[3]), bytes[4..24])
  }

  function RawArtifact(index: Index, source: SourceId, handle: SourceId): (r: Bytes)
    ensures |r| == ARTIFACT_LENGTH
  {
    ['\0', ByteOf(4), ByteOf(index / 256), ByteOf(index % 256)] + source + handle
  }

  /** `encode_artifact`. */
  function EncodeArtifact(index: Index, source: SourceId, handle: SourceId): Bytes {
    Base64.Encode(RawArtifact(index, source, handle))
  }

  /** Bytes that make an artifact of type 0x0004. */
  ghost predicate IsRawArtifact(b: Bytes) {
    |b| == ARTIFACT_LENGTH && b[0] == '\0' && b[1] as int == 4
  }

  /** What a string decodes to when both spellings are tried. */
  function EitherDecode(s: string): Option<Bytes> {
    if Base64.Decode(s).Some? then Base64.Decode(s) else Base64.DecodeNoPad(s)
  }

  lemma EitherDecodeIff(s: string, b: Bytes)
    ensures EitherDecode(s) == Some(b) <==> s == Base64.Encode(b) || s == Base64.EncodeNoPad(b)
  {
    if Base64.Decode(s).Some? {
      Base64.EncodeDecode(s);
    }
    if Base64.DecodeNoPad(s).Some? {
      Base64.EncodeDecodeNoPad(s);
    }
    Base64.DecodeEncode(b);
    Base64.DecodeEncodeNoPad(b);
    if s == Base64.EncodeNoPad(b) && Base64.Decode(s).Some? {
      PaddedAgrees(b, Base64.Decode(s).value);
    }
  }

  lemma EncodedGroups(b: Bytes)
    requires |b| > 2
    ensures Base64.Encode(b) == Base64.EncodeGroup(b[0], b[1], b[2]) + Base64.Encode(b[3..])
    ensures Base64.EncodeNoPad(b) == Base64.EncodeGroup(b[0], b[1], b[2]) + Base64.EncodeNoPad(b[3..])
  {
    hide Base64.EncodeGroup, Base64.Symbol, Base64.Sextet0, Base64.Sextet1, Base64.Sextet2;
  }

  lemma FirstThree(b: Bytes)
    requires |b| > 2
    ensures b == [b[0], b[1], b[2]] + b[3..]
  {
  }

  /** A padded text of the length of a bare one with full groups has a full group too. */
  lemma FullGroup(b: Bytes, c: Bytes)
    requires Base64.EncodeNoPad(b) == Base64.Encode(c) && |b| > 2
    ensures |c| > 2
  {
    hide Base64.EncodeGroup, Base64.DecodeFour;
    Base64.EncodedNoPadLength(b);
    Base64.EncodedLength(c);
    EncodedGroups(b);
    Base64.DecodeEncodedGroup(b[0], b[1], b[2]);
    var s := Base64.Encode(c);
    assert s[3] == Base64.EncodeGroup(b[0], b[1], b[2])[3] != '=';
  }

  /** No string is the padded spelling of one value and the bare spelling of another. */
  lemma {:induction false} PaddedAgrees(b: Bytes, c: Bytes)
    requires Base64.EncodeNoPad(b) == Base64.Encode(c)
    ensures b == c
    decreases |b|
  {
    if |b| > 2 {
      hide Base64.Encode, Base64.EncodeNoPad, Base64.EncodeGroup, Base64.DecodeFour;
      FullGroup(b, c);
      EncodedGroups(b);
      EncodedGroups(c);
      Base64.DecodeEncodedGroup(b[0], b[1], b[2]);
      Base64.DecodeEncodedGroup(c[0], c[1], c[2]);
      var s := Base64.Encode(c);
      assert s[..4] == Base64.EncodeGroup(b[0], b[1], b[2]) == Base64.EncodeGroup(c[0], c[1], c[2]);
      assert s[4..] == Base64.EncodeNoPad(b[3..]) == Base64.Encode(c[3..]);
      PaddedAgrees(b[3..], c[3..]);
      FirstThree(b);
      FirstThree(c);
    } else {
      ShortAgrees(b, c);
    }
  }

  lemma ShortAgrees(b: Bytes, c: Bytes)
    requires Base64.EncodeNoPad(b) == Base64.Encode(c) && |b| <= 2
    ensures b == c
  {
    Base64.EncodedNoPadLength(b);
    Base64.EncodedLength(c);
  }

  /** Both spellings of 44 bytes of the type read as the same artifact, kept in the padded one. */
  lemma SpellingsRead(s: string, b: Bytes)
    requires IsRawArtifact(b) && (s == Base64.Encode(b) || s == Base64.EncodeNoPad(b))
    ensures TryFromEncoded(s) == Ok(ArtifactOf(b))
  {
    hide Base64.Encode, Base64.EncodeNoPad, Base64.Decode, Base64.DecodeNoPad;
    Base64.EncodedIsText(b);
    forall i | 0 <= i < |s| ensures !IsWhitespace(s[i]) {
      assert Base64.IsTextByte(s[i]);
    }
    EitherDecodeIff(s, b);
  }

  /** `s` spells `b`, with or without padding. */
  ghost predicate Spells(s: string, b: Bytes) { s == Base64.Encode(b) || s == Base64.EncodeNoPad(b) }

  /** A string reads as an artifact exactly when it is one of the two spellings of such bytes. */
  lemma OnlySpellingsRead(s: string)
    ensures TryFromEncoded(s).Ok? <==> exists b :: IsRawArtifact(b) && Spells(s, b)
    ensures forall b :: IsRawArtifact(b) && Spells(s, b) ==> TryFromEncoded(s) == Ok(ArtifactOf(b))
  {
    hide Base64.Encode, Base64.EncodeNoPad, Base64.Decode, Base64.DecodeNoPad;
    if TryFromEncoded(s).Ok? {
      var b := EitherDecode(s).value;
      EitherDecodeIff(s, b);
      assert IsRawArtifact(b) && Spells(s, b);
    }
    forall b | IsRawArtifact(b) && Spells(s, b) ensures TryFromEncoded(s) == Ok(ArtifactOf(b)) {
      SpellingsRead(s, b);
    }
  }

  lemma SpelledPlain(s: string, b: Bytes)
    requires Spells(s, b)
    ensures EitherDecode(s) == Some(b) && forall i :: 0 <= i < |s| ==> !IsWhitespace(s[i])
  {
    hide Base64.Encode, Base64.EncodeNoPad, Base64.Decode, Base64.DecodeNoPad;
    EitherDecodeIff(s, b);
    Base64.EncodedIsText(b);
    forall i | 0 <= i < |s| ensures !IsWhitespace(s[i]) {
      assert Base64.IsTextByte(s[i]);
    }
  }

  /** Why a string does not read: white space in it, no base64 either way, not 44 bytes, or another type. */
  lemma ReadErrors(s: string)
    ensures TryFromEncoded(s) == Err(HasWhitespace) <==> exists i :: 0 <= i < |s| && IsWhitespace(s[i])
    ensures TryFromEncoded(s) == Err(NotBase64) <==>
              (forall i :: 0 <= i < |s| ==> !IsWhitespace(s[i])) && forall b :: !Spells(s, b)
    ensures TryFromEncoded(s) == Err(WrongLength) <==> exists b :: Spells(s, b) && |b| != 44
    ensures TryFromEncoded(s) == Err(WrongType) <==>
              exists b :: Spells(s, b) && |b| == 44 && (b[0] != '\0' || b[1] as int != 4)
  {
    hide Base64.Decode, Base64.DecodeNoPad, IsWhitespace, ArtifactOf, Spells;
    if EitherDecode(s).Some? {
      var b := EitherDecode(s).value;
      assert Spells(s, b) by { Spelled(s, b); }
    }
    forall b | Spells(s, b)
      ensures EitherDecode(s) == Some(b) && forall i :: 0 <= i < |s| ==> !IsWhitespace(s[i])
    {
      SpelledPlain(s, b);
    }
  }

  lemma Spelled(s: string, b: Bytes)
    requires EitherDecode(s) == Some(b)
    ensures Spells(s, b)
  {
    hide Base64.Encode, Base64.EncodeNoPad, Base64.Decode, Base64.DecodeNoPad;
    EitherDecodeIff(s, b);
  }

  /** An encoded artifact reads back with its index and source, in the same spelling. */
  lemma ReadEncoded(index: Index, source: SourceId, handle: SourceId)
    ensures TryFromEncoded(EncodeArtifact(index, source, handle))
         == Ok(Artifact(EncodeArtifact(index, source, handle), index, source))
  {
    var b := RawArtifact(index, source, handle);
    assert b[4..24] == source && b[2] as int == index / 256 && b[3] as int == index % 256;
    assert ArtifactOf(b) == Artifact(Base64.Encode(b), index, source);
    hide TryFromEncoded, ArtifactOf;
    SpellingsRead(Base64.Encode(b), b);
  }

  /** What is read is always kept in a spelling that reads as itself. */
  lemma KeptSpelling(s: string)
    ensures TryFromEncoded(s).Ok? ==> TryFromEncoded(TryFromEncoded(s).value.encoded) == TryFromEncoded(s)
  {
    OnlySpellingsRead(s);
    hide TryFromEncoded;
    if TryFromEncoded(s).Ok? {
      var b :| IsRawArtifact(b) && Spells(s, b);
      SpellingsRead(Base64.Encode(b), b);
    }
  }
}
