/** The identity-provider discovery cookie (section 4.3 of SAML Profiles 2.0):
    a percent-encoded, space-separated list of base64 entity identifiers, last used last. */
module Discovery {
  import opened Text
  import Base64
  import Percent
  import Utf8

  const COOKIE_NAME: Bytes := "_saml_idp"
  const MAX_IDENTIFIER := 1024
  const MAX_EXISTING := 8 * 1024
  const MAX_NAME_AND_VALUE := 4096

  datatype CookieError =
    | BadIdentifier
    | BadPlacing(reason: string)
    | ExistingTooLarge
    | BadPercent(error: Percent.PercentError)
    | EmptyEntry
    | EntryNotBase64
    | EntryNotIdentifier

  predicate IsSchemeByte(b: Byte) {
    IsAsciiAlphanumeric(b) || b == '+' || b == '-' || b == '.'
  }

  predicate IsAsciiAlphabetic(b: Byte) {
    'A' <= b <= 'Z' || 'a' <= b <= 'z'
  }

  /** `validate_entity_identifier`: a visible-ASCII URI of at most 1024 characters. */
  predicate ValidIdentifier(id: Bytes) {
    && |id| <= MAX_IDENTIFIER
    && (forall i :: 0 <= i < |id| ==> IsAsciiGraphic(id[i]))
    && exists colon :: 0 < colon < |id| - 1 && HasScheme(id, colon)
  }

  predicate HasScheme(id: Bytes, colon: nat)
    requires colon < |id|
  {
    && colon > 0 && id[colon] == ':' && IsAsciiAlphabetic(id[0])
    && forall i :: 0 <= i < colon ==> IsSchemeByte(id[i])
  }

  ghost predicate IsSchemeText(scheme: Bytes) {
    && scheme != [] && ('A' <= scheme[0] <= 'Z' || 'a' <= scheme[0] <= 'z')
    && forall i :: 0 <= i < |scheme| ==>
         var c := scheme[i];
         'A' <= c <= 'Z' || 'a' <= c <= 'z' || '0' <= c <= '9' || c == '+' || c == '-' || c == '.'
  }

  ghost predicate IsVisible(s: Bytes) { forall i :: 0 <= i < |s| ==> '!' <= s[i] <= '~' }

  /** A scheme, a colon and a visible rest that is not empty. */
  ghost predicate IsUri(id: Bytes, scheme: Bytes, rest: Bytes) {
    id == scheme + [':'] + rest && IsSchemeText(scheme) && rest != [] && IsVisible(rest)
  }

  /** An identifier is valid exactly when it is such a URI, which its first colon divides. */
  lemma IdentifierExactlyWhen(id: Bytes)
    ensures ValidIdentifier(id) <==> |id| <= 1024 && exists scheme, rest :: IsUri(id, scheme, rest)
    ensures forall scheme, rest :: IsUri(id, scheme, rest) ==> id[|scheme|] == ':' && ':' !in scheme
  {
    if ValidIdentifier(id) {
      var colon :| 0 < colon < |id| - 1 && HasScheme(id, colon);
      assert id == id[..colon] + [':'] + id[colon + 1..];
      assert IsUri(id, id[..colon], id[colon + 1..]);
    }
    forall scheme, rest | IsUri(id, scheme, rest)
      ensures id[|scheme|] == ':' && ':' !in scheme && (|id| <= 1024 ==> ValidIdentifier(id))
    {
      UriIsValid(id, scheme, rest);
    }
  }

  lemma UriIsValid(id: Bytes, scheme: Bytes, rest: Bytes)
    requires IsUri(id, scheme, rest)
    ensures id[|scheme|] == ':' && ':' !in scheme && (|id| <= 1024 ==> ValidIdentifier(id))
  {
    assert id[..|scheme|] == scheme && id[|scheme| + 1..] == rest;
    assert HasScheme(id, |scheme|);
    forall i | 0 <= i < |id| ensures IsAsciiGraphic(id[i]) {
      assert i < |scheme| ==> id[i] == scheme[i];
      assert i > |scheme| ==> id[i] == rest[i - |scheme| - 1];
    }
  }

  // Encoding.

  function Token(id: Bytes): Bytes { Base64.Encode(id) }

  function Tokens(ids: seq<Bytes>): seq<Bytes> {
    seq(|ids|, i requires 0 <= i < |ids| => Token(ids[i]))
  }

  function JoinedTokens(ids: seq<Bytes>, sep: Byte): Bytes { Join<Byte>(Tokens(ids), [sep]) }

  /** The list before percent-encoding. */
  function RawList(ids: seq<Bytes>): Bytes { JoinedTokens(ids, ' ') }

  function CookieValue(ids: seq<Bytes>): Bytes { Percent.Encoded(RawList(ids)) }

  lemma {:induction false} JoinSnoc(parts: seq<Bytes>, sep: Bytes, last: Bytes)
    ensures Join(parts + [last], sep) == if parts == [] then last else Join(parts, sep) + sep + last
  {
    var all := parts + [last];
    if |parts| == 1 {
      assert all[1..] == [last];
    } else if |parts| > 1 {
      JoinSnoc(parts[1..], sep, last);
      assert all[1..] == parts[1..] + [last];
      assert parts[0] + sep + (Join(parts[1..], sep) + sep + last)
          == parts[0] + sep + Join(parts[1..], sep) + sep + last;
    }
  }

  /** `encode_cookie_value`. */
  method EncodeCookieValue(ids: seq<Bytes>) returns (value: Bytes)
    ensures value == CookieValue(ids)
  {
    var raw: Bytes := [];
    for index := 0 to |ids|
      invariant raw == RawList(ids[..index])
    {
      JoinSnoc(Tokens(ids[..index]), [' '], Token(ids[index]));
      assert Tokens(ids[..index + 1]) == Tokens(ids[..index]) + [Token(ids[index])];
      if index > 0 {
        raw := raw + [' '];
      }
      raw := raw + Base64.Encode(ids[index]);
    }
    assert ids[..|ids|] == ids;
    value := Percent.EncodePercent(raw);
  }

  // Decoding.

  function IdFromToken(token: Bytes): Result<Bytes, CookieError> {
    if token == [] then Err(EmptyEntry)
    else
      match Base64.Decode(token)
      case None => Err(EntryNotBase64)
      case Some(bytes) => if Utf8.IsUtf8(bytes) then Ok(bytes) else Err(EntryNotIdentifier)
  }

  function IdsFromTokens(tokens: seq<Bytes>): Result<seq<Bytes>, CookieError> {
    if tokens == [] then Ok([])
    else
      match IdFromToken(tokens[0])
      case Err(e) => Err(e)
      case Ok(id) =>
        match IdsFromTokens(tokens[1..])
        case Err(e) => Err(e)
        case Ok(ids) => Ok([id] + ids)
  }

  /** `entity_ids_from_decoded`. */
  function IdsFromDecoded(decoded: Bytes): Result<seq<Bytes>, CookieError> {
    if decoded == [] then Ok([]) else IdsFromTokens(Split<Byte>(decoded, ' '))
  }

  /** `entity_ids_from_existing`: `+` is first kept, then read as a space if that fails. */
  function IdsFromExisting(existing: Option<Bytes>): Result<seq<Bytes>, CookieError> {
    if existing.None? || existing.value == [] then Ok([])
    else if |existing.value| > MAX_EXISTING then Err(ExistingTooLarge)
    else
      match Percent.Decoded(existing.value, Percent.Keep)
      case Err(e) => Err(BadPercent(e))
      case Ok(decoded) =>
        var kept := IdsFromDecoded(decoded);
        if kept.Ok? || '+' !in existing.value then kept
        else
          match Percent.Decoded(existing.value, Percent.Space)
          case Err(e) => Err(BadPercent(e))
          case Ok(formDecoded) => IdsFromDecoded(formDecoded)
  }

  /** A token that stands for an identifier: not empty, and the base64 of UTF-8. */
  ghost predicate IsTokenOf(token: Bytes, id: Bytes) {
    token != [] && Base64.Decode(token) == Some(id) && Utf8.IsUtf8(id)
  }

  /** What is wrong with a token. */
  ghost predicate TokenFault(token: Bytes, e: CookieError) {
    match e
    case EmptyEntry => token == []
    case EntryNotBase64 => token != [] && Base64.Decode(token) == None
    case EntryNotIdentifier => token != [] && exists id :: Base64.Decode(token) == Some(id) && !Utf8.IsUtf8(id)
    case _ => false
  }

  lemma TokenRead(token: Bytes)
    ensures match IdFromToken(token) case Ok(id) => IsTokenOf(token, id) case Err(e) => TokenFault(token, e)
  {
  }

  ghost predicate Reads(token: Bytes) { exists id :: IsTokenOf(token, id) }

  /** The first token that does not read, and why. */
  ghost predicate FirstFault(tokens: seq<Bytes>, i: nat, e: CookieError) {
    i < |tokens| && TokenFault(tokens[i], e) && forall k :: 0 <= k < i ==> Reads(tokens[k])
  }

  ghost predicate HasFault(tokens: seq<Bytes>, e: CookieError) { exists i: nat :: FirstFault(tokens, i, e) }

  /** The tokens read as identifiers exactly when each does; otherwise the first that does not is blamed. */
  lemma {:induction false} TokensRead(tokens: seq<Bytes>)
    ensures match IdsFromTokens(tokens)
            case Ok(ids) => |ids| == |tokens| && forall i :: 0 <= i < |tokens| ==> IsTokenOf(tokens[i], ids[i])
            case Err(e) => HasFault(tokens, e)
  {
    if tokens != [] {
      hide IdFromToken, IsTokenOf, TokenFault;
      var rest := tokens[1..];
      TokensRead(rest);
      TokenRead(tokens[0]);
      if IdFromToken(tokens[0]).Err? {
        var here: nat := 0;
        assert FirstFault(tokens, here, IdFromToken(tokens[0]).error);
        assert HasFault(tokens, IdFromToken(tokens[0]).error);
      } else if IdsFromTokens(rest).Err? {
        var i: nat :| FirstFault(rest, i, IdsFromTokens(rest).error);
        assert Reads(tokens[0]);
        assert FirstFault(tokens, i + 1, IdsFromTokens(rest).error);
        assert HasFault(tokens, IdsFromTokens(rest).error);
      }
    }
  }

  /** A cookie is refused for its size alone exactly above 8192 bytes. */
  lemma TooLargeExactlyWhen(existing: Option<Bytes>)
    ensures IdsFromExisting(existing) == Err(ExistingTooLarge) <==> existing.Some? && |existing.value| > 8192
    ensures existing == None || existing == Some([]) ==> IdsFromExisting(existing) == Ok([])
  {
    hide IdsFromTokens;
    forall tokens ensures IdsFromTokens(tokens) != Err(ExistingTooLarge) {
      TokensNeverBlame(tokens);
    }
  }

  lemma {:induction false} TokensNeverBlame(tokens: seq<Bytes>)
    ensures IdsFromTokens(tokens) != Err(BadIdentifier) && IdsFromTokens(tokens) != Err(ExistingTooLarge)
  {
    if tokens != [] {
      TokensNeverBlame(tokens[1..]);
    }
  }

  lemma ExistingNeverBlames(existing: Option<Bytes>)
    ensures IdsFromExisting(existing) != Err(BadIdentifier)
  {
    hide IdsFromTokens;
    forall tokens ensures IdsFromTokens(tokens) != Err(BadIdentifier) {
      TokensNeverBlame(tokens);
    }
  }

  // Remembering.

  function Without(ids: seq<Bytes>, id: Bytes): (r: seq<Bytes>)
    ensures |r| <= |ids|
  {
    if ids == [] then []
    else (if ids[0] == id then [] else [ids[0]]) + Without(ids[1..], id)
  }

  /** The list with `id` moved, or added, to the end. */
  function MovedLast(ids: seq<Bytes>, id: Bytes): seq<Bytes> { Without(ids, id) + [id] }

  predicate Fits(ids: seq<Bytes>) {
    |COOKIE_NAME| + |CookieValue(ids)| <= MAX_NAME_AND_VALUE
  }

  /** What is left when the oldest entries are dropped until the rest fits or one is left. */
  function Newest(ids: seq<Bytes>): (r: seq<Bytes>)
    requires ids != []
    ensures r != []
  {
    if |ids| == 1 || Fits(ids) then ids else Newest(ids[1..])
  }

  /** The specification of `remember_identity_provider`, as far as the cookie value goes. */
  function Remembered(id: Bytes, existing: Option<Bytes>): Result<Bytes, CookieError> {
    if !ValidIdentifier(id) then Err(BadIdentifier)
    else
      match IdsFromExisting(existing)
      case Err(e) => Err(e)
      case Ok(ids) => Ok(CookieValue(Newest(MovedLast(ids, id))))
  }

  /** `remember_identity_provider`; `fault` is what is wrong with the common domain or the lifetime. */
  method RememberIdentityProvider(id: Bytes, fault: Option<string>, existing: Option<Bytes>)
    returns (r: Result<Bytes, CookieError>)
    ensures r == if ValidIdentifier(id) && fault.Some? then Err(BadPlacing(fault.value)) else Remembered(id, existing)
    ensures r != Err(BadIdentifier) <==> |id| <= 1024 && exists scheme, rest :: IsUri(id, scheme, rest)
  {
    hide ValidIdentifier, IsUri, IdsFromExisting;
    IdentifierExactlyWhen(id);
    ExistingNeverBlames(existing);
    if !ValidIdentifier(id) {
      return Err(BadIdentifier);
    }
    if fault.Some? {
      return Err(BadPlacing(fault.value));
    }
    var parsed := IdsFromExisting(existing);
    if parsed.Err? {
      return Err(parsed.error);
    }
    var ids := Without(parsed.value, id);
    ids := ids + [id];
    ghost var all := ids;
    var value := EncodeCookieValue(ids);
    while |COOKIE_NAME| + |value| > MAX_NAME_AND_VALUE && |ids| > 1
      invariant ids != [] && Newest(ids) == Newest(all)
      invariant value == CookieValue(ids)
      decreases |ids|
    {
      ids := ids[1..];
      value := EncodeCookieValue(ids);
    }
    r := Ok(value);
  }
}
