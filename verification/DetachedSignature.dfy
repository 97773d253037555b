/** Verifying a signed Redirect message end to end: the octet string, the certificates, and the
    message that arrives. Signing, verifying and DEFLATE are parameters. */
module DetachedSignature {
  import opened Text
  import opened FormUrl
  import opened RedirectQuery
  import opened RedirectCorrelation
  import Base64
  import Base64Limit
  import Xml
  import RedirectTree
  import Utf8

  /** What one certificate says about a signature. */
  datatype Outcome = Valid | Invalid | ProviderFailed(detail: string) | Unusable

  /** `verify_message_signature`, for an octet string, signature, certificate and algorithm. */
  type Oracle<!C> = (Bytes, Bytes, C, Bytes) -> Outcome

  datatype VerifyError = BadInput(input: InputError) | ProviderError(detail: string) | NotVerified

  function Outcomes<C>(octet: Bytes, d: Detached, certificates: seq<C>, verify: Oracle<C>): seq<Outcome> {
    seq(|certificates|, i requires 0 <= i < |certificates| => verify(octet, d.signature, certificates[i], d.sigAlg))
  }

  /** The first provider failure. */
  function FirstFailure(outcomes: seq<Outcome>): Option<string> {
    if outcomes == [] then None
    else if outcomes[0].ProviderFailed? then Some(outcomes[0].detail)
    else FirstFailure(outcomes[1..])
  }

  /** Some certificate accepts; otherwise a provider failure counts only if no certificate rejected. */
  function Verdict(outcomes: seq<Outcome>): Option<VerifyError> {
    if Valid in outcomes then None
    else if Invalid !in outcomes && FirstFailure(outcomes).Some? then Some(ProviderError(FirstFailure(outcomes).value))
    else Some(NotVerified)
  }

  lemma {:induction false} FirstFailureSnoc(outcomes: seq<Outcome>, o: Outcome)
    ensures FirstFailure(outcomes + [o])
         == if FirstFailure(outcomes).Some? then FirstFailure(outcomes)
            else if o.ProviderFailed? then Some(o.detail)
            else None
  {
    if outcomes == [] {
      assert ([o])[1..] == [];
    } else {
      FirstFailureSnoc(outcomes[1..], o);
      assert (outcomes + [o])[1..] == outcomes[1..] + [o];
    }
  }

  /** The certificate loop of `verify_detached`. */
  method TryCertificates<C>(octet: Bytes, d: Detached, certificates: seq<C>, verify: Oracle<C>)
    returns (r: Option<VerifyError>)
    ensures r == Verdict(Outcomes(octet, d, certificates, verify))
  {
    ghost var outcomes := Outcomes(octet, d, certificates, verify);
    var providerError: Option<string> := None;
    var triedInvalid := false;
    for i := 0 to |certificates|
      invariant Valid !in outcomes[..i]
      invariant triedInvalid <==> Invalid in outcomes[..i]
      invariant providerError == FirstFailure(outcomes[..i])
    {
      assert outcomes[..i + 1] == outcomes[..i] + [outcomes[i]];
      FirstFailureSnoc(outcomes[..i], outcomes[i]);
      match verify(octet, d.signature, certificates[i], d.sigAlg) {
        case Valid =>
          assert outcomes[i] == Valid;
          return None;
        case Invalid =>
          triedInvalid := true;
        case ProviderFailed(detail) =>
          if providerError.None? {
            providerError := Some(detail);
          }
        case Unusable =>
      }
    }
    assert outcomes[..|certificates|] == outcomes;
    r := if providerError.Some? && !triedInvalid then Some(ProviderError(providerError.value)) else Some(NotVerified);
  }

  /** Some certificate verifies the signature over the octet string. */
  ghost predicate Verifies<C>(octet: Bytes, d: Detached, certificates: seq<C>, verify: Oracle<C>) {
    exists c :: c in certificates && verify(octet, d.signature, c, d.sigAlg) == Valid
  }

  lemma VerdictMeansVerified<C>(octet: Bytes, d: Detached, certificates: seq<C>, verify: Oracle<C>)
    ensures Verdict(Outcomes(octet, d, certificates, verify)) == None <==> Verifies(octet, d, certificates, verify)
  {
    var outcomes := Outcomes(octet, d, certificates, verify);
    if Verifies(octet, d, certificates, verify) {
      var c :| c in certificates && verify(octet, d.signature, c, d.sigAlg) == Valid;
      var i :| 0 <= i < |certificates| && certificates[i] == c;
      assert outcomes[i] == Valid;
    }
    if Valid in outcomes {
      var i :| 0 <= i < |outcomes| && outcomes[i] == Valid;
      assert certificates[i] in certificates;
    }
  }

  /** The first failure of the provider, with all before it no failure. */
  ghost predicate FailsFirst(outcomes: seq<Outcome>, i: nat, detail: string) {
    && i < |outcomes| && outcomes[i] == ProviderFailed(detail)
    && forall k :: 0 <= k < i ==> !outcomes[k].ProviderFailed?
  }

  lemma {:induction false} FirstFailureIs(outcomes: seq<Outcome>)
    ensures FirstFailure(outcomes) == None ==> forall k :: 0 <= k < |outcomes| ==> !outcomes[k].ProviderFailed?
    ensures FirstFailure(outcomes).Some? ==> exists i: nat :: FailsFirst(outcomes, i, FirstFailure(outcomes).value)
  {
    if outcomes != [] {
      FirstFailureIs(outcomes[1..]);
      if outcomes[0].ProviderFailed? {
        assert FirstFailure(outcomes) == Some(outcomes[0].detail);
        assert FailsFirst(outcomes, 0, FirstFailure(outcomes).value);
      } else if FirstFailure(outcomes[1..]).Some? {
        var i: nat :| FailsFirst(outcomes[1..], i, FirstFailure(outcomes[1..]).value);
        assert FailsFirst(outcomes, i + 1, FirstFailure(outcomes[1..]).value);
      } else {
        assert forall k :: 0 < k < |outcomes| ==> outcomes[k] == outcomes[1..][k - 1];
      }
    }
  }

  /** A failure of the provider is reported only when no certificate decided either way, and then the first one. */
  lemma ProviderErrorExactlyWhen<C>(octet: Bytes, d: Detached, certificates: seq<C>, verify: Oracle<C>)
    ensures var outcomes := Outcomes(octet, d, certificates, verify); var r := Verdict(outcomes);
            if Valid in outcomes then r == None
            else if Invalid in outcomes then r == Some(NotVerified)
            else if exists k :: 0 <= k < |outcomes| && outcomes[k].ProviderFailed? then
              exists i: nat, detail :: FailsFirst(outcomes, i, detail) && r == Some(ProviderError(detail))
            else r == Some(NotVerified)
  {
    FirstFailureIs(Outcomes(octet, d, certificates, verify));
  }

  /** Order, repetition and certificates that cannot be used do not change whether a signature is accepted. */
  lemma CertificateOrderDoesNotMatter<C>(octet: Bytes, d: Detached, some: seq<C>, others: seq<C>, verify: Oracle<C>)
    requires forall c :: c in some && c !in others ==> verify(octet, d.signature, c, d.sigAlg) != Valid
    requires forall c :: c in others && c !in some ==> verify(octet, d.signature, c, d.sigAlg) != Valid
    ensures Verdict(Outcomes(octet, d, some, verify)) == None <==> Verdict(Outcomes(octet, d, others, verify)) == None
  {
    VerdictMeansVerified(octet, d, some, verify);
    VerdictMeansVerified(octet, d, others, verify);
  }

  /** The query carries a signed message, its fields agree with the octet string rebuilt from it, and
      some certificate verifies the signature over that octet string. */
  ghost predicate VerifiedQuery<C>(rawQuery: Bytes, field: MessageField, lossy: Bytes -> Bytes, certificates: seq<C>,
                                   verify: Oracle<C>) {
    var params := RawParams(Trimmed(rawQuery));
    CarriesSignedMessage(params, field) &&
    match ReceivedRedirect(rawQuery, field, lossy)
    case Err(_) => false
    case Ok(d) => Verifies(CarriedOctet(params, field), d, certificates, verify)
  }

  /** `verify_detached` on a raw Redirect query. */
  method VerifyRedirect<C>(rawQuery: Bytes, field: MessageField, lossy: Bytes -> Bytes,
                           certificates: seq<C>, verify: Oracle<C>)
    returns (r: Result<Detached, VerifyError>)
    requires Lossy(lossy)
    ensures r.Ok? <==> VerifiedQuery(rawQuery, field, lossy, certificates, verify)
    ensures r.Ok? ==> ConsumesSigned(Trimmed(rawQuery), field, lossy)
    ensures r.Ok? ==> Ok(r.value) == ReceivedRedirect(rawQuery, field, lossy)
  {
    hide CarriesSignedMessage, SpelledLiterally, ConsumesSigned, CarriedOctet, Trimmed, RawParams, DetachedFields,
      RebuiltOctet,
         PairValues, Lossy, Verdict, Outcomes, Verifies;
    var query := Trimmed(rawQuery);
    AcceptedExactlyWhen(rawQuery, field, lossy);
    RebuiltExactlyWhen(RawParams(query), field);
    var octet := RebuiltOctet(RawParams(query), field);
    if octet.Err? {
      return Err(BadInput(octet.error));
    }
    var fields := DetachedFields(FormPairs(query, lossy), field, octet.value, lossy);
    if fields.Err? {
      return Err(BadInput(fields.error));
    }
    AcceptedFieldsAreSigned(rawQuery, field, lossy);
    OctetIsCarried(RawParams(query), field);
    var failure := TryCertificates(octet.value.value, fields.value, certificates, verify);
    VerdictMeansVerified(octet.value.value, fields.value, certificates, verify);
    r := if failure.Some? then Err(failure.value) else Ok(fields.value);
  }

  lemma OctetIsCarried(params: seq<Param>, field: MessageField)
    requires CarriesSignedMessage(params, field)
    ensures RebuiltOctet(params, field) == Ok(Some(CarriedOctet(params, field)))
  {
    hide Values, Octet;
    RebuiltExactlyWhen(params, field);
  }

  /** `decode_message` for the Redirect binding, before the XML limits. */
  function DecodedMessage(message: Bytes, limit: Base64Limit.Usize, inflate: Bytes -> Option<string>): Option<string> {
    match Base64Limit.LimitedDecode(message, limit)
    case Err(_) => None
    case Ok(compressed) => inflate(compressed)
  }

  lemma EncodedIsUtf8(b: Bytes)
    ensures Utf8.IsUtf8(Base64.Encode(b))
  {
    hide Base64.Encode;
    Base64Limit.EncodedIsAscii(b);
    Utf8.AsciiIsUtf8(Base64.Encode(b));
  }

  /** A signed document arrives: every URL a sender builds from it is accepted by a receiver with a fitting
      certificate if and only if its base has no fragment, and the receiver then reads the document without
      its protocol signature. */
  lemma SignedDocumentArrives<C>(d: Xml.Document, base: Bytes, field: MessageField, relay: Option<Bytes>,
                                 sigAlg: Bytes, signature: Bytes, lossy: Bytes -> Bytes,
                                 certificates: seq<C>, verify: Oracle<C>, deflate: string -> Bytes,
                                 inflate: Bytes -> Option<string>, limit: Base64Limit.Usize)
    requires Lossy(lossy) && Clear(OwnParams(base), lossy) && Utf8.IsUtf8(sigAlg) && Utf8.IsUtf8(signature)
    requires relay.Some? ==> Utf8.IsUtf8(relay.value)
    requires var text := Xml.PrintDocument(RedirectTree.WithoutSignatures(d));
             && inflate(deflate(text)) == Some(text) && |deflate(text)| <= limit
             && |Base64.Encode(deflate(text))| <= Base64Limit.USIZE_MAX
             && Verifies(SignedOctet(field, Base64.Encode(deflate(text)), relay, sigAlg), Detached(signature, sigAlg),
                         certificates, verify)
    ensures var text := Xml.PrintDocument(RedirectTree.WithoutSignatures(d));
            var octet := SignedOctet(field, Base64.Encode(deflate(text)), relay, sigAlg);
            var rawQuery := QueryOf(SignedUrl(base, octet, signature));
            var message := PairValues(FormPairs(Trimmed(rawQuery), lossy), MessageName(field));
            && (VerifiedQuery(rawQuery, field, lossy, certificates, verify) <==> '#' !in base)
            && ('#' !in base ==>
                  && ReceivedRedirect(rawQuery, field, lossy) == Ok(Detached(signature, sigAlg))
                  && RebuiltOctet(RawParams(Trimmed(rawQuery)), field) == Ok(Some(octet))
                  && |message| == 1 && DecodedMessage(message[0], limit, inflate) == Some(text))
  {
    hide Base64.Encode, SignedOctet, SignedUrl, Verifies, Lossy, Clear, OwnParams, ReceivedRedirect, RebuiltOctet,
      Trimmed, QueryOf, RawParams, PairValues, FormPairs, Xml.PrintDocument, RedirectTree.WithoutSignatures,
      DecodedMessage, CarriesSignedMessage, CarriedOctet;
    var text := Xml.PrintDocument(RedirectTree.WithoutSignatures(d));
    var message := Base64.Encode(deflate(text));
    EncodedIsUtf8(deflate(text));
    ReceiverRebuildsSignedOctet(base, field, message, relay, sigAlg, signature, lossy);
    var params := RawParams(Trimmed(QueryOf(SignedUrl(base, SignedOctet(field, message, relay, sigAlg), signature))));
    if '#' !in base {
      RebuiltMeansCarried(params, field);
      OctetIsCarried(params, field);
      DecodesMessage(deflate(text), limit, inflate);
    }
  }

  lemma RebuiltMeansCarried(params: seq<Param>, field: MessageField)
    requires RebuiltOctet(params, field).Ok? && RebuiltOctet(params, field).value.Some?
    ensures CarriesSignedMessage(params, field)
  {
    hide Values, Octet;
    RebuiltExactlyWhen(params, field);
  }

  lemma DecodesMessage(compressed: Bytes, limit: Base64Limit.Usize, inflate: Bytes -> Option<string>)
    requires |compressed| <= limit && |Base64.Encode(compressed)| <= Base64Limit.USIZE_MAX
    ensures DecodedMessage(Base64.Encode(compressed), limit, inflate) == inflate(compressed)
  {
    hide Base64.Encode, Base64.Decode, Base64Limit.LimitedDecode, Base64Limit.Normalized;
    var encoded: string := Base64.Encode(compressed);
    Base64.EncodedIsText(compressed);
    Base64Limit.TextIsNormal(encoded);
    Base64.DecodeEncode(compressed);
    Base64.EncodedLength(compressed);
    Base64Limit.RoomForLimit(|compressed|, limit, |encoded|);
    LimitedOfNormal(encoded, limit, compressed);
  }

  lemma LimitedOfNormal(encoded: string, limit: Base64Limit.Usize, compressed: Bytes)
    requires Base64Limit.Normalized(encoded) == encoded && Base64Limit.NormalizedLength(encoded) == |encoded|
    requires Base64.Decode(encoded) == Some(compressed) && |compressed| <= limit
    requires |encoded| <= Base64Limit.MaxEncodedLength(limit)
    ensures Base64Limit.LimitedDecode(encoded, limit) == Ok(compressed)
  {
    hide Base64.Decode, Base64Limit.Normalized, Base64Limit.NormalizedLength;
  }
}
