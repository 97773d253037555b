/** A signed HTTP-Redirect message (section 3.4.4.1 of SAML Bindings 2.0): the octet string a sender
    signs and puts into a URL, and the octet string a receiver rebuilds from the raw query. */
module RedirectQuery {
  import opened Text
  import opened FormUrl

  const SAML_REQUEST: Bytes := "SAMLRequest"
  const SAML_RESPONSE: Bytes := "SAMLResponse"
  const RELAY_STATE: Bytes := "RelayState"
  const SIG_ALG: Bytes := "SigAlg"
  const SIGNATURE: Bytes := "Signature"

  datatype MessageField = Request | Response

  function MessageName(field: MessageField): Bytes {
    match field case Request => SAML_REQUEST case Response => SAML_RESPONSE
  }

  function OppositeName(field: MessageField): Bytes {
    match field case Request => SAML_RESPONSE case Response => SAML_REQUEST
  }

  datatype InputError =
    | AmbiguousField(name: Bytes)
    | MissingField(name: Bytes)
    | UnexpectedMessage
    | IncompleteSignature
    | AmbiguousFlowInput
    | MissingBindingParameter(name: Bytes)
    | SignatureMissing
    | DetachedSignature
    | RelayStateMismatch

  // Sending.

  function Field(name: Bytes, encoded: Bytes): Bytes { name + ['='] + encoded }

  /** The octet string over values that are already encoded. */
  function Octet(field: MessageField, message: Bytes, relay: Option<Bytes>, sigAlg: Bytes): Bytes {
    Field(MessageName(field), message)
    + (if relay.Some? then ['&'] + Field(RELAY_STATE, relay.value) else [])
    + (['&'] + Field(SIG_ALG, sigAlg))
  }

  function SerializedOption(value: Option<Bytes>): Option<Bytes> {
    match value case Some(v) => Some(Serialized(v)) case None => None
  }

  function SignedOctet(field: MessageField, message: Bytes, relay: Option<Bytes>, sigAlg: Bytes): Bytes {
    Octet(field, Serialized(message), SerializedOption(relay), Serialized(sigAlg))
  }

  /** The text after the first `?`. */
  function AfterMark(url: Bytes): Option<Bytes> {
    match IndexOf(url, '?')
    case Some(i) => Some(url[i + 1..])
    case None => None
  }

  predicate HasQuery(base: Bytes) { AfterMark(base).Some? && AfterMark(base).value != [] }

  function Separator(base: Bytes): Byte { if HasQuery(base) then '&' else '?' }

  /** More is put behind an ampersand exactly when something stands behind a question mark already. */
  lemma SeparatorExactlyWhen(base: Bytes)
    ensures Separator(base) == (if exists i :: 0 <= i < |base| - 1 && base[i] == '?' then '&' else '?')
  {
    hide IndexOf;
  }

  /** `append_signature`. */
  function SignedUrl(base: Bytes, octet: Bytes, signature: Bytes): Bytes {
    base + [Separator(base)] + (octet + ['&'] + Field(SIGNATURE, Serialized(signature)))
  }

  // Receiving.

  /** A URL up to its fragment, which is not sent. */
  function WithoutFragment(url: Bytes): Bytes {
    match IndexOf(url, '#') case Some(i) => url[..i] case None => url
  }

  /** The query a server receives for a URL, and the empty text when there is none. */
  function QueryOf(url: Bytes): Bytes {
    match AfterMark(WithoutFragment(url)) case Some(query) => query case None => []
  }

  /** `trim_start_matches('?')`. */
  function Trimmed(query: Bytes): Bytes {
    if query != [] && query[0] == '?' then Trimmed(query[1..]) else query
  }

  function Values(params: seq<Param>, name: Bytes): seq<Bytes> {
    if params == [] then []
    else (if params[0].name == name then [params[0].value] else []) + Values(params[1..], name)
  }

  /** `unique_encoded_query_value`. */
  function UniqueValue(params: seq<Param>, name: Bytes): Result<Option<Bytes>, InputError> {
    var values := Values(params, name);
    if |values| > 1 then Err(AmbiguousField(name))
    else if values == [] then Ok(None)
    else Ok(Some(values[0]))
  }

  /** `validate_query_message_kind`. */
  function MessageValue(params: seq<Param>, field: MessageField): Result<Bytes, InputError> {
    var expected, opposite := UniqueValue(params, MessageName(field)), UniqueValue(params, OppositeName(field));
    if expected.Err? then Err(expected.error)
    else if opposite.Err? then Err(opposite.error)
    else if opposite.value.Some? then Err(UnexpectedMessage)
    else if expected.value.None? then Err(MissingField(MessageName(field)))
    else Ok(expected.value.value)
  }

  /** `redirect_octet_from_raw_query`, from the parameters on. */
  function RebuiltOctet(params: seq<Param>, field: MessageField): Result<Option<Bytes>, InputError> {
    var message := MessageValue(params, field);
    var relay, sigAlg := UniqueValue(params, RELAY_STATE), UniqueValue(params, SIG_ALG);
    var signature := UniqueValue(params, SIGNATURE);
    if message.Err? then Err(message.error)
    else if relay.Err? then Err(relay.error)
    else if sigAlg.Err? then Err(sigAlg.error)
    else if signature.Err? then Err(signature.error)
    else if sigAlg.value.Some? && signature.value.Some? then
      Ok(Some(Octet(field, message.value, relay.value, sigAlg.value.value)))
    else if sigAlg.value.None? && signature.value.None? then Ok(None)
    else Err(IncompleteSignature)
  }

  function PairValues(pairs: seq<Pair>, key: Bytes): seq<Bytes> {
    if pairs == [] then []
    else (if pairs[0].0 == key then [pairs[0].1] else []) + PairValues(pairs[1..], key)
  }

  /** `single_param`. */
  function SingleParam(pairs: seq<Pair>, key: Bytes): Result<Option<Bytes>, InputError> {
    var values := PairValues(pairs, key);
    if |values| > 1 then Err(AmbiguousFlowInput)
    else if values == [] then Ok(None)
    else Ok(Some(values[0]))
  }

  /** `single_param(…)?.ok_or(…)?`. */
  function RequiredParam(pairs: seq<Pair>, key: Bytes, missing: InputError): Result<Bytes, InputError> {
    match SingleParam(pairs, key)
    case Err(e) => Err(e)
    case Ok(None) => Err(missing)
    case Ok(Some(v)) => Ok(v)
  }

  /** `ensure_redirect_octet_matches_consumed_fields`; the result is the error, if there is one. */
  function OctetMismatch(query: seq<Pair>, field: MessageField, sigAlg: Bytes, signed: seq<Pair>): Option<InputError> {
    var name := MessageName(field);
    var stray := SingleParam(signed, SIGNATURE);
    var signedMessage := RequiredParam(signed, name, MissingBindingParameter(name));
    var message := RequiredParam(query, name, MissingBindingParameter(name));
    var signedAlg := RequiredParam(signed, SIG_ALG, MissingBindingParameter(SIG_ALG));
    var signedRelay, relay := SingleParam(signed, RELAY_STATE), SingleParam(query, RELAY_STATE);
    if stray.Err? then Some(stray.error)
    else if stray.value.Some? then Some(DetachedSignature)
    else if signedMessage.Err? then Some(signedMessage.error)
    else if message.Err? then Some(message.error)
    else if signedMessage.value != message.value then Some(DetachedSignature)
    else if signedAlg.Err? then Some(signedAlg.error)
    else if signedAlg.value != sigAlg then Some(DetachedSignature)
    else if signedRelay.Err? then Some(signedRelay.error)
    else if relay.Err? then Some(relay.error)
    else if signedRelay.value != relay.value then Some(RelayStateMismatch)
    else None
  }

  /** Whatever octet string is handed in, its fields agree with the query exactly when it has no signature, one
      message and one algorithm that are those of the query, and the same relay state or none in both. */
  lemma AgreesExactlyWhen(query: seq<Pair>, field: MessageField, sigAlg: Bytes, signed: seq<Pair>)
    ensures var name: Bytes := if field == Request then "SAMLRequest" else "SAMLResponse";
            var relays := PairValues(signed, "RelayState");
            OctetMismatch(query, field, sigAlg, signed) == None <==>
              && PairValues(signed, "Signature") == []
              && |PairValues(signed, name)| == 1 && PairValues(signed, name) == PairValues(query, name)
              && PairValues(signed, "SigAlg") == [sigAlg]
              && |relays| <= 1 && relays == PairValues(query, "RelayState")
  {
    hide PairValues;
  }

  /** A relay state that differs is reported as such, any other difference as a signature that does not fit. */
  lemma MismatchReported(query: seq<Pair>, field: MessageField, sigAlg: Bytes, signed: seq<Pair>)
    requires var name: Bytes := if field == Request then "SAMLRequest" else "SAMLResponse";
             && |PairValues(signed, "Signature")| <= 1 && |PairValues(signed, "SigAlg")| == 1
             && |PairValues(signed, name)| == |PairValues(query, name)| == 1
             && |PairValues(signed, "RelayState")| <= 1 && |PairValues(query, "RelayState")| <= 1
    ensures var name: Bytes := if field == Request then "SAMLRequest" else "SAMLResponse";
            OctetMismatch(query, field, sigAlg, signed)
            == if PairValues(signed, "Signature") != [] || PairValues(signed, name) != PairValues(query, name)
                  || PairValues(signed, "SigAlg") != [sigAlg] then Some(DetachedSignature)
               else if PairValues(signed, "RelayState") != PairValues(query, "RelayState") then Some(RelayStateMismatch)
               else None
  {
    hide PairValues;
  }

  /** The signature and algorithm a detached verification goes on with. */
  datatype Detached = Detached(signature: Bytes, sigAlg: Bytes)

  /** The checks `verify_detached` makes before it tries certificates. */
  function DetachedFields(query: seq<Pair>, field: MessageField, octet: Option<Bytes>, lossy: Bytes -> Bytes)
    : Result<Detached, InputError>
  {
    var signature := RequiredParam(query, SIGNATURE, SignatureMissing);
    var sigAlg := RequiredParam(query, SIG_ALG, MissingBindingParameter(SIG_ALG));
    if signature.Err? then Err(signature.error)
    else if sigAlg.Err? then Err(sigAlg.error)
    else
      match octet
      case None => Err(MissingBindingParameter("octet_string"))
      case Some(o) =>
        match OctetMismatch(query, field, sigAlg.value, FormPairs(o, lossy))
        case Some(e) => Err(e)
        case None => Ok(Detached(signature.value, sigAlg.value))
  }

  /** The fields of a query are taken exactly when it has one signature and one algorithm and there is an octet string
      whose fields agree with it. */
  lemma TakenExactlyWhen(query: seq<Pair>, field: MessageField, octet: Option<Bytes>, lossy: Bytes -> Bytes,
                         d: Detached)
    ensures DetachedFields(query, field, octet, lossy) == Ok(d) <==>
              && PairValues(query, "Signature") == [d.signature] && PairValues(query, "SigAlg") == [d.sigAlg]
              && octet.Some? && OctetMismatch(query, field, d.sigAlg, FormPairs(octet.value, lossy)) == None
  {
    hide PairValues, OctetMismatch, FormPairs;
  }

  /** A Redirect input up to the certificates: what `http_request_from_input` and `verify_detached` make of a raw
      query. */
  function ReceivedRedirect(rawQuery: Bytes, field: MessageField, lossy: Bytes -> Bytes): Result<Detached, InputError> {
    var query := Trimmed(rawQuery);
    match RebuiltOctet(RawParams(query), field)
    case Err(e) => Err(e)
    case Ok(octet) => DetachedFields(FormPairs(query, lossy), field, octet, lossy)
  }
}
