/** What was signed is what is read: the receiver of a signed Redirect URL rebuilds the signed octet
    string, and it accepts no query whose fields differ from the signed ones. */
module RedirectCorrelation {
  import opened Text
  import opened FormUrl
  import opened RedirectQuery
  import Base64
  import Utf8

  // The five names.

  predicate IsFieldName(name: Bytes) {
    name == SAML_REQUEST || name == SAML_RESPONSE || name == RELAY_STATE || name == SIG_ALG || name == SIGNATURE
  }

  lemma NamesDiffer()
    ensures SAML_REQUEST != SAML_RESPONSE && SAML_REQUEST != RELAY_STATE && SAML_REQUEST != SIG_ALG &&
        SAML_REQUEST != SIGNATURE
    ensures SAML_RESPONSE != RELAY_STATE && SAML_RESPONSE != SIG_ALG && SAML_RESPONSE != SIGNATURE
    ensures RELAY_STATE != SIG_ALG && RELAY_STATE != SIGNATURE && SIG_ALG != SIGNATURE
  {
    assert SAML_REQUEST[4] == 'R' && RELAY_STATE[0] == 'R' && SIG_ALG[3] == 'A' && SIGNATURE[3] == 'n';
    assert |SAML_REQUEST| == 11 && |SAML_RESPONSE| == 12 && |RELAY_STATE| == 10 && |SIG_ALG| == 6 && |SIGNATURE| == 9;
  }

  predicate PlainName(name: Bytes) { name != [] && forall i :: 0 <= i < |name| ==> IsAsciiAlphanumeric(name[i]) }

  lemma NamesArePlain()
    ensures PlainName(SAML_REQUEST) && PlainName(SAML_RESPONSE) && PlainName(RELAY_STATE)
    ensures PlainName(SIG_ALG) && PlainName(SIGNATURE)
  {
  }

  lemma {:induction false} DecodesPlain(s: Bytes)
    requires forall i :: 0 <= i < |s| ==> s[i] != '+' && s[i] != '%'
    ensures DecodedBytes(s) == s
  {
    ReplacesNothing(s);
    if s != [] {
      DecodesPlain(s[1..]);
      ReplacesNothing(s[1..]);
      assert [s[0]] + s[1..] == s;
    }
  }

  /** A field name stands for itself and holds no separators. */
  lemma PlainNameReads(name: Bytes, lossy: Bytes -> Bytes)
    requires PlainName(name) && Lossy(lossy)
    ensures lossy(DecodedBytes(name)) == name
    ensures '&' !in name && '=' !in name && '?' !in name && '#' !in name
  {
    assert forall i :: 0 <= i < |name| ==> IsAsciiAlphanumeric(name[i]);
    DecodesPlain(name);
    Utf8.AsciiIsUtf8(name);
  }

  // Values by name.

  lemma {:induction false} ValuesConcat(a: seq<Param>, b: seq<Param>, name: Bytes)
    ensures Values(a + b, name) == Values(a, name) + Values(b, name)
  {
    if a == [] {
      assert a + b == b;
    } else {
      ValuesConcat(a[1..], b, name);
      var both := a + b;
      assert both[0] == a[0] && both[1..] == a[1..] + b;
      Regroup(if a[0].name == name then [a[0].value] else [], Values(a[1..], name), Values(b, name));
    }
  }

  function DecodedName(p: Param, lossy: Bytes -> Bytes): Bytes { lossy(DecodedBytes(p.name)) }

  function DecodedValues(values: seq<Bytes>, lossy: Bytes -> Bytes): seq<Bytes> {
    if values == [] then [] else [lossy(DecodedBytes(values[0]))] + DecodedValues(values[1..], lossy)
  }

  /** Every parameter that reads as `name` is spelled that way. */
  predicate Literal(params: seq<Param>, name: Bytes, lossy: Bytes -> Bytes) {
    params == [] ||
    ((DecodedName(params[0], lossy) == name ==> params[0].name == name) && Literal(params[1..], name, lossy))
  }

  lemma PairHead(params: seq<Param>, name: Bytes, lossy: Bytes -> Bytes)
    requires params != []
    ensures PairValues(DecodedPairs(params, lossy), name)
         == (if DecodedName(params[0], lossy) == name then [lossy(DecodedBytes(params[0].value))] else [])
          + PairValues(DecodedPairs(params[1..], lossy), name)
  {
    hide DecodedBytes;
    assert DecodedPairs(params, lossy)[1..] == DecodedPairs(params[1..], lossy);
  }

  lemma DecodedHead(value: Bytes, values: seq<Bytes>, lossy: Bytes -> Bytes)
    ensures DecodedValues([value] + values, lossy) == [lossy(DecodedBytes(value))] + DecodedValues(values, lossy)
  {
    hide DecodedBytes;
    assert ([value] + values)[1..] == values;
  }

  /** A reader of decoded names sees every literal parameter, and others exactly when a name is spelled otherwise. */
  lemma {:induction false} ReadByName(params: seq<Param>, name: Bytes, lossy: Bytes -> Bytes)
    requires lossy(DecodedBytes(name)) == name
    ensures |PairValues(DecodedPairs(params, lossy), name)| >= |Values(params, name)|
    ensures |PairValues(DecodedPairs(params, lossy), name)| == |Values(params, name)| <==> Literal(params, name, lossy)
    ensures Literal(params, name, lossy) ==>
              PairValues(DecodedPairs(params, lossy), name) == DecodedValues(Values(params, name), lossy)
  {
    if params != [] {
      hide DecodedBytes, DecodedPairs, PairValues, DecodedValues;
      var p, values := params[0], Values(params[1..], name);
      ReadByName(params[1..], name, lossy);
      PairHead(params, name, lossy);
      DecodedHead(p.value, values, lossy);
      assert p.name == name ==> Values(params, name) == [p.value] + values;
      assert p.name != name ==> Values(params, name) == values;
    } else {
      assert DecodedPairs(params, lossy) == [] && Values(params, name) == [];
    }
  }

  // The signed octet string as parameters.

  function OctetParams(field: MessageField, message: Bytes, relay: Option<Bytes>, sigAlg: Bytes): seq<Param> {
    [Param(MessageName(field), message)]
    + (if relay.Some? then [Param(RELAY_STATE, relay.value)] else [])
    + [Param(SIG_ALG, sigAlg)]
  }

  lemma FieldParam(name: Bytes, encoded: Bytes)
    requires PlainName(name) && '&' !in encoded
    ensures RawParams(Field(name, encoded)) == [Param(name, encoded)]
  {
    hide RawParams;
    assert forall i :: 0 <= i < |name| ==> IsAsciiAlphanumeric(name[i]);
    RawParam(name, encoded);
  }

  lemma AppendsParam(front: Bytes, name: Bytes, encoded: Bytes)
    requires PlainName(name) && '&' !in encoded
    ensures RawParams(front + (['&'] + Field(name, encoded))) == RawParams(front) + [Param(name, encoded)]
  {
    hide RawParams;
    FieldParam(name, encoded);
    RawParamsConcat(front, Field(name, encoded));
    Regroup<Byte>(front, ['&'], Field(name, encoded));
  }

  predicate NoAmpersand(message: Bytes, relay: Option<Bytes>, sigAlg: Bytes) {
    '&' !in message && '&' !in sigAlg && (relay.Some? ==> '&' !in relay.value)
  }

  /** The parameters are the message, the relay state if there is one, and the algorithm, in this order. */
  ghost predicate ReadsAs(params: seq<Param>, field: MessageField, message: Bytes, relay: Option<Bytes>,
                          sigAlg: Bytes) {
    && |params| == (if relay.Some? then 3 else 2)
    && params[0].name == MessageName(field) && DecodedBytes(params[0].value) == message
    && (relay.Some? ==> params[1].name == RELAY_STATE && DecodedBytes(params[1].value) == relay.value)
    && params[|params| - 1].name == SIG_ALG && DecodedBytes(params[|params| - 1].value) == sigAlg
  }

  /** The end of `build_redirect_octet`, after the message was deflated: what it appends reads back as the
      values it was given, and none of it can be taken for a fragment. */
  method BuildRedirectOctet(field: MessageField, deflated: Bytes, relay: Option<Bytes>, sigAlg: Bytes)
    returns (octet: Bytes)
    ensures octet == SignedOctet(field, Base64.Encode(deflated), relay, sigAlg)
    ensures ReadsAs(RawParams(octet), field, Base64.Encode(deflated), relay, sigAlg)
    ensures Base64.Decode(DecodedBytes(RawParams(octet)[0].value)) == Some(deflated)
    ensures '#' !in octet && '?' !in octet
  {
    hide Serialized, Base64.Encode, Base64.Decode, RawParams, DecodedBytes;
    var message := Base64.Encode(deflated);
    octet := Field(MessageName(field), Serialized(message));
    if relay.Some? {
      octet := octet + (['&'] + Field(RELAY_STATE, Serialized(relay.value)));
    }
    octet := octet + (['&'] + Field(SIG_ALG, Serialized(sigAlg)));
    SignedOctetReads(field, message, relay, sigAlg);
    Base64.DecodeEncode(deflated);
  }

  lemma SignedOctetReads(field: MessageField, message: Bytes, relay: Option<Bytes>, sigAlg: Bytes)
    ensures var octet := SignedOctet(field, message, relay, sigAlg);
            && ReadsAs(RawParams(octet), field, message, relay, sigAlg)
            && '#' !in octet && '?' !in octet
    ensures NoAmpersand(Serialized(message), SerializedOption(relay), Serialized(sigAlg))
  {
    hide Serialized, DecodedBytes, RawParams, Field;
    SerializedIsSafe(message);
    SerializedIsSafe(sigAlg);
    DecodesSerialized(message);
    DecodesSerialized(sigAlg);
    FieldIsSafe(MessageName(field), message);
    FieldIsSafe(SIG_ALG, sigAlg);
    if relay.Some? {
      SerializedIsSafe(relay.value);
      DecodesSerialized(relay.value);
      FieldIsSafe(RELAY_STATE, relay.value);
    }
    OctetReads(field, Serialized(message), SerializedOption(relay), Serialized(sigAlg));
  }

  lemma FieldIsSafe(name: Bytes, value: Bytes)
    requires IsFieldName(name)
    ensures '#' !in Field(name, Serialized(value)) && '?' !in Field(name, Serialized(value))
  {
    hide Serialized;
    NamesArePlain();
    SerializedIsSafe(value);
    assert forall i :: 0 <= i < |name| ==> IsAsciiAlphanumeric(name[i]);
  }

  lemma OctetReads(field: MessageField, message: Bytes, relay: Option<Bytes>, sigAlg: Bytes)
    requires NoAmpersand(message, relay, sigAlg)
    ensures RawParams(Octet(field, message, relay, sigAlg)) == OctetParams(field, message, relay, sigAlg)
  {
    hide RawParams, Field, PlainName;
    NamesArePlain();
    var first := Field(MessageName(field), message);
    FieldParam(MessageName(field), message);
    if relay.Some? {
      AppendsParam(first, RELAY_STATE, relay.value);
      AppendsParam(first + (['&'] + Field(RELAY_STATE, relay.value)), SIG_ALG, sigAlg);
    } else {
      assert first + [] == first;
      AppendsParam(first, SIG_ALG, sigAlg);
    }
  }

  function OptionValues(o: Option<Bytes>): seq<Bytes> { if o.Some? then [o.value] else [] }

  lemma OneValue(p: Param, name: Bytes)
    ensures Values([p], name) == if p.name == name then [p.value] else []
  {
    assert [p][1..] == [];
  }

  lemma OctetValues(field: MessageField, message: Bytes, relay: Option<Bytes>, sigAlg: Bytes)
    ensures var params := OctetParams(field, message, relay, sigAlg);
            && Values(params, MessageName(field)) == [message]
            && Values(params, OppositeName(field)) == []
            && Values(params, RELAY_STATE) == OptionValues(relay)
            && Values(params, SIG_ALG) == [sigAlg]
            && Values(params, SIGNATURE) == []
  {
    NamesDiffer();
    var first, last := Param(MessageName(field), message), Param(SIG_ALG, sigAlg);
    var middle := if relay.Some? then [Param(RELAY_STATE, relay.value)] else [];
    ValuesOfThree(first, middle, last, MessageName(field));
    ValuesOfThree(first, middle, last, OppositeName(field));
    ValuesOfThree(first, middle, last, RELAY_STATE);
    ValuesOfThree(first, middle, last, SIG_ALG);
    ValuesOfThree(first, middle, last, SIGNATURE);
  }

  lemma ValuesOfThree(first: Param, middle: seq<Param>, last: Param, name: Bytes)
    requires |middle| <= 1
    ensures Values([first] + middle + [last], name)
         == (if first.name == name then [first.value] else [])
          + (if middle != [] && middle[0].name == name then [middle[0].value] else [])
          + (if last.name == name then [last.value] else [])
  {
    ValuesConcat([first] + middle, [last], name);
    ValuesConcat([first], middle, name);
    OneValue(first, name);
    OneValue(last, name);
    if middle != [] {
      OneValue(middle[0], name);
      assert middle == [middle[0]];
    }
  }

  predicate AllPlain(params: seq<Param>) { forall i :: 0 <= i < |params| ==> PlainName(params[i].name) }

  lemma {:induction false} PlainIsLiteral(params: seq<Param>, name: Bytes, lossy: Bytes -> Bytes)
    requires Lossy(lossy) && AllPlain(params)
    ensures Literal(params, name, lossy)
  {
    if params != [] {
      hide DecodedBytes, Lossy, PlainName;
      PlainNameReads(params[0].name, lossy);
      PlainIsLiteral(params[1..], name, lossy);
    }
  }

  /** The parameters of an octet string, read as a form. */
  lemma OctetFields(field: MessageField, message: Bytes, relay: Option<Bytes>, sigAlg: Bytes, lossy: Bytes -> Bytes)
    requires NoAmpersand(message, relay, sigAlg) && Lossy(lossy)
    ensures var signed := FormPairs(Octet(field, message, relay, sigAlg), lossy);
            && PairValues(signed, MessageName(field)) == [lossy(DecodedBytes(message))]
            && PairValues(signed, RELAY_STATE) == DecodedValues(OptionValues(relay), lossy)
            && PairValues(signed, SIG_ALG) == [lossy(DecodedBytes(sigAlg))]
            && PairValues(signed, SIGNATURE) == []
  {
    hide DecodedBytes, Lossy, RawParams, PlainName, Values, PairValues, Literal, Octet, NoAmpersand;
    var params := OctetParams(field, message, relay, sigAlg);
    NamesArePlain();
    OctetReads(field, message, relay, sigAlg);
    OctetValues(field, message, relay, sigAlg);
    assert AllPlain(params);
    ReadsLiteral(params, MessageName(field), lossy);
    ReadsLiteral(params, RELAY_STATE, lossy);
    ReadsLiteral(params, SIG_ALG, lossy);
    ReadsLiteral(params, SIGNATURE, lossy);
    assert [message][1..] == [] && [sigAlg][1..] == [];
  }

  lemma ReadsLiteral(params: seq<Param>, name: Bytes, lossy: Bytes -> Bytes)
    requires Lossy(lossy) && PlainName(name) && AllPlain(params)
    ensures PairValues(DecodedPairs(params, lossy), name) == DecodedValues(Values(params, name), lossy)
  {
    PlainNameReads(name, lossy);
    PlainIsLiteral(params, name, lossy);
    ReadByName(params, name, lossy);
  }

  // Any query.

  /** One message of the expected kind, none of the other, and at most one relay state. */
  predicate CarriesMessage(params: seq<Param>, field: MessageField) {
    && |Values(params, if field == Request then "SAMLRequest" else "SAMLResponse")| == 1
    && Values(params, if field == Request then "SAMLResponse" else "SAMLRequest") == []
    && |Values(params, "RelayState")| <= 1
  }

  /** Such a message with one algorithm and one signature. */
  predicate CarriesSignedMessage(params: seq<Param>, field: MessageField) {
    CarriesMessage(params, field) && |Values(params, "SigAlg")| == 1 && |Values(params, "Signature")| == 1
  }

  /** A message without algorithm and signature is accepted as an unsigned one; with one of the two it is incomplete. */
  lemma UnsignedExactlyWhen(params: seq<Param>, field: MessageField)
    ensures RebuiltOctet(params, field) == Ok(None) <==>
              CarriesMessage(params, field) && Values(params, "SigAlg") == [] && Values(params, "Signature") == []
    ensures RebuiltOctet(params, field) == Err(IncompleteSignature) <==>
              && CarriesMessage(params, field)
              && ((|Values(params, "SigAlg")| == 1 && Values(params, "Signature") == [])
                  || (Values(params, "SigAlg") == [] && |Values(params, "Signature")| == 1))
  {
    hide Values, Octet;
  }

  /** Otherwise a field that is given twice is reported, or the wrong message, or that there is none. */
  lemma RefusedExactlyWhen(params: seq<Param>, field: MessageField)
    ensures var own, other: Bytes := if field == Request then "SAMLRequest" else "SAMLResponse",
                                     if field == Request then "SAMLResponse" else "SAMLRequest";
            && (RebuiltOctet(params, field) == Err(UnexpectedMessage) <==>
                  |Values(params, own)| <= 1 && |Values(params, other)| == 1)
            && (RebuiltOctet(params, field) == Err(MissingField(own)) <==>
                  Values(params, own) == [] && Values(params, other) == [])
            && ((exists name :: RebuiltOctet(params, field) == Err(AmbiguousField(name))) <==>
                  || |Values(params, own)| > 1 || |Values(params, other)| > 1
                  || (|Values(params, own)| == 1 && Values(params, other) == []
                      && (|Values(params, "RelayState")| > 1 || |Values(params, "SigAlg")| > 1
                          || |Values(params, "Signature")| > 1)))
  {
    hide Values, Octet;
  }

  /** No parameter spells a field name with escapes. */
  predicate SpelledLiterally(params: seq<Param>, field: MessageField, lossy: Bytes -> Bytes) {
    && Literal(params, MessageName(field), lossy)
    && Literal(params, RELAY_STATE, lossy)
    && Literal(params, SIG_ALG, lossy)
    && Literal(params, SIGNATURE, lossy)
  }

  function FirstOf(values: seq<Bytes>): Option<Bytes> { if values == [] then None else Some(values[0]) }

  lemma RebuiltExactlyWhen(params: seq<Param>, field: MessageField)
    ensures RebuiltOctet(params, field).Ok? && RebuiltOctet(params, field).value.Some?
       <==> CarriesSignedMessage(params, field)
    ensures CarriesSignedMessage(params, field) ==>
              RebuiltOctet(params, field)
              == Ok(Some(Octet(field, Values(params, MessageName(field))[0], FirstOf(Values(params, RELAY_STATE)),
                               Values(params, SIG_ALG)[0])))
  {
    hide Values, Octet;
  }

  lemma ParamLacksAmpersand(segment: Bytes)
    requires '&' !in segment
    ensures '&' !in ParamOf(segment).value
  {
    hide IndexOf;
  }

  lemma {:induction false} ValuesLackAmpersand(segments: seq<Bytes>, name: Bytes, i: nat)
    requires forall k :: 0 <= k < |segments| ==> '&' !in segments[k]
    requires i < |Values(ParamsOf(segments), name)|
    ensures '&' !in Values(ParamsOf(segments), name)[i]
    decreases |segments|
  {
    var head := if segments[0] == [] then [] else [ParamOf(segments[0])];
    var rest := ParamsOf(segments[1..]);
    assert ParamsOf(segments) == head + rest;
    hide ParamOf, ParamsOf;
    ValuesConcat(head, rest, name);
    if head != [] {
      OneValue(head[0], name);
      ParamLacksAmpersand(segments[0]);
      assert head == [head[0]];
    }
    hide Values;
    var own := Values(head, name);
    if i >= |own| {
      ValuesLackAmpersand(segments[1..], name, i - |own|);
    }
  }

  lemma QueryValues(query: Bytes, name: Bytes, i: nat)
    requires i < |Values(RawParams(query), name)|
    ensures '&' !in Values(RawParams(query), name)[i]
  {
    forall k | 0 <= k < |Split<Byte>(query, '&')| ensures '&' !in Split<Byte>(query, '&')[k] {
      SplitParts(query, k);
    }
    ValuesLackAmpersand(Split<Byte>(query, '&'), name, i);
  }

  /** How reading by decoded name and by spelling relate for one field. */
  ghost predicate Compares(params: seq<Param>, name: Bytes, lossy: Bytes -> Bytes) {
    var values, read := Values(params, name), PairValues(DecodedPairs(params, lossy), name);
    |read| >= |values| && (|read| == |values| <==> Literal(params, name, lossy))
    && (|read| == |values| ==> read == DecodedValues(values, lossy))
  }

  lemma ComparesFor(params: seq<Param>, name: Bytes, lossy: Bytes -> Bytes)
    requires Lossy(lossy) && PlainName(name)
    ensures Compares(params, name, lossy)
  {
    hide DecodedBytes, Lossy, Values, PairValues, Literal, DecodedPairs, DecodedValues;
    PlainNameReads(name, lossy);
    ReadByName(params, name, lossy);
  }

  lemma DecodedCount(values: seq<Bytes>, lossy: Bytes -> Bytes)
    ensures |DecodedValues(values, lossy)| == |values|
    ensures values != [] ==> DecodedValues(values, lossy)[0] == lossy(DecodedBytes(values[0]))
    ensures |values| == 1 ==> DecodedValues(values, lossy) == [lossy(DecodedBytes(values[0]))]
  {
    hide DecodedBytes;
    if values != [] {
      DecodedCount(values[1..], lossy);
    }
  }

  /** The receiver accepts a raw query, up to the certificates, if and only if it carries one signed
      message and spells no field name with escapes. */
  lemma AcceptedExactlyWhen(rawQuery: Bytes, field: MessageField, lossy: Bytes -> Bytes)
    requires Lossy(lossy)
    ensures var params := RawParams(Trimmed(rawQuery));
            ReceivedRedirect(rawQuery, field, lossy).Ok?
            <==> CarriesSignedMessage(params, field) && SpelledLiterally(params, field, lossy)
  {
    hide DecodedBytes, Lossy, Values, PairValues, Literal, DecodedPairs, DecodedValues, Trimmed, RawParams, Octet,
      RebuiltOctet, PlainName;
    var query := Trimmed(rawQuery);
    var params := RawParams(query);
    RebuiltExactlyWhen(params, field);
    if CarriesSignedMessage(params, field) {
      OctetAndQuery(query, field, lossy);
    }
  }

  lemma OctetAndQuery(query: Bytes, field: MessageField, lossy: Bytes -> Bytes)
    requires Lossy(lossy) && CarriesSignedMessage(RawParams(query), field)
    ensures var params := RawParams(query);
            var octet := RebuiltOctet(params, field).value;
            DetachedFields(FormPairs(query, lossy), field, octet, lossy).Ok? <==> SpelledLiterally(params, field, lossy)
  {
    hide DecodedBytes, Lossy, Values, PairValues, Literal, DecodedPairs, DecodedValues, RawParams, Octet,
      RebuiltOctet, PlainName;
    var params := RawParams(query);
    RebuiltExactlyWhen(params, field);
    var message, sigAlg := Values(params, MessageName(field))[0], Values(params, SIG_ALG)[0];
    var relays := Values(params, RELAY_STATE);
    QueryValues(query, MessageName(field), 0);
    QueryValues(query, SIG_ALG, 0);
    if relays != [] {
      QueryValues(query, RELAY_STATE, 0);
    }
    OctetFields(field, message, FirstOf(relays), sigAlg, lossy);
    NamesArePlain();
    ComparesFor(params, MessageName(field), lossy);
    ComparesFor(params, RELAY_STATE, lossy);
    ComparesFor(params, SIG_ALG, lossy);
    ComparesFor(params, SIGNATURE, lossy);
    DecodedCount(Values(params, MessageName(field)), lossy);
    DecodedCount(relays, lossy);
    DecodedCount(Values(params, SIG_ALG), lossy);
    DecodedCount(OptionValues(FirstOf(relays)), lossy);
    assert OptionValues(FirstOf(relays)) == relays;
  }

  /** The octet string of a query that carries a signed message. */
  function CarriedOctet(params: seq<Param>, field: MessageField): Bytes
    requires CarriesSignedMessage(params, field)
  {
    Octet(field, Values(params, MessageName(field))[0], FirstOf(Values(params, RELAY_STATE)),
          Values(params, SIG_ALG)[0])
  }

  /** The message, relay state and algorithm the receiver consumes are those the octet string signs. */
  ghost predicate ConsumesSigned(query: Bytes, field: MessageField, lossy: Bytes -> Bytes) {
    var params, pairs := RawParams(query), FormPairs(query, lossy);
    CarriesSignedMessage(params, field) &&
    var signed := FormPairs(CarriedOctet(params, field), lossy);
    && PairValues(pairs, MessageName(field)) == PairValues(signed, MessageName(field))
    && PairValues(pairs, RELAY_STATE) == PairValues(signed, RELAY_STATE)
    && PairValues(pairs, SIG_ALG) == PairValues(signed, SIG_ALG)
    && |PairValues(pairs, MessageName(field))| == |PairValues(pairs, SIG_ALG)| == |PairValues(pairs, SIGNATURE)| == 1
  }

  /** Whatever the query, acceptance means that what is consumed is what was signed, field for field. */
  lemma AcceptedFieldsAreSigned(rawQuery: Bytes, field: MessageField, lossy: Bytes -> Bytes)
    requires Lossy(lossy) && ReceivedRedirect(rawQuery, field, lossy).Ok?
    ensures ConsumesSigned(Trimmed(rawQuery), field, lossy)
    ensures var pairs := FormPairs(Trimmed(rawQuery), lossy);
            ReceivedRedirect(rawQuery, field, lossy)
            == Ok(Detached(PairValues(pairs, SIGNATURE)[0], PairValues(pairs, SIG_ALG)[0]))
  {
    hide DecodedBytes, Lossy, Values, PairValues, Literal, DecodedPairs, DecodedValues, Trimmed, RawParams, Octet,
      RebuiltOctet, PlainName;
    var query := Trimmed(rawQuery);
    var params := RawParams(query);
    AcceptedExactlyWhen(rawQuery, field, lossy);
    RebuiltExactlyWhen(params, field);
    ConsumedValues(query, field, lossy);
  }

  lemma ConsumedValues(query: Bytes, field: MessageField, lossy: Bytes -> Bytes)
    requires Lossy(lossy) && CarriesSignedMessage(RawParams(query), field)
    requires SpelledLiterally(RawParams(query), field, lossy)
    ensures ConsumesSigned(query, field, lossy)
  {
    hide DecodedBytes, Lossy, Values, PairValues, Literal, DecodedPairs, DecodedValues, RawParams, Octet, PlainName;
    var params := RawParams(query);
    var message, sigAlg := Values(params, MessageName(field))[0], Values(params, SIG_ALG)[0];
    var relays := Values(params, RELAY_STATE);
    QueryValues(query, MessageName(field), 0);
    QueryValues(query, SIG_ALG, 0);
    if relays != [] {
      QueryValues(query, RELAY_STATE, 0);
    }
    OctetFields(field, message, FirstOf(relays), sigAlg, lossy);
    NamesArePlain();
    ComparesFor(params, MessageName(field), lossy);
    ComparesFor(params, RELAY_STATE, lossy);
    ComparesFor(params, SIG_ALG, lossy);
    ComparesFor(params, SIGNATURE, lossy);
    DecodedCount(Values(params, MessageName(field)), lossy);
    DecodedCount(Values(params, SIG_ALG), lossy);
    assert OptionValues(FirstOf(relays)) == relays;
  }

  // From a sender to a receiver.

  /** The parameters a base URL brings along. */
  function OwnParams(base: Bytes): seq<Param> { RawParams(Trimmed(QueryOf(base))) }

  /** No parameter is named like a field, as it is spelled or as it reads. */
  predicate Clear(params: seq<Param>, lossy: Bytes -> Bytes) {
    forall i :: 0 <= i < |params| ==> !IsFieldName(params[i].name) && !IsFieldName(DecodedName(params[i], lossy))
  }

  lemma {:induction false} TrimmedBefore(front: Bytes, back: Bytes)
    ensures Trimmed(front + ['&'] + back) == Trimmed(front) + ['&'] + back
  {
    var all := front + ['&'] + back;
    if front != [] && front[0] == '?' {
      TrimmedBefore(front[1..], back);
      assert all[1..] == front[1..] + ['&'] + back;
    } else {
      assert front == [] ==> all[0] == '&';
      assert front != [] ==> all[0] == front[0];
    }
  }

  /** Where the query of a base URL begins once a separator and a tail are put after it. */
  lemma MarkOfExtended(base: Bytes, tail: Bytes)
    ensures AfterMark(base).None? ==> AfterMark(base + ['?'] + tail) == Some(tail)
    ensures AfterMark(base).Some? ==>
              forall c: Byte :: AfterMark(base + [c] + tail) == Some(AfterMark(base).value + [c] + tail)
  {
    if '?' !in base {
      IndexAfter(base, '?', tail);
      assert (base + ['?'] + tail)[|base| + 1..] == tail;
    } else {
      var i := IndexOf(base, '?').value;
      forall c: Byte ensures AfterMark(base + [c] + tail) == Some(base[i + 1..] + [c] + tail) {
        assert base + [c] + tail == base + ([c] + tail);
        IndexKept(base, '?', [c] + tail);
        assert (base + [c] + tail)[i + 1..] == base[i + 1..] + [c] + tail;
      }
    }
  }

  lemma NoFragment(url: Bytes)
    requires '#' !in url
    ensures WithoutFragment(url) == url
  {
  }

  /** The query of a base URL with a tail put after its separator. */
  lemma QueryWithTail(base: Bytes, tail: Bytes)
    requires tail != [] && tail[0] != '?' && '#' !in base && '#' !in tail
    ensures RawParams(Trimmed(QueryOf(base + [Separator(base)] + tail))) == OwnParams(base) + RawParams(tail)
  {
    assert Trimmed(tail) == tail;
    NoParams();
    MarkOfExtended(base, tail);
    hide RawParams, IndexOf;
    NoFragment(base);
    NoFragment(base + [Separator(base)] + tail);
    match AfterMark(base)
    case None =>
    case Some(query) =>
      if query == [] {
        assert (query + ['?'] + tail)[1..] == tail;
      } else {
        TrimmedBefore(query, tail);
        RawParamsConcat(Trimmed(query), tail);
      }
  }

  /** Behind a fragment nothing is sent. */
  lemma FragmentKept(base: Bytes, tail: Bytes)
    requires '#' in base
    ensures QueryOf(base + tail) == QueryOf(base)
  {
    IndexKept(base, '#', tail);
    var i := IndexOf(base, '#').value;
    assert (base + tail)[..i] == base[..i];
  }

  lemma NoParams()
    ensures RawParams(Trimmed([])) == []
  {
    assert Split<Byte>([], '&') == [[]];
    var one: seq<Bytes> := [[]];
    assert one[1..] == [];
    assert ParamsOf(one) == ParamsOf(one[1..]);
  }

  function SentParams(field: MessageField, message: Bytes, relay: Option<Bytes>, sigAlg: Bytes,
                      signature: Bytes): seq<Param> {
    OctetParams(field, Serialized(message), SerializedOption(relay), Serialized(sigAlg))
    + [Param(SIGNATURE, Serialized(signature))]
  }

  /** The receiver of a signed URL reads the base URL's parameters and then those that were sent. */
  lemma SentUrlReads(base: Bytes, field: MessageField, message: Bytes, relay: Option<Bytes>, sigAlg: Bytes,
                     signature: Bytes)
    requires '#' !in base
    ensures RawParams(Trimmed(QueryOf(SignedUrl(base, SignedOctet(field, message, relay, sigAlg), signature))))
         == OwnParams(base) + SentParams(field, message, relay, sigAlg, signature)
  {
    hide RawParams, Serialized, Field, Trimmed, IndexOf, PlainName, QueryOf;
    var octet := SignedOctet(field, message, relay, sigAlg);
    var last := Field(SIGNATURE, Serialized(signature));
    var tail: Bytes := octet + ['&'] + last;
    SignedOctetReads(field, message, relay, sigAlg);
    FieldIsSafe(SIGNATURE, signature);
    SerializedIsSafe(signature);
    NamesArePlain();
    OctetReads(field, Serialized(message), SerializedOption(relay), Serialized(sigAlg));
    AppendsParam(octet, SIGNATURE, Serialized(signature));
    Regroup<Byte>(octet, ['&'], last);
    StartsWithName(field, Serialized(message), SerializedOption(relay), Serialized(sigAlg));
    assert tail[0] == octet[0];
    QueryWithTail(base, tail);
  }

  lemma StartsWithName(field: MessageField, message: Bytes, relay: Option<Bytes>, sigAlg: Bytes)
    ensures var octet := Octet(field, message, relay, sigAlg); octet != [] && octet[0] == 'S'
  {
    var name := MessageName(field);
    assert name[0] == 'S';
    assert Field(name, message)[0] == name[0];
  }

  lemma {:induction false} ClearReads(params: seq<Param>, name: Bytes, lossy: Bytes -> Bytes)
    requires Clear(params, lossy) && IsFieldName(name)
    ensures Values(params, name) == [] && Literal(params, name, lossy)
  {
    if params != [] {
      hide DecodedName, IsFieldName;
      assert !IsFieldName(params[0].name) && !IsFieldName(DecodedName(params[0], lossy));
      assert forall i :: 0 <= i < |params[1..]| ==> params[1..][i] == params[i + 1];
      ClearReads(params[1..], name, lossy);
    }
  }

  lemma {:induction false} LiteralConcat(a: seq<Param>, b: seq<Param>, name: Bytes, lossy: Bytes -> Bytes)
    ensures Literal(a + b, name, lossy) <==> Literal(a, name, lossy) && Literal(b, name, lossy)
  {
    if a == [] {
      assert a + b == b;
    } else {
      hide DecodedName;
      LiteralConcat(a[1..], b, name, lossy);
      var both := a + b;
      assert both[0] == a[0] && both[1..] == a[1..] + b;
    }
  }

  lemma SentValues(own: seq<Param>, field: MessageField, message: Bytes, relay: Option<Bytes>, sigAlg: Bytes,
                   signature: Bytes, lossy: Bytes -> Bytes)
    requires Lossy(lossy) && Clear(own, lossy)
    ensures var params := own + SentParams(field, message, relay, sigAlg, signature);
            && CarriesSignedMessage(params, field) && SpelledLiterally(params, field, lossy)
            && CarriedOctet(params, field) == SignedOctet(field, message, relay, sigAlg)
            && Values(params, MessageName(field)) == [Serialized(message)]
            && Values(params, RELAY_STATE) == OptionValues(SerializedOption(relay))
            && Values(params, SIG_ALG) == [Serialized(sigAlg)]
            && Values(params, SIGNATURE) == [Serialized(signature)]
  {
    hide Values, Literal, Lossy, Clear, PlainName, Serialized, DecodedBytes, Octet;
    var sent := SentParams(field, message, relay, sigAlg, signature);
    var octet := OctetParams(field, Serialized(message), SerializedOption(relay), Serialized(sigAlg));
    var last := Param(SIGNATURE, Serialized(signature));
    NamesArePlain();
    NamesDiffer();
    OctetValues(field, Serialized(message), SerializedOption(relay), Serialized(sigAlg));
    assert AllPlain(sent);
    forall name | IsFieldName(name)
      ensures Values(own + sent, name) == Values(octet, name) + (if name == SIGNATURE then [last.value] else [])
      ensures Literal(own + sent, name, lossy)
    {
      ClearReads(own, name, lossy);
      ValuesConcat(own, sent, name);
      ValuesConcat(octet, [last], name);
      OneValue(last, name);
      PlainIsLiteral(sent, name, lossy);
      LiteralConcat(own, sent, name, lossy);
    }
    assert IsFieldName(MessageName(field)) && IsFieldName(OppositeName(field));
    assert IsFieldName(RELAY_STATE) && IsFieldName(SIG_ALG) && IsFieldName(SIGNATURE);
  }

  /** A message a sender signs reaches the receiver if and only if the base URL has no fragment: then the
      receiver rebuilds exactly the octet string that was signed, the field check accepts, and the fields
      read are the ones sent. Behind a fragment the message is missing. */
  lemma ReceiverRebuildsSignedOctet(base: Bytes, field: MessageField, message: Bytes, relay: Option<Bytes>,
                                    sigAlg: Bytes, signature: Bytes, lossy: Bytes -> Bytes)
    requires Lossy(lossy) && Clear(OwnParams(base), lossy)
    requires Utf8.IsUtf8(message) && Utf8.IsUtf8(sigAlg) && Utf8.IsUtf8(signature)
    requires relay.Some? ==> Utf8.IsUtf8(relay.value)
    ensures var octet := SignedOctet(field, message, relay, sigAlg);
            var rawQuery := QueryOf(SignedUrl(base, octet, signature));
            && (RebuiltOctet(RawParams(Trimmed(rawQuery)), field) == Ok(Some(octet)) <==> '#' !in base)
            && ReceivedRedirect(rawQuery, field, lossy)
               == (if '#' in base then Err(MissingField(MessageName(field))) else Ok(Detached(signature, sigAlg)))
            && ('#' !in base ==>
                  && PairValues(FormPairs(Trimmed(rawQuery), lossy), MessageName(field)) == [message]
                  && PairValues(FormPairs(Trimmed(rawQuery), lossy), RELAY_STATE) == OptionValues(relay))
  {
    hide Lossy, Clear, SignedOctet, SignedUrl, QueryOf, Trimmed, RawParams, PairValues, FormPairs, OwnParams,
      RebuiltOctet,
         ReceivedRedirect;
    if '#' in base {
      FragmentHidesMessage(base, field, SignedOctet(field, message, relay, sigAlg), signature, lossy);
    } else {
      WithoutFragmentArrives(base, field, message, relay, sigAlg, signature, lossy);
    }
  }

  lemma FragmentHidesMessage(base: Bytes, field: MessageField, octet: Bytes, signature: Bytes, lossy: Bytes -> Bytes)
    requires Clear(OwnParams(base), lossy) && '#' in base
    ensures var rawQuery := QueryOf(SignedUrl(base, octet, signature));
            && RebuiltOctet(RawParams(Trimmed(rawQuery)), field) == Err(MissingField(MessageName(field)))
            && ReceivedRedirect(rawQuery, field, lossy) == Err(MissingField(MessageName(field)))
  {
    hide Values, Clear, Serialized, RawParams, QueryOf, Trimmed, Field;
    var tail := [Separator(base)] + (octet + ['&'] + Field(SIGNATURE, Serialized(signature)));
    Regroup<Byte>(base, [Separator(base)], octet + ['&'] + Field(SIGNATURE, Serialized(signature)));
    FragmentKept(base, tail);
    assert IsFieldName(MessageName(field)) && IsFieldName(OppositeName(field));
    ClearReads(OwnParams(base), MessageName(field), lossy);
    ClearReads(OwnParams(base), OppositeName(field), lossy);
  }

  lemma WithoutFragmentArrives(base: Bytes, field: MessageField, message: Bytes, relay: Option<Bytes>,
                               sigAlg: Bytes, signature: Bytes, lossy: Bytes -> Bytes)
    requires Lossy(lossy) && Clear(OwnParams(base), lossy) && '#' !in base
    requires Utf8.IsUtf8(message) && Utf8.IsUtf8(sigAlg) && Utf8.IsUtf8(signature)
    requires relay.Some? ==> Utf8.IsUtf8(relay.value)
    ensures var octet := SignedOctet(field, message, relay, sigAlg);
            var rawQuery := QueryOf(SignedUrl(base, octet, signature));
            && RebuiltOctet(RawParams(Trimmed(rawQuery)), field) == Ok(Some(octet))
            && ReceivedRedirect(rawQuery, field, lossy) == Ok(Detached(signature, sigAlg))
            && PairValues(FormPairs(Trimmed(rawQuery), lossy), MessageName(field)) == [message]
            && PairValues(FormPairs(Trimmed(rawQuery), lossy), RELAY_STATE) == OptionValues(relay)
  {
    hide Values, Literal, Lossy, Clear, PlainName, Serialized, DecodedBytes, Octet, SignedOctet, SignedUrl, QueryOf,
      Trimmed, RawParams,
         PairValues, DecodedPairs, DecodedValues, OwnParams, SentParams, RebuiltOctet, ReceivedRedirect;
    var octet := SignedOctet(field, message, relay, sigAlg);
    var rawQuery := QueryOf(SignedUrl(base, octet, signature));
    var query := Trimmed(rawQuery);
    var params := RawParams(query);
    SentUrlReads(base, field, message, relay, sigAlg, signature);
    SentValues(OwnParams(base), field, message, relay, sigAlg, signature, lossy);
    RebuiltExactlyWhen(params, field);
    AcceptedExactlyWhen(rawQuery, field, lossy);
    AcceptedFieldsAreSigned(rawQuery, field, lossy);
    NamesArePlain();
    ReadsBack(params, MessageName(field), message, lossy);
    ReadsBack(params, SIG_ALG, sigAlg, lossy);
    ReadsBack(params, SIGNATURE, signature, lossy);
    ComparesFor(params, RELAY_STATE, lossy);
    DecodedCount(OptionValues(SerializedOption(relay)), lossy);
    if relay.Some? {
      ReadsBack(params, RELAY_STATE, relay.value, lossy);
    }
  }

  lemma ReadsBack(params: seq<Param>, name: Bytes, value: Bytes, lossy: Bytes -> Bytes)
    requires Lossy(lossy) && PlainName(name) && Utf8.IsUtf8(value)
    requires Literal(params, name, lossy) && Values(params, name) == [Serialized(value)]
    ensures PairValues(DecodedPairs(params, lossy), name) == [value]
  {
    hide Values, Literal, PlainName, Serialized, DecodedBytes, PairValues, DecodedPairs, DecodedValues;
    ComparesFor(params, name, lossy);
    DecodedCount([Serialized(value)], lossy);
    DecodesSerialized(value);
  }
}
