/** Accepting the assertions of a login response (section 2.4.1.2 of SAML Core 2.0 and section 4.1.4.3
    of SAML Profiles 2.0). Assertions are given as the fields that are extracted from them, instants
    as integers; reading an instant is a parameter. */
module Acceptance {
  import opened Text
  import Xml
  import Conditions

  const BEARER := "urn:oasis:names:tc:SAML:2.0:cm:bearer"
  const UNSPECIFIED := "urn:oasis:names:tc:SAML:1.1:nameid-format:unspecified"

  /** A subject confirmation and its data. */
  datatype Confirmation = Confirmation(
    kind: Option<string>, notOnOrAfter: Option<string>, recipient: Option<string>, inResponseTo: Option<string>)

  datatype NameId = NameId(text: string, format: Option<string>, nameQualifier: Option<string>,
                           spNameQualifier: Option<string>)

  datatype Principal = Principal(nameId: string, format: string, nameQualifier: Option<string>,
                                 spNameQualifier: Option<string>)

  datatype ConditionsBounds = NoConditions | Bounds(notBefore: Option<string>, notOnOrAfter: Option<string>) | Malformed

  datatype Assertion = Assertion(
    issuer: Option<string>,
    subject: Option<seq<NameId>>,
    confirmations: seq<Confirmation>,
    restrictions: seq<seq<string>>,
    sessionBounds: seq<string>,
    conditions: ConditionsBounds)

  datatype Options = Options(
    issuer: Option<string>,
    audience: Option<string>,
    requireAudience: bool,
    recipient: Option<string>,
    inResponseTo: Option<string>,
    drift: (int, int),
    now: int,
    parse: string -> Option<int>)

  datatype Reason = MissingBearer | InvalidMethod | MissingNotOnOrAfter | TimeWindow | Recipient | InResponseTo

  datatype AcceptError =
    | UnrecognizedCondition(element: string)
    | Unsolicited(request: string)
    | EmptyAssertion
    | IssuerMismatch
    | PrincipalMismatch
    | ConfirmationInvalid(reason: Reason)
    | AudienceMismatch
    | TimeInvalid

  // Times.

  /** `verify_time_at`. */
  predicate InWindow(o: Options, notBefore: Option<string>, notOnOrAfter: Option<string>) {
    && (notBefore.Some? ==> o.parse(notBefore.value).Some? && o.parse(notBefore.value).value + o.drift.0 <= o.now)
    && (notOnOrAfter.Some? ==>
          o.parse(notOnOrAfter.value).Some? && o.now < o.parse(notOnOrAfter.value).value + o.drift.1)
  }

  /** The bound can be read, and it is still ahead with the drift allowed for it. */
  ghost predicate Ahead(o: Options, bound: string) {
    o.parse(bound).Some? && o.now < o.parse(bound).value + o.drift.1
  }

  /** The bound can be read, and with the drift allowed for it it has been reached. */
  ghost predicate Reached(o: Options, bound: string) {
    o.parse(bound).Some? && o.parse(bound).value + o.drift.0 <= o.now
  }

  predicate ConditionsHold(o: Options, c: ConditionsBounds) {
    match c
    case NoConditions => InWindow(o, None, None)
    case Bounds(notBefore, notOnOrAfter) => InWindow(o, notBefore, notOnOrAfter)
    case Malformed => false
  }

  /** Every session of the assertion is still open, its conditions have begun and have not ended. */
  ghost predicate TimeHolds(o: Options, a: Assertion) {
    && (forall i :: 0 <= i < |a.sessionBounds| ==> Ahead(o, a.sessionBounds[i]))
    && !a.conditions.Malformed?
    && (a.conditions.Bounds? && a.conditions.notBefore.Some? ==> Reached(o, a.conditions.notBefore.value))
    && (a.conditions.Bounds? && a.conditions.notOnOrAfter.Some? ==> Ahead(o, a.conditions.notOnOrAfter.value))
  }

  /** `validate_assertion_time`, with `earliest_authn_session_expiration`. */
  method ValidateAssertionTime(o: Options, a: Assertion) returns (ok: bool)
    ensures ok <==> TimeHolds(o, a)
  {
    var earliest: Option<int> := None;
    for i := 0 to |a.sessionBounds|
      invariant i > 0 ==> earliest.Some?
      invariant forall k :: 0 <= k < i ==>
                  o.parse(a.sessionBounds[k]).Some? && earliest.value <= o.parse(a.sessionBounds[k]).value
      invariant earliest.Some? ==> exists k :: 0 <= k < i && o.parse(a.sessionBounds[k]) == earliest
    {
      var candidate := o.parse(a.sessionBounds[i]);
      if candidate.None? {
        return false;
      }
      if earliest.None? || candidate.value < earliest.value {
        earliest := candidate;
      }
    }
    if earliest.Some? && o.now >= earliest.value + o.drift.1 {
      return false;
    }
    ok := ConditionsHold(o, a.conditions);
  }

  // Audiences.

  ghost predicate AudienceHolds(o: Options, a: Assertion) {
    o.audience.Some? ==>
      if a.restrictions == [] then !o.requireAudience
      else forall i :: 0 <= i < |a.restrictions| ==> o.audience.value in a.restrictions[i]
  }

  /** `validate_audience`: every restriction must name the expected audience. */
  method ValidateAudience(o: Options, a: Assertion) returns (ok: bool)
    ensures ok <==> AudienceHolds(o, a)
  {
    if o.audience.None? {
      return true;
    }
    if a.restrictions == [] {
      return !o.requireAudience;
    }
    for i := 0 to |a.restrictions|
      invariant forall k :: 0 <= k < i ==> o.audience.value in a.restrictions[k]
    {
      if o.audience.value !in a.restrictions[i] {
        return false;
      }
    }
    ok := true;
  }

  // Subject confirmations.

  predicate IsBearer(c: Confirmation) { c.kind == Some(BEARER) }

  /** `check_bearer_subject_confirmation`: nothing when the confirmation is valid. */
  function ConfirmationFault(o: Options, c: Confirmation): Option<Reason> {
    if !IsBearer(c) then Some(InvalidMethod)
    else if c.notOnOrAfter.None? then Some(MissingNotOnOrAfter)
    else if !InWindow(o, None, c.notOnOrAfter) then Some(TimeWindow)
    else if o.recipient.Some? && c.recipient != o.recipient then Some(Recipient)
    else if o.inResponseTo.Some? && c.inResponseTo != o.inResponseTo then Some(InResponseTo)
    else None
  }

  /** A bearer confirmation that is in time and names the expected recipient and request, if one is expected. */
  ghost predicate ValidConfirmation(o: Options, c: Confirmation) {
    && c.kind == Some("urn:oasis:names:tc:SAML:2.0:cm:bearer")
    && c.notOnOrAfter.Some? && Ahead(o, c.notOnOrAfter.value)
    && (o.recipient.Some? ==> c.recipient == Some(o.recipient.value))
    && (o.inResponseTo.Some? ==> c.inResponseTo == Some(o.inResponseTo.value))
  }

  /** The reason a confirmation is refused for: the first of these that it fails. */
  ghost predicate RefusedFor(o: Options, c: Confirmation, reason: Reason) {
    var bearer := c.kind == Some("urn:oasis:names:tc:SAML:2.0:cm:bearer");
    var inTime := bearer && c.notOnOrAfter.Some? && Ahead(o, c.notOnOrAfter.value);
    var received := inTime && (o.recipient.Some? ==> c.recipient == Some(o.recipient.value));
    match reason
    case MissingBearer => false
    case InvalidMethod => !bearer
    case MissingNotOnOrAfter => bearer && c.notOnOrAfter == None
    case TimeWindow => bearer && c.notOnOrAfter.Some? && !inTime
    case Recipient => inTime && !received
    case InResponseTo => received && !ValidConfirmation(o, c)
  }

  ghost predicate Confirmed(o: Options, a: Assertion) {
    exists i :: 0 <= i < |a.confirmations| && ValidConfirmation(o, a.confirmations[i])
  }

  /** No confirmation of the assertion is valid, and this is the reason: that of the last one. */
  ghost predicate Unconfirmed(o: Options, a: Assertion, reason: Reason) {
    && !Confirmed(o, a)
    && (if a.confirmations == [] then reason == MissingBearer
        else RefusedFor(o, a.confirmations[|a.confirmations| - 1], reason))
  }

  /** `validate_subject_confirmation`: one valid confirmation is enough; otherwise the last fault counts. */
  method ValidateSubjectConfirmation(o: Options, a: Assertion) returns (fault: Option<Reason>)
    ensures fault.None? <==> Confirmed(o, a)
    ensures fault.Some? ==> Unconfirmed(o, a, fault.value)
  {
    var reason: Option<Reason> := None;
    for i := 0 to |a.confirmations|
      invariant forall k :: 0 <= k < i ==> !ValidConfirmation(o, a.confirmations[k])
      invariant reason == if i == 0 then None else ConfirmationFault(o, a.confirmations[i - 1])
    {
      var current := ConfirmationFault(o, a.confirmations[i]);
      if current.None? {
        assert ValidConfirmation(o, a.confirmations[i]);
        return None;
      }
      reason := current;
    }
    fault := Some(if reason.Some? then reason.value else MissingBearer);
  }

  ghost predicate HasBearer(a: Assertion) {
    exists i :: 0 <= i < |a.confirmations| && a.confirmations[i].kind == Some("urn:oasis:names:tc:SAML:2.0:cm:bearer")
  }

  /** `extracted_has_bearer`. */
  method ExtractedHasBearer(a: Assertion) returns (found: bool)
    ensures found <==> HasBearer(a)
  {
    for i := 0 to |a.confirmations|
      invariant forall k :: 0 <= k < i ==> !IsBearer(a.confirmations[k])
    {
      if IsBearer(a.confirmations[i]) {
        return true;
      }
    }
    found := false;
  }

  lemma ConfirmedIsBearer(o: Options, a: Assertion)
    ensures Confirmed(o, a) ==> HasBearer(a)
  {
  }

  // Several assertions.

  /** `principal_of`: a subject with exactly one name identifier. */
  function PrincipalOf(a: Assertion): Option<Principal> {
    match a.subject
    case None => None
    case Some(names) =>
      if |names| != 1 then None
      else
        var n := names[0];
        Some(Principal(n.text, if n.format.Some? then n.format.value else UNSPECIFIED, n.nameQualifier,
                       n.spNameQualifier))
  }

  /** The assertion has the expected issuer, if one is expected, and exactly one name identifier. */
  ghost predicate Identified(o: Options, a: Assertion) {
    (o.issuer.Some? ==> a.issuer == Some(o.issuer.value)) && a.subject.Some? && |a.subject.value| == 1
  }

  /** The same name in the same format, a format not given being the unspecified one. */
  ghost predicate SameName(x: NameId, y: NameId) {
    var unspecified := Some("urn:oasis:names:tc:SAML:1.1:nameid-format:unspecified");
    && x.text == y.text && x.nameQualifier == y.nameQualifier && x.spNameQualifier == y.spNameQualifier
    && (x.format == y.format || (x.format == None && y.format == unspecified)
        || (x.format == unspecified && y.format == None))
  }

  ghost predicate SameOrigin(a: Assertion, b: Assertion) {
    && a.issuer == b.issuer && a.subject.Some? && b.subject.Some?
    && |a.subject.value| == |b.subject.value| == 1 && SameName(a.subject.value[0], b.subject.value[0])
  }

  ghost predicate OneOrigin(o: Options, assertions: seq<Assertion>) {
    && (forall i :: 0 <= i < |assertions| ==> Identified(o, assertions[i]))
    && (forall i, j :: 0 <= i < |assertions| && 0 <= j < |assertions| ==> SameOrigin(assertions[i], assertions[j]))
  }

  // The same by what is remembered of an assertion.

  predicate Known(o: Options, a: Assertion) { (o.issuer.Some? ==> a.issuer == o.issuer) && PrincipalOf(a).Some? }

  predicate Alike(a: Assertion, b: Assertion) { a.issuer == b.issuer && PrincipalOf(a) == PrincipalOf(b) }

  lemma KnownExactlyWhen(o: Options, a: Assertion)
    ensures Known(o, a) <==> Identified(o, a)
  {
  }

  lemma AlikeExactlyWhen(a: Assertion, b: Assertion)
    requires PrincipalOf(a).Some?
    ensures Alike(a, b) <==> SameOrigin(a, b)
  {
  }

  ghost predicate OneSource(o: Options, assertions: seq<Assertion>) {
    forall i :: 0 <= i < |assertions| ==> Known(o, assertions[i]) && Alike(assertions[i], assertions[0])
  }

  lemma OneSourceExactlyWhen(o: Options, assertions: seq<Assertion>)
    ensures OneSource(o, assertions) <==> OneOrigin(o, assertions)
  {
    hide Identified, SameOrigin, PrincipalOf;
    forall i | 0 <= i < |assertions| ensures Known(o, assertions[i]) <==> Identified(o, assertions[i]) {
      KnownExactlyWhen(o, assertions[i]);
    }
    forall i, j | 0 <= i < |assertions| && 0 <= j < |assertions| && Known(o, assertions[i])
      ensures Alike(assertions[i], assertions[j]) <==> SameOrigin(assertions[i], assertions[j])
    {
      AlikeExactlyWhen(assertions[i], assertions[j]);
    }
  }

  ghost predicate BearerHolds(o: Options, a: Assertion) {
    HasBearer(a) ==> Confirmed(o, a) && AudienceHolds(o, a) && TimeHolds(o, a)
  }

  /** What acceptance requires of the assertions of a response, in no order. */
  ghost predicate Acceptable(o: Options, assertions: seq<Assertion>) {
    && assertions != []
    && (|assertions| > 1 ==> OneOrigin(o, assertions))
    && (exists i :: 0 <= i < |assertions| && HasBearer(assertions[i]))
    && (forall i :: 0 <= i < |assertions| ==> BearerHolds(o, assertions[i]))
  }

  /** `remember_same_issuer`. */
  method RememberSameIssuer(o: Options, a: Assertion, shared: Option<Option<string>>)
    returns (ok: bool, next: Option<Option<string>>)
    ensures ok <==> (o.issuer.Some? ==> a.issuer == o.issuer) && (shared.Some? ==> shared.value == a.issuer)
    ensures ok ==> next == Some(a.issuer)
  {
    next := shared;
    if o.issuer.Some? && a.issuer != o.issuer {
      return false, next;
    }
    if shared.None? {
      next := Some(a.issuer);
    } else if shared.value != a.issuer {
      return false, next;
    }
    ok := true;
  }

  /** `remember_same_principal`. */
  method RememberSamePrincipal(a: Assertion, shared: Option<Principal>) returns (ok: bool, next: Option<Principal>)
    ensures ok <==> PrincipalOf(a).Some? && (shared.Some? ==> shared == PrincipalOf(a))
    ensures ok ==> next == PrincipalOf(a)
  {
    next := shared;
    var principal := PrincipalOf(a);
    if principal.None? {
      return false, next;
    }
    if shared.None? {
      next := principal;
    } else if shared != principal {
      return false, next;
    }
    ok := true;
  }

  /** What is wrong with a bearer assertion: its confirmations, else its audience, else its time. */
  ghost predicate BearerFault(o: Options, a: Assertion, e: AcceptError) {
    match e
    case ConfirmationInvalid(reason) => Unconfirmed(o, a, reason)
    case AudienceMismatch => Confirmed(o, a) && !AudienceHolds(o, a)
    case TimeInvalid => Confirmed(o, a) && AudienceHolds(o, a) && !TimeHolds(o, a)
    case _ => false
  }

  /** The checks of one bearer assertion. */
  method CheckBearer(o: Options, a: Assertion) returns (r: Option<AcceptError>)
    ensures r.None? <==> Confirmed(o, a) && AudienceHolds(o, a) && TimeHolds(o, a)
    ensures r.Some? ==> BearerFault(o, a, r.value)
  {
    hide Confirmed, AudienceHolds, TimeHolds, RefusedFor;
    var fault := ValidateSubjectConfirmation(o, a);
    if fault.Some? {
      return Some(ConfirmationInvalid(fault.value));
    }
    var audience := ValidateAudience(o, a);
    if !audience {
      return Some(AudienceMismatch);
    }
    var time := ValidateAssertionTime(o, a);
    r := if time then None else Some(TimeInvalid);
  }

  // Unsolicited responses.

  /** The request that a bearer confirmation names. */
  function NamedRequest(c: Confirmation): Option<string> {
    if IsBearer(c) && c.inResponseTo.Some? && c.inResponseTo.value != "" then c.inResponseTo else None
  }

  /** The confirmation lets a bearer in on behalf of this request. */
  ghost predicate Names(c: Confirmation, request: string) {
    c.kind == Some("urn:oasis:names:tc:SAML:2.0:cm:bearer") && c.inResponseTo == Some(request) && request != ""
  }

  function NamedRequests(confirmations: seq<Confirmation>): seq<string> {
    if confirmations == [] then []
    else
      match NamedRequest(confirmations[0])
      case None => NamedRequests(confirmations[1..])
      case Some(request) => [request] + NamedRequests(confirmations[1..])
  }

  /** Every request named in an assertion, in document order. */
  function AllNamedRequests(assertions: seq<Assertion>): seq<string> {
    if assertions == [] then [] else NamedRequests(assertions[0].confirmations) + AllNamedRequests(assertions[1..])
  }

  /** No confirmation before the `j`-th of the `i`-th assertion names a request. */
  ghost predicate NoneBefore(assertions: seq<Assertion>, i: nat, j: nat)
    requires i < |assertions| && j <= |assertions[i].confirmations|
  {
    && (forall k: nat, l: nat, request :: k < i && l < |assertions[k].confirmations| ==>
          !Names(assertions[k].confirmations[l], request))
    && (forall l: nat, request :: l < j ==> !Names(assertions[i].confirmations[l], request))
  }

  /** `reject_unsolicited_bearer_in_response_to`: the first request that is named, if any is. */
  method RejectUnsolicited(assertions: seq<Assertion>) returns (r: Option<AcceptError>)
    ensures r.None? <==> AllNamedRequests(assertions) == []
    ensures r.Some? ==> r == Some(Unsolicited(AllNamedRequests(assertions)[0]))
    ensures r.Some? ==>
              exists i: nat, j: nat, request ::
                && i < |assertions| && j < |assertions[i].confirmations|
                && Names(assertions[i].confirmations[j], request)
                && r == Some(Unsolicited(request)) && NoneBefore(assertions, i, j)
  {
    for i := 0 to |assertions|
      invariant AllNamedRequests(assertions) == AllNamedRequests(assertions[i..])
      invariant i < |assertions| ==> NoneBefore(assertions, i, 0)
    {
      var confirmations := assertions[i].confirmations;
      assert assertions[i..][1..] == assertions[i + 1..];
      for j := 0 to |confirmations|
        invariant AllNamedRequests(assertions)
               == NamedRequests(confirmations[j..]) + AllNamedRequests(assertions[i + 1..])
        invariant NoneBefore(assertions, i, j)
      {
        assert confirmations[j..][1..] == confirmations[j + 1..];
        var request := NamedRequest(confirmations[j]);
        if request.Some? {
          assert Names(assertions[i].confirmations[j], request.value);
          return Some(Unsolicited(request.value));
        }
      }
    }
    r := None;
  }

  /** No request is named exactly when no bearer confirmation of any assertion names one. */
  lemma {:induction false} NoneNamedExactlyWhen(assertions: seq<Assertion>)
    ensures AllNamedRequests(assertions) == [] <==>
            forall i, j, request :: 0 <= i < |assertions| && 0 <= j < |assertions[i].confirmations| ==>
              !Names(assertions[i].confirmations[j], request)
  {
    if assertions != [] {
      var first, rest := assertions[0].confirmations, assertions[1..];
      NoneNamedHere(first);
      NoneNamedExactlyWhen(rest);
      if AllNamedRequests(assertions) == [] {
        forall i, j, request | 0 <= i < |assertions| && 0 <= j < |assertions[i].confirmations|
          ensures !Names(assertions[i].confirmations[j], request)
        {
          assert i > 0 ==> assertions[i] == rest[i - 1];
        }
      } else if NamedRequests(first) != [] {
        var j, request :| 0 <= j < |first| && Names(first[j], request);
        assert Names(assertions[0].confirmations[j], request);
      } else {
        var i, j, request :| 0 <= i < |rest| && 0 <= j < |rest[i].confirmations|
                             && Names(rest[i].confirmations[j], request);
        assert Names(assertions[i + 1].confirmations[j], request);
      }
    }
  }

  lemma {:induction false} NoneNamedHere(confirmations: seq<Confirmation>)
    ensures NamedRequests(confirmations) == [] <==>
            forall j, request :: 0 <= j < |confirmations| ==> !Names(confirmations[j], request)
  {
    if confirmations != [] {
      var first, rest := confirmations[0], confirmations[1..];
      NoneNamedHere(rest);
      forall j, request | 0 <= j < |rest| ensures Names(rest[j], request) <==> Names(confirmations[j + 1], request) {
      }
      if NamedRequest(first).Some? {
        assert Names(confirmations[0], NamedRequest(first).value);
      } else if NamedRequests(rest) != [] {
        var j, request :| 0 <= j < |rest| && Names(rest[j], request);
        assert Names(confirmations[j + 1], request);
      } else {
        forall j, request | 0 <= j < |confirmations| ensures !Names(confirmations[j], request) {
          if j > 0 {
            assert confirmations[j] == rest[j - 1];
          }
        }
      }
    }
  }

  ghost function UnknownCondition(events: seq<Xml.Placed>): Option<string> {
    Conditions.Verdict(Conditions.Steps(Conditions.Open([]), events))
  }

  /** The assertions before the `i`-th are in order. */
  ghost predicate InOrder(o: Options, assertions: seq<Assertion>, i: nat)
    requires i <= |assertions|
  {
    forall k :: 0 <= k < i ==>
      && BearerHolds(o, assertions[k])
      && (|assertions| > 1 ==> Known(o, assertions[k]) && Alike(assertions[k], assertions[0]))
  }

  /** What is wrong with the `i`-th assertion: its issuer and its principal, which matter when there are several,
      and what is wrong with it as a bearer assertion. */
  ghost predicate Blamed(o: Options, assertions: seq<Assertion>, i: nat, e: AcceptError)
    requires i < |assertions|
  {
    var a, several := assertions[i], |assertions| > 1;
    var issued := (o.issuer.Some? ==> a.issuer == Some(o.issuer.value)) && a.issuer == assertions[0].issuer;
    match e
    case IssuerMismatch => several && !issued
    case PrincipalMismatch =>
      several && issued && (PrincipalOf(a) == None || PrincipalOf(a) != PrincipalOf(assertions[0]))
    case _ => (several ==> Known(o, a) && Alike(a, assertions[0])) && HasBearer(a) && BearerFault(o, a, e)
  }

  /** The error of a response: the first assertion that is not in order is blamed; if all are, none of them is a
      bearer assertion, and the first with a confirmation is reported. */
  ghost predicate Reported(o: Options, assertions: seq<Assertion>, e: AcceptError) {
    if assertions == [] then e == EmptyAssertion
    else
      || (exists i: nat :: i < |assertions| && InOrder(o, assertions, i) && Blamed(o, assertions, i, e))
      || ((forall k :: 0 <= k < |assertions| ==> !HasBearer(assertions[k])) && InOrder(o, assertions, |assertions|)
          && e.ConfirmationInvalid? && FirstReason(o, assertions, e.reason))
  }

  ghost predicate FirstReason(o: Options, assertions: seq<Assertion>, reason: Reason) {
    || (reason == MissingBearer && forall k :: 0 <= k < |assertions| ==> assertions[k].confirmations == [])
    || exists i :: 0 <= i < |assertions| && assertions[i].confirmations != [] && Unconfirmed(o, assertions[i], reason)
         && forall k :: 0 <= k < i ==> assertions[k].confirmations == []
  }

  lemma ReportedAt(o: Options, assertions: seq<Assertion>, i: nat, e: AcceptError)
    requires i < |assertions| && InOrder(o, assertions, i) && Blamed(o, assertions, i, e)
    ensures Reported(o, assertions, e) && !Acceptable(o, assertions)
  {
    hide Confirmed, AudienceHolds, TimeHolds, HasBearer, PrincipalOf, OneOrigin;
    OneSourceExactlyWhen(o, assertions);
  }

  /** `accept_response_assertions`: success exactly when every condition is understood and the
      assertions are acceptable. */
  method AcceptResponseAssertions(o: Options, events: seq<Xml.Placed>, assertions: seq<Assertion>)
    returns (r: Option<AcceptError>)
    ensures r.None? <==> UnknownCondition(events).None? && Acceptable(o, assertions)
    ensures UnknownCondition(events).Some? ==> r == Some(UnrecognizedCondition(UnknownCondition(events).value))
    ensures UnknownCondition(events).None? && r.Some? ==> Reported(o, assertions, r.value)
  {
    hide Confirmed, AudienceHolds, TimeHolds, HasBearer, PrincipalOf, OneOrigin, Unconfirmed;
    OneSourceExactlyWhen(o, assertions);
    var unknown := Conditions.UnrecognizedConditionName(events);
    if unknown.Some? {
      return Some(UnrecognizedCondition(unknown.value));
    }
    if assertions == [] {
      return Some(EmptyAssertion);
    }
    var sawBearer := false;
    var confirmationError: Option<Reason> := None;
    var sharedIssuer: Option<Option<string>> := None;
    var sharedPrincipal: Option<Principal> := None;
    var several := |assertions| > 1;
    for i := 0 to |assertions|
      invariant several ==> sharedIssuer == (if i == 0 then None else Some(assertions[0].issuer))
      invariant several ==> sharedPrincipal == (if i == 0 then None else PrincipalOf(assertions[0]))
      invariant several && i > 0 ==> sharedPrincipal.Some?
      invariant InOrder(o, assertions, i)
      invariant sawBearer <==> exists k :: 0 <= k < i && HasBearer(assertions[k])
      invariant confirmationError.None? ==>
                  forall k :: 0 <= k < i ==> HasBearer(assertions[k]) || assertions[k].confirmations == []
      invariant confirmationError.Some? && !sawBearer ==> FirstReason(o, assertions, confirmationError.value)
    {
      var a := assertions[i];
      if several {
        var ok;
        ok, sharedIssuer := RememberSameIssuer(o, a, sharedIssuer);
        if !ok {
          ReportedAt(o, assertions, i, IssuerMismatch);
          return Some(IssuerMismatch);
        }
        ok, sharedPrincipal := RememberSamePrincipal(a, sharedPrincipal);
        if !ok {
          ReportedAt(o, assertions, i, PrincipalMismatch);
          return Some(PrincipalMismatch);
        }
      }
      var bearer := ExtractedHasBearer(a);
      if bearer {
        sawBearer := true;
        var failure := CheckBearer(o, a);
        if failure.Some? {
          ReportedAt(o, assertions, i, failure.value);
          return failure;
        }
      } else if confirmationError.None? && a.confirmations != [] {
        ConfirmedIsBearer(o, a);
        confirmationError := ValidateSubjectConfirmation(o, a);
      }
    }
    if !sawBearer {
      return Some(ConfirmationInvalid(if confirmationError.Some? then confirmationError.value else MissingBearer));
    }
    r := None;
  }

  // Order.

  lemma MembersOf<T>(a: seq<T>, b: seq<T>)
    requires multiset(a) == multiset(b)
    ensures |a| == |b|
    ensures forall x :: x in a <==> x in b
  {
    assert |multiset(a)| == |a| && |multiset(b)| == |b|;
    forall x ensures x in a <==> x in b {
      assert x in multiset(a) <==> x in multiset(b);
    }
  }

  /** Whether a response is acceptable does not depend on the order of its assertions. */
  lemma OrderDoesNotMatter(o: Options, a: seq<Assertion>, b: seq<Assertion>)
    requires multiset(a) == multiset(b)
    ensures Acceptable(o, a) <==> Acceptable(o, b)
  {
    MembersOf(a, b);
    AcceptableByMembers(o, a);
    AcceptableByMembers(o, b);
  }

  ghost predicate AcceptableMembers(o: Options, size: nat, members: iset<Assertion>) {
    && size > 0
    && (size > 1 ==> forall x, y :: x in members && y in members ==> Identified(o, x) && SameOrigin(x, y))
    && (exists x :: x in members && HasBearer(x))
    && (forall x :: x in members ==> BearerHolds(o, x))
  }

  lemma AcceptableByMembers(o: Options, a: seq<Assertion>)
    ensures Acceptable(o, a) <==> AcceptableMembers(o, |a|, iset x | x in a)
  {
    hide HasBearer, BearerHolds, Identified, SameOrigin;
    var members := iset x | x in a;
    assert forall i :: 0 <= i < |a| ==> a[i] in members;
    assert |a| > 1 ==> (OneOrigin(o, a) <==> forall x, y :: x in members && y in members ==>
                        Identified(o, x) && SameOrigin(x, y));
  }

  // The bound that is recorded.

  /** The latest bound read so far, and the last one that could not be read. */
  datatype Latest = Latest(latest: Option<(int, string)>, unread: Option<string>)

  function Later(o: Options, l: Latest, c: Confirmation): Latest {
    if !IsBearer(c) || c.notOnOrAfter.None? then l
    else
      match o.parse(c.notOnOrAfter.value)
      case None => l.(unread := c.notOnOrAfter)
      case Some(instant) =>
        if l.latest.None? || l.latest.value.0 < instant then l.(latest := Some((instant, c.notOnOrAfter.value))) else l
  }

  function LatestAfter(o: Options, l: Latest, confirmations: seq<Confirmation>): Latest
    decreases |confirmations|
  {
    if confirmations == [] then l else LatestAfter(o, Later(o, l, confirmations[0]), confirmations[1..])
  }

  function Recorded(l: Latest): Option<string> { if l.latest.Some? then Some(l.latest.value.1) else l.unread }

  /** The bound recorded for an assertion. */
  function RecordedBound(o: Options, confirmations: seq<Confirmation>): Option<string> {
    Recorded(LatestAfter(o, Latest(None, None), confirmations))
  }

  /** `latest_bearer_not_on_or_after`. */
  method LatestBearerNotOnOrAfter(o: Options, confirmations: seq<Confirmation>) returns (r: Option<string>)
    ensures r == RecordedBound(o, confirmations)
  {
    var latest: Option<(int, string)> := None;
    var unread: Option<string> := None;
    for i := 0 to |confirmations|
      invariant LatestAfter(o, Latest(None, None), confirmations)
          == LatestAfter(o, Latest(latest, unread), confirmations[i..])
    {
      assert confirmations[i..][1..] == confirmations[i + 1..];
      var c := confirmations[i];
      if IsBearer(c) && c.notOnOrAfter.Some? {
        var instant := o.parse(c.notOnOrAfter.value);
        if instant.None? {
          unread := c.notOnOrAfter;
        } else if latest.None? || latest.value.0 < instant.value {
          latest := Some((instant.value, c.notOnOrAfter.value));
        }
      }
    }
    r := if latest.Some? then Some(latest.value.1) else unread;
  }

  ghost predicate ReadRight(o: Options, l: Latest) {
    l.latest.Some? ==> o.parse(l.latest.value.1) == Some(l.latest.value.0)
  }

  lemma {:induction false} LatestGrows(o: Options, l: Latest, confirmations: seq<Confirmation>)
    requires ReadRight(o, l)
    ensures ReadRight(o, LatestAfter(o, l, confirmations))
    ensures l.latest.Some? ==>
              var after := LatestAfter(o, l, confirmations).latest; after.Some? && after.value.0 >= l.latest.value.0
    decreases |confirmations|
  {
    if confirmations != [] {
      LatestGrows(o, Later(o, l, confirmations[0]), confirmations[1..]);
    }
  }

  lemma {:induction false} LatestCovers(o: Options, l: Latest, confirmations: seq<Confirmation>, i: nat)
    requires ReadRight(o, l) && i < |confirmations| && IsBearer(confirmations[i])
    requires confirmations[i].notOnOrAfter.Some? && o.parse(confirmations[i].notOnOrAfter.value).Some?
    ensures var after := LatestAfter(o, l, confirmations).latest;
            after.Some? && after.value.0 >= o.parse(confirmations[i].notOnOrAfter.value).value
    decreases |confirmations|
  {
    var next := Later(o, l, confirmations[0]);
    if i == 0 {
      LatestGrows(o, next, confirmations[1..]);
    } else {
      LatestCovers(o, next, confirmations[1..], i - 1);
    }
  }

  /** The recorded bound can be read, and it is no earlier than that of any confirmation that was accepted. */
  lemma RecordedBoundCoversAccepted(o: Options, a: Assertion, i: nat)
    requires i < |a.confirmations| && ValidConfirmation(o, a.confirmations[i])
    ensures var bound := RecordedBound(o, a.confirmations);
            && bound.Some? && o.parse(bound.value).Some?
            && o.parse(a.confirmations[i].notOnOrAfter.value).Some?
            && o.parse(bound.value).value >= o.parse(a.confirmations[i].notOnOrAfter.value).value
            && o.now < o.parse(bound.value).value + o.drift.1
  {
    LatestCovers(o, Latest(None, None), a.confirmations, i);
    LatestGrows(o, Latest(None, None), a.confirmations);
  }

  ghost predicate HasBound(c: Confirmation) {
    c.kind == Some("urn:oasis:names:tc:SAML:2.0:cm:bearer") && c.notOnOrAfter.Some?
  }

  /** The instant of a bearer confirmation's bound, if it can be read. */
  ghost predicate BoundAt(o: Options, c: Confirmation, instant: int) {
    HasBound(c) && o.parse(c.notOnOrAfter.value) == Some(instant)
  }

  /** The confirmation whose bound is kept: no later bound, and none as late before it. */
  ghost predicate IsLatest(o: Options, confirmations: seq<Confirmation>, i: nat, instant: int) {
    && i < |confirmations| && BoundAt(o, confirmations[i], instant)
    && (forall k, other :: 0 <= k < |confirmations| && BoundAt(o, confirmations[k], other) ==> other <= instant)
    && (forall k, other :: 0 <= k < i && BoundAt(o, confirmations[k], other) ==> other < instant)
  }

  ghost predicate NothingRead(o: Options, confirmations: seq<Confirmation>) {
    forall k, other :: 0 <= k < |confirmations| ==> !BoundAt(o, confirmations[k], other)
  }

  /** From a bound kept so far: that one if nothing later comes, and otherwise the first of the latest. */
  lemma {:induction false} LatestFrom(o: Options, l: Latest, confirmations: seq<Confirmation>)
    ensures var after := LatestAfter(o, l, confirmations).latest;
            && (after.None? <==> l.latest.None? && NothingRead(o, confirmations))
            && (after.Some? && after != l.latest ==>
                  exists i: nat :: IsLatest(o, confirmations, i, after.value.0)
                    && confirmations[i].notOnOrAfter == Some(after.value.1))
            && (after.Some? && l.latest.Some? ==> after.value.0 >= l.latest.value.0)
            && (after.Some? && l.latest.Some? && after != l.latest ==> after.value.0 > l.latest.value.0)
            && (after.Some? ==>
                  forall k, other :: 0 <= k < |confirmations| && BoundAt(o, confirmations[k], other) ==>
                    other <= after.value.0)
    decreases |confirmations|
  {
    if confirmations != [] {
      var next, rest := Later(o, l, confirmations[0]), confirmations[1..];
      LatestFrom(o, next, rest);
      var after := LatestAfter(o, l, confirmations).latest;
      if after.Some? && after != next.latest {
        var i: nat :| IsLatest(o, rest, i, after.value.0) && rest[i].notOnOrAfter == Some(after.value.1);
        assert IsLatest(o, confirmations, i + 1, after.value.0);
      } else if after.Some? && after != l.latest {
        assert IsLatest(o, confirmations, 0, after.value.0);
      }
    }
  }

  ghost function InstantOf(o: Options, bound: string): int {
    match o.parse(bound) case Some(instant) => instant case None => 0
  }

  lemma {:induction false} UnreadFrom(o: Options, l: Latest, confirmations: seq<Confirmation>)
    requires NothingRead(o, confirmations)
    ensures var after := LatestAfter(o, l, confirmations).unread;
            if forall k :: 0 <= k < |confirmations| ==> !HasBound(confirmations[k]) then after == l.unread
            else exists i: nat :: IsLast(confirmations, i) && after == confirmations[i].notOnOrAfter
    decreases |confirmations|
  {
    if confirmations != [] {
      var rest := confirmations[1..];
      forall k, other | 0 <= k < |rest| ensures !BoundAt(o, rest[k], other) {
        assert rest[k] == confirmations[k + 1];
      }
      UnreadFrom(o, Later(o, l, confirmations[0]), rest);
      if exists k :: 0 <= k < |rest| && HasBound(rest[k]) {
        var i: nat :| IsLast(rest, i)
                      && LatestAfter(o, l, confirmations).unread == rest[i].notOnOrAfter;
        assert IsLast(confirmations, i + 1);
      } else if HasBound(confirmations[0]) {
        assert !BoundAt(o, confirmations[0], InstantOf(o, confirmations[0].notOnOrAfter.value));
        assert IsLast(confirmations, 0);
      }
    }
  }

  ghost predicate IsLast(confirmations: seq<Confirmation>, i: nat) {
    && i < |confirmations| && HasBound(confirmations[i])
    && forall k :: i < k < |confirmations| ==> !HasBound(confirmations[k])
  }

  /** What is recorded: the first of the latest bounds that can be read, and the last of all if none can. */
  lemma RecordedExactly(o: Options, confirmations: seq<Confirmation>)
    ensures var r := RecordedBound(o, confirmations);
            && (!NothingRead(o, confirmations) ==>
                  exists i: nat, instant ::
                    IsLatest(o, confirmations, i, instant) && r == confirmations[i].notOnOrAfter)
            && (NothingRead(o, confirmations) && r.Some? ==>
                  exists i: nat :: IsLast(confirmations, i) && r == confirmations[i].notOnOrAfter)
            && (r == None <==> forall k :: 0 <= k < |confirmations| ==> !HasBound(confirmations[k]))
  {
    hide LatestAfter;
    LatestFrom(o, Latest(None, None), confirmations);
    if NothingRead(o, confirmations) {
      UnreadFrom(o, Latest(None, None), confirmations);
    }
  }

  ghost predicate IsBoundOf(confirmations: seq<Confirmation>, value: string) {
    exists i :: 0 <= i < |confirmations| && IsBearer(confirmations[i]) && confirmations[i].notOnOrAfter == Some(value)
  }

  /** What is recorded is the bound of some bearer confirmation. */
  lemma {:induction false} RecordedIsABound(o: Options, l: Latest, confirmations: seq<Confirmation>)
    requires Recorded(LatestAfter(o, l, confirmations)).Some?
    ensures var value := Recorded(LatestAfter(o, l, confirmations)).value;
            IsBoundOf(confirmations, value) || l.unread == Some(value) || (l.latest.Some? && l.latest.value.1 == value)
    decreases |confirmations|
  {
    if confirmations != [] {
      var value, rest := Recorded(LatestAfter(o, l, confirmations)).value, confirmations[1..];
      RecordedIsABound(o, Later(o, l, confirmations[0]), rest);
      if IsBoundOf(rest, value) {
        var i :| 0 <= i < |rest| && IsBearer(rest[i]) && rest[i].notOnOrAfter == Some(value);
        assert confirmations[i + 1] == rest[i];
      }
    }
  }
}
