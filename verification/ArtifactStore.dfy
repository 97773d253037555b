/** Issuing, answering and discarding artifacts (section 3.5 of SAML Core 2.0): the store the identity
    provider keeps, and the receiver's record of artifacts already used. */
module ArtifactStore {
  import opened Text
  import opened ArtifactCodec
  import Sha1

  const ENTITY_FORMAT: string := "urn:oasis:names:tc:SAML:2.0:nameid-format:entity"

  datatype Protection = Given | Missing

  datatype SoapChannel = SoapChannel(authentication: Protection, integrity: Protection, confidentiality: Protection)

  /** `channel_allows`. */
  predicate ChannelAllows(channel: SoapChannel, webBrowserSso: bool) {
    && channel.authentication == Given && channel.integrity == Given
    && (webBrowserSso ==> channel.confidentiality == Given)
  }

  datatype Service = Service(index: Index, isSoap: bool, location: Bytes)

  /** What the store needs from the provider's metadata; `services` is absent when it cannot be read. */
  datatype Metadata = Metadata(entityId: Option<Bytes>, services: Option<seq<Service>>)

  datatype IssuedEntry = IssuedEntry(serviceProvider: Bytes, message: Bytes, webBrowserSso: bool)

  datatype PartyName = PartyName(value: Bytes, format: Option<Bytes>)

  /** A parsed `ArtifactResolve`. */
  datatype ResolveRequest = ResolveRequest(
    version: Bytes, destination: Option<Bytes>, issuer: Option<PartyName>, artifact: string)

  datatype Withheld = NotOutstanding | DifferentPresenter | Channel | Destination

  datatype Release = Returned(message: Bytes) | Withheld(reason: Withheld) | VersionMismatch

  datatype StoreError =
    | NoEntityId
    | NoService
    | NotSoap
    | AlreadyOutstanding
    | BadArtifact(error: CodecError)
    | BadRequest
    | BadEnvelope
    | WrongIssuer
    | ChannelProtection
    | BadLocation
    | Replayed

  function FirstService(services: seq<Service>, index: Index): Option<Service> {
    if services == [] then None
    else if services[0].index == index then Some(services[0])
    else FirstService(services[1..], index)
  }

  /** `soap_service`. */
  function SoapService(metadata: Metadata, index: Index): Result<Service, StoreError> {
    if metadata.services.None? then Err(NoService)
    else
      match FirstService(metadata.services.value, index)
      case None => Err(NoService)
      case Some(service) => if service.isSoap then Ok(service) else Err(NotSoap)
  }

  type Entries = map<Bytes, IssuedEntry>

  // What each operation returns.

  function IssueResult(entries: Entries, metadata: Metadata, index: Index, handle: SourceId)
    : Result<Artifact, StoreError>
  {
    match metadata.entityId
    case None => Err(NoEntityId)
    case Some(entityId) =>
      match SoapService(metadata, index)
      case Err(e) => Err(e)
      case Ok(_) =>
        var encoded := EncodeArtifact(index, Sha1.Digest(entityId), handle);
        if encoded in entries then Err(AlreadyOutstanding)
        else
          match TryFromEncoded(encoded)
          case Err(e) => Err(BadArtifact(e))
          case Ok(artifact) => Ok(artifact)
  }

  predicate IssuerMatches(request: ResolveRequest, presenter: Bytes) {
    && request.issuer.Some? && request.issuer.value.value == presenter
    && (request.issuer.value.format.None? || request.issuer.value.format.value == ENTITY_FORMAT)
  }

  /** Why an outstanding entry is not released to this presenter over this channel, if so. */
  function Refusal(entry: IssuedEntry, metadata: Metadata, index: Index, presenter: Bytes,
                   request: ResolveRequest, channel: SoapChannel): Option<Withheld> {
    var service := SoapService(metadata, index);
    if service.Err? then Some(NotOutstanding)
    else if request.destination.Some? && request.destination.value != service.value.location then Some(Destination)
    else if !ChannelAllows(channel, entry.webBrowserSso) then Some(Channel)
    else if !IssuerMatches(request, presenter) || presenter != entry.serviceProvider then Some(DifferentPresenter)
    else None
  }

  /** The store key an answer is about, when the request names an outstanding artifact of this provider. */
  function AskedFor(entries: Entries, entityId: Bytes, request: ResolveRequest): (r: Option<Artifact>)
    ensures r.Some? ==> r.value.encoded in entries
  {
    match TryFromEncoded(request.artifact)
    case Err(_) => None
    case Ok(artifact) =>
      if artifact.sourceId == Sha1.Digest(entityId) && artifact.encoded in entries then Some(artifact) else None
  }

  function AnswerResult(entries: Entries, metadata: Metadata, presenter: Bytes, parsed: Option<ResolveRequest>,
                        channel: SoapChannel, wraps: bool): Result<Release, StoreError> {
    if metadata.entityId.None? then Err(NoEntityId)
    else if parsed.None? then Err(BadRequest)
    else
      var request := parsed.value;
      var release :=
        if request.version != "2.0" then VersionMismatch
        else
          match AskedFor(entries, metadata.entityId.value, request)
          case None => Withheld(NotOutstanding)
          case Some(artifact) =>
            var entry := entries[artifact.encoded];
            match Refusal(entry, metadata, artifact.endpointIndex, presenter, request, channel)
            case Some(reason) => Withheld(reason)
            case None => Returned(entry.message);
      if wraps then Ok(release) else Err(BadEnvelope)
  }

  /** The key an answer removes: only when it returns the message. */
  function Released(entries: Entries, metadata: Metadata, presenter: Bytes, parsed: Option<ResolveRequest>,
                    channel: SoapChannel, wraps: bool): (key: Option<Bytes>)
    ensures key.Some? ==> key.value in entries
  {
    match AnswerResult(entries, metadata, presenter, parsed, channel, wraps)
    case Ok(Returned(_)) => Some(AskedFor(entries, metadata.entityId.value, parsed.value).value.encoded)
    case _ => None
  }

  // What an answer means.

  /** The request reaches an outstanding entry of this provider: its version and artifact, the endpoint the artifact
      names, and the entry. */
  ghost predicate Reaches(entries: Entries, metadata: Metadata, request: ResolveRequest, location: Bytes,
                          entry: IssuedEntry) {
    exists artifact, service ::
      && metadata.entityId.Some? && request.version == "2.0" && TryFromEncoded(request.artifact) == Ok(artifact)
      && artifact.sourceId == Sha1.Digest(metadata.entityId.value)
      && artifact.encoded in entries && entries[artifact.encoded] == entry
      && Offers(metadata, artifact.endpointIndex, service) && service.location == location
  }

  /** The first service with this index is a SOAP service. */
  ghost predicate Offers(metadata: Metadata, index: Index, service: Service) {
    && metadata.services.Some? && service.index == index && service.isSoap
    && exists i: nat :: IsFirst(metadata.services.value, i, service)
  }

  ghost predicate IsFirst(services: seq<Service>, i: nat, service: Service) {
    i < |services| && services[i] == service && forall k :: 0 <= k < i ==> services[k].index != service.index
  }

  ghost predicate MeantFor(request: ResolveRequest, location: Bytes) {
    request.destination == None || request.destination == Some(location)
  }

  /** Authentication and integrity are given, and confidentiality as well for a web browser response. */
  ghost predicate Protects(channel: SoapChannel, entry: IssuedEntry) {
    && channel.authentication == Given && channel.integrity == Given
    && (channel.confidentiality == Given || !entry.webBrowserSso)
  }

  /** The issuer of the request is the presenter, as an entity, and the provider the artifact was issued to. */
  ghost predicate Presents(request: ResolveRequest, presenter: Bytes, entry: IssuedEntry) {
    && request.issuer.Some? && request.issuer.value.value == presenter == entry.serviceProvider
    && (request.issuer.value.format == None
        || request.issuer.value.format == Some("urn:oasis:names:tc:SAML:2.0:nameid-format:entity"))
  }

  lemma {:induction false} FirstServiceIs(services: seq<Service>, index: Index)
    ensures match FirstService(services, index)
            case None => forall k :: 0 <= k < |services| ==> services[k].index != index
            case Some(service) =>
              service.index == index && exists i: nat :: IsFirst(services, i, service)
  {
    if services == [] {
    } else if services[0].index == index {
      assert IsFirst(services, 0, services[0]);
    } else {
      FirstServiceIs(services[1..], index);
      match FirstService(services[1..], index)
      case None =>
        assert forall k :: 0 < k < |services| ==> services[k] == services[1..][k - 1];
      case Some(service) =>
        var i: nat :| IsFirst(services[1..], i, service);
        assert forall k :: 0 < k < |services| ==> services[k] == services[1..][k - 1];
        assert IsFirst(services, i + 1, service);
    }
  }

  lemma OffersExactlyWhen(metadata: Metadata, index: Index, service: Service)
    ensures SoapService(metadata, index) == Ok(service) <==> Offers(metadata, index, service)
  {
    if metadata.services.Some? {
      FirstServiceIs(metadata.services.value, index);
    }
  }

  lemma OfferedExactlyWhen(metadata: Metadata, index: Index)
    ensures SoapService(metadata, index).Ok? <==> exists service :: Offers(metadata, index, service)
  {
    hide Offers, SoapService;
    forall service ensures SoapService(metadata, index) == Ok(service) <==> Offers(metadata, index, service) {
      OffersExactlyWhen(metadata, index, service);
    }
    if SoapService(metadata, index).Ok? {
      assert Offers(metadata, index, SoapService(metadata, index).value);
    }
  }

  /** An artifact is issued exactly when the provider has an identifier, offers the endpoint, and the artifact is not
      outstanding already. What is issued names the endpoint and the provider, and its text is new. */
  lemma IssuesExactlyWhen(entries: Entries, metadata: Metadata, index: Index, handle: SourceId)
    ensures var r := IssueResult(entries, metadata, index, handle);
            && (r.Ok? <==>
                  && metadata.entityId.Some? && (exists service :: Offers(metadata, index, service))
                  && EncodeArtifact(index, Sha1.Digest(metadata.entityId.value), handle) !in entries)
            && (r.Ok? ==>
                  && r.value.encoded !in entries && r.value.endpointIndex == index
                  && r.value.sourceId == Sha1.Digest(metadata.entityId.value))
  {
    hide Offers, EncodeArtifact, TryFromEncoded, SoapService, Sha1.Digest;
    OfferedExactlyWhen(metadata, index);
    if metadata.entityId.Some? {
      ReadEncoded(index, Sha1.Digest(metadata.entityId.value), handle);
    }
  }

  /** What is released on a request: nothing unless it reaches an entry, and then the entry's message unless the
      request is meant for another location, the channel does not protect it, or another provider presents it. */
  ghost predicate Releases(entries: Entries, metadata: Metadata, presenter: Bytes, request: ResolveRequest,
                           channel: SoapChannel, release: Release) {
    if request.version != "2.0" then release == VersionMismatch
    else if forall location, entry :: !Reaches(entries, metadata, request, location, entry) then
      release == Withheld(NotOutstanding)
    else
      exists location, entry :: Reaches(entries, metadata, request, location, entry)
        && release == (if !MeantFor(request, location) then Withheld(Destination)
                       else if !Protects(channel, entry) then Withheld(Channel)
                       else if !Presents(request, presenter, entry) then Withheld(DifferentPresenter)
                       else Returned(entry.message))
  }

  lemma ReachesExactlyWhen(entries: Entries, metadata: Metadata, request: ResolveRequest, location: Bytes,
                           entry: IssuedEntry)
    requires metadata.entityId.Some? && request.version == "2.0"
    ensures Reaches(entries, metadata, request, location, entry) <==>
              var asked := AskedFor(entries, metadata.entityId.value, request);
              && asked.Some? && asked.value.encoded in entries && entries[asked.value.encoded] == entry
              && SoapService(metadata, asked.value.endpointIndex).Ok?
              && SoapService(metadata, asked.value.endpointIndex).value.location == location
  {
    hide TryFromEncoded, Sha1.Digest, SoapService, Offers;
    forall index, service ensures SoapService(metadata, index) == Ok(service) <==> Offers(metadata, index, service) {
      OffersExactlyWhen(metadata, index, service);
    }
  }

  lemma AnswerReleases(entries: Entries, metadata: Metadata, presenter: Bytes, request: ResolveRequest,
                       channel: SoapChannel)
    requires metadata.entityId.Some?
    ensures var r := AnswerResult(entries, metadata, presenter, Some(request), channel, true);
            r.Ok? && Releases(entries, metadata, presenter, request, channel, r.value)
  {
    hide AskedFor, SoapService, Reaches;
    if request.version == "2.0" {
      forall location, entry
        ensures Reaches(entries, metadata, request, location, entry) <==>
                  var asked := AskedFor(entries, metadata.entityId.value, request);
                  && asked.Some? && asked.value.encoded in entries && entries[asked.value.encoded] == entry
                  && SoapService(metadata, asked.value.endpointIndex).Ok?
                  && SoapService(metadata, asked.value.endpointIndex).value.location == location
      {
        ReachesExactlyWhen(entries, metadata, request, location, entry);
      }
      var asked := AskedFor(entries, metadata.entityId.value, request);
      if asked.Some? && SoapService(metadata, asked.value.endpointIndex).Ok? {
        assert Reaches(entries, metadata, request, SoapService(metadata, asked.value.endpointIndex).value.location,
                       entries[asked.value.encoded]);
      }
    }
  }

  /** `IssuedArtifacts`, with the operations that take it. */
  class IssuedArtifacts {
    var entries: Entries

    constructor ()
      ensures entries == map[]
    {
      entries := map[];
    }

    /** `issue`: `handle` stands for the random message handle. */
    method Issue(metadata: Metadata, entry: IssuedEntry, index: Index, handle: SourceId)
      returns (r: Result<Artifact, StoreError>)
      modifies this
      ensures r == IssueResult(old(entries), metadata, index, handle)
      ensures entries == if r.Ok? then old(entries)[r.value.encoded := entry] else old(entries)
    {
      if metadata.entityId.None? {
        return Err(NoEntityId);
      }
      var service := SoapService(metadata, index);
      if service.Err? {
        return Err(service.error);
      }
      var source := Sha1.Sha1(metadata.entityId.value);
      var encoded := EncodeArtifact(index, source, handle);
      if encoded in entries {
        return Err(AlreadyOutstanding);
      }
      var artifact := TryFromEncoded(encoded);
      if artifact.Err? {
        return Err(BadArtifact(artifact.error));
      }
      entries := entries[artifact.value.encoded := entry];
      r := Ok(artifact.value);
    }

    /** `IssuedArtifacts::remove`. */
    method Remove(artifact: Artifact) returns (found: bool)
      modifies this
      ensures found == (artifact.encoded in old(entries))
      ensures entries == old(entries) - {artifact.encoded}
    {
      found := artifact.encoded in entries;
      entries := entries - {artifact.encoded};
    }

    /** `answer`: `parsed` is the request read from its envelope, and `wraps` says whether the response
        could be wrapped in one. */
    method Answer(metadata: Metadata, presenter: Bytes, parsed: Option<ResolveRequest>, channel: SoapChannel,
                  wraps: bool)
      returns (r: Result<Release, StoreError>)
      modifies this
      ensures r == AnswerResult(old(entries), metadata, presenter, parsed, channel, wraps)
      ensures var key := Released(old(entries), metadata, presenter, parsed, channel, wraps);
              entries == if key.Some? then old(entries) - {key.value} else old(entries)
      ensures metadata.entityId.Some? && parsed.Some? && wraps ==>
                r.Ok? && Releases(old(entries), metadata, presenter, parsed.value, channel, r.value)
      ensures !(metadata.entityId.Some? && parsed.Some? && wraps) ==> r.Err? && entries == old(entries)
    {
      hide Releases;
      if metadata.entityId.Some? && parsed.Some? && wraps {
        AnswerReleases(entries, metadata, presenter, parsed.value, channel);
      }
      if metadata.entityId.None? {
        return Err(NoEntityId);
      }
      if parsed.None? {
        return Err(BadRequest);
      }
      var request := parsed.value;
      if request.version != "2.0" {
        return if wraps then Ok(VersionMismatch) else Err(BadEnvelope);
      }
      var decoded := TryFromEncoded(request.artifact);
      if decoded.Err? {
        return if wraps then Ok(Withheld(NotOutstanding)) else Err(BadEnvelope);
      }
      var artifact := decoded.value;
      var source := Sha1.Sha1(metadata.entityId.value);
      if artifact.sourceId != source || artifact.encoded !in entries {
        return if wraps then Ok(Withheld(NotOutstanding)) else Err(BadEnvelope);
      }
      var entry := entries[artifact.encoded];
      var refusal := Refusal(entry, metadata, artifact.endpointIndex, presenter, request, channel);
      if refusal.Some? {
        return if wraps then Ok(Withheld(refusal.value)) else Err(BadEnvelope);
      }
      if !wraps {
        return Err(BadEnvelope);
      }
      entries := entries - {artifact.encoded};
      r := Ok(Returned(entry.message));
    }
  }

  /** `ArtifactUses`. */
  class ArtifactUses {
    const enforce: bool
    var seen: set<Bytes>

    constructor (enforce: bool)
      ensures this.enforce == enforce && seen == {}
    {
      this.enforce := enforce;
      seen := {};
    }

    /** `record`. */
    method Record(artifact: Bytes) returns (r: Result<(), StoreError>)
      modifies this`seen
      ensures r.Ok? <==> !enforce || artifact !in old(seen)
      ensures r.Err? ==> r.error == Replayed
      ensures seen == if enforce then old(seen) + {artifact} else old(seen)
    {
      if enforce {
        if artifact in seen {
          return Err(Replayed);
        }
        seen := seen + {artifact};
      }
      r := Ok(());
    }

    /** `resolve` up to sending its request: `buildable` says whether a request can be built for the location of
        a service. A refused artifact, and one whose request cannot be built, is not recorded. */
    method Resolve(identityProvider: Bytes, metadata: Metadata, artifact: Artifact, channel: SoapChannel,
                   webBrowserSso: bool, buildable: Service -> bool)
      returns (r: Result<Service, StoreError>)
      modifies this`seen
      ensures r.Ok? <==>
              && channel.authentication == Given && channel.integrity == Given
              && (webBrowserSso ==> channel.confidentiality == Given)
              && artifact.sourceId == Sha1.Digest(identityProvider)
              && SoapService(metadata, artifact.endpointIndex).Ok?
              && buildable(SoapService(metadata, artifact.endpointIndex).value)
              && (!enforce || artifact.encoded !in old(seen))
      ensures r.Ok? ==> r == SoapService(metadata, artifact.endpointIndex)
      ensures r == Err(Replayed) ==> enforce && artifact.encoded in old(seen)
      ensures seen == if enforce && r.Ok? then old(seen) + {artifact.encoded} else old(seen)
    {
      if !ChannelAllows(channel, webBrowserSso) {
        return Err(ChannelProtection);
      }
      var source := Sha1.Sha1(identityProvider);
      if artifact.sourceId != source {
        return Err(WrongIssuer);
      }
      var service := SoapService(metadata, artifact.endpointIndex);
      if service.Err? {
        return service;
      }
      if !buildable(service.value) {
        return Err(BadLocation);
      }
      var recorded := Record(artifact.encoded);
      if recorded.Err? {
        return Err(recorded.error);
      }
      r := service;
    }
  }
}
