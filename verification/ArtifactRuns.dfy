/** What holds over every run of issue, answer and remove on one artifact store. */
module ArtifactRuns {
  import opened Text
  import opened ArtifactCodec
  import opened ArtifactStore
  import Base64
  import Sha1

  /** One call on the store. */
  datatype Operation =
    | Issue(metadata: Metadata, entry: IssuedEntry, index: Index, handle: SourceId)
    | Answer(metadata: Metadata, presenter: Bytes, parsed: Option<ResolveRequest>, channel: SoapChannel, wraps: bool)
    | Remove(artifact: Artifact)

  /** What a call did to the store, if anything. */
  datatype Effect =
    | Nothing
    | DidIssue(key: Bytes, entry: IssuedEntry)
    | DidReturn(key: Bytes, presenter: Bytes, message: Bytes, channel: SoapChannel)
    | DidRemove(key: Bytes)

  function EffectOf(entries: Entries, op: Operation): Effect {
    match op
    case Issue(metadata, entry, index, handle) =>
      (match IssueResult(entries, metadata, index, handle)
       case Ok(artifact) => DidIssue(artifact.encoded, entry)
       case Err(_) => Nothing)
    case Answer(metadata, presenter, parsed, channel, wraps) =>
      (match Released(entries, metadata, presenter, parsed, channel, wraps)
       case Some(key) => DidReturn(key, presenter, entries[key].message, channel)
       case None => Nothing)
    case Remove(artifact) =>
      if artifact.encoded in entries then DidRemove(artifact.encoded) else Nothing
  }

  function After(entries: Entries, effect: Effect): Entries {
    match effect
    case Nothing => entries
    case DidIssue(key, entry) => entries[key := entry]
    case DidReturn(key, _, _, _) => entries - {key}
    case DidRemove(key) => entries - {key}
  }

  /** The store after the first `n` calls of a run that starts empty. */
  function StoreAt(run: seq<Operation>, n: nat): Entries
    requires n <= |run|
  {
    if n == 0 then map[] else After(StoreAt(run, n - 1), EffectOf(StoreAt(run, n - 1), run[n - 1]))
  }

  function EffectAt(run: seq<Operation>, i: nat): Effect
    requires i < |run|
  {
    EffectOf(StoreAt(run, i), run[i])
  }

  predicate About(effect: Effect, key: Bytes) { !effect.Nothing? && effect.key == key }

  /** The methods of the store take exactly these steps. */
  method Perform(store: IssuedArtifacts, op: Operation) returns (ghost effect: Effect)
    modifies store
    ensures effect == EffectOf(old(store.entries), op)
    ensures store.entries == After(old(store.entries), effect)
  {
    effect := EffectOf(store.entries, op);
    match op {
      case Issue(metadata, entry, index, handle) =>
        var _ := store.Issue(metadata, entry, index, handle);
      case Answer(metadata, presenter, parsed, channel, wraps) =>
        var _ := store.Answer(metadata, presenter, parsed, channel, wraps);
      case Remove(artifact) =>
        var found := store.Remove(artifact);
        assert !found ==> store.entries == old(store.entries);
    }
  }

  /** A refused issue, a withheld or failed answer and a removal of nothing leave the store as it was. */
  lemma OnlyReleaseChanges(entries: Entries, metadata: Metadata, presenter: Bytes, parsed: Option<ResolveRequest>,
                           channel: SoapChannel, wraps: bool)
    ensures var r := AnswerResult(entries, metadata, presenter, parsed, channel, wraps);
            var after := After(entries, EffectOf(entries, Answer(metadata, presenter, parsed, channel, wraps)));
            && (after == entries <==> !(r.Ok? && r.value.Returned?))
            && (r.Ok? && r.value.Returned? ==> |after| + 1 == |entries|)
  {
    var key := Released(entries, metadata, presenter, parsed, channel, wraps);
    if key.Some? {
      var after := entries - {key.value};
      assert after.Keys == entries.Keys - {key.value};
      assert |after.Keys| + 1 == |entries.Keys|;
    }
  }

  // Conservation.

  function Issues(run: seq<Operation>, n: nat, key: Bytes): nat
    requires n <= |run|
  {
    if n == 0 then 0
    else Issues(run, n - 1, key) + if About(EffectAt(run, n - 1), key) && EffectAt(run, n - 1).DidIssue? then 1 else 0
  }

  function Returns(run: seq<Operation>, n: nat, key: Bytes): nat
    requires n <= |run|
  {
    if n == 0 then 0
    else Returns(run, n - 1, key) + if About(EffectAt(run, n - 1), key) && EffectAt(run, n - 1).DidReturn? then 1 else 0
  }

  function Removals(run: seq<Operation>, n: nat, key: Bytes): nat
    requires n <= |run|
  {
    if n == 0 then 0
    else
      Removals(run, n - 1, key)
      + if About(EffectAt(run, n - 1), key) && EffectAt(run, n - 1).DidRemove? then 1 else 0
  }

  lemma IssueIsNew(entries: Entries, op: Operation)
    ensures var e := EffectOf(entries, op); e.DidIssue? ==> e.key !in entries
    ensures var e := EffectOf(entries, op); e.DidReturn? || e.DidRemove? ==> e.key in entries
  {
    if op.Issue? && EffectOf(entries, op).DidIssue? {
      ReadEncoded(op.index, Sha1.Digest(op.metadata.entityId.value), op.handle);
    }
  }

  /** At every point of every run, for every artifact: outstanding is issued less returned less removed. */
  lemma {:induction false} OutstandingIsConserved(run: seq<Operation>, n: nat, key: Bytes)
    requires n <= |run|
    ensures Issues(run, n, key)
         == Returns(run, n, key) + Removals(run, n, key) + if key in StoreAt(run, n) then 1 else 0
  {
    hide EffectOf;
    if n > 0 {
      OutstandingIsConserved(run, n - 1, key);
      IssueIsNew(StoreAt(run, n - 1), run[n - 1]);
    }
  }

  // Who gets what.

  /** `run[j]` issued the entry that is outstanding under `key` after `n` calls, and nothing about
      the key happened since. */
  ghost predicate IssuedAt(run: seq<Operation>, j: nat, n: nat, key: Bytes, entry: IssuedEntry)
    requires n <= |run|
  {
    && j < n && EffectAt(run, j) == DidIssue(key, entry)
    && forall k :: j < k < n ==> !About(EffectAt(run, k), key)
  }

  lemma {:induction false} OutstandingWasIssued(run: seq<Operation>, n: nat, key: Bytes) returns (j: nat)
    requires n <= |run| && key in StoreAt(run, n)
    ensures IssuedAt(run, j, n, key, StoreAt(run, n)[key])
  {
    hide EffectOf;
    var before, effect := StoreAt(run, n - 1), EffectAt(run, n - 1);
    if About(effect, key) {
      assert effect.DidIssue?;
      j := n - 1;
    } else {
      assert key in before && StoreAt(run, n)[key] == before[key];
      j := OutstandingWasIssued(run, n - 1, key);
    }
  }

  lemma ReturnFacts(entries: Entries, op: Operation)
    requires EffectOf(entries, op).DidReturn?
    ensures var e := EffectOf(entries, op);
            && e.key in entries && e.presenter == entries[e.key].serviceProvider
            && e.message == entries[e.key].message && Protects(e.channel, entries[e.key])
  {
    hide TryFromEncoded, SoapService, IssuerMatches;
  }

  /** Every release answers the last issue of that artifact, gives its message to the provider it was
      issued to, over a channel that entry allows. */
  lemma ReleaseIsAuthorised(run: seq<Operation>, i: nat) returns (j: nat)
    requires i < |run| && EffectAt(run, i).DidReturn?
    ensures j < i && EffectAt(run, j).DidIssue?
    ensures var released := EffectAt(run, i); var entry := EffectAt(run, j).entry;
            && IssuedAt(run, j, i, released.key, entry)
            && released.presenter == entry.serviceProvider && released.message == entry.message
            && released.channel.authentication == Given && released.channel.integrity == Given
            && (released.channel.confidentiality == Given || !entry.webBrowserSso)
  {
    ReturnFacts(StoreAt(run, i), run[i]);
    hide EffectOf;
    j := OutstandingWasIssued(run, i, EffectAt(run, i).key);
  }

  /** One issue is released at most once: between two releases of an artifact it was issued again. */
  lemma ReleasedOnce(run: seq<Operation>, i: nat, k: nat) returns (j: nat)
    requires i < k < |run| && EffectAt(run, i).DidReturn? && EffectAt(run, k).DidReturn?
    requires EffectAt(run, i).key == EffectAt(run, k).key
    ensures i < j < k && About(EffectAt(run, j), EffectAt(run, k).key) && EffectAt(run, j).DidIssue?
  {
    hide EffectOf;
    j := ReleaseIsAuthorised(run, k);
    assert About(EffectAt(run, i), EffectAt(run, k).key);
  }

  /** An answer depends on the artifact's text only through the artifact it reads as. */
  lemma SameArtifactSameAnswer(entries: Entries, metadata: Metadata, presenter: Bytes, request: ResolveRequest,
                               text: string, channel: SoapChannel, wraps: bool)
    requires TryFromEncoded(request.artifact) == TryFromEncoded(text)
    ensures var other := Some(request.(artifact := text));
            && AnswerResult(entries, metadata, presenter, Some(request), channel, wraps)
            == AnswerResult(entries, metadata, presenter, other, channel, wraps)
            && Released(entries, metadata, presenter, Some(request), channel, wraps)
            == Released(entries, metadata, presenter, other, channel, wraps)
  {
    hide TryFromEncoded, SoapService, ChannelAllows;
  }

  /** Padded and bare spellings of one artifact get the same answer. */
  lemma SpellingDoesNotMatter(entries: Entries, metadata: Metadata, presenter: Bytes, request: ResolveRequest,
                              channel: SoapChannel, wraps: bool, raw: Bytes)
    requires IsRawArtifact(raw) && request.artifact == Base64.Encode(raw)
    ensures var bare := Some(request.(artifact := Base64.EncodeNoPad(raw)));
            && AnswerResult(entries, metadata, presenter, Some(request), channel, wraps)
            == AnswerResult(entries, metadata, presenter, bare, channel, wraps)
            && Released(entries, metadata, presenter, Some(request), channel, wraps)
            == Released(entries, metadata, presenter, bare, channel, wraps)
  {
    SpellingsRead(Base64.Encode(raw), raw);
    SpellingsRead(Base64.EncodeNoPad(raw), raw);
    hide TryFromEncoded, AnswerResult, Released;
    SameArtifactSameAnswer(entries, metadata, presenter, request, Base64.EncodeNoPad(raw), channel, wraps);
  }
}
