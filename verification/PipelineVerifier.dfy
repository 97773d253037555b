/** Preparing a finalized response with the verifier's own examination of signatures, with and without the
    strict profile. */
module PipelineVerifier {
  import opened Text
  import opened Dom
  import opened SamlIds
  import opened Coverage
  import opened SignatureVerdict
  import opened SignatureOrder
  import opened SignatureProfile
  import opened SignatureGuards
  import opened Pipeline
  import opened PipelineShapes
  import opened PipelineEvidence
  import opened PipelineDocuments
  import opened PipelineRoundTrip
  import opened PipelineDecrypting
  import opened PipelinePreparing

  /** A service provider that examines the signatures of a document as the verifier does. */
  function Verifying(isCbc: string -> bool, accepts: (Node, ParserType) -> bool, views: Node -> View, strict: bool)
    : Checks
  {
    Checks(isCbc, accepts, d => Examiner(d, views(d), strict))
  }

  /** Every signature the pipeline made names an algorithm, as it stands in this document. */
  ghost predicate Readable(c: Crypto, d: Node, view: View) {
    forall position :: MadeAt(c, d, position) ==> view.algorithm(position).Ok?
  }

  /** Every signature the pipeline made meets the strict profile, as it stands in this document. */
  ghost predicate Profiled(c: Crypto, d: Node, view: View) {
    forall position :: MadeAt(c, d, position) ==> view.profile(position) == None
  }

  ghost predicate AllReadable(c: Crypto, views: Node -> View) { forall d :: Readable(c, d, views(d)) }

  ghost predicate AllProfiled(c: Crypto, views: Node -> View) { forall d :: Profiled(c, d, views(d)) }

  lemma ExaminerAccepts(c: Crypto, d: Node, view: View, strict: bool)
    requires Readable(c, d, view) && (strict ==> Profiled(c, d, view))
    ensures Accepting(c, d, Examiner(d, view, strict))
  {
    hide MadeAt, Gated, CoversNode, Targets, FirstAssertion;
  }

  lemma VerifierAccepts(c: Crypto, isCbc: string -> bool, accepts: (Node, ParserType) -> bool, views: Node -> View,
                        strict: bool)
    requires AllReadable(c, views) && (strict ==> AllProfiled(c, views))
    ensures AllAccepting(c, Verifying(isCbc, accepts, views, strict))
  {
    hide Accepting, Readable, Profiled, Examiner;
    var k := Verifying(isCbc, accepts, views, strict);
    forall d ensures Accepting(c, d, k.examine(d)) {
      assert Readable(c, d, views(d)) && (strict ==> Profiled(c, d, views(d)));
      ExaminerAccepts(c, d, views(d), strict);
    }
  }

  /** What comes of a finalized response, verified with or without the strict profile, when the signatures that
      are made meet it. */
  lemma VerifierPreparesExactlyWhen(c: Crypto, idp: IdpSettings, sp: SpSettings, root: Node, a: Node,
                                    isCbc: string -> bool, accepts: (Node, ParserType) -> bool,
                                    views: Node -> View, strict: bool)
    requires Raw(root, a) && Decrypts(c, Held(c, a, idp.wantAssertionsSigned))
    requires AllReadable(c, views) && (strict ==> AllProfiled(c, views))
    ensures Finalized(c, idp, root).Ok?
    ensures var d, held := Finalized(c, idp, root).value, Held(c, a, idp.wantAssertionsSigned);
            var k := Verifying(isCbc, accepts, views, strict);
            && Outcome(Prepare(c, d, SamlResponse, sp, k), d, held, a, idp, sp, k)
            && (!idp.post ==> DetachedOutcome(c, idp, sp, d, held, k))
  {
    hide Raw, Held, Finalized, Outcome, DetachedOutcome, AllAccepting, AllReadable, AllProfiled, Verifying;
    var k := Verifying(isCbc, accepts, views, strict);
    VerifierAccepts(c, isCbc, accepts, views, strict);
    PreparedExactlyWhenDemandsAreMet(c, idp, sp, root, a, k);
    if !idp.post {
      DetachedRecoversExactlyWhen(c, idp, sp, root, a, k);
    }
  }

  // The strict profile is needed.

  lemma {:induction false} JudgedAt(c: Crypto, root: Node, ns: seq<Node>, from: nat, i: nat)
    requires i < |ns| && IsSignature(ns[i])
    ensures Judged(c, root, ns[i], from + i) in JudgedAmong(c, root, ns, from)
    decreases |ns|
  {
    hide Judged;
    var own := if ns[0].local == "Signature" then [Judged(c, root, ns[0], from)] else [];
    assert JudgedAmong(c, root, ns, from) == own + JudgedAmong(c, root, ns[1..], from + 1);
    if i == 0 {
      assert own[0] == Judged(c, root, ns[0], from);
    } else {
      JudgedAt(c, root, ns[1..], from + 1, i - 1);
    }
  }

  /** The references of a signature as the signer's certificate finds them. */
  function ReferencesAt(c: Crypto, d: Node): References {
    (position: nat) =>
      if position < |Nodes(d)| && Judged(c, d, Nodes(d)[position], position).Valid?
      then Judged(c, d, Nodes(d)[position], position).references
      else []
  }

  lemma JudgedConsistent(c: Crypto, d: Node)
    requires forall r :: r in JudgedAll(c, d) && r.Valid? ==> r.node < |Nodes(d)|
    requires forall r :: r in JudgedAll(c, d) && r.Valid? ==> r == Judged(c, d, Nodes(d)[r.node], r.node)
    ensures Consistent(JudgedAll(c, d), ReferencesAt(c, d))
  {
    hide Judged, JudgedAll, Nodes;
  }

  lemma JudgedIsAtItsNode(c: Crypto, d: Node, r: SignatureResult)
    requires r in JudgedAll(c, d) && r.Valid?
    ensures r.node < |Nodes(d)| && r == Judged(c, d, Nodes(d)[r.node], r.node)
  {
    var n, position := SignatureOf(c, d, r);
    hide JudgedAll, Nodes;
  }

  lemma {:induction false} PlaceFound(ns: seq<Node>, n: Node, id: string)
    requires n in ns && SamlId(n) == Some(id)
    ensures PlaceOf(ns, id) < |ns| && SamlId(ns[PlaceOf(ns, id)]) == Some(id)
  {
    hide SamlId;
    if SamlId(ns[0]) != Some(id) {
      PlaceFound(ns[1..], n, id);
    }
  }

  lemma GenuineResolves(d: Node, n: Node, id: string, position: nat)
    requires Signable(id) && n in Nodes(d) && SamlId(n) == Some(id)
    ensures AllResolve(d, GenuineResult(id, PlaceOf(Nodes(d), id), position).references)
  {
    hide SamlId, Nodes, TargetOf;
    PlaceFound(Nodes(d), n, id);
    FragmentTarget(id);
  }

  /** A signature that names the response or its assertion stops the strict verification unless it meets the
      profile. */
  lemma UnprofiledStops(c: Crypto, d: Node, view: View, n: Node, id: string, position: nat)
    requires Presentable(d) && Views(view, d) && view.kind == ResponseRoot && Signable(id)
    requires position < |Nodes(d)| && IsSignature(Nodes(d)[position]) && Genuine(c, d, Nodes(d)[position], id)
    requires n in Nodes(d) && SamlId(n) == Some(id) && (n == d || n in Assertions(d))
    ensures EmbeddedEvidence(c, d, Examiner(d, view, true)).Ok? ==> view.profile(position) == None
  {
    hide Judged, JudgedAmong, Nodes, Genuine, Views, Verdict, Candidates, BadUri, Examiner, Targets, AllResolve, Ids,
      WrappingDetected, Consistent, SamlId, Signable, PlaceOf, Assertions;
    var r := GenuineResult(id, PlaceOf(Nodes(d), id), position);
    JudgedGenuine(c, d, Nodes(d)[position], id, position);
    JudgedAt(c, d, Nodes(d), 0, position);
    OneOutcome(JudgedAll(c, d));
    forall q | q in JudgedAll(c, d) && q.Valid?
      ensures q.node < |Nodes(d)| && q == Judged(c, d, Nodes(d)[q.node], q.node)
    {
      JudgedIsAtItsNode(c, d, q);
    }
    JudgedConsistent(c, d);
    GenuineSupplies(id, PlaceOf(Nodes(d), id), position, Id(id));
    GenuineResolves(d, n, id, position);
    if EmbeddedEvidence(c, d, Examiner(d, view, true)).Ok? {
      StrictSignaturesMeetProfile(d, view, [Results(JudgedAll(c, d))], ReferencesAt(c, d), r, Id(id));
    }
  }

  lemma MadeIsSignature(c: Crypto, s: Node)
    requires IsMade(c, s)
    ensures IsSignature(s)
  {
  }

  /** The identifier is that of the document element or of a direct assertion. */
  ghost predicate NamesDirect(d: Node, id: string) {
    exists n :: n in Nodes(d) && SamlId(n) == Some(id) && (n == d || n in Assertions(d))
  }

  lemma NamesRoot(d: Node, id: string)
    requires SamlId(d) == Some(id)
    ensures NamesDirect(d, id)
  {
    hide Nodes, SamlId;
    RootIsNode(d);
  }

  lemma NamesAssertion(c: Crypto, root: Node, a: Node, message: bool)
    requires Raw(root, a)
    ensures NamesDirect(Doc(c, root, SignedNode(c, a), message), SamlId(a).value)
  {
    RawFacts(root, a);
    SignedPayload(c, a);
    SignedKeeps(c, a);
    var x := SignedNode(c, a);
    hide Payload, Nodes, SamlId, Doc, Guarded, Unsigned, SignedNode;
    RootIsNode(x);
    PayloadInDoc(c, root, a, x, message, x);
    DocNamed(c, root, a, x, true, message);
    assert [x][0] == x;
  }

  lemma NamedElement(c: Crypto, root: Node, a: Node, x: Node, signed: bool, message: bool, id: string)
    requires Raw(root, a) && Payload(c, a, x, signed) && id in SignedIds(root, a, signed, message)
    ensures NamesDirect(Doc(c, root, x, message), id)
  {
    hide Nodes, SamlId, Doc, Guarded, Unsigned, SignedNode, NamesDirect;
    if id == SamlId(root).value {
      DocNamed(c, root, a, x, signed, message);
      NamesRoot(Doc(c, root, x, message), id);
    } else {
      NamesAssertion(c, root, a, message);
    }
  }

  lemma GenuineIsProfiled(c: Crypto, d: Node, ids: seq<string>, view: View, position: nat)
    requires Presentable(d) && AllGenuine(c, d, ids) && AllSignable(ids)
    requires forall id :: id in ids ==> NamesDirect(d, id)
    requires Views(view, d) && view.kind == ResponseRoot && MadeAt(c, d, position)
    requires EmbeddedEvidence(c, d, Examiner(d, view, true)).Ok?
    ensures view.profile(position) == None
  {
    hide Presentable, EmbeddedEvidence, Nodes, Genuine, Views, Examiner, IsMade, AllGenuine, Signable, SamlId;
    var s := Nodes(d)[position];
    MadeIsSignature(c, s);
    var id := SignedId(c, d, ids, s);
    assert NamesDirect(d, id);
    var n :| n in Nodes(d) && SamlId(n) == Some(id) && (n == d || n in Assertions(d));
    UnprofiledStops(c, d, view, n, id, position);
  }

  lemma DocPresentable(c: Crypto, root: Node, a: Node, x: Node, signed: bool, message: bool)
    requires Raw(root, a) && Payload(c, a, x, signed) && (signed || message)
    ensures Presentable(Doc(c, root, x, message))
  {
    hide Raw, Payload, Guarded, BadUri, Candidates;
    DocGuarded(c, root, a, x, signed, message);
    DocCandidates(c, root, a, x, signed, message);
  }

  /** The strict verification of a signed document succeeds exactly when its signatures meet the profile. */
  lemma StrictVerifiesExactlyWhen(c: Crypto, root: Node, a: Node, x: Node, signed: bool, message: bool, view: View)
    requires Raw(root, a) && Payload(c, a, x, signed) && (signed || message)
    requires var d := Doc(c, root, x, message);
             Views(view, d) && view.kind == ResponseRoot && Readable(c, d, view)
    ensures var d := Doc(c, root, x, message);
            EmbeddedEvidence(c, d, Examiner(d, view, true)).Ok? <==> Profiled(c, d, view)
  {
    var d := Doc(c, root, x, message);
    assert SamlId(a).Some?;
    hide Raw, Payload, Doc, Views, Examiner, EmbeddedEvidence, MadeAt, AllGenuine, AllSignable, NamesDirect,
      Presentable, SamlId, SignedIds;
    if Profiled(c, d, view) {
      ExaminerAccepts(c, d, view, true);
      DocEvidence(c, root, a, x, signed, message, Examiner(d, view, true));
    }
    if EmbeddedEvidence(c, d, Examiner(d, view, true)).Ok? {
      var ids := SignedIds(root, a, signed, message);
      DocPresentable(c, root, a, x, signed, message);
      DocGenuine(c, root, a, x, signed, message);
      forall id | id in ids ensures NamesDirect(d, id) {
        NamedElement(c, root, a, x, signed, message, id);
      }
      forall position: nat | MadeAt(c, d, position) ensures view.profile(position) == None {
        GenuineIsProfiled(c, d, ids, view, position);
      }
    }
  }

  lemma NothingMade(c: Crypto, d: Node, position: nat)
    requires AllGenuine(c, d, [])
    ensures !MadeAt(c, d, position)
  {
    hide Genuine, IsMade, Nodes;
    if MadeAt(c, d, position) {
      MadeIsSignature(c, Nodes(d)[position]);
    }
  }

  lemma UnsignedIsProfiled(c: Crypto, root: Node, a: Node, x: Node, view: View)
    requires Raw(root, a) && Payload(c, a, x, false)
    ensures Profiled(c, Doc(c, root, x, false), view)
  {
    assert SamlId(root).Some?;
    hide Raw, Payload, Doc, AllGenuine, MadeAt;
    DocGenuine(c, root, a, x, false, false);
    forall position: nat ensures !MadeAt(c, Doc(c, root, x, false), position) {
      NothingMade(c, Doc(c, root, x, false), position);
    }
  }

  /** With the strict profile nothing is handed on of a finalized response, whatever else is demanded, unless every
      signature that stands in it meets the profile. */
  lemma StrictNeedsProfile(c: Crypto, idp: IdpSettings, sp: SpSettings, root: Node, a: Node, isCbc: string -> bool,
                           accepts: (Node, ParserType) -> bool, views: Node -> View)
    requires Raw(root, a) && Finalized(c, idp, root).Ok?
    requires var d := Finalized(c, idp, root).value;
             && Views(views(d), d) && views(d).kind == ResponseRoot && Readable(c, d, views(d))
             && Prepare(c, d, SamlResponse, sp, Verifying(isCbc, accepts, views, true)).Ok?
    ensures Profiled(c, Finalized(c, idp, root).value, views(Finalized(c, idp, root).value))
  {
    hide Payload, Doc, Views, Examiner, EmbeddedEvidence, Readable, Profiled, Finalized, Guarded, Unsigned,
      DecryptedAfter, DecryptedBefore, PreparedPlain, ResponseDemanded;
    FinalizedIs(c, idp, root, a);
    SentPayload(c, idp, root, a);
    var d := Finalized(c, idp, root).value;
    if InClear(idp) || SignsMessage(idp) {
      StrictVerifiesExactlyWhen(c, root, a, Sent(c, idp, a), InClear(idp), SignsMessage(idp), views(d));
    } else {
      UnsignedIsProfiled(c, root, a, Sent(c, idp, a), views(d));
    }
  }
}
