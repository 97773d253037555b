/** What a verified signature is evidence of, and the gate that holds the signatures which authenticate
    what is accepted to a strict profile. */
module SignatureProfile {
  import opened Text
  import opened Dom
  import opened SamlIds
  import opened Coverage
  import opened SignatureVerdict
  import opened SignatureOrder

  /** The document element, by its namespace and name. */
  datatype RootKind = ResponseRoot | AssertionRoot | OtherRoot

  /** The document as the verifier sees it: elements by position, with namespaces resolved. What it reads in a
      signature element is the algorithm, and the error if the element does not meet the profile. */
  datatype View = View(kind: RootKind, root: nat, assertions: seq<nat>,
                       algorithm: nat -> Result<string, VerdictError>, profile: nat -> Option<VerdictError>)

  /** `reference_covers_node`. */
  predicate CoversNode(references: seq<Reference>, node: nat) {
    exists i :: 0 <= i < |references| && references[i].resolved == Some(node)
  }

  function FirstAssertion(view: View): Option<nat> {
    match view.kind
    case AssertionRoot => Some(view.root)
    case ResponseRoot => if view.assertions == [] then None else Some(view.assertions[0])
    case OtherRoot => None
  }

  /** `verified_embedded_signature`. */
  function Embedded(view: View, signature: nat, references: seq<Reference>, targets: seq<Target>)
    : Result<Option<Evidence>, VerdictError>
  {
    var whole := WholeDocument in targets;
    var response := view.kind == ResponseRoot && (whole || CoversNode(references, view.root));
    var assertion := FirstAssertion(view);
    var direct := assertion.Some? && (CoversNode(references, assertion.value) ||
                                      (assertion.value == view.root && whole));
    if !response && !direct then Ok(None)
    else
      match view.algorithm(signature)
      case Err(e) => Err(e)
      case Ok(algorithm) => Ok(Some(Evidence(algorithm, direct, response)))
  }

  /** `references_cover_direct_assertion`. */
  predicate CoversDirectAssertion(view: View, references: seq<Reference>) {
    match view.kind
    case AssertionRoot => CoversNode(references, view.root)
    case ResponseRoot => exists i :: 0 <= i < |view.assertions| && CoversNode(references, view.assertions[i])
    case OtherRoot => false
  }

  /** Which signatures are held to the profile. */
  predicate Gated(root: Node, view: View, references: seq<Reference>, targets: seq<Target>,
                  evidence: Option<Evidence>) {
    evidence.Some? || CoversDirectAssertion(view, references) || CoversAccepted(root, targets)
  }

  function Examined(root: Node, view: View, strict: bool, signature: nat, references: seq<Reference>)
    : Result<Option<Evidence>, VerdictError>
  {
    match Targets(references)
    case Err(e) => Err(BadReference(e))
    case Ok(targets) =>
      match Embedded(view, signature, references, targets)
      case Err(e) => Err(e)
      case Ok(evidence) =>
        if strict && Gated(root, view, references, targets, evidence) && view.profile(signature).Some? then
          Err(view.profile(signature).value)
        else Ok(evidence)
  }

  function Examiner(root: Node, view: View, strict: bool): Examination {
    (signature: nat, references: seq<Reference>) => Examined(root, view, strict, signature, references)
  }

  /** The element that a signature may be evidence for besides the response: the assertion, which is the document
      element or the first one of a response. */
  ghost predicate IsFirstAssertion(view: View, position: nat) {
    || (view.kind == AssertionRoot && position == view.root)
    || (view.kind == ResponseRoot && |view.assertions| > 0 && position == view.assertions[0])
  }

  ghost predicate RefersTo(references: seq<Reference>, position: nat) {
    exists reference :: reference in references && reference.resolved == Some(position)
  }

  lemma RefersExactlyWhen(references: seq<Reference>, position: nat)
    ensures CoversNode(references, position) <==> RefersTo(references, position)
  {
    forall reference | reference in references && reference.resolved == Some(position)
      ensures CoversNode(references, position)
    {
      var i :| 0 <= i < |references| && references[i] == reference;
    }
  }

  /** What a signature is evidence of: the response, if it is one and the signature names the whole document or its
      root, and its assertion, if the signature names that. With neither it is no evidence. */
  lemma EvidenceExactlyWhen(view: View, signature: nat, references: seq<Reference>, targets: seq<Target>)
    ensures var response := view.kind == ResponseRoot && (WholeDocument in targets || RefersTo(references, view.root));
            var direct := exists position :: IsFirstAssertion(view, position)
                            && (RefersTo(references, position) || (WholeDocument in targets && position == view.root));
            Embedded(view, signature, references, targets)
            == if !response && !direct then Ok(None)
               else if view.algorithm(signature).Err? then Err(view.algorithm(signature).error)
               else Ok(Some(Evidence(view.algorithm(signature).value, direct, response)))
  {
    hide RefersTo, CoversNode;
    forall position: nat ensures CoversNode(references, position) <==> RefersTo(references, position) {
      RefersExactlyWhen(references, position);
    }
    if FirstAssertion(view).Some? {
      assert IsFirstAssertion(view, FirstAssertion(view).value);
    }
  }

  /** The profile holds a signature back exactly when it is asked for, and the signature is evidence, names a direct
      assertion, or covers what would be returned. */
  lemma HeldExactlyWhen(root: Node, view: View, strict: bool, signature: nat, references: seq<Reference>,
                        evidence: Option<Evidence>)
    requires Targets(references).Ok?
    requires Embedded(view, signature, references, Targets(references).value) == Ok(evidence)
    requires view.profile(signature).Some?
    ensures var content := Content(root, Targets(references).value);
            var direct := (view.kind == AssertionRoot && RefersTo(references, view.root))
                          || (view.kind == ResponseRoot
                              && exists position :: position in view.assertions && RefersTo(references, position));
            Examined(root, view, strict, signature, references)
            == if strict && (evidence.Some? || direct || (content.Ok? && content.value.Some?))
               then Err(view.profile(signature).value)
               else Ok(evidence)
  {
    hide RefersTo, CoversNode, Embedded, Targets, CoversAccepted, Content;
    GateAgreesWithContent(root, Targets(references).value);
    forall position: nat ensures CoversNode(references, position) <==> RefersTo(references, position) {
      RefersExactlyWhen(references, position);
    }
  }

  // The verifier's view and the parsed elements.

  /** Positions are those of document order, and local names tell the elements apart as namespaces do. */
  ghost predicate Views(view: View, root: Node) {
    && view.root == 0
    && (view.kind == ResponseRoot ==> root.local == "Response")
    && (view.kind == AssertionRoot ==> root.local == "Assertion")
    && (forall i :: 0 <= i < |view.assertions| ==>
          view.assertions[i] < |Nodes(root)| && Nodes(root)[view.assertions[i]] in Assertions(root))
    && (forall a :: a in Assertions(root) ==>
          exists i :: 0 <= i < |view.assertions| && Nodes(root)[view.assertions[i]] == a)
  }

  /** A reference by identifier resolves to an element with it. */
  ghost predicate ResolvesIn(root: Node, reference: Reference) {
    reference.resolved.Some? && TargetOf(reference.uri).Ok? && TargetOf(reference.uri).value.Id? ==>
      reference.resolved.value < |Nodes(root)|
      && SamlId(Nodes(root)[reference.resolved.value]) == Some(TargetOf(reference.uri).value.id)
  }

  ghost predicate AllResolve(root: Node, references: seq<Reference>) {
    forall i :: 0 <= i < |references| ==> ResolvesIn(root, references[i])
  }

  lemma RootFirst(root: Node)
    ensures |Nodes(root)| > 0 && Nodes(root)[0] == root
  {
  }

  /** The reference behind a target by identifier resolves to the element with it. */
  lemma TargetResolves(root: Node, references: seq<Reference>, id: string, k: nat)
    requires Repeat(Ids(root), {}) == None && AllResolve(root, references) && Targets(references).Ok?
    requires Id(id) in Targets(references).value && k < |Nodes(root)| && SamlId(Nodes(root)[k]) == Some(id)
    ensures CoversNode(references, k)
  {
    hide TargetOf, SamlId, Nodes, Ids;
    TargetsAreSound(references);
    var i :| 0 <= i < |references| && Targets(references).value[i] == Id(id);
    assert ResolvesIn(root, references[i]);
    IdNamesOneElement(root, id, k, references[i].resolved.value);
  }

  /** A reference that resolves to the document element names it. */
  lemma ResolvedMatches(root: Node, references: seq<Reference>)
    requires AllResolve(root, references) && Targets(references).Ok? && CoversNode(references, 0)
    ensures TargetMatches(Targets(references).value, root)
  {
    hide TargetOf, SamlId, Ids;
    TargetsAreSound(references);
    RootFirst(root);
    var i :| 0 <= i < |references| && references[i].resolved == Some(0);
    assert ResolvesIn(root, references[i]);
    assert IsTargetOf(Targets(references).value[i], root);
  }

  lemma MatchedRoot(root: Node, references: seq<Reference>)
    requires Repeat(Ids(root), {}) == None && AllResolve(root, references) && Targets(references).Ok?
    requires TargetMatches(Targets(references).value, root)
    ensures WholeDocument in Targets(references).value || CoversNode(references, 0)
  {
    hide SamlId, Ids, CoversNode, TargetsFrom, AllResolve;
    RootFirst(root);
    var targets := Targets(references).value;
    var i :| 0 <= i < |targets| && IsTargetOf(targets[i], root);
    if targets[i].Id? {
      TargetResolves(root, references, targets[i].id, 0);
    } else {
      assert targets[i] == WholeDocument;
    }
  }

  /** A reference by identifier to a direct assertion resolves to one the verifier sees. */
  lemma MatchedAssertion(root: Node, view: View, references: seq<Reference>, a: Node, id: string) returns (i: nat)
    requires Repeat(Ids(root), {}) == None && AllResolve(root, references) && Targets(references).Ok? &&
        Views(view, root)
    requires a in Assertions(root) && SamlId(a) == Some(id) && Id(id) in Targets(references).value
    ensures i < |view.assertions| && Nodes(root)[view.assertions[i]] == a && CoversNode(references, view.assertions[i])
  {
    hide SamlId, Ids, CoversNode, TargetsFrom, AllResolve, Nodes;
    i :| 0 <= i < |view.assertions| && Nodes(root)[view.assertions[i]] == a;
    TargetResolves(root, references, id, view.assertions[i]);
  }

  /** Evidence agrees with coverage: a signature is evidence for the response exactly when a target matches its
      root, and for the assertion whenever its targets name every direct assertion. */
  lemma EvidenceMeansCoverage(root: Node, view: View, signature: nat, references: seq<Reference>)
    requires Repeat(Ids(root), {}) == None && Views(view, root) && AllResolve(root, references)
    requires view.kind == ResponseRoot && Targets(references).Ok? && view.algorithm(signature).Ok?
    ensures var targets := Targets(references).value;
            var evidence := Embedded(view, signature, references, targets).value;
            && (evidence.Some? && evidence.value.responseCovered <==> ResponseCovered(root, targets))
            && (AssertionDirectlyCovered(root, targets) ==> evidence.Some? && evidence.value.assertionCovered)
  {
    hide SamlId, Ids, CoversNode, TargetsFrom, AllResolve, TargetMatches, Nodes;
    var targets := Targets(references).value;
    assert Contains("Response", "Response");
    if TargetMatches(targets, root) {
      MatchedRoot(root, references);
    }
    if CoversNode(references, 0) {
      ResolvedMatches(root, references);
    }
    if WholeDocument in targets {
      WholeMatches(targets, root);
    }
    if AssertionDirectlyCovered(root, targets) {
      FirstIsCovered(root, view, references);
    }
  }

  lemma WholeMatches(targets: seq<Target>, n: Node)
    requires WholeDocument in targets
    ensures TargetMatches(targets, n)
  {
    var i :| 0 <= i < |targets| && targets[i] == WholeDocument;
    assert IsTargetOf(targets[i], n);
  }

  lemma FirstIsCovered(root: Node, view: View, references: seq<Reference>)
    requires Repeat(Ids(root), {}) == None && Views(view, root) && AllResolve(root, references)
    requires view.kind == ResponseRoot && Targets(references).Ok?
    requires Assertions(root) != [] && AllByOwnId(Assertions(root), Targets(references).value)
    ensures view.assertions != [] && CoversNode(references, view.assertions[0])
  {
    hide Ids, CoversNode, TargetsFrom, AllResolve, Nodes;
    var targets := Targets(references).value;
    assert Assertions(root)[0] in Assertions(root);
    var a := Nodes(root)[view.assertions[0]];
    var j :| 0 <= j < |Assertions(root)| && Assertions(root)[j] == a;
    var t :| 0 <= t < |targets| && targets[t].Id? && IsTargetOf(targets[t], a);
    assert targets[t] in targets;
    TargetResolves(root, references, targets[t].id, view.assertions[0]);
  }

  // The gate.

  /** A target that names the document element, or a direct assertion of a response. */
  ghost predicate Authenticates(root: Node, view: View, target: Target) {
    || IsTargetOf(target, root)
    || (view.kind == ResponseRoot && target.Id? && exists a :: a in Assertions(root) && IsTargetOf(target, a))
  }

  lemma AuthenticatingIsGated(root: Node, view: View, signature: nat, references: seq<Reference>, target: Target)
    requires Repeat(Ids(root), {}) == None && Views(view, root) && AllResolve(root, references)
    requires view.kind != OtherRoot && Targets(references).Ok? && target in Targets(references).value
    requires Authenticates(root, view, target) && Embedded(view, signature, references, Targets(references).value).Ok?
    ensures Gated(root, view, references, Targets(references).value,
                  Embedded(view, signature, references, Targets(references).value).value)
  {
    hide Ids, CoversNode, TargetsFrom, AllResolve, Nodes, CoversAccepted, SamlId;
    var targets := Targets(references).value;
    if IsTargetOf(target, root) {
      var i :| 0 <= i < |targets| && targets[i] == target;
      assert TargetMatches(targets, root);
      MatchedRoot(root, references);
    } else {
      var a :| a in Assertions(root) && IsTargetOf(target, a);
      var i := MatchedAssertion(root, view, references, a, target.id);
    }
  }

  /** With the strict profile, every verified signature that authenticates the document element or a direct
      assertion meets the profile, whatever else it refers to. */
  lemma StrictSignaturesMeetProfile(root: Node, view: View, outcomes: seq<CertificateOutcome>, refs: References,
                                    r: SignatureResult, target: Target)
    requires Verdict(root, outcomes, Examiner(root, view, true)).Ok? && Consistent(AllResults(outcomes), refs)
    requires Repeat(Ids(root), {}) == None && Views(view, root) && view.kind != OtherRoot
    requires r in AllResults(outcomes) && r.Valid? && AllResolve(root, r.references)
    requires Supplies(r, target) && Authenticates(root, view, target)
    ensures view.profile(r.node) == None
  {
    hide Verdict, AllResolve, Views, Ids, Authenticates, Embedded, Gated, Targets, Nodes, Consistent, Assertions,
      AllResults;
    VerdictMeansSound(root, outcomes, Examiner(root, view, true), refs, r);
    AuthenticatingIsGated(root, view, r.node, r.references, target);
  }

  /** With the strict profile, a verified signature whose own references cover what would be returned meets the
      profile, for every kind of message. */
  lemma CoveringSignatureMeetsProfile(root: Node, view: View, outcomes: seq<CertificateOutcome>, refs: References,
                                      r: SignatureResult)
    requires Verdict(root, outcomes, Examiner(root, view, true)).Ok? && Consistent(AllResults(outcomes), refs)
    requires r in AllResults(outcomes) && r.Valid? && Targets(r.references).Ok?
    requires var content := Content(root, Targets(r.references).value); content.Ok? && content.value.Some?
    ensures view.profile(r.node) == None
  {
    hide Verdict, Embedded, CoversDirectAssertion, Targets, Consistent, Content, CoversAccepted, AllResults;
    VerdictMeansSound(root, outcomes, Examiner(root, view, true), refs, r);
    GateAgreesWithContent(root, Targets(r.references).value);
  }
}
