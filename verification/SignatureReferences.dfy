/** What a verified result says of the document, told by the elements of the document and the URIs of the
    references that were verified. */
module SignatureReferences {
  import opened Text
  import opened Dom
  import opened SamlIds
  import opened Coverage
  import opened SignatureVerdict
  import opened SignatureOrder

  /** The reference of a signature that verified under some certificate, its digest matched. */
  ghost predicate Referred(outcomes: seq<CertificateOutcome>, reference: Reference) {
    exists o, r :: o in outcomes && o.Results? && r in o.results && r.Valid? && reference in r.references
      && reference.digestVerified
  }

  /** The URI spells the identifier of the element: its ID, or its AssertionID when it has no ID. */
  ghost predicate SpellsIdOf(uri: string, n: Node) {
    exists id :: Spells(uri, id)
      && (Attr(n, "ID") == Some(id) || (Attr(n, "ID") == None && Attr(n, "AssertionID") == Some(id)))
  }

  /** A verified reference names the element by its identifier. */
  ghost predicate NamedById(outcomes: seq<CertificateOutcome>, n: Node) {
    exists reference :: Referred(outcomes, reference) && SpellsIdOf(reference.uri, n)
  }

  /** A verified reference names the whole document. */
  ghost predicate NamedWhole(outcomes: seq<CertificateOutcome>) {
    exists reference :: Referred(outcomes, reference) && (reference.uri == "" || reference.uri == "#xpointer(/)")
  }

  lemma ReferenceSupplies(references: seq<Reference>, k: nat)
    requires Targets(references).Ok? && k < |references|
    ensures TargetOf(references[k].uri).Ok? && references[k].digestVerified
    ensures TargetOf(references[k].uri).value in Targets(references).value
  {
    hide TargetOf;
    TargetsAreSound(references);
    assert Targets(references).value[k] in Targets(references).value;
  }

  lemma SuppliedBy(references: seq<Reference>, t: Target) returns (k: nat)
    requires Targets(references).Ok? && t in Targets(references).value
    ensures k < |references| && references[k].digestVerified && TargetOf(references[k].uri) == Ok(t)
  {
    hide TargetOf;
    TargetsAreSound(references);
    k :| 0 <= k < |references| && Targets(references).value[k] == t;
  }

  /** A target was supplied exactly when a verified reference has it. */
  lemma SuppliedExactlyWhen(outcomes: seq<CertificateOutcome>, t: Target)
    requires AllTargeted(AllResults(outcomes))
    ensures Supplied(AllResults(outcomes), t)
       <==> exists reference :: Referred(outcomes, reference) && TargetOf(reference.uri) == Ok(t)
  {
    hide TargetOf, AllResults, Targets;
    if Supplied(AllResults(outcomes), t) {
      var r :| r in AllResults(outcomes) && Supplies(r, t);
      ResultsComeFrom(outcomes, r);
      var k := SuppliedBy(r.references, t);
      assert Referred(outcomes, r.references[k]);
    }
    if exists reference :: Referred(outcomes, reference) && TargetOf(reference.uri) == Ok(t) {
      var reference :| Referred(outcomes, reference) && TargetOf(reference.uri) == Ok(t);
      var o, r :| o in outcomes && o.Results? && r in o.results && r.Valid? && reference in r.references;
      ResultsComeFrom(outcomes, r);
      assert Targeted(r);
      var k :| 0 <= k < |r.references| && r.references[k] == reference;
      ReferenceSupplies(r.references, k);
      assert Supplies(r, t);
    }
  }

  lemma WholeExactlyWhen(outcomes: seq<CertificateOutcome>, targets: seq<Target>)
    requires TargetsAddUp(targets, AllResults(outcomes)) && AllTargeted(AllResults(outcomes))
    ensures WholeDocument in targets <==> NamedWhole(outcomes)
  {
    hide TargetOf, AllResults, AllTargeted, Referred;
    SuppliedExactlyWhen(outcomes, WholeDocument);
    forall uri ensures TargetOf(uri) == Ok(WholeDocument) <==> uri == "" || uri == "#xpointer(/)" {
      UrisAndTargets(uri, "");
    }
  }

  lemma ByIdExactlyWhen(outcomes: seq<CertificateOutcome>, targets: seq<Target>, n: Node)
    requires TargetsAddUp(targets, AllResults(outcomes)) && AllTargeted(AllResults(outcomes))
    ensures IdTargetMatches(targets, n) <==> NamedById(outcomes, n)
  {
    hide TargetOf, AllResults, AllTargeted, Referred, Attr, Spells;
    if IdTargetMatches(targets, n) {
      var i :| 0 <= i < |targets| && targets[i].Id? && IsTargetOf(targets[i], n);
      assert targets[i] in targets;
      SuppliedExactlyWhen(outcomes, targets[i]);
      var reference :| Referred(outcomes, reference) && TargetOf(reference.uri) == Ok(targets[i]);
      UrisAndTargets(reference.uri, targets[i].id);
      assert SpellsIdOf(reference.uri, n);
    }
    if NamedById(outcomes, n) {
      var reference :| Referred(outcomes, reference) && SpellsIdOf(reference.uri, n);
      var id :| Spells(reference.uri, id) && SamlId(n) == Some(id);
      UrisAndTargets(reference.uri, id);
      SuppliedExactlyWhen(outcomes, Id(id));
      assert Id(id) in targets;
      var i :| 0 <= i < |targets| && targets[i] == Id(id);
      assert IsTargetOf(targets[i], n);
    }
  }

  lemma MatchesExactlyWhen(outcomes: seq<CertificateOutcome>, targets: seq<Target>, n: Node)
    requires TargetsAddUp(targets, AllResults(outcomes)) && AllTargeted(AllResults(outcomes))
    ensures TargetMatches(targets, n) <==> NamedWhole(outcomes) || NamedById(outcomes, n)
  {
    hide AllResults, AllTargeted, TargetsAddUp, NamedWhole, NamedById, SamlId;
    WholeExactlyWhen(outcomes, targets);
    ByIdExactlyWhen(outcomes, targets, n);
    if TargetMatches(targets, n) {
      var i :| 0 <= i < |targets| && IsTargetOf(targets[i], n);
      assert targets[i].WholeDocument? ==> targets[i] in targets;
    }
    if WholeDocument in targets {
      var i :| 0 <= i < |targets| && targets[i] == WholeDocument;
      assert IsTargetOf(targets[i], n);
    }
  }

  /** The document element or the whole document is named. */
  ghost predicate NamedRoot(root: Node, outcomes: seq<CertificateOutcome>) {
    NamedWhole(outcomes) || NamedById(outcomes, root)
  }

  ghost predicate EveryAssertionNamed(root: Node, outcomes: seq<CertificateOutcome>) {
    forall n :: n in root.children && n.local == "Assertion" ==> NamedById(outcomes, n)
  }

  // The content.

  ghost predicate NamedResponse(root: Node) {
    exists before, after :: root.local == before + "Response" + after
  }

  ghost predicate HasElement(root: Node, name: string) { exists n :: n in root.children && n.local == name }

  /** A response with assertions, which are what is returned of it. */
  ghost predicate HoldsAssertions(root: Node) {
    root.local != "Assertion" && NamedResponse(root) && HasElement(root, "Assertion")
  }

  /** A document that is returned as a whole. */
  ghost predicate ReturnedWhole(root: Node) {
    || root.local == "Assertion"
    || (!HoldsAssertions(root)
        && ((NamedResponse(root) && HasElement(root, "EncryptedAssertion"))
            || root.local in {"EntityDescriptor", "EntitiesDescriptor"}
            || root.local in {"AuthnRequest", "LogoutRequest", "LogoutResponse"}))
  }

  ghost predicate ConfirmsBearer(n: Node) {
    n.local == "Assertion" && exists subject, confirmation ::
      subject in n.children && subject.local == "Subject" && confirmation in subject.children
      && confirmation.local == "SubjectConfirmation"
      && Attr(confirmation, "Method") == Some("urn:oasis:names:tc:SAML:2.0:cm:bearer")
  }

  /** No assertion before the `i`-th child. */
  ghost predicate Leads(root: Node, i: nat)
    requires i < |root.children|
  {
    forall k :: 0 <= k < i ==> root.children[k].local != "Assertion"
  }

  /** The `i`-th child is the first assertion that a bearer may present, or the first assertion if there is none. */
  ghost predicate FirstUsable(root: Node, i: nat) {
    && i < |root.children| && root.children[i].local == "Assertion"
    && (if ConfirmsBearer(root.children[i]) then forall k :: 0 <= k < i ==> !ConfirmsBearer(root.children[k])
        else (forall n :: n in root.children ==> !ConfirmsBearer(n)) && Leads(root, i))
  }

  lemma BearerExactlyWhen(n: Node)
    ensures ConfirmsBearer(n) <==> n.local == "Assertion" && HasBearer(n)
  {
    hide Attr;
    if HasBearer(n) {
      var i :| 0 <= i < |n.children| && SubjectIsBearer(n.children[i]);
      var j :| 0 <= j < |n.children[i].children| && IsBearer(n.children[i].children[j]);
      assert n.children[i] in n.children && n.children[i].children[j] in n.children[i].children;
    }
    forall subject, confirmation | subject in n.children && subject.local == "Subject"
        && confirmation in subject.children && confirmation.local == "SubjectConfirmation"
        && Attr(confirmation, "Method") == Some("urn:oasis:names:tc:SAML:2.0:cm:bearer")
      ensures HasBearer(n)
    {
      var j :| 0 <= j < |subject.children| && subject.children[j] == confirmation;
      assert IsBearer(subject.children[j]);
      var i :| 0 <= i < |n.children| && n.children[i] == subject;
      assert SubjectIsBearer(n.children[i]);
    }
  }

  lemma ChosenIsUsable(root: Node) returns (i: nat)
    requires Assertions(root) != []
    ensures FirstUsable(root, i) && root.children[i] == Chosen(Assertions(root))
  {
    hide Named, HasBearer, ConfirmsBearer;
    var assertions := Assertions(root);
    var k := ChosenIsFirst(assertions);
    i := NamedAround(root.children, "Assertion", k);
    forall n ensures ConfirmsBearer(n) <==> n.local == "Assertion" && HasBearer(n) {
      BearerExactlyWhen(n);
    }
    forall n | n in root.children && n.local == "Assertion" ensures n in assertions {
      NamedHas(root.children, "Assertion", n);
    }
  }

  /** What a verified result says: which parts verified references name, and what is returned. */
  ghost predicate Explained(root: Node, outcomes: seq<CertificateOutcome>, v: Verification) {
    && (v.responseCovered <==> NamedResponse(root) && NamedRoot(root, outcomes))
    && (v.assertionCovered <==>
          if root.local == "Assertion" then NamedRoot(root, outcomes)
          else HoldsAssertions(root) && EveryAssertionNamed(root, outcomes))
    && (ReturnedWhole(root) ==> NamedRoot(root, outcomes) && v.content == Some(root))
    && (HoldsAssertions(root) ==>
          && (NamedRoot(root, outcomes) || EveryAssertionNamed(root, outcomes))
          && exists i: nat :: FirstUsable(root, i) && v.content == Some(root.children[i]))
    && (!ReturnedWhole(root) && !HoldsAssertions(root) ==> v.content == None)
  }

  lemma HasNamed(root: Node, name: string)
    ensures ChildrenNamed(root, name) != [] <==> HasElement(root, name)
  {
    if ChildrenNamed(root, name) != [] {
      NamedAre(root.children, name, 0);
    }
    forall n | n in root.children && n.local == name ensures ChildrenNamed(root, name) != [] {
      NamedHas(root.children, name, n);
    }
  }

  lemma EveryNamed(root: Node, outcomes: seq<CertificateOutcome>, targets: seq<Target>)
    requires TargetsAddUp(targets, AllResults(outcomes)) && AllTargeted(AllResults(outcomes))
    ensures AllByOwnId(Assertions(root), targets) <==> EveryAssertionNamed(root, outcomes)
  {
    hide AllResults, AllTargeted, TargetsAddUp, NamedById, IdTargetMatches;
    forall n ensures IdTargetMatches(targets, n) <==> NamedById(outcomes, n) {
      ByIdExactlyWhen(outcomes, targets, n);
    }
    forall i: nat | i < |Assertions(root)|
      ensures Assertions(root)[i] in root.children && Assertions(root)[i].local == "Assertion"
    {
      NamedAre(root.children, "Assertion", i);
    }
    forall n | n in root.children && n.local == "Assertion" ensures n in Assertions(root) {
      NamedHas(root.children, "Assertion", n);
    }
  }

  lemma ResponseName(root: Node)
    ensures Contains(root.local, "Response") <==> NamedResponse(root)
  {
    ContainsExactlyWhen(root.local, "Response");
  }

  /** The content and its coverage, by elements and references. */
  lemma ContentExplained(root: Node, outcomes: seq<CertificateOutcome>, targets: seq<Target>, v: Verification)
    requires TargetsAddUp(targets, AllResults(outcomes)) && AllTargeted(AllResults(outcomes))
    requires Content(root, targets) == Ok(v.content)
    requires v.responseCovered == ResponseCovered(root, targets)
    requires v.assertionCovered == AssertionDirectlyCovered(root, targets)
    ensures Explained(root, outcomes, v)
  {
    hide TargetsAddUp, AllResults, AllTargeted, NamedWhole, NamedById, NamedResponse, HasElement, Contains, Chosen,
      AllByOwnId, EveryAssertionNamed, ChildrenNamed, FirstUsable, TargetMatches;
    MatchesExactlyWhen(outcomes, targets, root);
    EveryNamed(root, outcomes, targets);
    HasNamed(root, "Assertion");
    HasNamed(root, "EncryptedAssertion");
    ResponseName(root);
    if Assertions(root) != [] {
      var i := ChosenIsUsable(root);
    }
  }

  /** Every verified result is explained. */
  lemma VerifiedIsExplained(root: Node, outcomes: seq<CertificateOutcome>, examine: Examination)
    requires Verdict(root, outcomes, examine).Ok? && Verdict(root, outcomes, examine).value.verified
    ensures Explained(root, outcomes, Verdict(root, outcomes, examine).value)
  {
    hide PassAll, Content, AssertionDirectlyCovered, ResponseCovered, Sorted, EvidenceOf, TargetsAddUp, NodesAddUp,
      Explained, AllTargeted;
    StartAddsUp();
    PassAllAddsUp(START, [], outcomes, examine);
    assert [] + outcomes == outcomes;
    var targets := PassAll(START, outcomes, examine).value.gathered.targets;
    ContentExplained(root, outcomes, targets, Verdict(root, outcomes, examine).value);
  }

  ghost predicate TwoAssertions(root: Node) {
    exists i, j :: 0 <= i < j < |root.children| && root.children[i].local == root.children[j].local == "Assertion"
  }

  lemma {:induction false} SomeNamed(ns: seq<Node>, name: string)
    ensures Named(ns, name) != [] <==> exists i :: 0 <= i < |ns| && ns[i].local == name
  {
    if Named(ns, name) != [] {
      NamedAre(ns, name, 0);
    }
    forall i | 0 <= i < |ns| && ns[i].local == name ensures Named(ns, name) != [] {
      NamedHas(ns, name, ns[i]);
    }
  }

  lemma {:induction false} SeveralNamed(ns: seq<Node>, name: string)
    ensures |Named(ns, name)| > 1 <==> exists i, j :: 0 <= i < j < |ns| && ns[i].local == ns[j].local == name
  {
    if ns != [] {
      var rest := ns[1..];
      SeveralNamed(rest, name);
      SomeNamed(rest, name);
      if exists i, j :: 0 <= i < j < |rest| && rest[i].local == rest[j].local == name {
        var i, j :| 0 <= i < j < |rest| && rest[i].local == rest[j].local == name;
        assert ns[i + 1] == rest[i] && ns[j + 1] == rest[j];
      }
      if ns[0].local == name && exists i :: 0 <= i < |rest| && rest[i].local == name {
        var i :| 0 <= i < |rest| && rest[i].local == name;
        assert ns[i + 1] == rest[i];
      }
      forall i, j | 0 <= i < j < |ns| && ns[i].local == ns[j].local == name ensures |Named(ns, name)| > 1 {
        assert ns[j] == rest[j - 1];
        assert i > 0 ==> ns[i] == rest[i - 1];
      }
    }
  }

  /** Content is refused exactly when what would be returned is not named; with several assertions that is
      reported as a wrapping attack. */
  lemma RefusedExactlyWhen(root: Node, outcomes: seq<CertificateOutcome>, targets: seq<Target>)
    requires TargetsAddUp(targets, AllResults(outcomes)) && AllTargeted(AllResults(outcomes))
    ensures Content(root, targets).Err? <==>
              !NamedRoot(root, outcomes)
              && (ReturnedWhole(root) || (HoldsAssertions(root) && !EveryAssertionNamed(root, outcomes)))
    ensures Content(root, targets) == Err(PotentialWrapping) <==>
              !NamedRoot(root, outcomes) && HoldsAssertions(root) && !EveryAssertionNamed(root, outcomes)
              && TwoAssertions(root)
  {
    hide TargetsAddUp, AllResults, AllTargeted, NamedWhole, NamedById, NamedResponse, HasElement, Contains, Chosen,
      AllByOwnId, EveryAssertionNamed, Named, TargetMatches;
    MatchesExactlyWhen(outcomes, targets, root);
    EveryNamed(root, outcomes, targets);
    HasNamed(root, "Assertion");
    HasNamed(root, "EncryptedAssertion");
    ResponseName(root);
    SeveralNamed(root.children, "Assertion");
  }
}
