/** Verifying a document's signatures from the guards to the verdict. */
module SignatureGuards {
  import opened Text
  import opened Dom
  import opened SamlIds
  import opened Coverage
  import opened SignatureVerdict
  import opened SignatureOrder
  import opened SignatureReferences
  import opened SignatureProfile

  predicate HasDescendant(ns: seq<Node>) {
    ns != [] && (ns[0].local == "Assertion" || ns[0].local == "Signature" || HasDescendant(ns[0].children) ||
                 HasDescendant(ns[1..]))
  }

  /** The elements three levels of named children below. */
  function Below(ns: seq<Node>, name: string): seq<Node> {
    if ns == [] then [] else ChildrenNamed(ns[0], name) + Below(ns[1..], name)
  }

  /** `wrapping_detected`. */
  predicate WrappingDetected(root: Node) {
    var subjects := Below(ChildrenNamed(root, "Assertion"), "Subject");
    AnyHasDescendant(Below(Below(subjects, "SubjectConfirmation"), "SubjectConfirmationData"))
  }

  predicate AnyHasDescendant(ns: seq<Node>) {
    ns != [] && (HasDescendant(ns[0].children) || AnyHasDescendant(ns[1..]))
  }

  ghost predicate PathTo(root: Node, assertion: Node, subject: Node, confirmation: Node, data: Node, n: Node) {
    && assertion in root.children && assertion.local == "Assertion"
    && subject in assertion.children && subject.local == "Subject"
    && confirmation in subject.children && confirmation.local == "SubjectConfirmation"
    && data in confirmation.children && data.local == "SubjectConfirmationData"
    && n in AllNodes(data.children) && (n.local == "Assertion" || n.local == "Signature")
  }

  /** An Assertion or a Signature somewhere below the confirmation data of an assertion's subject. */
  ghost predicate Smuggles(root: Node) {
    exists assertion, subject, confirmation, data, n :: PathTo(root, assertion, subject, confirmation, data, n)
  }

  predicate IsSmuggled(n: Node) { n.local == "Assertion" || n.local == "Signature" }

  lemma {:induction false} DescendantExactlyWhen(ns: seq<Node>)
    ensures HasDescendant(ns) <==> exists n :: n in AllNodes(ns) && IsSmuggled(n)
  {
    if ns != [] {
      var first, rest := ns[0], ns[1..];
      DescendantExactlyWhen(first.children);
      DescendantExactlyWhen(rest);
      var mine, below, others := [first], AllNodes(first.children), AllNodes(rest);
      assert AllNodes(ns) == mine + below + others by {
        Regroup(mine, below, others);
      }
      assert forall n :: n in AllNodes(ns) <==> n == first || n in below || n in others;
      assert HasDescendant(ns) <==> IsSmuggled(first) || HasDescendant(first.children) || HasDescendant(rest);
    }
  }

  lemma {:induction false} BelowExactlyWhen(ns: seq<Node>, name: string, n: Node)
    ensures n in Below(ns, name) <==> n.local == name && exists m :: m in ns && n in m.children
  {
    if ns != [] {
      var first, rest := ns[0], ns[1..];
      BelowExactlyWhen(rest, name, n);
      NamedExactlyWhen(first.children, name, n);
      assert forall m :: m in ns <==> m == first || m in rest;
    }
  }

  lemma NamedExactlyWhen(ns: seq<Node>, name: string, n: Node)
    ensures n in Named(ns, name) <==> n in ns && n.local == name
  {
    if n in Named(ns, name) {
      var i :| 0 <= i < |Named(ns, name)| && Named(ns, name)[i] == n;
      NamedAre(ns, name, i);
    }
    if n in ns && n.local == name {
      NamedHas(ns, name, n);
    }
  }

  lemma {:induction false} AnyDescendantExactlyWhen(ns: seq<Node>)
    ensures AnyHasDescendant(ns) <==> exists m :: m in ns && HasDescendant(m.children)
  {
    if ns != [] {
      AnyDescendantExactlyWhen(ns[1..]);
      assert forall m :: m in ns <==> m == ns[0] || m in ns[1..];
    }
  }

  /** The guard finds every Assertion and Signature below the confirmation data, however deep. */
  lemma WrappingExactlyWhen(root: Node)
    ensures WrappingDetected(root) <==> Smuggles(root)
  {
    hide HasDescendant, AllNodes, Named, Below, AnyHasDescendant;
    var assertions := Named(root.children, "Assertion");
    var subjects := Below(assertions, "Subject");
    var confirmations := Below(subjects, "SubjectConfirmation");
    var datas := Below(confirmations, "SubjectConfirmationData");
    AnyDescendantExactlyWhen(datas);
    if WrappingDetected(root) {
      var data :| data in datas && HasDescendant(data.children);
      DescendantExactlyWhen(data.children);
      var n :| n in AllNodes(data.children) && IsSmuggled(n);
      BelowExactlyWhen(confirmations, "SubjectConfirmationData", data);
      var confirmation :| confirmation in confirmations && data in confirmation.children;
      BelowExactlyWhen(subjects, "SubjectConfirmation", confirmation);
      var subject :| subject in subjects && confirmation in subject.children;
      BelowExactlyWhen(assertions, "Subject", subject);
      var assertion :| assertion in assertions && subject in assertion.children;
      NamedExactlyWhen(root.children, "Assertion", assertion);
      assert PathTo(root, assertion, subject, confirmation, data, n);
    }
    if Smuggles(root) {
      var assertion, subject, confirmation, data, n :| PathTo(root, assertion, subject, confirmation, data, n);
      NamedExactlyWhen(root.children, "Assertion", assertion);
      BelowExactlyWhen(assertions, "Subject", subject);
      BelowExactlyWhen(subjects, "SubjectConfirmation", confirmation);
      BelowExactlyWhen(confirmations, "SubjectConfirmationData", data);
      DescendantExactlyWhen(data.children);
      assert data in datas && IsSmuggled(n);
    }
  }

  /** `saml_signature_candidates`. */
  function Candidates(root: Node): seq<Node> {
    ChildrenNamed(root, "Signature") + Below(ChildrenNamed(root, "Assertion"), "Signature")
  }

  function UriOf(reference: Node): string {
    match Attr(reference, "URI") case Some(uri) => uri case None => ""
  }

  function FirstBadUri(references: seq<Node>): Option<ReferenceError> {
    if references == [] then None
    else
      match TargetOf(UriOf(references[0]))
      case Err(e) => Some(e)
      case Ok(_) => FirstBadUri(references[1..])
  }

  /** `preflight_saml_reference_uris`. */
  function BadUri(signatures: seq<Node>): Option<ReferenceError> {
    FirstBadUri(Below(Below(signatures, "SignedInfo"), "Reference"))
  }

  // The certificate a sender put into the message.

  /** `descendant_cert`: the first certificate text at or below the elements, in document order. */
  function FirstCertificate(ns: seq<Node>): Option<string> {
    if ns == [] then None
    else if ns[0].local == "X509Certificate" && ns[0].text != "" then Some(ns[0].text)
    else
      match FirstCertificate(ns[0].children)
      case Some(text) => Some(text)
      case None => FirstCertificate(ns[1..])
  }

  /** The signatures that are looked at: those of the document element and of its assertions. */
  lemma CandidateExactlyWhen(root: Node, n: Node)
    ensures n in Candidates(root) <==>
              n.local == "Signature"
              && (n in root.children || exists a :: a in root.children && a.local == "Assertion" && n in a.children)
  {
    hide Named, Below;
    NamedExactlyWhen(root.children, "Signature", n);
    BelowExactlyWhen(ChildrenNamed(root, "Assertion"), "Signature", n);
    forall a ensures a in ChildrenNamed(root, "Assertion") <==> a in root.children && a.local == "Assertion" {
      NamedExactlyWhen(root.children, "Assertion", a);
    }
  }

  /** The URI names the whole document or spells an identifier. */
  ghost predicate Permitted(uri: string) { uri == "" || uri == "#xpointer(/)" || exists id :: Spells(uri, id) }

  lemma PermittedExactlyWhen(uri: string)
    ensures TargetOf(uri).Ok? <==> Permitted(uri)
  {
    hide TargetOf, Spells;
    UrisAndTargets(uri, "");
  }

  lemma {:induction false} FirstBadUriNone(references: seq<Node>)
    ensures FirstBadUri(references) == None <==>
            forall reference :: reference in references ==> Permitted(UriOf(reference))
  {
    if references != [] {
      hide TargetOf, Permitted, UriOf;
      PermittedExactlyWhen(UriOf(references[0]));
      FirstBadUriNone(references[1..]);
      assert forall n :: n in references <==> n == references[0] || n in references[1..];
    }
  }

  ghost predicate Refers(s: Node, info: Node, reference: Node) {
    info in s.children && info.local == "SignedInfo" && reference in info.children && reference.local == "Reference"
  }

  /** The URI that the element gives, or the empty one if it gives none. */
  ghost predicate IsUriOf(uri: string, reference: Node) {
    Attr(reference, "URI") == Some(uri) || (Attr(reference, "URI") == None && uri == "")
  }

  /** Every reference of the signatures is looked at, and one without a URI is one to the whole document. */
  lemma BadUriNone(signatures: seq<Node>)
    ensures BadUri(signatures) == None <==>
            forall s, info, reference, uri ::
              s in signatures && Refers(s, info, reference) && IsUriOf(uri, reference) ==> Permitted(uri)
  {
    hide Below, FirstBadUri, Permitted, Attr;
    var infos := Below(signatures, "SignedInfo");
    var references := Below(infos, "Reference");
    FirstBadUriNone(references);
    if BadUri(signatures) == None {
      forall s, info, reference | s in signatures && Refers(s, info, reference) ensures Permitted(UriOf(reference)) {
        BelowExactlyWhen(signatures, "SignedInfo", info);
        BelowExactlyWhen(infos, "Reference", reference);
      }
    } else {
      var reference :| reference in references && !Permitted(UriOf(reference));
      BelowExactlyWhen(infos, "Reference", reference);
      var info :| info in infos && reference in info.children;
      BelowExactlyWhen(signatures, "SignedInfo", info);
      var s :| s in signatures && info in s.children;
      assert Refers(s, info, reference);
    }
  }

  predicate HoldsCertificate(n: Node) { n.local == "X509Certificate" && n.text != "" }

  /** The inline certificate is that of the first X509Certificate with text at or below the elements. */
  lemma {:induction false} FirstCertificateIs(ns: seq<Node>)
    ensures match FirstCertificate(ns)
            case None => forall n :: n in AllNodes(ns) ==> !HoldsCertificate(n)
            case Some(text) =>
              exists i :: 0 <= i < |AllNodes(ns)| && HoldsCertificate(AllNodes(ns)[i]) && text == AllNodes(ns)[i].text
                && forall k :: 0 <= k < i ==> !HoldsCertificate(AllNodes(ns)[k])
  {
    if ns != [] {
      var first, rest := ns[0], ns[1..];
      FirstCertificateIs(first.children);
      FirstCertificateIs(rest);
      var below, others := AllNodes(first.children), AllNodes(rest);
      Regroup([first], below, others);
      var all := [first] + (below + others);
      assert AllNodes(ns) == all;
      if HoldsCertificate(first) {
        assert all[0] == first;
      } else if FirstCertificate(first.children).Some? {
        var i :| 0 <= i < |below| && HoldsCertificate(below[i])
          && FirstCertificate(first.children) == Some(below[i].text)
          && forall k :: 0 <= k < i ==> !HoldsCertificate(below[k]);
        assert all[i + 1] == below[i];
        assert forall k :: 0 < k < i + 1 ==> all[k] == below[k - 1];
      } else if FirstCertificate(rest).Some? {
        var i :| 0 <= i < |others| && HoldsCertificate(others[i]) && FirstCertificate(rest) == Some(others[i].text)
          && forall k :: 0 <= k < i ==> !HoldsCertificate(others[k]);
        var at := 1 + |below| + i;
        assert all[at] == others[i];
        forall k | 0 <= k < at ensures !HoldsCertificate(all[k]) {
          assert all[k] in [first] || all[k] in below || all[k] == others[k - 1 - |below|];
        }
      } else {
        assert forall n :: n in all <==> n == first || n in below || n in others;
      }
    }
  }

  /** A pinned certificate: its text, and what it makes of the document. */
  datatype Pinned = Pinned(text: string, outcome: CertificateOutcome)

  function OutcomesOf(pinned: seq<Pinned>): seq<CertificateOutcome> {
    if pinned == [] then [] else [pinned[0].outcome] + OutcomesOf(pinned[1..])
  }

  predicate IsPinned(text: string, pinned: seq<Pinned>, normalize: string -> string) {
    exists i :: 0 <= i < |pinned| && normalize(pinned[i].text) == normalize(text)
  }

  /** The message holds a certificate and there are pinned ones, but it is none of them. */
  predicate InlineMismatch(root: Node, pinned: seq<Pinned>, normalize: string -> string) {
    var inline := FirstCertificate(Candidates(root));
    inline.Some? && pinned != [] && !IsPinned(inline.value, pinned, normalize)
  }

  predicate Guarded(root: Node) {
    !(Contains(root.local, "Response") && WrappingDetected(root)) && Repeat(Ids(root), {}) == None
  }

  /** The specification of `verify_signatures_detailed_with_profile` on a parsed document. */
  function Verified(root: Node, inlineMismatch: bool, outcomes: seq<CertificateOutcome>, examine: Examination)
    : Result<Verification, VerdictError>
  {
    if !Guarded(root) then Err(Wrapping)
    else if Candidates(root) == [] then Ok(UNVERIFIED)
    else
      match BadUri(Candidates(root))
      case Some(e) => Err(BadReference(e))
      case None => if inlineMismatch then Err(CertificateMismatch) else Verdict(root, outcomes, examine)
  }

  /** The whole of it for a list of pinned certificates, with or without the strict profile. */
  function VerifiedBy(root: Node, pinned: seq<Pinned>, normalize: string -> string, view: View, strict: bool)
    : Result<Verification, VerdictError>
  {
    Verified(root, InlineMismatch(root, pinned, normalize), OutcomesOf(pinned), Examiner(root, view, strict))
  }

  /** The comparison of the inline certificate with the pinned ones. */
  method CheckInline(root: Node, pinned: seq<Pinned>, normalize: string -> string) returns (mismatch: bool)
    ensures mismatch == InlineMismatch(root, pinned, normalize)
    ensures mismatch <==>
              && FirstCertificate(Candidates(root)).Some? && |pinned| > 0
              && forall i :: 0 <= i < |pinned| ==>
                   normalize(pinned[i].text) != normalize(FirstCertificate(Candidates(root)).value)
  {
    var inline := FirstCertificate(Candidates(root));
    if inline.None? || pinned == [] {
      return false;
    }
    var wanted := normalize(inline.value);
    for i := 0 to |pinned|
      invariant forall k :: 0 <= k < i ==> normalize(pinned[k].text) != wanted
    {
      if normalize(pinned[i].text) == wanted {
        return false;
      }
    }
    mismatch := true;
  }

  /** `verify_signatures_detailed_with_profile`. A document that passes has no repeated identifier; a verdict of
      verified means that the first signature verified under some pinned certificate, that an inline
      certificate was a pinned one, and that what is returned is covered by what verified signatures name. */
  method VerifySignatures(root: Node, pinned: seq<Pinned>, normalize: string -> string, view: View, strict: bool)
    returns (r: Result<Verification, VerdictError>)
    ensures r == VerifiedBy(root, pinned, normalize, view, strict)
    ensures NamedResponse(root) && Smuggles(root) ==> r == Err(Wrapping)
    ensures !Distinct(Ids(root)) ==> r == Err(Wrapping)
    ensures r.Ok? && r.value.verified ==> Explained(root, OutcomesOf(pinned), r.value)
    ensures r.Ok? && r.value.verified ==>
              && Candidates(root) != [] && AnyStartsValid(OutcomesOf(pinned))
              && (forall text :: FirstCertificate(Candidates(root)) == Some(text) ==>
                    pinned == [] || exists i :: 0 <= i < |pinned| && normalize(pinned[i].text) == normalize(text))
              && exists targets: seq<Target> :: TargetsAddUp(targets, AllResults(OutcomesOf(pinned)))
                   && Content(root, targets) == Ok(r.value.content)
  {
    hide WrappingDetected, Candidates, BadUri, Verdict, Contains, InlineMismatch, OutcomesOf, Content, TargetsAddUp,
      Examiner, Explained, Smuggles, NamedResponse;
    PassesExactlyDistinct(root);
    WrappingExactlyWhen(root);
    ResponseName(root);
    if Contains(root.local, "Response") && WrappingDetected(root) {
      return Err(Wrapping);
    }
    var scan := new IdScan();
    var duplicate := scan.Visit(root);
    if duplicate.Some? {
      return Err(Wrapping);
    }
    var candidates := Candidates(root);
    if candidates == [] {
      return Ok(UNVERIFIED);
    }
    var bad := BadUri(candidates);
    if bad.Some? {
      return Err(BadReference(bad.value));
    }
    var mismatch := CheckInline(root, pinned, normalize);
    if mismatch {
      return Err(CertificateMismatch);
    }
    var outcomes := OutcomesOf(pinned);
    r := TryCertificates(root, outcomes, Examiner(root, view, strict));
    if r.Ok? {
      VerifiedMeansFirstVerified(root, outcomes, Examiner(root, view, strict));
    }
    if r.Ok? && r.value.verified {
      VerifiedIsExplained(root, outcomes, Examiner(root, view, strict));
    }
  }

  lemma SuppliedIdsAreNotEmpty(targets: seq<Target>, results: seq<SignatureResult>)
    requires TargetsAddUp(targets, results)
    ensures NoEmptyId(targets)
  {
    forall i | 0 <= i < |targets| && targets[i].Id? ensures targets[i].id != "" {
      assert Supplied(results, targets[i]);
      var r :| r in results && Supplies(r, targets[i]);
      TargetsAreSound(r.references);
    }
  }

  /** Whatever a verified result returns was designated by references of verified signatures: it is
      the root or a direct assertion, it or the root around it is named by a reference, and a name
      leaves no choice of element. The first signature verified under some certificate. */
  lemma VerifiedContentIsDesignated(root: Node, inlineMismatch: bool, outcomes: seq<CertificateOutcome>,
                                    examine: Examination)
    requires var r := Verified(root, inlineMismatch, outcomes, examine);
             r.Ok? && r.value.verified && r.value.content.Some?
    ensures AnyStartsValid(outcomes) && Distinct(Ids(root))
    ensures var n := Verified(root, inlineMismatch, outcomes, examine).value.content.value;
            && (n == root || (n in root.children && n.local == "Assertion"))
            && exists targets: seq<Target> :: TargetsAddUp(targets, AllResults(outcomes))
                 && (Designated(root, root, targets) || Designated(root, n, targets))
  {
    hide Verdict, Content, Designated, WrappingDetected, TargetsAddUp, NoEmptyId;
    PassesExactlyDistinct(root);
    VerifiedMeansFirstVerified(root, outcomes, examine);
    var content := Verified(root, inlineMismatch, outcomes, examine).value.content;
    var targets: seq<Target> :| TargetsAddUp(targets, AllResults(outcomes)) && Content(root, targets) == Ok(content);
    SuppliedIdsAreNotEmpty(targets, AllResults(outcomes));
    ReturnedContentIsCovered(root, targets);
  }

  /** The same loadable certificates with the same outcomes, and the same certificate texts. */
  ghost predicate SamePinned(a: seq<Pinned>, b: seq<Pinned>, normalize: string -> string) {
    && SameOutcomes(OutcomesOf(a), OutcomesOf(b))
    && (a == [] <==> b == [])
    && forall text :: IsPinned(text, a, normalize) <==> IsPinned(text, b, normalize)
  }

  lemma SameMismatch(root: Node, a: seq<Pinned>, b: seq<Pinned>, normalize: string -> string)
    requires SamePinned(a, b, normalize)
    ensures InlineMismatch(root, a, normalize) <==> InlineMismatch(root, b, normalize)
  {
    hide Candidates, FirstCertificate, IsPinned, SameOutcomes, OutcomesOf;
    var inline := FirstCertificate(Candidates(root));
    if inline.Some? {
      assert IsPinned(inline.value, a, normalize) <==> IsPinned(inline.value, b, normalize);
    }
  }

  /** The result does not depend on the order or number of the pinned certificates. */
  lemma WholeVerdictIgnoresOrder(root: Node, a: seq<Pinned>, b: seq<Pinned>, normalize: string -> string, view: View,
                                 strict: bool, refs: References)
    requires SamePinned(a, b, normalize) && Consistent(AllResults(OutcomesOf(a)), refs)
    ensures var r, q := VerifiedBy(root, a, normalize, view, strict), VerifiedBy(root, b, normalize, view, strict);
            (r.Ok? <==> q.Ok?) && (r.Ok? ==> r == q)
  {
    hide Verdict, Guarded, Candidates, BadUri, SameOutcomes, IsPinned, Examiner, Consistent, OutcomesOf, InlineMismatch;
    CertificateOrderDoesNotMatter(root, OutcomesOf(a), OutcomesOf(b), Examiner(root, view, strict), refs);
    SameMismatch(root, a, b, normalize);
  }

  lemma {:induction false} OutcomesConcat(a: seq<Pinned>, b: seq<Pinned>)
    ensures OutcomesOf(a + b) == OutcomesOf(a) + OutcomesOf(b)
  {
    if a == [] {
      assert a + b == b;
    } else {
      OutcomesConcat(a[1..], b);
      assert (a + b)[0] == a[0] && (a + b)[1..] == a[1..] + b;
      Regroup([a[0].outcome], OutcomesOf(a[1..]), OutcomesOf(b));
    }
  }

  lemma PinnedAmong(text: string, a: seq<Pinned>, c: Pinned, b: seq<Pinned>, normalize: string -> string)
    ensures IsPinned(text, a + [c] + b, normalize)
       <==> IsPinned(text, a + b, normalize) || normalize(c.text) == normalize(text)
  {
    var with, without := a + [c] + b, a + b;
    assert with[|a|] == c;
    if IsPinned(text, without, normalize) {
      var i :| 0 <= i < |without| && normalize(without[i].text) == normalize(text);
      assert with[if i < |a| then i else i + 1] == without[i];
    }
    if IsPinned(text, with, normalize) && normalize(c.text) != normalize(text) {
      var i :| 0 <= i < |with| && normalize(with[i].text) == normalize(text);
      assert without[if i < |a| then i else i - 1] == with[i];
    }
  }

  /** A pinned certificate that cannot be loaded never turns a result into an error, nor into another result.
      It can let a message pass that holds it as its certificate: without it that is a mismatch. */
  lemma UnloadableNeverHurts(root: Node, a: seq<Pinned>, b: seq<Pinned>, text: string, reason: string,
                             normalize: string -> string, view: View, strict: bool)
    ensures var c := Pinned(text, LoadFailed(reason));
            var with := VerifiedBy(root, a + [c] + b, normalize, view, strict);
            var without := VerifiedBy(root, a + b, normalize, view, strict);
            && (without.Ok? ==> with == without)
            && (with.Ok? ==> with == without || without == Err(CertificateMismatch))
  {
    hide Verdict, Guarded, Candidates, BadUri, IsPinned, Examiner, OutcomesOf, FirstCertificate;
    var c := Pinned(text, LoadFailed(reason));
    OutcomesConcat(a + [c], b);
    OutcomesConcat(a, [c]);
    OutcomesConcat(a, b);
    OneOutcomeOf(c);
    UnloadableIsIgnored(root, OutcomesOf(a), OutcomesOf(b), reason, Examiner(root, view, strict));
    assert (a + [c] + b)[|a|] == c;
    var inline := FirstCertificate(Candidates(root));
    if inline.Some? {
      PinnedAmong(inline.value, a, c, b, normalize);
    }
    if a + b == [] {
      NoneOutcomes();
      NoOutcomes(root, Examiner(root, view, strict));
    }
  }

  lemma OneOutcomeOf(c: Pinned)
    ensures OutcomesOf([c]) == [c.outcome]
  {
    assert [c][1..] == [];
  }

  lemma NoneOutcomes()
    ensures OutcomesOf([]) == []
  {
  }

  lemma NoOutcomes(root: Node, examine: Examination)
    ensures Verdict(root, [], examine) == Err(NoCertificate(None))
  {
  }

  /** With the strict profile, whatever a verified result returns was designated by signatures that meet the
      profile: those that name the root, or a direct assertion of a response. */
  lemma StrictContentMeetsProfile(root: Node, pinned: seq<Pinned>, normalize: string -> string, view: View,
                                  refs: References, r: SignatureResult, target: Target)
    requires var v := VerifiedBy(root, pinned, normalize, view, true); v.Ok? && v.value.verified
    requires Consistent(AllResults(OutcomesOf(pinned)), refs) && Views(view, root) && view.kind != OtherRoot
    requires r in AllResults(OutcomesOf(pinned)) && r.Valid? && AllResolve(root, r.references)
    requires Supplies(r, target) && Authenticates(root, view, target)
    ensures view.profile(r.node) == None
  {
    hide Verdict, Candidates, BadUri, InlineMismatch, Views, Authenticates, AllResolve, Supplies, Consistent, Examiner;
    StrictSignaturesMeetProfile(root, view, OutcomesOf(pinned), refs, r, target);
  }
}
