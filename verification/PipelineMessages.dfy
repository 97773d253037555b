/** Requests and logout messages on the same way: signed as a whole, and prepared with that one signature. */
module PipelineMessages {
  import opened Text
  import opened Dom
  import opened SamlIds
  import opened Coverage
  import opened SignatureVerdict
  import opened SignatureGuards
  import opened Pipeline
  import opened PipelineShapes
  import opened PipelineEvidence
  import opened PipelineDocuments
  import opened PipelineRoundTrip
  import opened PipelineDecrypting

  /** A request or a logout message before it is signed. */
  ghost predicate Plain(m: Node) {
    && (m.local == "AuthnRequest" || m.local == "LogoutRequest" || m.local == "LogoutResponse")
    && Lone(m) && ChildrenNamed(m, "Assertion") == [] && ChildrenNamed(m, "EncryptedAssertion") == []
  }

  lemma LogoutNames()
    ensures Contains("LogoutResponse", "Response")
    ensures !Contains("AuthnRequest", "Response") && !Contains("LogoutRequest", "Response")
  {
    hide Find;
    ContainsExactlyWhen("LogoutResponse", "Response");
    assert "LogoutResponse" == "Logout" + "Response" + "";
    NoneContained("AuthnRequest");
    NoneContained("LogoutRequest");
  }

  lemma NoneContained(s: string)
    requires forall i :: 0 <= i && i + 8 <= |s| ==> s[i] != 'R'
    ensures !Contains(s, "Response")
  {
    if Contains(s, "Response") {
      FoundHead(s, "Response");
    }
  }

  lemma FoundHead(s: string, needle: string)
    requires needle != "" && Find(s, needle).Some?
    ensures s[Find(s, needle).value] == needle[0]
  {
    FindsNeedle(s, needle);
  }

  lemma WithoutAssertions(m: Node)
    requires ChildrenNamed(m, "Assertion") == [] && Repeat(Ids(m), {}) == None
    ensures Guarded(m)
  {
    assert Below([], "Subject") == [] && Below([], "SubjectConfirmation") == [];
    assert Below([], "SubjectConfirmationData") == [];
  }

  lemma SignedMessage(c: Crypto, m: Node)
    requires Plain(m)
    ensures var d := SignedNode(c, m);
            && d.local == m.local && SamlId(d) == SamlId(m) && Presentable(d)
            && ChildrenNamed(d, "Assertion") == [] && ChildrenNamed(d, "EncryptedAssertion") == []
  {
    hide Named;
    SignedKeeps(c, m);
    SignedNamed(c, m, "Assertion");
    SignedNamed(c, m, "EncryptedAssertion");
    WithoutAssertions(SignedNode(c, m));
    LoneSigned(c, m);
    GoodUri(c, m, SamlId(m).value);
  }

  lemma MessageContent(d: Node, id: string)
    requires d.local == "AuthnRequest" || d.local == "LogoutRequest" || d.local == "LogoutResponse"
    requires SamlId(d) == Some(id) && ChildrenNamed(d, "Assertion") == []
    ensures Content(d, IdTargets([id])) == Ok(Some(d)) && !AssertionDirectlyCovered(d, IdTargets([id]))
    ensures ResponseCovered(d, IdTargets([id])) <==> d.local == "LogoutResponse"
  {
    TargetsMatch([id], d);
    LogoutNames();
    hide TargetMatches, Contains, IdTargets;
  }

  /** A signed message is verified as a whole; only a response counts as a covered response. */
  lemma MessageEvidence(c: Crypto, m: Node, examine: Examination)
    requires Plain(m) && Accepting(c, SignedNode(c, m), examine)
    ensures Evident(c, SignedNode(c, m), examine, SignedNode(c, m), false, m.local == "LogoutResponse")
  {
    var d, id := SignedNode(c, m), SamlId(m).value;
    SignedMessage(c, m);
    LoneSigned(c, m);
    MessageContent(d, id);
    hide Presentable, AllGenuine, Content, AssertionDirectlyCovered, ResponseCovered, EmbeddedEvidence, Accepting;
    EvidenceOfGenuine(c, d, [id], examine);
  }

  /** A signed request or logout message is handed on, as it was signed and authenticated, unless an assertion's own
      signature is demanded, or a signed response is and it is a request. */
  lemma MessagePreparedExactlyWhen(c: Crypto, m: Node, parser: ParserType, s: SpSettings, k: Checks)
    requires Plain(m) && parser != SamlResponse && Accepting(c, SignedNode(c, m), k.examine(SignedNode(c, m)))
    ensures var d := SignedNode(c, m);
            var r := Prepare(c, d, parser, s, k);
            && (r.Ok? <==> s.assertion == Compatible && (s.response == Required ==> m.local == "LogoutResponse"))
            && (r.Ok? ==> r.value.content == d && r.value.assertion == None && r.value.authenticated)
  {
    var d := SignedNode(c, m);
    SignedMessage(c, m);
    MessageEvidence(c, m, k.examine(d));
    hide EmbeddedEvidence, Accepting, Presentable, Named, AlgorithmOf, SignedNode, DecryptedAfter, DecryptedBefore,
      Lone;
    assert ResponseDemanded(s.response, d, k.isCbc) <==> s.response == Required;
  }

  /** What is prepared is what signing the message makes. */
  lemma MessageIsSigned(c: Crypto, m: Node)
    requires Plain(m)
    ensures ConstructSignature(c, m, true) == Ok(SignedNode(c, m))
  {
  }

  /** Without its signature it is refused. */
  lemma UnsignedMessageIsRefused(c: Crypto, m: Node, parser: ParserType, s: SpSettings, k: Checks)
    requires Plain(m) && parser != SamlResponse
    ensures Prepare(c, m, parser, s, k).Err?
  {
    WithoutAssertions(m);
    NoSignatureNamed(m);
    assert Below([], "Signature") == [];
    EvidenceOfUnsigned(c, m, k.examine(m));
    FirstIsNamed(m.children, "EncryptedAssertion");
    hide EmbeddedEvidence, Named;
  }
}
