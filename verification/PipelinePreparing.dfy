/** Preparing a finalized response: for every mix of settings on both sides, when the assertion comes back. */
module PipelinePreparing {
  import opened Text
  import opened Dom
  import opened SamlIds
  import opened Coverage
  import opened SignatureVerdict
  import opened SignatureGuards
  import opened Pipeline
  import opened PipelineShapes
  import opened PipelineEvidence
  import opened PipelineDocuments
  import opened PipelineRoundTrip
  import opened PipelineDecrypting

  // Preparing.

  /** Whether the service provider insists on a signature of the response it gets. */
  predicate Demands(sp: SpSettings, idp: IdpSettings, isCbc: string -> bool) {
    sp.response == Required || (sp.response == RequiredForEncryptedCbc && idp.encrypted && isCbc(idp.algorithm))
  }

  /** The demands are met by what the identity provider signs. */
  predicate Meets(sp: SpSettings, idp: IdpSettings, isCbc: string -> bool) {
    && (sp.assertion == Direct ==> idp.wantAssertionsSigned)
    && (Demands(sp, idp, isCbc) ==> SignsMessage(idp))
  }

  lemma DemandedIs(c: Crypto, idp: IdpSettings, sp: SpSettings, root: Node, a: Node, isCbc: string -> bool)
    requires Raw(root, a) && Decrypts(c, Held(c, a, idp.wantAssertionsSigned))
    ensures ResponseDemanded(sp.response, Doc(c, root, Sent(c, idp, a), SignsMessage(idp)), isCbc) <==>
        Demands(sp, idp, isCbc)
  {
    hide Payload, Doc, AlgorithmOf, Guarded, Unsigned;
    var x := Sent(c, idp, a);
    SentPayload(c, idp, root, a);
    DocNamed(c, root, a, x, InClear(idp), SignsMessage(idp));
    if idp.encrypted {
      EncryptedReads(c, Held(c, a, idp.wantAssertionsSigned), idp.algorithm);
      OneUses(x, isCbc);
    }
  }

  lemma OneUses(x: Node, isCbc: string -> bool)
    ensures AnyUses([x], isCbc) <==> AlgorithmOf(x).Some? && isCbc(AlgorithmOf(x).value)
  {
    hide AlgorithmOf;
    assert [x][1..] == [];
  }

  /** Preparing gives a response with the assertion that was sent, in its place and by itself. */
  ghost predicate Recovers(r: Result<Prepared, PipelineError>, held: Node) {
    && r.Ok? && r.value.content.local == "Response" && ChildrenNamed(r.value.content, "Assertion") == [held]
    && r.value.assertion == Some(held)
  }

  /** The message counts as authenticated. */
  predicate Authenticated(r: Result<Prepared, PipelineError>) { r.Ok? && r.value.authenticated }

  /** No signature that the pipeline made is found wanting, in whatever document it stands. */
  ghost predicate AllAccepting(c: Crypto, k: Checks) { forall d :: Accepting(c, d, k.examine(d)) }

  /** Decrypted, the document is well formed and a response. */
  predicate Passes(k: Checks, d: Node, held: Node) { k.accepts(Restored(d, held), SamlResponse) }

  /** Some signature is made. */
  predicate SignsAny(idp: IdpSettings) { idp.wantAssertionsSigned || SignsMessage(idp) }

  ghost predicate Decrypts(c: Crypto, held: Node) { c.decrypt(c.encrypt(held)) == Some(held) }

  lemma PreparesPlain(c: Crypto, idp: IdpSettings, sp: SpSettings, root: Node, a: Node, k: Checks)
    requires Raw(root, a) && !idp.encrypted && !sp.decrypts && AllAccepting(c, k)
    requires Decrypts(c, Held(c, a, idp.wantAssertionsSigned))
    ensures var d := Doc(c, root, Sent(c, idp, a), SignsMessage(idp));
            var r := Prepare(c, d, SamlResponse, sp, k);
            && (r.Ok? <==> Meets(sp, idp, k.isCbc) && SignsAny(idp))
            && (r.Ok? ==>
                  Recovers(r, Held(c, a, idp.wantAssertionsSigned)) && r.value.authenticated == SignsMessage(idp))
  {
    hide Payload, Doc, EmbeddedEvidence, ResponseDemanded, Demands, Guarded, Unsigned, DecryptedAfter, DecryptedBefore,
      Accepting;
    var d := Doc(c, root, Sent(c, idp, a), SignsMessage(idp));
    SentPayload(c, idp, root, a);
    DemandedIs(c, idp, sp, root, a, k.isCbc);
    DocNamed(c, root, a, Sent(c, idp, a), idp.wantAssertionsSigned, SignsMessage(idp));
    if SignsAny(idp) {
      DocEvidence(c, root, a, Sent(c, idp, a), idp.wantAssertionsSigned, SignsMessage(idp), k.examine(d));
    } else {
      UnsignedDocEvidence(c, root, a, Sent(c, idp, a), k.examine(d));
    }
  }

  lemma PreparesSignedCiphertext(c: Crypto, idp: IdpSettings, sp: SpSettings, root: Node, a: Node, k: Checks)
    requires Raw(root, a) && idp.encrypted && sp.decrypts && SignsMessage(idp) && AllAccepting(c, k)
    requires Decrypts(c, Held(c, a, idp.wantAssertionsSigned))
    ensures var d, held := Doc(c, root, Sent(c, idp, a), true), Held(c, a, idp.wantAssertionsSigned);
            var r := Prepare(c, d, SamlResponse, sp, k);
            && (r.Ok? <==> Meets(sp, idp, k.isCbc) && Passes(k, d, held))
            && (r.Ok? ==> Recovers(r, held) && r.value.authenticated)
  {
    hide Payload, Doc, EmbeddedEvidence, ResponseDemanded, Demands, Guarded, Unsigned, DecryptAssertion,
      DecryptedBefore, Encrypted, Spliced, Nodes, Ids, Accepting;
    var held := Held(c, a, idp.wantAssertionsSigned);
    var d := Doc(c, root, Sent(c, idp, a), true);
    SentPayload(c, idp, root, a);
    DemandedIs(c, idp, sp, root, a, k.isCbc);
    DocEvidence(c, root, a, Sent(c, idp, a), false, true, k.examine(d));
    DecryptsTo(c, root, a, idp.wantAssertionsSigned, idp.algorithm, true);
    RestoredHolds(c, root, a, idp.wantAssertionsSigned, idp.algorithm, true);
    if idp.wantAssertionsSigned {
      SignedAssertionEvidence(c, root, a, k.examine(held));
    } else {
      UnsignedAssertionEvidence(c, root, a, k.examine(held));
    }
  }

  lemma PreparesUnsignedCiphertext(c: Crypto, idp: IdpSettings, sp: SpSettings, root: Node, a: Node, k: Checks)
    requires Raw(root, a) && idp.encrypted && sp.decrypts && !SignsMessage(idp) && AllAccepting(c, k)
    requires idp.wantAssertionsSigned && Decrypts(c, Held(c, a, true))
    ensures var d := Doc(c, root, Sent(c, idp, a), false);
            var r := Prepare(c, d, SamlResponse, sp, k);
            && (r.Ok? <==> Meets(sp, idp, k.isCbc) && Passes(k, d, Held(c, a, true)))
            && (r.Ok? ==> Recovers(r, Held(c, a, true)) && !r.value.authenticated)
  {
    hide Payload, EmbeddedEvidence, ResponseDemanded, Demands, Guarded, Unsigned, DecryptAssertion, DecryptedAfter,
      Encrypted, Spliced, Nodes, Ids, Accepting;
    var held := Held(c, a, true);
    var x := Sent(c, idp, a);
    var d := Doc(c, root, x, false);
    SentPayload(c, idp, root, a);
    DemandedIs(c, idp, sp, root, a, k.isCbc);
    UnsignedDocEvidence(c, root, a, x, k.examine(d));
    DecryptsTo(c, root, a, true, idp.algorithm, false);
    RestoredHolds(c, root, a, true, idp.algorithm, false);
    RawFacts(root, a);
    SignedPayload(c, a);
    SignedAssertionEvidence(c, root, a, k.examine(held));
    SignedKeeps(c, a);
    DocEvidence(c, root, a, held, true, false, k.examine(Base(root, held)));
  }

  /** Without any signature there is nothing to accept, before or after decryption. */
  lemma RefusesUnsignedCiphertext(c: Crypto, idp: IdpSettings, sp: SpSettings, root: Node, a: Node, k: Checks)
    requires Raw(root, a) && idp.encrypted && !SignsAny(idp) && Decrypts(c, a)
    ensures Prepare(c, Doc(c, root, Sent(c, idp, a), false), SamlResponse, sp, k).Err?
  {
    hide Payload, EmbeddedEvidence, ResponseDemanded, Guarded, Unsigned, DecryptAssertion, DecryptedAfter, Encrypted,
      Spliced, Nodes, Ids;
    SentPayload(c, idp, root, a);
    UnsignedDocEvidence(c, root, a, Sent(c, idp, a), k.examine(Doc(c, root, Sent(c, idp, a), false)));
    DecryptsTo(c, root, a, false, idp.algorithm, false);
    RawFacts(root, a);
    PlainPayload(c, a);
    UnsignedAssertionEvidence(c, root, a, k.examine(a));
    UnsignedDocEvidence(c, root, a, a, k.examine(Base(root, a)));
  }

  lemma UnsignedDocEvidence(c: Crypto, root: Node, a: Node, x: Node, examine: Examination)
    requires Raw(root, a) && Payload(c, a, x, false)
    ensures EmbeddedEvidence(c, Doc(c, root, x, false), examine) == Ok(UNVERIFIED)
  {
    hide Payload, Guarded;
    DocGuarded(c, root, a, x, false, false);
    DocCandidates(c, root, a, x, false, false);
    EvidenceOfUnsigned(c, Doc(c, root, x, false), examine);
  }

  // One side encrypts or decrypts and the other does not.

  /** The response was encrypted and is not decrypted: a signed message passes unless the assertion's own
      signature is demanded, and what is handed on for the assertion is the whole encrypted response. */
  lemma PreparesUndecrypted(c: Crypto, idp: IdpSettings, sp: SpSettings, root: Node, a: Node, k: Checks)
    requires Raw(root, a) && idp.encrypted && !sp.decrypts && AllAccepting(c, k)
    requires Decrypts(c, Held(c, a, idp.wantAssertionsSigned))
    ensures var d := Doc(c, root, Sent(c, idp, a), SignsMessage(idp));
            var r := Prepare(c, d, SamlResponse, sp, k);
            && (r.Ok? <==> sp.assertion == Compatible && SignsMessage(idp))
            && (r.Ok? ==> r.value.content == d && r.value.assertion == Some(d) && r.value.authenticated)
            && d.local == "Response" && ChildrenNamed(d, "Assertion") == []
  {
    hide Payload, Doc, EmbeddedEvidence, ResponseDemanded, Demands, Guarded, Unsigned, DecryptedAfter, DecryptedBefore,
      Encrypted, Nodes, Ids, Accepting;
    var d := Doc(c, root, Sent(c, idp, a), SignsMessage(idp));
    SentPayload(c, idp, root, a);
    DemandedIs(c, idp, sp, root, a, k.isCbc);
    EncryptedInDoc(c, root, a, Held(c, a, idp.wantAssertionsSigned), idp.algorithm, SignsMessage(idp));
    if SignsMessage(idp) {
      DocEvidence(c, root, a, Sent(c, idp, a), false, true, k.examine(d));
    } else {
      UnsignedDocEvidence(c, root, a, Sent(c, idp, a), k.examine(d));
    }
  }

  lemma NothingToDecrypt(c: Crypto, n: Node)
    requires ChildrenNamed(n, "EncryptedAssertion") == []
    ensures DecryptAssertion(c, n) == Err(UndefinedEncryptedAssertion)
  {
    FirstIsNamed(n.children, "EncryptedAssertion");
  }

  lemma HeldNothingEncrypted(c: Crypto, root: Node, a: Node, signed: bool)
    requires Raw(root, a) && ChildrenNamed(a, "EncryptedAssertion") == []
    ensures ChildrenNamed(Held(c, a, signed), "EncryptedAssertion") == []
  {
    hide Guarded, Unsigned, Named;
    SignedNamed(c, a, "EncryptedAssertion");
  }

  /** The response was not encrypted and is to be decrypted: it never comes back as it was sent, and an error is
      certain unless the assertion holds an encrypted one itself. */
  lemma PreparesPlainDecrypting(c: Crypto, idp: IdpSettings, sp: SpSettings, root: Node, a: Node, k: Checks)
    requires Raw(root, a) && !idp.encrypted && sp.decrypts && AllAccepting(c, k)
    ensures var d := Doc(c, root, Sent(c, idp, a), SignsMessage(idp));
            var r := Prepare(c, d, SamlResponse, sp, k);
            && (r.Ok? ==> r.value.content.local != "Response")
            && (ChildrenNamed(a, "EncryptedAssertion") == [] ==> r.Err?)
  {
    hide Payload, Doc, EmbeddedEvidence, ResponseDemanded, Guarded, Unsigned, DecryptAssertion, Nodes, Ids, Named,
      Accepting;
    var x := Sent(c, idp, a);
    var d := Doc(c, root, x, SignsMessage(idp));
    SentPayload(c, idp, root, a);
    DocNamed(c, root, a, x, idp.wantAssertionsSigned, SignsMessage(idp));
    if SignsAny(idp) {
      DocEvidence(c, root, a, x, idp.wantAssertionsSigned, SignsMessage(idp), k.examine(d));
      DecryptedKeepsName(c, x);
      if ChildrenNamed(a, "EncryptedAssertion") == [] {
        HeldNothingEncrypted(c, root, a, idp.wantAssertionsSigned);
        NothingToDecrypt(c, x);
      }
    } else {
      UnsignedDocEvidence(c, root, a, x, k.examine(d));
      NothingToDecrypt(c, d);
    }
  }

  lemma DecryptedKeepsName(c: Crypto, n: Node)
    ensures DecryptAssertion(c, n).Ok? ==> DecryptAssertion(c, n).value.0.local == n.local
  {
  }

  // All settings.

  /** What comes of a finalized response, for every mix of settings on both sides. */
  ghost predicate Outcome(r: Result<Prepared, PipelineError>, d: Node, held: Node, a: Node, idp: IdpSettings,
                          sp: SpSettings, k: Checks)
  {
    var messageSigned := idp.post && (idp.wantMessageSigned || !idp.wantAssertionsSigned);
    && (Recovers(r, held) <==>
          && sp.decrypts == idp.encrypted && (idp.wantAssertionsSigned || messageSigned)
          && (sp.assertion == Direct ==> idp.wantAssertionsSigned)
          && (sp.response == Required ==> messageSigned)
          && (sp.response == RequiredForEncryptedCbc && idp.encrypted && k.isCbc(idp.algorithm) ==> messageSigned)
          && (idp.encrypted ==> Passes(k, d, held)))
    && (Recovers(r, held) ==> (Authenticated(r) <==> messageSigned))
    && (sp.decrypts == idp.encrypted ==> (r.Ok? <==> Recovers(r, held)))
    && (idp.encrypted && !sp.decrypts ==>
          && (r.Ok? <==> sp.assertion == Compatible && messageSigned)
          && (r.Ok? ==> r.value.content == d && r.value.assertion == Some(d) && r.value.authenticated))
    && (!idp.encrypted && sp.decrypts && ChildrenNamed(a, "EncryptedAssertion") == [] ==> r.Err?)
  }

  lemma MeetsSpelled(idp: IdpSettings, sp: SpSettings, isCbc: string -> bool)
    ensures SignsMessage(idp) <==> idp.post && (idp.wantMessageSigned || !idp.wantAssertionsSigned)
    ensures Meets(sp, idp, isCbc) <==>
              && (sp.assertion == Direct ==> idp.wantAssertionsSigned)
              && (sp.response == Required ==> SignsMessage(idp))
              && (sp.response == RequiredForEncryptedCbc && idp.encrypted && isCbc(idp.algorithm) ==> SignsMessage(idp))
  {
  }

  /** For every mix of settings: preparing a finalized response recovers the assertion it was built from, signed
      as it was sent and in its place, if and only if the service provider decrypts what the identity provider
      encrypts, accepts the decrypted document, some signature is made, and none is demanded that is not made. Of
      the two mismatches, an encrypted response is handed on whole when its message signature suffices, and a
      plain one is refused. */
  lemma PreparedExactlyWhenDemandsAreMet(c: Crypto, idp: IdpSettings, sp: SpSettings, root: Node, a: Node, k: Checks)
    requires Raw(root, a) && AllAccepting(c, k) && Decrypts(c, Held(c, a, idp.wantAssertionsSigned))
    ensures Finalized(c, idp, root).Ok?
    ensures var d := Finalized(c, idp, root).value;
            Outcome(Prepare(c, d, SamlResponse, sp, k), d, Held(c, a, idp.wantAssertionsSigned), a, idp, sp, k)
  {
    hide Payload, Doc, Prepare, Meets, Guarded, Unsigned, Held, Finalized, SignsMessage, Nodes, Ids, AllAccepting,
      Passes;
    FinalizedIs(c, idp, root, a);
    MeetsSpelled(idp, sp, k.isCbc);
    HeldIsAssertion(c, root, a, idp.wantAssertionsSigned);
    if idp.encrypted && !sp.decrypts {
      PreparesUndecrypted(c, idp, sp, root, a, k);
    } else if !idp.encrypted && sp.decrypts {
      PreparesPlainDecrypting(c, idp, sp, root, a, k);
    } else if !idp.encrypted {
      PreparesPlain(c, idp, sp, root, a, k);
    } else if SignsMessage(idp) {
      PreparesSignedCiphertext(c, idp, sp, root, a, k);
    } else if idp.wantAssertionsSigned {
      PreparesUnsignedCiphertext(c, idp, sp, root, a, k);
    } else {
      HeldUnsigned(c, a);
      RefusesUnsignedCiphertext(c, idp, sp, root, a, k);
    }
  }

  lemma HeldUnsigned(c: Crypto, a: Node)
    requires SamlId(a).Some?
    ensures Held(c, a, false) == a
  {
  }

  // A message with a detached signature.

  /** For the bindings with a detached signature a finalized response comes back as it was sent if and only if
      the assertion's own signature is demanded, was made, and both sides agree on encryption, or it is not
      demanded and the assertion is not encrypted. */
  lemma DetachedRecoversExactlyWhen(c: Crypto, idp: IdpSettings, sp: SpSettings, root: Node, a: Node, k: Checks)
    requires Raw(root, a) && AllAccepting(c, k) && Decrypts(c, Held(c, a, idp.wantAssertionsSigned)) && !idp.post
    ensures Finalized(c, idp, root).Ok?
    ensures DetachedOutcome(c, idp, sp, Finalized(c, idp, root).value, Held(c, a, idp.wantAssertionsSigned), k)
  {
    hide Payload, Prepare, Guarded, Unsigned, Held, Finalized, Nodes, Ids, Named, Doc, AllAccepting, Passes;
    var held := Held(c, a, idp.wantAssertionsSigned);
    var d := Doc(c, root, Sent(c, idp, a), false);
    FinalizedIs(c, idp, root, a);
    HeldIsAssertion(c, root, a, idp.wantAssertionsSigned);
    if sp.assertion == Direct {
      PreparedExactlyWhenDemandsAreMet(c, idp, sp.(response := Optional), root, a, k);
    } else {
      SentPayload(c, idp, root, a);
      DocNamed(c, root, a, Sent(c, idp, a), InClear(idp), false);
      OneChosen(held);
    }
  }

  ghost predicate DetachedOutcome(c: Crypto, idp: IdpSettings, sp: SpSettings, d: Node, held: Node, k: Checks) {
    var r := PreparedDetached(c, d, SamlResponse, sp, k);
    && (r.Ok? ==> Authenticated(r))
    && (Recovers(r, held) <==>
          if sp.assertion == Direct then
            && idp.wantAssertionsSigned && sp.decrypts == idp.encrypted
            && (idp.encrypted ==> Passes(k, d, held))
          else !idp.encrypted)
  }

  lemma OneChosen(n: Node)
    ensures Chosen([n]) == n
  {
  }
}
