/** What it means that any document was prepared, whoever made it and however it is signed. */
module PipelineSafety {
  import opened Text
  import opened Dom
  import opened Coverage
  import opened SignatureVerdict
  import opened SignatureReferences
  import opened SignatureGuards
  import opened Pipeline

  /** The document is verified by its own signatures, with this result. */
  ghost predicate Verifies(c: Crypto, d: Node, k: Checks, v: Verification) {
    EmbeddedEvidence(c, d, k.examine(d)) == Ok(v) && v.verified
  }

  /** It is examined without error, and is not verified. */
  ghost predicate Unverified(c: Crypto, d: Node, k: Checks) {
    exists v :: EmbeddedEvidence(c, d, k.examine(d)) == Ok(v) && !v.verified
  }

  /** A verified message is handed on as it is: a response whole, with what its signatures cover for its assertion,
      and authenticated if they cover it; any other message as what they cover. */
  ghost predicate HandedOn(c: Crypto, root: Node, parser: ParserType, s: SpSettings, k: Checks, p: Prepared) {
    exists v :: Verifies(c, root, k, v)
      && (s.assertion == Direct ==> v.assertionCovered)
      && !(s.decrypts && parser == SamlResponse && v.content.Some?)
      && (if parser == SamlResponse then p == Prepared(root, v.content, v.responseCovered, v.evidence)
          else v.content.Some? && p == Prepared(v.content.value, None, true, v.evidence))
  }

  /** A verified response is decrypted: what its signatures cover holds the ciphertext, and the decrypted assertion
      has a signature of its own if that is demanded. */
  ghost predicate OpenedVerified(c: Crypto, root: Node, parser: ParserType, s: SpSettings, k: Checks, p: Prepared) {
    s.decrypts && parser == SamlResponse
    && exists v, content, assertion :: Verifies(c, root, k, v) && v.content.Some?
         && DecryptAssertion(c, v.content.value) == Ok((content, assertion)) && k.accepts(content, SamlResponse)
         && (if s.assertion == Compatible then
               p == Prepared(content, Some(assertion), v.responseCovered, v.evidence)
             else
               exists inner :: Verifies(c, assertion, k, inner) && inner.assertionCovered
                 && p == Prepared(content, Some(assertion), v.responseCovered, v.evidence + inner.evidence))
  }

  /** A message that is not verified is decrypted first. Then the decrypted assertion is verified by itself, or the
      document with it; the message does not count as authenticated. */
  ghost predicate OpenedFirst(c: Crypto, root: Node, parser: ParserType, s: SpSettings, k: Checks, p: Prepared) {
    s.decrypts && Unverified(c, root, k)
    && exists content, assertion, inner :: DecryptAssertion(c, root) == Ok((content, assertion))
         && k.accepts(content, parser)
         && (if s.assertion == Direct then
               Verifies(c, assertion, k, inner) && inner.assertionCovered
               && p == Prepared(content, Some(assertion), false, inner.evidence)
             else
               Verifies(c, content, k, inner) && p == Prepared(content, inner.content, false, inner.evidence))
  }

  /** For every document and all settings: a message is prepared in one of these ways and no other, and a signature
      of the response, where it is demanded, was verified and covers it. */
  lemma PreparedExactlyWhen(c: Crypto, root: Node, parser: ParserType, s: SpSettings, k: Checks, p: Prepared)
    ensures Prepare(c, root, parser, s, k) == Ok(p) <==>
              && (ResponseDemanded(s.response, root, k.isCbc) ==>
                    exists v :: Verifies(c, root, k, v) && v.responseCovered)
              && (HandedOn(c, root, parser, s, k, p) || OpenedVerified(c, root, parser, s, k, p)
                  || OpenedFirst(c, root, parser, s, k, p))
  {
    hide EmbeddedEvidence, DecryptAssertion, ResponseDemanded, NotVerified;
  }

  lemma {:induction false} AnyUsesExactlyWhen(ns: seq<Node>, isCbc: string -> bool)
    ensures AnyUses(ns, isCbc) <==> exists n :: n in ns && AlgorithmOf(n).Some? && isCbc(AlgorithmOf(n).value)
  {
    if ns != [] {
      hide AlgorithmOf;
      AnyUsesExactlyWhen(ns[1..], isCbc);
      assert forall n :: n in ns <==> n == ns[0] || n in ns[1..];
    }
  }

  /** A signature of the response is demanded always, never, or when some encrypted assertion in it uses CBC. */
  lemma DemandedExactlyWhen(requirement: ResponseSignature, root: Node, isCbc: string -> bool)
    ensures ResponseDemanded(requirement, root, isCbc) <==>
              || requirement == Required
              || (requirement == RequiredForEncryptedCbc
                  && exists e :: e in root.children && e.local == "EncryptedAssertion"
                       && AlgorithmOf(e).Some? && isCbc(AlgorithmOf(e).value))
  {
    hide AlgorithmOf, AnyUses, Named;
    AnyUsesExactlyWhen(ChildrenNamed(root, "EncryptedAssertion"), isCbc);
    forall e
      ensures e in ChildrenNamed(root, "EncryptedAssertion") <==> e in root.children && e.local == "EncryptedAssertion"
    {
      NamedExactlyWhen(root.children, "EncryptedAssertion", e);
    }
  }

  lemma DecryptFault(c: Crypto, n: Node)
    ensures var r := DecryptAssertion(c, n);
            r.Err? ==> r.error == UndefinedEncryptedAssertion || r.error == BadCiphertext
  {
  }

  /** A missing signature is reported when a document that was looked at has none, an invalid one when it has. */
  ghost predicate Blames(c: Crypto, d: Node, k: Checks, e: PipelineError) {
    Unverified(c, d, k) && e == if Candidates(d) == [] then SignatureMissing else SignatureInvalid
  }

  lemma BlamesUnverified(c: Crypto, d: Node, k: Checks)
    ensures var r := EmbeddedEvidence(c, d, k.examine(d));
            r.Ok? && !r.value.verified ==> Blames(c, d, k, NotVerified(d))
  {
    hide EmbeddedEvidence, Candidates;
  }

  lemma SignatureFaults(c: Crypto, root: Node, parser: ParserType, s: SpSettings, k: Checks)
    requires var r := Prepare(c, root, parser, s, k);
             r == Err(SignatureMissing) || r == Err(SignatureInvalid)
    ensures exists d :: Blames(c, d, k, Prepare(c, root, parser, s, k).error)
  {
    hide EmbeddedEvidence, DecryptAssertion, ResponseDemanded, Candidates, NotVerified, Blames;
    BlamesUnverified(c, root, k);
    DecryptFault(c, root);
    if DecryptAssertion(c, root).Ok? {
      BlamesUnverified(c, DecryptAssertion(c, root).value.0, k);
      BlamesUnverified(c, DecryptAssertion(c, root).value.1, k);
    }
    var v := EmbeddedEvidence(c, root, k.examine(root));
    if v.Ok? && v.value.content.Some? {
      DecryptFault(c, v.value.content.value);
      if DecryptAssertion(c, v.value.content.value).Ok? {
        BlamesUnverified(c, DecryptAssertion(c, v.value.content.value).value.1, k);
      }
    }
  }

  /** With a detached signature a message is authenticated. A response comes with its first usable assertion, or by the
      way of its embedded signatures if the assertion's own is demanded; any other message comes as it is. */
  lemma DetachedExactlyWhen(c: Crypto, root: Node, parser: ParserType, s: SpSettings, k: Checks)
    ensures var r := PreparedDetached(c, root, parser, s, k);
            && (parser != SamlResponse ==> r == Ok(Prepared(root, None, true, [])))
            && (parser == SamlResponse && s.assertion == Compatible ==>
                  || ((forall n :: n in root.children ==> n.local != "Assertion")
                      && r == Ok(Prepared(root, None, true, [])))
                  || exists i: nat :: FirstUsable(root, i) && r == Ok(Prepared(root, Some(root.children[i]), true, [])))
            && (parser == SamlResponse && s.assertion == Direct ==>
                  match Prepare(c, root, parser, s.(response := Optional), k)
                  case Ok(p) => r == Ok(Prepared(p.content, p.assertion, true, p.evidence))
                  case Err(e) => r == Err(e))
  {
    hide Prepare, FirstUsable, Chosen, Named;
    HasNamed(root, "Assertion");
    if Assertions(root) != [] {
      var i := ChosenIsUsable(root);
    }
  }
}
