/** An assertion by itself, and what finalizing and decrypting make of it. */
module PipelineDecrypting {
  import opened Text
  import opened Dom
  import opened SamlIds
  import opened Coverage
  import opened SignatureVerdict
  import opened SignatureGuards
  import opened Pipeline
  import opened PipelineShapes
  import opened PipelineEvidence
  import opened PipelineDocuments
  import opened PipelineRoundTrip

  // An assertion by itself.

  lemma AssertionGuarded(a: Node)
    requires a.local == "Assertion" && Repeat(Ids(a), {}) == None
    ensures Guarded(a)
  {
    ResponseContains();
  }

  /** A signed assertion by itself is verified and covered. */
  lemma SignedAssertionEvidence(c: Crypto, root: Node, a: Node, examine: Examination)
    requires Raw(root, a) && Accepting(c, SignedNode(c, a), examine)
    ensures Evident(c, SignedNode(c, a), examine, SignedNode(c, a), true, false)
  {
    var x, id := SignedNode(c, a), SamlId(a).value;
    RawFacts(root, a);
    SignedPayload(c, a);
    SignedKeeps(c, a);
    AssertionGuarded(x);
    LoneSigned(c, a);
    GoodUri(c, a, id);
    AssertionContent(x, id);
    hide Raw, Payload, AllGenuine, Guarded, BadUri, Content, AssertionDirectlyCovered, ResponseCovered,
      EmbeddedEvidence, Accepting;
    EvidenceOfGenuine(c, x, [id], examine);
  }

  lemma AssertionContent(x: Node, id: string)
    requires x.local == "Assertion" && SamlId(x) == Some(id)
    ensures Content(x, IdTargets([id])) == Ok(Some(x))
    ensures AssertionDirectlyCovered(x, IdTargets([id])) && !ResponseCovered(x, IdTargets([id]))
  {
    TargetsMatch([id], x);
    ResponseContains();
    hide TargetMatches, Contains, IdTargets;
  }

  lemma OwnSignatureGenuine(c: Crypto, a: Node)
    requires Lone(a)
    ensures var x, s := SignedNode(c, a), SigOf(c, a);
            && s in Nodes(x) && IsSignature(s) && Genuine(c, x, s, SamlId(a).value)
            && (forall n :: n in Nodes(x) && IsSignature(n) ==> n == s)
  {
    hide Genuine;
    var x, s, id := SignedNode(c, a), SigOf(c, a), SamlId(a).value;
    OnlySignature(c, a);
    SignedKeeps(c, a);
    NoSignatureNamed(a);
    RootIsNode(x);
    FoundUnique(x, id, x);
    SignedIsGenuine(c, x, a);
    RootIsNode(s);
    InNodesOfChild(x, s, s);
  }

  lemma LoneSigned(c: Crypto, a: Node)
    requires Lone(a)
    ensures var x := SignedNode(c, a);
            && AllGenuine(c, x, [SamlId(a).value]) && AllSignable([SamlId(a).value])
            && Candidates(x) == [SigOf(c, a)]
  {
    NoInnerAssertion(c, a);
    OwnSignatureGenuine(c, a);
    OneGenuine(c, SignedNode(c, a), SigOf(c, a), SamlId(a).value);
  }

  lemma OneGenuine(c: Crypto, x: Node, s: Node, id: string)
    requires s in Nodes(x) && IsSignature(s) && IsMade(c, s) && Genuine(c, x, s, id) && Signable(id)
    requires forall n :: n in Nodes(x) && IsSignature(n) ==> n == s
    ensures AllGenuine(c, x, [id]) && AllSignable([id])
  {
    hide Genuine, Nodes, Signable, IsMade;
    assert [id][0] == id;
  }

  lemma NoInnerAssertion(c: Crypto, a: Node)
    requires Signing(a) && Unsigned(a)
    ensures Candidates(SignedNode(c, a)) == [SigOf(c, a)] + Below(ChildrenNamed(a, "Assertion"), "Signature")
    ensures Below(ChildrenNamed(a, "Assertion"), "Signature") == []
  {
    NoSignatureNamed(a);
    SignedNamed(c, a, "Signature");
    SignedNamed(c, a, "Assertion");
    forall i | 0 <= i < |ChildrenNamed(a, "Assertion")|
        ensures ChildrenNamed(ChildrenNamed(a, "Assertion")[i], "Signature") == [] {
      NamedAre(a.children, "Assertion", i);
      UnsignedChild(a, ChildrenNamed(a, "Assertion")[i]);
      NoSignatureNamed(ChildrenNamed(a, "Assertion")[i]);
    }
    NothingBelow(ChildrenNamed(a, "Assertion"), "Signature");
  }

  lemma {:induction false} NothingBelow(ns: seq<Node>, name: string)
    requires forall i :: 0 <= i < |ns| ==> ChildrenNamed(ns[i], name) == []
    ensures Below(ns, name) == []
  {
    if ns != [] {
      NothingBelow(ns[1..], name);
    }
  }

  /** An assertion that was not signed is not verified by itself. */
  lemma UnsignedAssertionEvidence(c: Crypto, root: Node, a: Node, examine: Examination)
    requires Raw(root, a)
    ensures EmbeddedEvidence(c, a, examine) == Ok(UNVERIFIED) && NotVerified(a) == SignatureMissing
  {
    RawFacts(root, a);
    AssertionGuarded(a);
    NoSignatureNamed(a);
    NoInnerAssertion(c, a);
    EvidenceOfUnsigned(c, a, examine);
  }

  // Finalizing and decrypting.

  function Sent(c: Crypto, s: IdpSettings, a: Node): Node
    requires SamlId(a).Some?
  {
    var held := Held(c, a, s.wantAssertionsSigned);
    if s.encrypted then Encrypted(c, held, s.algorithm) else held
  }

  predicate InClear(s: IdpSettings) { s.wantAssertionsSigned && !s.encrypted }

  lemma SentPayload(c: Crypto, s: IdpSettings, root: Node, a: Node)
    requires Raw(root, a)
    ensures Payload(c, a, Sent(c, s, a), InClear(s))
    ensures Sent(c, s, a).local == if s.encrypted then "EncryptedAssertion" else "Assertion"
  {
    RawFacts(root, a);
    SignedKeeps(c, a);
    if s.encrypted {
      EncryptedPayload(c, a, Held(c, a, s.wantAssertionsSigned), s.algorithm);
    } else if s.wantAssertionsSigned {
      SignedPayload(c, a);
    } else {
      PlainPayload(c, a);
    }
  }

  lemma BaseTwice(c: Crypto, root: Node, a: Node, x: Node, y: Node, signed: bool)
    requires Raw(root, a) && Payload(c, a, x, signed) && x.local == "Assertion"
    ensures FirstChild(Base(root, x).children, "Assertion") == Some(x)
    ensures Base(Base(root, x), y) == Base(root, y)
  {
    BaseNamed(c, root, a, x, signed);
    FirstIsNamed(Base(root, x).children, "Assertion");
    SplicedTwice(root.children, "Assertion", x, y);
  }

  /** The steps of finalizing put the assertion, signed and encrypted as asked, back in its place. */
  lemma FinalizedIs(c: Crypto, s: IdpSettings, root: Node, a: Node)
    requires Raw(root, a)
    ensures Finalized(c, s, root) == Ok(Doc(c, root, Sent(c, s, a), SignsMessage(s)))
  {
    hide Payload, Spliced, AfterIssuer;
    var held := Held(c, a, s.wantAssertionsSigned);
    RawFacts(root, a);
    SignedKeeps(c, a);
    SplicedSelf(root.children, "Assertion");
    assert Base(root, a) == root;
    SignedPayload(c, a);
    PlainPayload(c, a);
    assert Payload(c, a, held, s.wantAssertionsSigned);
    BaseTwice(c, root, a, held, Encrypted(c, held, s.algorithm), s.wantAssertionsSigned);
    BaseSigning(root, a, held);
    SentPayload(c, s, root, a);
    BaseSigning(root, a, Sent(c, s, a));
  }

  ghost predicate HasSignature(n: Node) { exists s :: s in n.children && s.local == "Signature" }

  /** The response holds this assertion, as it is or as the ciphertext made from it. */
  ghost predicate Carries(c: Crypto, d: Node, held: Node, encrypted: bool) {
    if encrypted then
      exists e, data, cipher :: e in d.children && e.local == "EncryptedAssertion"
        && data in e.children && data.local == "EncryptedData" && cipher in data.children
        && cipher.local == "CipherData" && Attr(cipher, "Value") == Some(c.encrypt(held))
    else held in d.children && held.local == "Assertion"
  }

  /** The assertion as it was, or with a Signature right behind its first Issuer. */
  ghost predicate IsHeld(held: Node, a: Node, signed: bool) {
    if signed then
      exists i: nat, s: Node :: 0 < i <= |a.children| && a.children[i - 1].local == "Issuer" && s.local == "Signature"
        && (forall k :: 0 <= k < i - 1 ==> a.children[k].local != "Issuer")
        && held == a.(children := a.children[..i] + [s] + a.children[i..])
    else held == a
  }

  lemma HeldIs(c: Crypto, a: Node, signed: bool)
    requires Signing(a)
    ensures IsHeld(Held(c, a, signed), a, signed)
  {
    hide AfterIssuer, FirstChild;
    if signed {
      var i := StandsAfterIssuer(a.children, SigOf(c, a));
    }
  }

  // Signing any document.

  ghost predicate HasIssuer(n: Node) { exists i :: i in n.children && i.local == "Issuer" }

  /** The element with the signature made for it right behind its first Issuer. */
  ghost predicate IsSigned(c: Crypto, signed: Node, n: Node) {
    exists i: nat, s :: 0 < i <= |n.children| && n.children[i - 1].local == "Issuer"
      && (forall k :: 0 <= k < i - 1 ==> n.children[k].local != "Issuer")
      && signed == n.(children := n.children[..i] + [s] + n.children[i..])
      && IsSignature(s) && SamlId(n).Some? && ReferenceUri(s) == Some("#" + SamlId(n).value)
      && SignatureValue(s) == Some(c.sign(n))
  }

  lemma HasIssuerFirst(n: Node)
    ensures HasIssuer(n) <==> FirstChild(n.children, "Issuer").Some?
  {
    FirstIsNamed(n.children, "Issuer");
    forall i | i in n.children && i.local == "Issuer" ensures FirstChild(n.children, "Issuer").Some? {
      NamedHas(n.children, "Issuer", i);
    }
  }

  /** An element can be signed exactly when it has an identifier and an issuer. */
  lemma SignsExactlyWhen(c: Crypto, n: Node)
    ensures match SignTarget(c, n)
            case Ok(signed) => IsSigned(c, signed, n)
            case Err(e) => if SamlId(n) == None then e == NoId else e == NoIssuer && !HasIssuer(n)
  {
    hide AfterIssuer, FirstChild, ReferenceUri, SignatureValue, HasIssuer;
    HasIssuerFirst(n);
    if SignTarget(c, n).Ok? {
      var i := StandsAfterIssuer(n.children, SigOf(c, n));
      SignatureReads(c, n, SamlId(n).value);
    }
  }

  lemma {:induction false} SplicedAt(ns: seq<Node>, name: string, put: Node) returns (i: nat)
    requires FirstChild(ns, name).Some?
    ensures i < |ns| && ns[i] == FirstChild(ns, name).value && ns[i].local == name
    ensures Spliced(ns, name, put) == ns[i := put] && forall k :: 0 <= k < i ==> ns[k].local != name
  {
    if ns[0].local == name {
      i := 0;
    } else {
      var j := SplicedAt(ns[1..], name, put);
      i := j + 1;
      assert ns[i := put] == [ns[0]] + ns[1..][j := put];
    }
  }

  /** A message, or an assertion by itself, is signed at its root; of a response only its first assertion is. */
  lemma ConstructsExactlyWhen(c: Crypto, root: Node, signMessage: bool)
    ensures signMessage || root.local == "Assertion" ==> ConstructSignature(c, root, signMessage) == SignTarget(c, root)
    ensures !signMessage && root.local != "Assertion" ==>
              match ConstructSignature(c, root, signMessage)
              case Ok(made) =>
                exists i: nat, signed :: i < |root.children| && root.children[i].local == "Assertion"
                  && (forall k :: 0 <= k < i ==> root.children[k].local != "Assertion")
                  && IsSigned(c, signed, root.children[i]) && made == root.(children := root.children[i := signed])
              case Err(e) =>
                (e == MissingAssertion <==> forall n :: n in root.children ==> n.local != "Assertion")
  {
    hide IsSigned, SignTarget, Spliced, FirstChild;
    FirstIsNamed(root.children, "Assertion");
    forall n | n in root.children && n.local == "Assertion" ensures FirstChild(root.children, "Assertion").Some? {
      NamedHas(root.children, "Assertion", n);
    }
    if FirstChild(root.children, "Assertion").Some? {
      var assertion := FirstChild(root.children, "Assertion").value;
      SignsExactlyWhen(c, assertion);
      if SignTarget(c, assertion).Ok? {
        var i := SplicedAt(root.children, "Assertion", SignTarget(c, assertion).value);
      }
    }
  }

  lemma HasSignatureNamed(n: Node)
    ensures HasSignature(n) <==> ChildrenNamed(n, "Signature") != []
  {
    if ChildrenNamed(n, "Signature") != [] {
      NamedAre(n.children, "Signature", 0);
    }
    forall s | s in n.children && s.local == "Signature" ensures ChildrenNamed(n, "Signature") != [] {
      NamedHas(n.children, "Signature", s);
    }
  }

  lemma CarriesCiphertext(c: Crypto, d: Node, held: Node, algorithm: string)
    requires Encrypted(c, held, algorithm) in d.children
    ensures Carries(c, d, held, true)
  {
    var e := Encrypted(c, held, algorithm);
    var data := e.children[0];
    var cipher := data.children[1];
    assert data in e.children && cipher in data.children;
    assert Attr(cipher, "Value") == Some(c.encrypt(held));
  }

  lemma SentCarries(c: Crypto, s: IdpSettings, root: Node, a: Node, message: bool)
    requires Raw(root, a)
    ensures Carries(c, Doc(c, root, Sent(c, s, a), message), Held(c, a, s.wantAssertionsSigned), s.encrypted)
  {
    hide Payload, Guarded, Unsigned, Named, Encrypted, Doc, SignedNode;
    var x, held := Sent(c, s, a), Held(c, a, s.wantAssertionsSigned);
    SentPayload(c, s, root, a);
    DocNamed(c, root, a, x, InClear(s), message);
    var d := Doc(c, root, x, message);
    NamedAre(d.children, x.local, 0);
    if s.encrypted {
      CarriesCiphertext(c, d, held, s.algorithm);
    }
  }

  /** Where the signatures of a finalized response stand: at its root if the binding embeds them and a message
      signature is wanted or an assertion signature is not, and in the assertion if that is wanted. */
  lemma FinalizedSignatures(c: Crypto, s: IdpSettings, root: Node, a: Node)
    requires Raw(root, a)
    ensures var d, held := Doc(c, root, Sent(c, s, a), SignsMessage(s)), Held(c, a, s.wantAssertionsSigned);
            && (HasSignature(d) <==> s.post && (s.wantMessageSigned || !s.wantAssertionsSigned))
            && (HasSignature(held) <==> s.wantAssertionsSigned) && Carries(c, d, held, s.encrypted)
            && IsHeld(held, a, s.wantAssertionsSigned)
  {
    hide Payload, Guarded, Named, Carries, Doc, HasSignature, IsHeld;
    RawFacts(root, a);
    HeldIs(c, a, s.wantAssertionsSigned);
    NoSignatureNamed(a);
    SignedNamed(c, a, "Signature");
    SentPayload(c, s, root, a);
    DocNamed(c, root, a, Sent(c, s, a), InClear(s), SignsMessage(s));
    SentCarries(c, s, root, a, SignsMessage(s));
    HasSignatureNamed(Held(c, a, s.wantAssertionsSigned));
    HasSignatureNamed(Doc(c, root, Sent(c, s, a), SignsMessage(s)));
  }

  /** The response holds the assertion and the signatures that the settings ask for. */
  ghost predicate SignedAsDue(c: Crypto, s: IdpSettings, d: Node, a: Node) {
    var messageSigned := exists n :: n in d.children && n.local == "Signature";
    && (messageSigned <==> s.post && (s.wantMessageSigned || !s.wantAssertionsSigned))
    && exists held :: Carries(c, d, held, s.encrypted) && IsHeld(held, a, s.wantAssertionsSigned)
         && (s.post ==> messageSigned || exists n :: n in held.children && n.local == "Signature")
  }

  lemma FinalizedAlways(c: Crypto, s: IdpSettings, raw: Node)
    ensures forall a :: Raw(raw, a) ==>
              Finalized(c, s, raw) == Ok(Doc(c, raw, Sent(c, s, a), SignsMessage(s)))
              && SignedAsDue(c, s, Finalized(c, s, raw).value, a)
  {
    hide Finalized, Doc, Sent, Carries, IsHeld;
    forall a | Raw(raw, a)
      ensures Finalized(c, s, raw) == Ok(Doc(c, raw, Sent(c, s, a), SignsMessage(s)))
      ensures SignedAsDue(c, s, Finalized(c, s, raw).value, a)
    {
      FinalizedIs(c, s, raw, a);
      FinalizedSignatures(c, s, raw, a);
    }
  }

  /** `finalize_login_response`. Of a response with one assertion it makes that response with the assertion,
      signed and encrypted as asked, in its place, signed around it if a signature of the message is due. */
  method FinalizeLoginResponse(c: Crypto, s: IdpSettings, raw: Node, errorResponse: bool)
    returns (r: Result<Node, PipelineError>)
    ensures errorResponse ==> r == if s.post then ConstructSignature(c, raw, true) else Ok(raw)
    ensures !errorResponse ==> r == Finalized(c, s, raw)
    ensures forall a :: Raw(raw, a) && !errorResponse ==> r == Ok(Doc(c, raw, Sent(c, s, a), SignsMessage(s)))
    ensures forall a :: Raw(raw, a) && !errorResponse ==>
              var messageSigned := exists n :: n in r.value.children && n.local == "Signature";
              && (messageSigned <==> s.post && (s.wantMessageSigned || !s.wantAssertionsSigned))
              && exists held :: Carries(c, r.value, held, s.encrypted) && IsHeld(held, a, s.wantAssertionsSigned)
                   && (s.post ==> messageSigned || exists n :: n in held.children && n.local == "Signature")
  {
    hide ConstructSignature, EncryptAssertion, Doc, Sent, Raw, Carries, IsHeld;
    FinalizedAlways(c, s, raw);
    var xml := raw;
    if errorResponse {
      if s.post {
        r := ConstructSignature(c, xml, true);
        return;
      }
      return Ok(xml);
    }
    var signMessage := s.post && (s.wantMessageSigned || !s.wantAssertionsSigned);
    if s.wantAssertionsSigned {
      var signed := ConstructSignature(c, xml, false);
      if signed.Err? {
        return signed;
      }
      xml := signed.value;
    }
    if signMessage && !s.encrypted {
      var signed := ConstructSignature(c, xml, true);
      if signed.Err? {
        return signed;
      }
      xml := signed.value;
    }
    if s.encrypted {
      var encrypted := EncryptAssertion(c, xml, s.algorithm);
      if encrypted.Err? {
        return encrypted;
      }
      xml := encrypted.value;
    }
    if signMessage && s.encrypted {
      var signed := ConstructSignature(c, xml, true);
      if signed.Err? {
        return signed;
      }
      xml := signed.value;
    }
    r := Ok(xml);
  }

  lemma EncryptedReads(c: Crypto, held: Node, algorithm: string)
    requires c.decrypt(c.encrypt(held)) == Some(held)
    ensures var e := Encrypted(c, held, algorithm);
            && FirstChild(e.children, "EncryptedData") == Some(e.children[0])
            && CipherOf(e.children[0]) == Some(c.encrypt(held))
            && AlgorithmOf(e) == Some(algorithm)
  {
    var e := Encrypted(c, held, algorithm);
    var data := e.children[0];
    SecondChild(data.children[0], data.children[1]);
    assert data.children == [data.children[0], data.children[1]];
  }

  lemma EncryptedInDoc(c: Crypto, root: Node, a: Node, held: Node, algorithm: string, message: bool)
    requires Raw(root, a)
    ensures var d, e := Doc(c, root, Encrypted(c, held, algorithm), message), Encrypted(c, held, algorithm);
            ChildrenNamed(d, "EncryptedAssertion") == [e] && FirstChild(d.children, "EncryptedAssertion") == Some(e)
            && ChildrenNamed(d, "Assertion") == [] && d.local == "Response"
  {
    hide Spliced, AfterIssuer, Guarded, Unsigned, Payload, Nodes, Ids, Named;
    var e := Encrypted(c, held, algorithm);
    var d := Doc(c, root, e, message);
    EncryptedPayload(c, a, held, algorithm);
    DocNamed(c, root, a, e, false, message);
    FirstIsNamed(d.children, "EncryptedAssertion");
  }

  /** The document with the assertion in the place of its encryption. */
  function Restored(d: Node, held: Node): Node {
    d.(children := Spliced(d.children, "EncryptedAssertion", held))
  }

  /** Decryption replaces the first encrypted assertion of any document by what it was made from. */
  lemma DecryptsFirst(c: Crypto, d: Node, held: Node, algorithm: string)
    requires FirstChild(d.children, "EncryptedAssertion") == Some(Encrypted(c, held, algorithm))
    requires c.decrypt(c.encrypt(held)) == Some(held)
    ensures DecryptAssertion(c, d) == Ok((Restored(d, held), held))
  {
    hide Spliced, FirstChild, CipherOf;
    EncryptedReads(c, held, algorithm);
  }

  /** Decrypting a finalized document gives the assertion back and puts it in its place. */
  lemma DecryptsTo(c: Crypto, root: Node, a: Node, signed: bool, algorithm: string, message: bool)
    requires Raw(root, a) && c.decrypt(c.encrypt(Held(c, a, signed))) == Some(Held(c, a, signed))
    ensures var held := Held(c, a, signed);
            var d := Doc(c, root, Encrypted(c, held, algorithm), message);
            && DecryptAssertion(c, d) == Ok((Restored(d, held), held))
            && (!message ==> DecryptAssertion(c, d).value.0 == Base(root, held))
  {
    hide Spliced, AfterIssuer, Guarded, Unsigned, Nodes, Ids, DecryptAssertion, Named, FirstChild;
    var held := Held(c, a, signed);
    EncryptedInDoc(c, root, a, held, algorithm, message);
    DecryptsFirst(c, Doc(c, root, Encrypted(c, held, algorithm), message), held, algorithm);
    SplicedBack(root.children, Encrypted(c, held, algorithm), held, "Assertion", "EncryptedAssertion");
  }

  lemma HeldIsAssertion(c: Crypto, root: Node, a: Node, signed: bool)
    requires Raw(root, a)
    ensures Held(c, a, signed).local == "Assertion"
  {
    hide Guarded, Unsigned, Nodes, Ids, Named, AfterIssuer;
    RawFacts(root, a);
    SignedKeeps(c, a);
  }

  lemma RestoredHolds(c: Crypto, root: Node, a: Node, signed: bool, algorithm: string, message: bool)
    requires Raw(root, a) && c.decrypt(c.encrypt(Held(c, a, signed))) == Some(Held(c, a, signed))
    ensures var d := Doc(c, root, Encrypted(c, Held(c, a, signed), algorithm), message);
            && DecryptAssertion(c, d).Ok? && DecryptAssertion(c, d).value.0.local == "Response"
            && ChildrenNamed(DecryptAssertion(c, d).value.0, "Assertion") == [Held(c, a, signed)]
  {
    hide Spliced, AfterIssuer, Guarded, Unsigned, Nodes, Ids, DecryptAssertion, Named, FirstChild, Doc, Encrypted;
    var held := Held(c, a, signed);
    var d := Doc(c, root, Encrypted(c, held, algorithm), message);
    HeldIsAssertion(c, root, a, signed);
    EncryptedInDoc(c, root, a, held, algorithm, message);
    DecryptsTo(c, root, a, signed, algorithm, message);
    SplicedNamed(d.children, "EncryptedAssertion", held, "Assertion");
  }
}
