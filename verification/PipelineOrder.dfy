/** Signing the message before its assertion is encrypted. */
module PipelineOrder {
  import opened Text
  import opened Dom
  import opened SamlIds
  import opened SignatureVerdict
  import opened SignatureOrder
  import opened SignatureGuards
  import opened Pipeline
  import opened PipelineShapes
  import opened PipelineEvidence
  import opened PipelineDocuments
  import opened PipelineRoundTrip

  /** Signing the message before the assertion is encrypted. */
  function SignedThenEncrypted(c: Crypto, root: Node, h: Node, algorithm: string): Node
    requires SamlId(root).Some?
  {
    Base(SignedNode(c, Base(root, h)), Encrypted(c, h, algorithm))
  }

  lemma StaleShape(c: Crypto, root: Node, a: Node, h: Node, algorithm: string)
    requires Raw(root, a) && h.local == "Assertion"
    ensures var e, s := Encrypted(c, h, algorithm), SigOf(c, Base(root, h));
            SignedThenEncrypted(c, root, h, algorithm)
                == Base(root, e).(children := AfterIssuer(Base(root, e).children, s))
  {
    var e, s := Encrypted(c, h, algorithm), SigOf(c, Base(root, h));
    SplicedAfterIssuer(Base(root, h).children, s, "Assertion", e);
    SplicedTwice(root.children, "Assertion", h, e);
  }

  lemma StaleSignature(c: Crypto, root: Node, a: Node, h: Node, algorithm: string, position: nat)
    requires Raw(root, a) && h.local == "Assertion"
    requires forall m, n :: c.sign(m) == c.sign(n) ==> m == n
    ensures Judged(c, SignedThenEncrypted(c, root, h, algorithm), SigOf(c, Base(root, h)), position) == Invalid
  {
    var e, s, id := Encrypted(c, h, algorithm), SigOf(c, Base(root, h)), SamlId(root).value;
    var base, d := Base(root, e), SignedThenEncrypted(c, root, h, algorithm);
    RawFacts(root, a);
    StaleShape(c, root, a, h, algorithm);
    BaseSigning(root, a, e);
    EncryptedPayload(c, a, h, algorithm);
    BaseNamed(c, root, a, e, false);
    BaseNamedBy(c, root, a, h, e);
    assert FirstWithId(Nodes(d), id) == Some(d) by { assert Nodes(d)[0] == d; }
    if s in base.children {
      NamedHas(base.children, "Signature", s);
    }
    WithoutInserted(base.children, s);
    SignatureReads(c, Base(root, h), id);
    assert ("#" + id)[1..] == id && ("#" + id)[0] == '#';
    assert d.(children := base.children) == base;
  }

  lemma BaseNamedBy(c: Crypto, root: Node, a: Node, h: Node, e: Node)
    requires Raw(root, a) && h.local == "Assertion" && e.local == "EncryptedAssertion"
    ensures Base(root, h) != Base(root, e)
  {
    RawFacts(root, a);
    SplicedNamed(root.children, "Assertion", h, "Assertion");
    SplicedNamed(root.children, "Assertion", e, "Assertion");
  }

  lemma StaleIsOnly(c: Crypto, root: Node, a: Node, h: Node, algorithm: string, m: Node)
    requires Raw(root, a) && h.local == "Assertion"
    requires m in Nodes(SignedThenEncrypted(c, root, h, algorithm)) && IsSignature(m)
    ensures m == SigOf(c, Base(root, h))
  {
    var e, s := Encrypted(c, h, algorithm), SigOf(c, Base(root, h));
    var base, d := Base(root, e), SignedThenEncrypted(c, root, h, algorithm);
    StaleShape(c, root, a, h, algorithm);
    BaseSigning(root, a, e);
    NodesOfMade(d, m);
    var i :| 0 <= i < |d.children| && m in Nodes(d.children[i]);
    InAfterIssuer(base.children, s, d.children[i]);
    if d.children[i] == s {
      if m != s {
        NodesOfSignature(c, Base(root, h), SamlId(root).value, m);
      }
    } else {
      InNodesOfChild(base, d.children[i], m);
      InBase(root, a, e, m);
      EncryptedIsUnsigned(c, h, algorithm);
    }
  }

  lemma StaleResults(c: Crypto, root: Node, a: Node, h: Node, algorithm: string, r: SignatureResult)
    requires Raw(root, a) && h.local == "Assertion" && r in JudgedAll(c, SignedThenEncrypted(c, root, h, algorithm))
    requires forall m, n :: c.sign(m) == c.sign(n) ==> m == n
    ensures r == Invalid
  {
    hide Judged, JudgedAmong, Nodes, SignedThenEncrypted, Guarded;
    var d := SignedThenEncrypted(c, root, h, algorithm);
    var m, p := SignatureOf(c, d, r);
    StaleIsOnly(c, root, a, h, algorithm, m);
    StaleSignature(c, root, a, h, algorithm, p);
  }

  lemma NoneValid(d: Node, results: seq<SignatureResult>, examine: Examination)
    requires forall r :: r in results ==> r == Invalid
    ensures var v := Verified(d, false, [Results(results)], examine); v.Ok? ==> !v.value.verified
  {
    hide Verdict, Guarded, Candidates, BadUri;
    var outcomes := [Results(results)];
    assert !StartsValid(outcomes[0]) by {
      if results != [] {
        assert results[0] in results;
      }
    }
    assert !AnyStartsValid(outcomes);
    if Verdict(d, outcomes, examine).Ok? {
      VerifiedMeansFirstVerified(d, outcomes, examine);
    }
  }

  /** The order matters: a message signature made before the assertion is encrypted never satisfies a
      service provider that requires the response to be signed. */
  lemma SigningBeforeEncryptingIsRefused(c: Crypto, sp: SpSettings, root: Node, a: Node, h: Node, algorithm: string,
                                         k: Checks)
    requires Raw(root, a) && h.local == "Assertion" && sp.response == Required
    requires forall m, n :: c.sign(m) == c.sign(n) ==> m == n
    ensures Prepare(c, SignedThenEncrypted(c, root, h, algorithm), SamlResponse, sp, k).Err?
  {
    hide JudgedAll, Verified, SignedThenEncrypted, Guarded, DecryptedAfter, DecryptedBefore;
    var d := SignedThenEncrypted(c, root, h, algorithm);
    forall r | r in JudgedAll(c, d) ensures r == Invalid {
      StaleResults(c, root, a, h, algorithm, r);
    }
    NoneValid(d, JudgedAll(c, d), k.examine(d));
  }
}
