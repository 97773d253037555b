/** From the identity provider's steps to the service provider's checks: when a finalized response
    is prepared, and that preparing it recovers its assertion. */
module PipelineRoundTrip {
  import opened Text
  import opened Dom
  import opened SamlIds
  import opened Coverage
  import opened SignatureVerdict
  import opened SignatureGuards
  import opened Pipeline
  import opened PipelineShapes
  import opened PipelineEvidence
  import opened PipelineDocuments

  /** The assertion as it is sent, before encryption. */
  function Held(c: Crypto, a: Node, signed: bool): Node
    requires SamlId(a).Some?
  {
    if signed then SignedNode(c, a) else a
  }

  function Base(root: Node, x: Node): Node { root.(children := Spliced(root.children, "Assertion", x)) }

  /** The response with `x` for its assertion, signed or not. */
  function Doc(c: Crypto, root: Node, x: Node, signed: bool): Node
    requires SamlId(root).Some?
  {
    if signed then SignedNode(c, Base(root, x)) else Base(root, x)
  }

  /** What may stand in the assertion's place: the assertion, the signed assertion, or its encryption. */
  ghost predicate Payload(c: Crypto, a: Node, x: Node, signed: bool)
    requires SamlId(a).Some?
  {
    && (x.local == "Assertion" || x.local == "EncryptedAssertion")
    && (Ids(x) == Ids(a) || Ids(x) == [])
    && (forall m :: m in Nodes(x) && IsSignature(m) ==> signed && m == SigOf(c, a))
    && (signed ==> x == SignedNode(c, a))
    && (x.local == "Assertion" ==>
          && SamlId(x) == SamlId(a)
          && ChildrenNamed(x, "Subject") == ChildrenNamed(a, "Subject")
          && ChildrenNamed(x, "Signature") == (if signed then [SigOf(c, a)] else []))
  }

  lemma PlainPayload(c: Crypto, a: Node)
    requires Signing(a) && Unsigned(a) && a.local == "Assertion"
    ensures Payload(c, a, a, false)
  {
    NoSignatureNamed(a);
  }

  lemma SignedPayload(c: Crypto, a: Node)
    requires Signing(a) && Unsigned(a) && a.local == "Assertion"
    ensures Payload(c, a, SignedNode(c, a), true)
  {
    NoSignatureNamed(a);
    SignedKeeps(c, a);
    SignedNamed(c, a, "Subject");
    SignedNamed(c, a, "Signature");
    OnlySignature(c, a);
  }

  lemma EncryptedPayload(c: Crypto, a: Node, h: Node, algorithm: string)
    requires SamlId(a).Some?
    ensures Payload(c, a, Encrypted(c, h, algorithm), false)
  {
    EncryptedHasNoIds(c, h, algorithm);
    EncryptedIsUnsigned(c, h, algorithm);
  }

  lemma RawFacts(root: Node, a: Node)
    requires Raw(root, a)
    ensures a in root.children && a.local == "Assertion" && Unsigned(a)
    ensures FirstChild(root.children, "Assertion") == Some(a) && Named(root.children, "Assertion")[0] == a
    ensures ChildrenNamed(root, "Signature") == []
    ensures Repeat(Ids(a), {}) == None
  {
    NamedAre(root.children, "Assertion", 0);
    UnsignedChild(root, a);
    FirstIsNamed(root.children, "Assertion");
    NoSignatureNamed(root);
    PassesExactlyDistinct(root);
    DistinctParts(OwnIds(root.attributes), AllIds(root.children));
    DistinctChild(root.children, a);
    PassesExactlyDistinct(a);
  }

  lemma {:induction false} DistinctChild(ns: seq<Node>, n: Node)
    requires n in ns && Distinct(AllIds(ns))
    ensures Distinct(Ids(n))
  {
    DistinctParts(Ids(ns[0]), AllIds(ns[1..]));
    if ns[0] != n {
      DistinctChild(ns[1..], n);
    }
  }

  // The document with a payload.

  lemma BaseSigning(root: Node, a: Node, x: Node)
    requires Raw(root, a) && (x.local == "Assertion" || x.local == "EncryptedAssertion")
    ensures Signing(Base(root, x)) && SamlId(Base(root, x)) == SamlId(root) && Base(root, x).local == "Response"
  {
    SplicedKeepsIssuer(root.children, x);
  }

  lemma BaseNamed(c: Crypto, root: Node, a: Node, x: Node, signed: bool)
    requires Raw(root, a) && Payload(c, a, x, signed)
    ensures ChildrenNamed(Base(root, x), "Assertion") == if x.local == "Assertion" then [x] else []
    ensures ChildrenNamed(Base(root, x), "EncryptedAssertion") == if x.local == "Assertion" then [] else [x]
    ensures ChildrenNamed(Base(root, x), "Signature") == []
  {
    RawFacts(root, a);
    SplicedNamed(root.children, "Assertion", x, "Assertion");
    SplicedNamed(root.children, "Assertion", x, "EncryptedAssertion");
    SplicedNamed(root.children, "Assertion", x, "Signature");
  }

  lemma DocNamed(c: Crypto, root: Node, a: Node, x: Node, signed: bool, message: bool)
    requires Raw(root, a) && Payload(c, a, x, signed)
    ensures var d := Doc(c, root, x, message);
            && d.local == "Response" && SamlId(d) == SamlId(root)
            && ChildrenNamed(d, "Assertion") == (if x.local == "Assertion" then [x] else [])
            && ChildrenNamed(d, "EncryptedAssertion") == (if x.local == "Assertion" then [] else [x])
            && ChildrenNamed(d, "Signature") == (if message then [SigOf(c, Base(root, x))] else [])
  {
    var base := Base(root, x);
    BaseSigning(root, a, x);
    BaseNamed(c, root, a, x, signed);
    if message {
      SignedKeeps(c, base);
      SignedNamed(c, base, "Assertion");
      SignedNamed(c, base, "EncryptedAssertion");
      SignedNamed(c, base, "Signature");
    }
  }

  lemma DocDistinct(c: Crypto, root: Node, a: Node, x: Node, signed: bool, message: bool)
    requires Raw(root, a) && Payload(c, a, x, signed)
    ensures Repeat(Ids(Doc(c, root, x, message)), {}) == None
  {
    hide Repeat, Payload;
    var own, base := OwnIds(root.attributes), Base(root, x);
    RawFacts(root, a);
    PassesExactlyDistinct(root);
    BaseDistinct(c, root, a, x, signed);
    BaseSigning(root, a, x) by { PayloadLocal(c, a, x, signed); }
    if message {
      SignedKeeps(c, base);
    }
    PassesExactlyDistinct(Doc(c, root, x, message));
  }

  lemma PayloadLocal(c: Crypto, a: Node, x: Node, signed: bool)
    requires SamlId(a).Some? && Payload(c, a, x, signed)
    ensures x.local == "Assertion" || x.local == "EncryptedAssertion"
  {
  }

  lemma BaseDistinct(c: Crypto, root: Node, a: Node, x: Node, signed: bool)
    requires Raw(root, a) && Payload(c, a, x, signed) && Distinct(Ids(root))
    ensures Distinct(Ids(Base(root, x)))
  {
    var own, below := OwnIds(root.attributes), AllIds(root.children);
    if Ids(x) == Ids(a) {
      SplicedSameIds(root.children, "Assertion", x);
    } else {
      DistinctParts(own, below);
      SplicedDropsIds(root.children, "Assertion", x);
      var spliced := AllIds(Spliced(root.children, "Assertion", x));
      forall i, j | 0 <= i < |own| && 0 <= j < |spliced| ensures own[i] != spliced[j] {
        assert spliced[j] in below;
        var k :| 0 <= k < |below| && below[k] == spliced[j];
        assert (own + below)[i] != (own + below)[|own| + k];
      }
      DistinctJoined(own, spliced);
    }
  }

  lemma BelowOne(n: Node, name: string)
    ensures Below([n], name) == ChildrenNamed(n, name)
  {
    assert [n][1..] == [];
  }

  lemma NotWrapped(d: Node, root: Node, a: Node)
    requires ChildrenNamed(root, "Assertion") == [a] && !WrappingDetected(root)
    requires ChildrenNamed(d, "Assertion") == [] ||
             (|ChildrenNamed(d, "Assertion")| == 1 &&
              ChildrenNamed(ChildrenNamed(d, "Assertion")[0], "Subject") == ChildrenNamed(a, "Subject"))
    ensures !WrappingDetected(d)
  {
    BelowOne(a, "Subject");
    if ChildrenNamed(d, "Assertion") != [] {
      var x := ChildrenNamed(d, "Assertion")[0];
      assert ChildrenNamed(d, "Assertion") == [x];
      BelowOne(x, "Subject");
    }
  }

  lemma ResponseContains()
    ensures Contains("Response", "Response") && !Contains("Assertion", "Response")
  {
    var s, needle := "Assertion", "Response";
    assert needle[0] == 'R' && s[0] == 'A' && s[1..][0] == 's';
    assert !(needle <= s) && !(needle <= s[1..]);
    TooShort(s[1..][1..], needle);
  }

  lemma {:induction false} TooShort(s: string, needle: string)
    requires needle != "" && |s| < |needle|
    ensures Find(s, needle) == None
  {
    if s != "" {
      TooShort(s[1..], needle);
    }
  }

  /** Whatever the payload, the document gets past the guards. */
  lemma DocGuarded(c: Crypto, root: Node, a: Node, x: Node, signed: bool, message: bool)
    requires Raw(root, a) && Payload(c, a, x, signed)
    ensures Guarded(Doc(c, root, x, message))
  {
    hide WrappingDetected, Contains;
    ResponseContains();
    DocNamed(c, root, a, x, signed, message);
    DocDistinct(c, root, a, x, signed, message);
    NotWrapped(Doc(c, root, x, message), root, a);
  }

  // Its signatures.

  lemma InBase(root: Node, a: Node, x: Node, m: Node)
    requires Raw(root, a) && m in Nodes(Base(root, x)) && IsSignature(m)
    ensures m in Nodes(x)
  {
    var d := Base(root, x);
    NodesOfMade(d, m);
    var i :| 0 <= i < |d.children| && m in Nodes(d.children[i]);
    InSpliced(root.children, "Assertion", x, d.children[i]);
    if d.children[i] != x {
      UnsignedChild(root, d.children[i]);
    }
  }

  lemma InDoc(c: Crypto, root: Node, a: Node, x: Node, message: bool, m: Node)
    requires Raw(root, a) && (x.local == "Assertion" || x.local == "EncryptedAssertion")
    requires m in Nodes(Doc(c, root, x, message)) && IsSignature(m)
    ensures m in Nodes(x) || (message && m == SigOf(c, Base(root, x)))
  {
    var base := Base(root, x);
    BaseSigning(root, a, x);
    if message {
      var d, s := SignedNode(c, base), SigOf(c, base);
      NodesOfMade(d, m);
      var i :| 0 <= i < |d.children| && m in Nodes(d.children[i]);
      InAfterIssuer(base.children, s, d.children[i]);
      if d.children[i] == s {
        if m != s {
          NodesOfSignature(c, base, SamlId(base).value, m);
        }
      } else {
        InNodesOfChild(base, d.children[i], m);
        InBase(root, a, x, m);
      }
    } else {
      InBase(root, a, x, m);
    }
  }

  lemma InNodesOfChild(n: Node, child: Node, m: Node)
    requires child in n.children && m in Nodes(child)
    ensures m in Nodes(n)
  {
    var i :| 0 <= i < |n.children| && n.children[i] == child;
    InNodes(n, m);
  }

  lemma PayloadInDoc(c: Crypto, root: Node, a: Node, x: Node, message: bool, m: Node)
    requires Raw(root, a) && (x.local == "Assertion" || x.local == "EncryptedAssertion") && m in Nodes(x)
    ensures m in Nodes(Doc(c, root, x, message))
  {
    var base := Base(root, x);
    BaseSigning(root, a, x);
    HasSpliced(root.children, "Assertion", x);
    if message {
      InAfterIssuer(base.children, SigOf(c, base), x);
    }
    InNodesOfChild(Doc(c, root, x, message), x, m);
  }

  lemma MessageSignatureGenuine(c: Crypto, root: Node, a: Node, x: Node, signed: bool)
    requires Raw(root, a) && Payload(c, a, x, signed)
    ensures var d, s := Doc(c, root, x, true), SigOf(c, Base(root, x));
            s in Nodes(d) && IsMade(c, s) && Genuine(c, d, s, SamlId(root).value)
  {
    hide Payload, Genuine;
    var base, d := Base(root, x), Doc(c, root, x, true);
    PayloadLocal(c, a, x, signed);
    BaseSigning(root, a, x);
    SignedKeeps(c, base);
    BaseNamed(c, root, a, x, signed);
    DocDistinct(c, root, a, x, signed, true);
    RootIsNode(d);
    FoundUnique(d, SamlId(root).value, d);
    SignedIsGenuine(c, d, base);
    RootIsNode(SigOf(c, base));
    InNodesOfChild(d, SigOf(c, base), SigOf(c, base));
  }

  lemma AssertionSignatureGenuine(c: Crypto, root: Node, a: Node, message: bool)
    requires Raw(root, a)
    ensures var d := Doc(c, root, SignedNode(c, a), message);
            SigOf(c, a) in Nodes(d) && IsMade(c, SigOf(c, a)) && Genuine(c, d, SigOf(c, a), SamlId(a).value)
  {
    hide Payload, Genuine;
    var x, d := SignedNode(c, a), Doc(c, root, SignedNode(c, a), message);
    RawFacts(root, a);
    SignedPayload(c, a);
    SignedKeeps(c, a);
    NoSignatureNamed(a);
    DocDistinct(c, root, a, x, true, message);
    RootIsNode(x);
    PayloadInDoc(c, root, a, x, message, x);
    FoundUnique(d, SamlId(a).value, x);
    SignedIsGenuine(c, d, a);
    RootIsNode(SigOf(c, a));
    InNodesOfChild(x, SigOf(c, a), SigOf(c, a));
    PayloadInDoc(c, root, a, x, message, SigOf(c, a));
  }

  /** The identifiers the signatures of a document refer to. */
  function SignedIds(root: Node, a: Node, signed: bool, message: bool): seq<string>
    requires SamlId(root).Some? && SamlId(a).Some?
  {
    (if message then [SamlId(root).value] else []) + (if signed then [SamlId(a).value] else [])
  }

  lemma SignatureIsGenuine(c: Crypto, root: Node, a: Node, x: Node, signed: bool, message: bool, n: Node)
    requires Raw(root, a) && Payload(c, a, x, signed)
    requires n in Nodes(Doc(c, root, x, message)) && IsSignature(n)
    ensures IsMade(c, n)
    ensures exists id :: id in SignedIds(root, a, signed, message) && Genuine(c, Doc(c, root, x, message), n, id)
  {
    hide Genuine, Nodes, SigOf, IsMade;
    var ids := SignedIds(root, a, signed, message);
    InDoc(c, root, a, x, message, n);
    if message && n == SigOf(c, Base(root, x)) {
      MessageSignatureGenuine(c, root, a, x, signed);
      assert ids[0] == SamlId(root).value;
    } else {
      AssertionSignatureGenuine(c, root, a, message);
      assert ids[|ids| - 1] == SamlId(a).value;
    }
  }

  lemma IdIsSigned(c: Crypto, root: Node, a: Node, x: Node, signed: bool, message: bool, id: string)
    requires Raw(root, a) && Payload(c, a, x, signed) && id in SignedIds(root, a, signed, message)
    ensures var d := Doc(c, root, x, message);
            exists n :: n in Nodes(d) && IsSignature(n) && Genuine(c, d, n, id)
    ensures Signable(id)
  {
    hide Genuine, Nodes, Signable;
    if message && id == SamlId(root).value {
      MessageSignatureGenuine(c, root, a, x, signed);
      assert IsSignature(SigOf(c, Base(root, x)));
    } else {
      AssertionSignatureGenuine(c, root, a, message);
      assert IsSignature(SigOf(c, a));
    }
  }

  lemma DocGenuine(c: Crypto, root: Node, a: Node, x: Node, signed: bool, message: bool)
    requires Raw(root, a) && Payload(c, a, x, signed)
    ensures AllGenuine(c, Doc(c, root, x, message), SignedIds(root, a, signed, message))
    ensures AllSignable(SignedIds(root, a, signed, message))
  {
    assert SamlId(root).Some? && SamlId(a).Some?;
    hide Genuine, Raw, Payload, Doc, SignedIds, Nodes, Signable, IsMade;
    var d, ids := Doc(c, root, x, message), SignedIds(root, a, signed, message);
    forall n | n in Nodes(d) && IsSignature(n)
      ensures IsMade(c, n) && exists id :: id in ids && Genuine(c, d, n, id)
    {
      SignatureIsGenuine(c, root, a, x, signed, message, n);
    }
    forall id | id in ids ensures exists n :: n in Nodes(d) && IsSignature(n) && Genuine(c, d, n, id) {
      IdIsSigned(c, root, a, x, signed, message, id);
    }
    forall id | id in ids ensures Signable(id) {
      IdIsSigned(c, root, a, x, signed, message, id);
    }
  }

  // Verifying a document.

  lemma OneGoodUri(reference: Node, id: string)
    requires Attr(reference, "URI") == Some("#" + id) && Signable(id)
    ensures FirstBadUri([reference]) == None
  {
    hide TargetOf;
    FragmentTarget(id);
    var one := [reference];
    assert one[0] == reference && one[1..] == [];
    assert FirstBadUri(one[1..]) == None;
  }

  lemma GoodUri(c: Crypto, n: Node, id: string)
    requires Signable(id)
    ensures BadUri([SignatureFor(c, n, id)]) == None
  {
    hide TargetOf, Signable, FirstBadUri;
    var s := SignatureFor(c, n, id);
    var info, value := s.children[0], s.children[1];
    var reference := info.children[0];
    BelowOne(s, "SignedInfo");
    assert s.children == [info] + [value];
    NamedOne(info, [value], "SignedInfo");
    NamedOne(value, [], "SignedInfo");
    assert [value] == [value] + [];
    BelowOne(info, "Reference");
    NamedOne(reference, [], "Reference");
    assert info.children == [reference] + [];
    assert Attr(reference, "URI") == Some("#" + id);
    OneGoodUri(reference, id);
  }

  lemma NamedOne(n: Node, ns: seq<Node>, name: string)
    ensures Named([n] + ns, name) == (if n.local == name then [n] else []) + Named(ns, name)
  {
    assert ([n] + ns)[1..] == ns;
  }

  lemma BelowCons(n: Node, ns: seq<Node>, name: string)
    ensures Below([n] + ns, name) == ChildrenNamed(n, name) + Below(ns, name)
  {
    hide ChildrenNamed;
    assert ([n] + ns)[1..] == ns;
  }

  lemma {:induction false} BelowConcat(a: seq<Node>, b: seq<Node>, name: string)
    ensures Below(a + b, name) == Below(a, name) + Below(b, name)
  {
    if a == [] {
      assert a + b == b;
    } else {
      hide Below, ChildrenNamed;
      BelowConcat(a[1..], b, name);
      assert a == [a[0]] + a[1..];
      Regroup([a[0]], a[1..], b);
      BelowCons(a[0], a[1..], name);
      BelowCons(a[0], a[1..] + b, name);
      Regroup(ChildrenNamed(a[0], name), Below(a[1..], name), Below(b, name));
    }
  }

  lemma FirstBadCons(n: Node, ns: seq<Node>)
    ensures FirstBadUri([n] + ns) == if TargetOf(UriOf(n)).Err? then Some(TargetOf(UriOf(n)).error) else FirstBadUri(ns)
  {
    hide TargetOf, UriOf;
    assert ([n] + ns)[1..] == ns;
  }

  lemma {:induction false} FirstBadConcat(a: seq<Node>, b: seq<Node>)
    ensures FirstBadUri(a + b) == if FirstBadUri(a).Some? then FirstBadUri(a) else FirstBadUri(b)
  {
    if a == [] {
      assert a + b == b;
    } else {
      hide TargetOf, UriOf, FirstBadUri;
      FirstBadConcat(a[1..], b);
      assert a == [a[0]] + a[1..];
      Regroup([a[0]], a[1..], b);
      FirstBadCons(a[0], a[1..]);
      FirstBadCons(a[0], a[1..] + b);
    }
  }

  lemma BadUriConcat(a: seq<Node>, b: seq<Node>)
    requires BadUri(a) == None && BadUri(b) == None
    ensures BadUri(a + b) == None
  {
    BelowConcat(a, b, "SignedInfo");
    BelowConcat(Below(a, "SignedInfo"), Below(b, "SignedInfo"), "Reference");
    FirstBadConcat(Below(Below(a, "SignedInfo"), "Reference"), Below(Below(b, "SignedInfo"), "Reference"));
  }

  function MessageSignatures(c: Crypto, root: Node, x: Node, message: bool): seq<Node>
    requires SamlId(root).Some?
  {
    if message then [SigOf(c, Base(root, x))] else []
  }

  function AssertionSignatures(c: Crypto, a: Node, signed: bool): seq<Node>
    requires SamlId(a).Some?
  {
    if signed then [SigOf(c, a)] else []
  }

  lemma DocCandidates(c: Crypto, root: Node, a: Node, x: Node, signed: bool, message: bool)
    requires Raw(root, a) && Payload(c, a, x, signed)
    ensures Candidates(Doc(c, root, x, message))
         == MessageSignatures(c, root, x, message) + AssertionSignatures(c, a, signed)
    ensures BadUri(Candidates(Doc(c, root, x, message))) == None
  {
    DocNamed(c, root, a, x, signed, message);
    BaseSigning(root, a, x);
    if x.local == "Assertion" {
      BelowOne(x, "Signature");
    } else {
      assert Below([], "Signature") == [];
      if signed {
        SignedKeeps(c, a);
        RawFacts(root, a);
      }
    }
    GoodUri(c, Base(root, x), SamlId(root).value);
    GoodUri(c, a, SamlId(a).value);
    assert BadUri([]) == None by { assert Below([], "SignedInfo") == [] && Below([], "Reference") == []; }
    BadUriConcat(MessageSignatures(c, root, x, message), AssertionSignatures(c, a, signed));
  }

  lemma TargetsMatch(ids: seq<string>, n: Node)
    ensures TargetMatches(IdTargets(ids), n) <==> SamlId(n).Some? && SamlId(n).value in ids
    ensures IdTargetMatches(IdTargets(ids), n) <==> SamlId(n).Some? && SamlId(n).value in ids
  {
    var targets := IdTargets(ids);
    forall t ensures t in targets <==> t.Id? && t.id in ids {
      InIdTargets(ids, t);
    }
    if SamlId(n).Some? && SamlId(n).value in ids {
      assert Id(SamlId(n).value) in targets;
      var i :| 0 <= i < |targets| && targets[i] == Id(SamlId(n).value);
      assert IsTargetOf(targets[i], n);
    }
    if TargetMatches(targets, n) {
      var i :| 0 <= i < |targets| && IsTargetOf(targets[i], n);
      assert targets[i] in targets;
    }
  }

  ghost predicate Evident(c: Crypto, d: Node, examine: Examination, content: Node, assertionCovered: bool,
                          responseCovered: bool) {
    var r := EmbeddedEvidence(c, d, examine);
    r.Ok? && r.value.verified && r.value.content == Some(content)
    && r.value.assertionCovered == assertionCovered && r.value.responseCovered == responseCovered
  }

  /** A signed document is verified. Its content is the assertion, or all of it when that is encrypted;
      the assertion and the response are covered as they were signed. */
  lemma DocEvidence(c: Crypto, root: Node, a: Node, x: Node, signed: bool, message: bool, examine: Examination)
    requires Raw(root, a) && Payload(c, a, x, signed) && (signed || message)
    requires Accepting(c, Doc(c, root, x, message), examine)
    ensures Evident(c, Doc(c, root, x, message), examine,
                    if x.local == "Assertion" then x else Doc(c, root, x, message),
                    signed && x.local == "Assertion", message)
  {
    var d, ids := Doc(c, root, x, message), SignedIds(root, a, signed, message);
    DocGuarded(c, root, a, x, signed, message);
    DocCandidates(c, root, a, x, signed, message);
    DocGenuine(c, root, a, x, signed, message);
    DocContent(c, root, a, x, signed, message);
    hide Raw, Payload, Doc, AllGenuine, AllSignable, Guarded, BadUri, Content, AssertionDirectlyCovered,
      ResponseCovered, EmbeddedEvidence, Accepting;
    EvidenceOfGenuine(c, d, ids, examine);
  }

  /** Content and coverage of a response from which references match. */
  lemma ContentOfResponse(d: Node, x: Node, targets: seq<Target>, signed: bool, message: bool)
    requires d.local == "Response" && (signed || message)
    requires TargetMatches(targets, d) <==> message
    requires x.local == "Assertion" ==> Assertions(d) == [x] && (IdTargetMatches(targets, x) <==> signed)
    requires x.local != "Assertion" ==> Assertions(d) == [] && HasChild(d, "EncryptedAssertion") && message
    ensures Content(d, targets) == Ok(Some(if x.local == "Assertion" then x else d))
    ensures AssertionDirectlyCovered(d, targets) <==> signed && x.local == "Assertion"
    ensures ResponseCovered(d, targets) <==> message
  {
    ResponseContains();
    hide Contains, TargetMatches, IdTargetMatches;
    if x.local == "Assertion" {
      AllOfOne(x, targets);
    }
  }

  lemma AllOfOne(x: Node, targets: seq<Target>)
    ensures AllByOwnId([x], targets) <==> IdTargetMatches(targets, x)
  {
    hide IdTargetMatches;
    assert [x][0] == x;
  }

  lemma SignedIdsHold(root: Node, a: Node, signed: bool, message: bool)
    requires SamlId(root).Some? && SamlId(a).Some? && SamlId(root) != SamlId(a)
    ensures var ids := SignedIds(root, a, signed, message);
            (SamlId(root).value in ids <==> message) && (SamlId(a).value in ids <==> signed)
  {
  }

  lemma PayloadId(c: Crypto, a: Node, x: Node, signed: bool)
    requires Signing(a) && a.local == "Assertion" && Payload(c, a, x, signed)
    ensures x.local == "Assertion" ==> SamlId(x) == SamlId(a)
    ensures x.local != "Assertion" ==> !signed
  {
    if signed {
      SignedKeeps(c, a);
    }
  }

  /** Which of the two elements the references of a document match. */
  lemma DocMatches(c: Crypto, root: Node, a: Node, x: Node, signed: bool, message: bool)
    requires Raw(root, a) && Payload(c, a, x, signed)
    ensures var d, targets := Doc(c, root, x, message), IdTargets(SignedIds(root, a, signed, message));
            && (TargetMatches(targets, d) <==> message)
            && (x.local == "Assertion" ==> (IdTargetMatches(targets, x) <==> signed))
            && (x.local != "Assertion" ==> !signed)
  {
    var d, ids := Doc(c, root, x, message), SignedIds(root, a, signed, message);
    RawFacts(root, a);
    DocNamed(c, root, a, x, signed, message);
    IdsDiffer(root, a);
    PayloadId(c, a, x, signed);
    hide TargetMatches, IdTargetMatches, IdTargets, Doc, Guarded, Unsigned, Nodes, Ids, Payload, SignedIds;
    SignedIdsHold(root, a, signed, message);
    TargetsMatch(ids, d);
    TargetsMatch(ids, x);
  }

  lemma DocContent(c: Crypto, root: Node, a: Node, x: Node, signed: bool, message: bool)
    requires Raw(root, a) && Payload(c, a, x, signed) && (signed || message)
    ensures var d, targets := Doc(c, root, x, message), IdTargets(SignedIds(root, a, signed, message));
            && Content(d, targets) == Ok(Some(if x.local == "Assertion" then x else d))
            && (AssertionDirectlyCovered(d, targets) <==> signed && x.local == "Assertion")
            && (ResponseCovered(d, targets) <==> message)
  {
    DocMatches(c, root, a, x, signed, message);
    DocNamed(c, root, a, x, signed, message);
    hide TargetMatches, IdTargetMatches, IdTargets, Doc, Raw, Payload, Content, AssertionDirectlyCovered,
      ResponseCovered;
    ContentOfResponse(Doc(c, root, x, message), x, IdTargets(SignedIds(root, a, signed, message)), signed, message);
  }
}
