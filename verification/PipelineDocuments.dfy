/** The documents the pipeline makes of a response, and what they hold. */
module PipelineDocuments {
  import opened Text
  import opened Dom
  import opened SamlIds
  import opened Coverage
  import opened SignatureGuards
  import opened Pipeline
  import opened PipelineShapes
  import opened PipelineEvidence

  ghost predicate Unsigned(n: Node) { forall m :: m in Nodes(n) ==> !IsSignature(m) }

  /** An element that can be signed: it has an identifier and an issuer. */
  predicate Signing(n: Node) {
    SamlId(n).Some? && Signable(SamlId(n).value) && FirstChild(n.children, "Issuer").Some?
  }

  /** A response with one assertion, before anything is signed or encrypted. */
  ghost predicate Raw(root: Node, a: Node) {
    && root.local == "Response" && Signing(root) && Signing(a)
    && ChildrenNamed(root, "Assertion") == [a] && ChildrenNamed(root, "EncryptedAssertion") == []
    && Unsigned(root) && Guarded(root)
  }

  function SigOf(c: Crypto, n: Node): Node
    requires SamlId(n).Some?
  {
    SignatureFor(c, n, SamlId(n).value)
  }

  lemma NodesOfMade(n: Node, m: Node)
    requires m in Nodes(n) && m != n
    ensures exists i :: 0 <= i < |n.children| && m in Nodes(n.children[i])
  {
    InNodes(n, m);
  }

  lemma NodesOfSignature(c: Crypto, n: Node, id: string, m: Node)
    requires m in Nodes(SignatureFor(c, n, id)) && m != SignatureFor(c, n, id)
    ensures !IsSignature(m)
  {
    var s := SignatureFor(c, n, id);
    NodesOfMade(s, m);
    if m != s.children[0] && m in Nodes(s.children[0]) {
      NodesOfMade(s.children[0], m);
      var reference := s.children[0].children[0];
      if m != reference {
        NodesOfMade(reference, m);
      }
    } else if m != s.children[1] && m in Nodes(s.children[1]) {
      NodesOfMade(s.children[1], m);
    }
  }

  lemma LeafHasNoIds(local: string, name: string, value: string)
    requires !IsIdName(name)
    ensures Ids(Made(local, [(name, value)], [])) == []
  {
    var attributes := [(name, value)];
    assert attributes[1..] == [];
    assert OwnIds(attributes) == OwnIds(attributes[1..]);
  }

  lemma ParentHasNoIds(local: string, children: seq<Node>)
    requires AllIds(children) == []
    ensures Ids(Made(local, [], children)) == []
  {
    assert OwnIds([]) == [];
  }

  lemma OneHasNoIds(n: Node)
    requires Ids(n) == []
    ensures AllIds([n]) == []
  {
    assert [n] == [n] + [];
    AllIdsCons(n, []);
  }

  lemma TwoHaveNoIds(n: Node, m: Node)
    requires Ids(n) == [] && Ids(m) == []
    ensures AllIds([n, m]) == []
  {
    OneHasNoIds(m);
    assert [n, m] == [n] + [m];
    AllIdsCons(n, [m]);
  }

  lemma SignatureHasNoIds(c: Crypto, n: Node, id: string)
    ensures Ids(SignatureFor(c, n, id)) == []
  {
    hide Ids, AllIds;
    var reference := Made("Reference", [("URI", "#" + id)], []);
    var info := Made("SignedInfo", [], [reference]);
    var value := Made("SignatureValue", [("Value", c.sign(n))], []);
    LeafHasNoIds("Reference", "URI", "#" + id);
    OneHasNoIds(reference);
    ParentHasNoIds("SignedInfo", [reference]);
    LeafHasNoIds("SignatureValue", "Value", c.sign(n));
    TwoHaveNoIds(info, value);
    ParentHasNoIds("Signature", [info, value]);
  }

  lemma EncryptedHasNoIds(c: Crypto, a: Node, algorithm: string)
    ensures Ids(Encrypted(c, a, algorithm)) == []
  {
    hide Ids, AllIds;
    var algorithmNode := Made("EncryptionMethod", [("Algorithm", algorithm)], []);
    var cipher := Made("CipherData", [("Value", c.encrypt(a))], []);
    var data := Made("EncryptedData", [], [algorithmNode, cipher]);
    LeafHasNoIds("EncryptionMethod", "Algorithm", algorithm);
    LeafHasNoIds("CipherData", "Value", c.encrypt(a));
    TwoHaveNoIds(algorithmNode, cipher);
    ParentHasNoIds("EncryptedData", [algorithmNode, cipher]);
    OneHasNoIds(data);
    ParentHasNoIds("EncryptedAssertion", [data]);
  }

  lemma SecondChild(n: Node, m: Node)
    requires n.local != m.local
    ensures FirstChild([n, m], n.local) == Some(n) && FirstChild([n, m], m.local) == Some(m)
  {
    assert [n, m][1..] == [m];
    assert FirstChild([m], m.local) == Some(m);
  }

  lemma SignatureReads(c: Crypto, n: Node, id: string)
    ensures ReferenceUri(SignatureFor(c, n, id)) == Some("#" + id)
    ensures SignatureValue(SignatureFor(c, n, id)) == Some(c.sign(n))
  {
    var s := SignatureFor(c, n, id);
    SecondChild(s.children[0], s.children[1]);
    assert s.children == [s.children[0], s.children[1]];
  }

  lemma EncryptedIsUnsigned(c: Crypto, a: Node, algorithm: string)
    ensures Unsigned(Encrypted(c, a, algorithm))
  {
    var e := Encrypted(c, a, algorithm);
    var data := e.children[0];
    forall m | m in Nodes(e) ensures !IsSignature(m) {
      if m != e {
        NodesOfMade(e, m);
        if m != data {
          NodesOfMade(data, m);
          var i :| 0 <= i < 2 && m in Nodes(data.children[i]);
          if m != data.children[i] {
            NodesOfMade(data.children[i], m);
          }
        }
      }
    }
  }

  lemma UnsignedChild(n: Node, child: Node)
    requires Unsigned(n) && child in n.children
    ensures Unsigned(child) && !IsSignature(child)
  {
    var i :| 0 <= i < |n.children| && n.children[i] == child;
    forall m | m in Nodes(child) ensures !IsSignature(m) {
      InNodes(n, m);
    }
    RootIsNode(child);
  }

  lemma NoSignatureNamed(n: Node)
    requires Unsigned(n)
    ensures ChildrenNamed(n, "Signature") == []
  {
    if ChildrenNamed(n, "Signature") != [] {
      NamedAre(n.children, "Signature", 0);
      UnsignedChild(n, ChildrenNamed(n, "Signature")[0]);
    }
  }

  // Signing an element.

  lemma SignedKeeps(c: Crypto, n: Node)
    requires Signing(n)
    ensures var s := SignedNode(c, n);
            && s.local == n.local && s.attributes == n.attributes && SamlId(s) == SamlId(n)
            && Ids(s) == Ids(n) && SigOf(c, n) in s.children
  {
    SignatureHasNoIds(c, n, SamlId(n).value);
    AfterIssuerIds(n.children, SigOf(c, n));
    InAfterIssuer(n.children, SigOf(c, n), SigOf(c, n));
  }

  lemma SignedNamed(c: Crypto, n: Node, name: string)
    requires Signing(n)
    ensures name != "Signature" ==> ChildrenNamed(SignedNode(c, n), name) == ChildrenNamed(n, name)
    ensures name == "Signature" && ChildrenNamed(n, name) == [] ==>
        ChildrenNamed(SignedNode(c, n), name) == [SigOf(c, n)]
  {
    AfterIssuerNamed(n.children, SigOf(c, n), name);
  }

  /** The only signature of a signed element is the one that was made. */
  lemma OnlySignature(c: Crypto, n: Node)
    requires Signing(n) && Unsigned(n)
    ensures forall m :: m in Nodes(SignedNode(c, n)) && IsSignature(m) ==> m == SigOf(c, n)
  {
    var x, s := SignedNode(c, n), SigOf(c, n);
    forall m | m in Nodes(x) && IsSignature(m) ensures m == s {
      if m == x {
        RootIsNode(n);
      } else {
        NodesOfMade(x, m);
        var i :| 0 <= i < |x.children| && m in Nodes(x.children[i]);
        InAfterIssuer(n.children, s, x.children[i]);
        if x.children[i] == s {
          if m != s {
            NodesOfSignature(c, n, SamlId(n).value, m);
          }
        } else {
          UnsignedChild(n, x.children[i]);
        }
      }
    }
  }

  /** An element that can be signed by itself: no signature in it, and no identifier twice. */
  ghost predicate Lone(n: Node) { Signing(n) && Unsigned(n) && Repeat(Ids(n), {}) == None }

  /** The signature made for an element is genuine wherever its reference finds the signed element. */
  lemma SignedIsGenuine(c: Crypto, root: Node, n: Node)
    requires Signing(n) && ChildrenNamed(n, "Signature") == []
    requires FirstWithId(Nodes(root), SamlId(n).value) == Some(SignedNode(c, n))
    ensures Genuine(c, root, SigOf(c, n), SamlId(n).value)
  {
    hide FirstWithId, Nodes, ReferenceUri, SignatureValue;
    var s, id := SigOf(c, n), SamlId(n).value;
    SignatureReads(c, n, id);
    assert ("#" + id)[0] == '#' && ("#" + id)[1..] == id;
    if s in n.children {
      NamedHas(n.children, "Signature", s);
    }
    WithoutInserted(n.children, s);
    assert SignedNode(c, n).(children := n.children) == n;
  }

  lemma {:induction false} FoundFirst(ns: seq<Node>, id: string, n: Node)
    requires n in ns && SamlId(n) == Some(id)
    ensures FirstWithId(ns, id).Some? && SamlId(FirstWithId(ns, id).value) == Some(id) &&
        FirstWithId(ns, id).value in ns
  {
    if SamlId(ns[0]) != Some(id) {
      FoundFirst(ns[1..], id, n);
    }
  }

  /** Without repeated identifiers a reference finds the one element it names. */
  lemma FoundUnique(root: Node, id: string, n: Node)
    requires Repeat(Ids(root), {}) == None && id != "" && n in Nodes(root) && SamlId(n) == Some(id)
    ensures FirstWithId(Nodes(root), id) == Some(n)
  {
    FoundFirst(Nodes(root), id, n);
    var i :| 0 <= i < |Nodes(root)| && Nodes(root)[i] == n;
    var j :| 0 <= j < |Nodes(root)| && Nodes(root)[j] == FirstWithId(Nodes(root), id).value;
    IdNamesOneElement(root, id, i, j);
  }

  lemma SomewhereBelow(ns: seq<Node>, n: Node)
    requires n in ns
    ensures exists i: nat :: i < |AllNodes(ns)| && AllNodes(ns)[i] == n
  {
    ChildIsNode(ns, n);
  }

  /** The response and its assertion have different identifiers. */
  lemma IdsDiffer(root: Node, child: Node)
    requires Repeat(Ids(root), {}) == None && child in root.children
    requires SamlId(root).Some? && SamlId(root).value != "" && SamlId(child).Some?
    ensures SamlId(root) != SamlId(child)
  {
    SomewhereBelow(root.children, child);
    var i: nat :| i < |AllNodes(root.children)| && AllNodes(root.children)[i] == child;
    assert Nodes(root)[i + 1] == child && Nodes(root)[0] == root;
    if SamlId(root) == SamlId(child) {
      IdNamesOneElement(root, SamlId(root).value, 0, i + 1);
    }
  }
}
