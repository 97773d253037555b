/** A response as the default template spells it is one the pipeline results are about, whatever its values. */
module PipelineTemplate {
  import opened Text
  import opened Dom
  import opened SamlIds
  import opened Coverage
  import opened SignatureGuards
  import opened Pipeline
  import opened PipelineShapes
  import opened PipelineEvidence
  import opened PipelineDocuments

  /** The values of the template's placeholders. */
  datatype Values = Values(
    id: string, assertionId: string, issueInstant: string, destination: string, inResponseTo: string, issuer: string,
    status: string, nameIdFormat: string, nameId: string, notBefore: string, notOnOrAfter: string, recipient: string,
    audience: string)

  function Leaf(local: string, attributes: seq<(string, string)>, text: string): Node {
    Node(local, attributes, text, [], 0, 0)
  }

  function IssuerOf(v: Values): Node { Leaf("Issuer", [], v.issuer) }

  function StatusOf(v: Values): Node { Made("Status", [], [Leaf("StatusCode", [("Value", v.status)], "")]) }

  function DataOf(v: Values): Node {
    Leaf("SubjectConfirmationData",
         [("NotOnOrAfter", v.notOnOrAfter), ("Recipient", v.recipient), ("InResponseTo", v.inResponseTo)], "")
  }

  function ConfirmationOf(v: Values): Node { Made("SubjectConfirmation", [("Method", BEARER)], [DataOf(v)]) }

  function SubjectOf(v: Values): Node {
    Made("Subject", [], [Leaf("NameID", [("Format", v.nameIdFormat)], v.nameId), ConfirmationOf(v)])
  }

  function ConditionsOf(v: Values): Node {
    Made("Conditions", [("NotBefore", v.notBefore), ("NotOnOrAfter", v.notOnOrAfter)],
         [Made("AudienceRestriction", [], [Leaf("Audience", [], v.audience)])])
  }

  function AssertionOf(v: Values): Node {
    Made("Assertion", [("ID", v.assertionId), ("Version", "2.0"), ("IssueInstant", v.issueInstant)],
         [IssuerOf(v), SubjectOf(v), ConditionsOf(v)])
  }

  function ResponseOf(v: Values): Node {
    Made("Response",
         [("ID", v.id), ("Version", "2.0"), ("IssueInstant", v.issueInstant), ("Destination", v.destination),
          ("InResponseTo", v.inResponseTo)],
         [IssuerOf(v), StatusOf(v), AssertionOf(v)])
  }

  // Its elements.

  ghost predicate AllUnsigned(ns: seq<Node>) { forall i :: 0 <= i < |ns| ==> Unsigned(ns[i]) }

  lemma ParentUnsigned(n: Node)
    requires !IsSignature(n) && AllUnsigned(n.children)
    ensures Unsigned(n)
  {
    forall m | m in Nodes(n) ensures !IsSignature(m) {
      if m != n {
        NodesOfMade(n, m);
        var i :| 0 <= i < |n.children| && m in Nodes(n.children[i]);
        assert Unsigned(n.children[i]);
      }
    }
  }

  /** No identifier, and no signature, at or below the element. */
  ghost predicate Bland(n: Node) { Ids(n) == [] && Unsigned(n) }

  ghost predicate AllBland(ns: seq<Node>) { forall i :: 0 <= i < |ns| ==> Bland(ns[i]) }

  lemma {:induction false} BlandIds(ns: seq<Node>)
    requires AllBland(ns)
    ensures AllIds(ns) == [] && AllUnsigned(ns)
  {
    if ns != [] {
      hide Ids, Unsigned;
      assert Bland(ns[0]);
      BlandIds(ns[1..]);
      assert AllUnsigned(ns[1..]);
      forall i | 0 <= i < |ns| ensures Unsigned(ns[i]) {
        assert Bland(ns[i]);
      }
    }
  }

  lemma BlandParent(n: Node)
    requires OwnIds(n.attributes) == [] && !IsSignature(n) && AllBland(n.children)
    ensures Bland(n)
  {
    hide Unsigned, AllIds, OwnIds;
    BlandIds(n.children);
    ParentUnsigned(n);
  }

  lemma NoOwnIds(attributes: seq<(string, string)>)
    requires forall i :: 0 <= i < |attributes| ==> !IsIdName(attributes[i].0)
    ensures OwnIds(attributes) == []
  {
    if attributes != [] {
      NoOwnIds(attributes[1..]);
    }
  }

  lemma PlainBland(n: Node)
    requires (forall i :: 0 <= i < |n.attributes| ==> !IsIdName(n.attributes[i].0)) && !IsSignature(n) &&
        AllBland(n.children)
    ensures Bland(n)
  {
    hide Bland, OwnIds;
    NoOwnIds(n.attributes);
    BlandParent(n);
  }

  lemma PartsBland(v: Values)
    ensures Bland(IssuerOf(v)) && Bland(StatusOf(v)) && Bland(SubjectOf(v)) && Bland(ConditionsOf(v))
  {
    hide Bland;
    PlainBland(IssuerOf(v));
    PlainBland(StatusOf(v).children[0]);
    PlainBland(StatusOf(v));
    PlainBland(DataOf(v));
    PlainBland(ConfirmationOf(v));
    PlainBland(SubjectOf(v).children[0]);
    PlainBland(SubjectOf(v));
    PlainBland(ConditionsOf(v).children[0].children[0]);
    PlainBland(ConditionsOf(v).children[0]);
    PlainBland(ConditionsOf(v));
  }

  // Its identifiers.

  lemma FirstIsId(attributes: seq<(string, string)>, id: string)
    requires attributes != [] && attributes[0] == ("ID", id) && id != ""
    requires forall i :: 1 <= i < |attributes| ==> !IsIdName(attributes[i].0)
    ensures OwnIds(attributes) == [id]
  {
    NoOwnIds(attributes[1..]);
  }

  lemma AssertionIds(v: Values)
    requires v.assertionId != ""
    ensures Ids(AssertionOf(v)) == [v.assertionId] && Unsigned(AssertionOf(v)) &&
        SamlId(AssertionOf(v)) == Some(v.assertionId)
  {
    hide Bland, Ids, AllIds, OwnIds, Unsigned, IssuerOf, SubjectOf, ConditionsOf;
    var a := AssertionOf(v);
    PartsBland(v);
    BlandIds(a.children);
    ParentUnsigned(a);
    FirstIsId(a.attributes, v.assertionId);
    IdsAre(a);
  }

  lemma IdsAre(n: Node)
    ensures Ids(n) == OwnIds(n.attributes) + AllIds(n.children)
  {
  }

  lemma BlandHasNoIds(n: Node)
    requires Bland(n)
    ensures Ids(n) == [] && Unsigned(n)
  {
  }

  lemma ResponseIds(v: Values)
    requires v.id != "" && v.assertionId != ""
    ensures Ids(ResponseOf(v)) == [v.id, v.assertionId] && Unsigned(ResponseOf(v)) &&
        SamlId(ResponseOf(v)) == Some(v.id)
  {
    hide Bland, Ids, AllIds, OwnIds, Unsigned, IssuerOf, StatusOf, AssertionOf;
    var r := ResponseOf(v);
    PartsBland(v);
    BlandHasNoIds(IssuerOf(v));
    BlandHasNoIds(StatusOf(v));
    AssertionIds(v);
    ParentUnsigned(r);
    FirstIsId(r.attributes, v.id);
    IdsAre(r);
    assert r.children == [IssuerOf(v)] + ([StatusOf(v)] + ([AssertionOf(v)] + []));
    AllIdsCons(IssuerOf(v), [StatusOf(v)] + ([AssertionOf(v)] + []));
    AllIdsCons(StatusOf(v), [AssertionOf(v)] + []);
    AllIdsCons(AssertionOf(v), []);
    NoIdsBelow();
  }

  lemma NoIdsBelow()
    ensures AllIds([]) == []
  {
  }

  // Its children by name.

  lemma ThreeNamed(a: Node, b: Node, c: Node, name: string)
    ensures Named([a, b, c], name)
         == (if a.local == name then [a] else []) + (if b.local == name then [b] else [])
          + (if c.local == name then [c] else [])
  {
    var all := [a, b, c];
    assert all[1..] == [b, c] && [b, c][1..] == [c] && [c][1..] == [];
    assert Named([c], name) == (if c.local == name then [c] else []) + Named([], name);
    assert Named([b, c], name) == (if b.local == name then [b] else []) + Named([c], name);
  }

  lemma ResponseNamed(v: Values, name: string)
    ensures ChildrenNamed(ResponseOf(v), name)
         == (if name == "Issuer" then [IssuerOf(v)] else []) + (if name == "Status" then [StatusOf(v)] else [])
          + (if name == "Assertion" then [AssertionOf(v)] else [])
  {
    ThreeNamed(IssuerOf(v), StatusOf(v), AssertionOf(v), name);
  }

  lemma AssertionNamed(v: Values, name: string)
    ensures ChildrenNamed(AssertionOf(v), name)
         == (if name == "Issuer" then [IssuerOf(v)] else []) + (if name == "Subject" then [SubjectOf(v)] else [])
          + (if name == "Conditions" then [ConditionsOf(v)] else [])
  {
    ThreeNamed(IssuerOf(v), SubjectOf(v), ConditionsOf(v), name);
  }

  lemma OneBelow(n: Node, name: string)
    ensures Below([n], name) == ChildrenNamed(n, name)
  {
    assert [n][1..] == [];
  }

  lemma SubjectNamed(v: Values)
    ensures ChildrenNamed(SubjectOf(v), "SubjectConfirmation") == [ConfirmationOf(v)]
    ensures ChildrenNamed(ConfirmationOf(v), "SubjectConfirmationData") == [DataOf(v)]
  {
    var nameId, confirmation := SubjectOf(v).children[0], ConfirmationOf(v);
    assert SubjectOf(v).children == [nameId, confirmation];
    assert [nameId, confirmation][1..] == [confirmation] && [confirmation][1..] == [] && [DataOf(v)][1..] == [];
    assert Named([confirmation], "SubjectConfirmation") == [confirmation] + Named([], "SubjectConfirmation");
    assert Named([DataOf(v)], "SubjectConfirmationData") == [DataOf(v)] + Named([], "SubjectConfirmationData");
  }

  /** Nothing stands under its confirmation data. */
  lemma NotWrapping(v: Values)
    ensures !WrappingDetected(ResponseOf(v))
  {
    hide ChildrenNamed, Below, ConfirmationOf, DataOf, SubjectOf, AssertionOf, ResponseOf;
    ResponseNamed(v, "Assertion");
    AssertionNamed(v, "Subject");
    SubjectNamed(v);
    OneBelow(AssertionOf(v), "Subject");
    OneBelow(SubjectOf(v), "SubjectConfirmation");
    OneBelow(ConfirmationOf(v), "SubjectConfirmationData");
    NoDescendant(v);
    assert ChildrenNamed(ResponseOf(v), "Assertion") == [AssertionOf(v)];
    assert ChildrenNamed(AssertionOf(v), "Subject") == [SubjectOf(v)];
  }

  lemma NoDescendant(v: Values)
    ensures !AnyHasDescendant([DataOf(v)])
  {
    assert [DataOf(v)][1..] == [];
  }

  /** The response of the default template, with any values that give its two elements different identifiers which
      a reference can name. */
  lemma ARawResponse(v: Values)
    requires Signable(v.id) && Signable(v.assertionId) && v.id != v.assertionId
    ensures Raw(ResponseOf(v), AssertionOf(v)) && HasBearer(AssertionOf(v))
    ensures ChildrenNamed(AssertionOf(v), "EncryptedAssertion") == []
  {
    hide Ids, OwnIds, Unsigned, WrappingDetected, ChildrenNamed, Contains;
    ResponseIds(v);
    AssertionIds(v);
    ResponseNamed(v, "Assertion");
    ResponseNamed(v, "EncryptedAssertion");
    AssertionNamed(v, "EncryptedAssertion");
    IssuersFirst(v);
    PassesExactlyDistinct(ResponseOf(v));
    NotWrapping(v);
    BearerSubject(v);
  }

  lemma IssuersFirst(v: Values)
    ensures FirstChild(ResponseOf(v).children, "Issuer") == Some(IssuerOf(v))
    ensures FirstChild(AssertionOf(v).children, "Issuer") == Some(IssuerOf(v))
  {
  }

  lemma BearerSubject(v: Values)
    ensures HasBearer(AssertionOf(v))
  {
    assert IsBearer(ConfirmationOf(v));
    assert SubjectOf(v).children[1] == ConfirmationOf(v);
    assert SubjectIsBearer(SubjectOf(v));
    assert AssertionOf(v).children[1] == SubjectOf(v);
  }
}
