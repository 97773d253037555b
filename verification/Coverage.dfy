/** Which content a verified signature covers, and that only covered content is returned. */
module Coverage {
  import opened Text
  import opened Dom
  import opened SamlIds

  const BEARER := "urn:oasis:names:tc:SAML:2.0:cm:bearer"

  datatype CoverageError = NotCovered | PotentialWrapping

  predicate IsTargetOf(target: Target, n: Node) {
    match target
    case WholeDocument => true
    case Id(id) => SamlId(n) == Some(id)
  }

  /** `target_matches_node`. */
  predicate TargetMatches(targets: seq<Target>, n: Node) {
    exists i :: 0 <= i < |targets| && IsTargetOf(targets[i], n)
  }

  /** `id_target_matches_node`. */
  predicate IdTargetMatches(targets: seq<Target>, n: Node) {
    exists i :: 0 <= i < |targets| && targets[i].Id? && IsTargetOf(targets[i], n)
  }

  predicate IsBearer(confirmation: Node) {
    confirmation.local == "SubjectConfirmation" && Attr(confirmation, "Method") == Some(BEARER)
  }

  predicate SubjectIsBearer(subject: Node) {
    subject.local == "Subject" && exists i :: 0 <= i < |subject.children| && IsBearer(subject.children[i])
  }

  /** `assertion_has_bearer_confirmation`. */
  predicate HasBearer(assertion: Node) {
    exists i :: 0 <= i < |assertion.children| && SubjectIsBearer(assertion.children[i])
  }

  function Assertions(root: Node): seq<Node> { ChildrenNamed(root, "Assertion") }

  predicate AllByOwnId(assertions: seq<Node>, targets: seq<Target>) {
    forall i :: 0 <= i < |assertions| ==> IdTargetMatches(targets, assertions[i])
  }

  /** `response_assertions_covered`. */
  predicate AssertionsCovered(root: Node, targets: seq<Target>) {
    Assertions(root) != [] && (TargetMatches(targets, root) || AllByOwnId(Assertions(root), targets))
  }

  /** The first bearer assertion, and the first of all when there is none. */
  function Chosen(assertions: seq<Node>): (r: Node)
    requires assertions != []
    ensures r in assertions
  {
    var i := FirstBearer(assertions);
    if i < |assertions| then assertions[i] else assertions[0]
  }

  /** The assertion chosen is a bearer assertion whenever there is one, and then the first. */
  lemma ChosenIsFirst(assertions: seq<Node>) returns (k: nat)
    requires assertions != []
    ensures k < |assertions| && Chosen(assertions) == assertions[k]
    ensures HasBearer(assertions[k]) <==> exists i :: 0 <= i < |assertions| && HasBearer(assertions[i])
    ensures forall i :: 0 <= i < k ==> !HasBearer(assertions[i])
    ensures !HasBearer(assertions[k]) ==> k == 0
  {
    k := if FirstBearer(assertions) < |assertions| then FirstBearer(assertions) else 0;
  }

  function FirstBearer(assertions: seq<Node>): (r: nat)
    ensures r <= |assertions| && (r < |assertions| ==> HasBearer(assertions[r]))
    ensures forall i :: 0 <= i < r ==> !HasBearer(assertions[i])
  {
    if assertions == [] || HasBearer(assertions[0]) then 0 else 1 + FirstBearer(assertions[1..])
  }

  predicate IsDescriptor(local: string) { local == "EntityDescriptor" || local == "EntitiesDescriptor" }

  predicate IsProtocolMessage(local: string) {
    local == "AuthnRequest" || local == "LogoutRequest" || local == "LogoutResponse"
  }

  predicate HasChild(n: Node, name: string) { ChildrenNamed(n, name) != [] }

  /** `verified_root_content`. */
  function RootContent(root: Node, targets: seq<Target>): Result<Option<Node>, CoverageError> {
    if TargetMatches(targets, root) then Ok(Some(root)) else Err(NotCovered)
  }

  /** `verified_content`, returning the element whose source it returns. */
  function Content(root: Node, targets: seq<Target>): Result<Option<Node>, CoverageError> {
    if root.local == "Assertion" then RootContent(root, targets)
    else if Contains(root.local, "Response") && Assertions(root) != [] then
      if AssertionsCovered(root, targets) then Ok(Some(Chosen(Assertions(root))))
      else if |Assertions(root)| > 1 then Err(PotentialWrapping)
      else Err(NotCovered)
    else if Contains(root.local, "Response") && HasChild(root, "EncryptedAssertion") then RootContent(root, targets)
    else if IsDescriptor(root.local) then RootContent(root, targets)
    else if IsProtocolMessage(root.local) then RootContent(root, targets)
    else Ok(None)
  }

  /** `verified_targets_cover_accepted_content`. */
  predicate CoversAccepted(root: Node, targets: seq<Target>) {
    if root.local == "Assertion" then TargetMatches(targets, root)
    else if Contains(root.local, "Response") && Assertions(root) != [] then AssertionsCovered(root, targets)
    else if Contains(root.local, "Response") && HasChild(root, "EncryptedAssertion") then TargetMatches(targets, root)
    else if IsDescriptor(root.local) then TargetMatches(targets, root)
    else if IsProtocolMessage(root.local) then TargetMatches(targets, root)
    else false
  }

  /** `assertion_is_directly_covered`. */
  predicate AssertionDirectlyCovered(root: Node, targets: seq<Target>) {
    if root.local == "Assertion" then TargetMatches(targets, root)
    else Contains(root.local, "Response") && Assertions(root) != [] && AllByOwnId(Assertions(root), targets)
  }

  predicate ResponseCovered(root: Node, targets: seq<Target>) {
    Contains(root.local, "Response") && TargetMatches(targets, root)
  }

  /** The gate for signatures that are not evidence agrees with the content that would be returned. */
  lemma GateAgreesWithContent(root: Node, targets: seq<Target>)
    ensures CoversAccepted(root, targets) <==> Content(root, targets).Ok? && Content(root, targets).value.Some?
  {
  }

  /** A verified reference designates this element: the whole document, or the one element with its identifier. */
  ghost predicate Designated(root: Node, n: Node, targets: seq<Target>) {
    || (n == root && WholeDocument in targets)
    || (exists id :: id != "" && Id(id) in targets && OnlyNode(root, n, id))
  }

  ghost predicate AtMostOne(nodes: seq<Node>, id: string) {
    forall i, j | 0 <= i < |nodes| && 0 <= j < |nodes| && SamlId(nodes[i]) == Some(id) &&
        SamlId(nodes[j]) == Some(id) :: i == j
  }

  /** `n` is the only element of the document with the identifier `id`. */
  ghost predicate OnlyNode(root: Node, n: Node, id: string) {
    SamlId(n) == Some(id) && n in Nodes(root) && AtMostOne(Nodes(root), id)
  }

  ghost predicate NoEmptyId(targets: seq<Target>) {
    forall i :: 0 <= i < |targets| && targets[i].Id? ==> targets[i].id != ""
  }

  lemma TargetIsDesignation(root: Node, n: Node, target: Target, targets: seq<Target>)
    requires Repeat(Ids(root), {}) == None && NoEmptyId(targets) && target in targets
    requires n in Nodes(root) && IsTargetOf(target, n) && (target == WholeDocument ==> n == root)
    ensures Designated(root, n, targets)
  {
    if target.Id? {
      var k :| 0 <= k < |targets| && targets[k] == target;
      forall i: nat, j: nat | i < |Nodes(root)| && j < |Nodes(root)|
          && SamlId(Nodes(root)[i]) == Some(target.id) && SamlId(Nodes(root)[j]) == Some(target.id)
        ensures i == j
      {
        IdNamesOneElement(root, target.id, i, j);
      }
      assert OnlyNode(root, n, target.id);
    }
  }

  lemma RootIsNode(root: Node)
    ensures root in Nodes(root)
  {
    assert Nodes(root)[0] == root;
  }

  lemma {:induction false} ChildIsNode(ns: seq<Node>, n: Node)
    requires n in ns
    ensures n in AllNodes(ns)
  {
    if ns[0] == n {
      RootIsNode(n);
      assert n in Nodes(ns[0]);
    } else {
      ChildIsNode(ns[1..], n);
    }
  }

  lemma RootDesignated(root: Node, targets: seq<Target>)
    requires Repeat(Ids(root), {}) == None && NoEmptyId(targets) && TargetMatches(targets, root)
    ensures Designated(root, root, targets)
  {
    RootIsNode(root);
    var i :| 0 <= i < |targets| && IsTargetOf(targets[i], root);
    TargetIsDesignation(root, root, targets[i], targets);
  }

  lemma AssertionDesignated(root: Node, n: Node, targets: seq<Target>)
    requires Repeat(Ids(root), {}) == None && NoEmptyId(targets)
    requires n in Assertions(root) && IdTargetMatches(targets, n)
    ensures Designated(root, n, targets)
  {
    var k :| 0 <= k < |Assertions(root)| && Assertions(root)[k] == n;
    NamedAre(root.children, "Assertion", k);
    ChildIsNode(root.children, n);
    var i :| 0 <= i < |targets| && targets[i].Id? && IsTargetOf(targets[i], n);
    TargetIsDesignation(root, n, targets[i], targets);
  }

  /** What is returned is the root or a direct assertion, and a verified reference designates it or
      the root around it; next to it no assertion is left without cover. */
  lemma ReturnedContentIsCovered(root: Node, targets: seq<Target>)
    requires Repeat(Ids(root), {}) == None && NoEmptyId(targets)
    requires Content(root, targets).Ok? && Content(root, targets).value.Some?
    ensures var n := Content(root, targets).value.value;
            && (n == root || (n in root.children && n.local == "Assertion"))
            && (Designated(root, root, targets) || Designated(root, n, targets))
            && (n != root && !Designated(root, root, targets) ==>
                  forall a :: a in root.children && a.local == "Assertion" ==> Designated(root, a, targets))
  {
    var n := Content(root, targets).value.value;
    if TargetMatches(targets, root) {
      RootDesignated(root, targets);
    }
    if root.local != "Assertion" && Contains(root.local, "Response") && Assertions(root) != [] {
      var k :| 0 <= k < |Assertions(root)| && Assertions(root)[k] == n;
      NamedAre(root.children, "Assertion", k);
      if !TargetMatches(targets, root) {
        forall a | a in root.children && a.local == "Assertion" ensures Designated(root, a, targets) {
          NamedHas(root.children, "Assertion", a);
          AssertionDesignated(root, a, targets);
        }
      }
    }
  }

  // Only the set of targets matters.

  ghost predicate SameTargets(a: seq<Target>, b: seq<Target>) {
    forall t :: t in a <==> t in b
  }

  lemma SameMatches(a: seq<Target>, b: seq<Target>, n: Node)
    requires SameTargets(a, b)
    ensures TargetMatches(a, n) <==> TargetMatches(b, n)
    ensures IdTargetMatches(a, n) <==> IdTargetMatches(b, n)
  {
    if TargetMatches(a, n) {
      var i :| 0 <= i < |a| && IsTargetOf(a[i], n);
      assert a[i] in b;
    }
    if TargetMatches(b, n) {
      var i :| 0 <= i < |b| && IsTargetOf(b[i], n);
      assert b[i] in a;
    }
    if IdTargetMatches(a, n) {
      var i :| 0 <= i < |a| && a[i].Id? && IsTargetOf(a[i], n);
      assert a[i] in b;
    }
    if IdTargetMatches(b, n) {
      var i :| 0 <= i < |b| && b[i].Id? && IsTargetOf(b[i], n);
      assert b[i] in a;
    }
  }

  /** Content and coverage depend on which targets there are, not on their order or number. */
  lemma SameCoverage(root: Node, a: seq<Target>, b: seq<Target>)
    requires SameTargets(a, b)
    ensures Content(root, a) == Content(root, b)
    ensures AssertionDirectlyCovered(root, a) <==> AssertionDirectlyCovered(root, b)
    ensures ResponseCovered(root, a) <==> ResponseCovered(root, b)
  {
    hide TargetMatches, IdTargetMatches, Contains;
    SameMatches(a, b, root);
    forall n ensures IdTargetMatches(a, n) <==> IdTargetMatches(b, n) {
      SameMatches(a, b, n);
    }
    assert AllByOwnId(Assertions(root), a) <==> AllByOwnId(Assertions(root), b);
  }
}
