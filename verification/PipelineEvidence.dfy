/** What verification finds in a document all of whose signatures are genuine. */
module PipelineEvidence {
  import opened Text
  import opened Dom
  import opened SamlIds
  import opened Coverage
  import opened SignatureVerdict
  import opened SignatureOrder
  import opened SignatureGuards
  import opened Pipeline

  /** An identifier that a reference by fragment can name. */
  predicate Signable(id: string) { id != "" && !("xpointer(" <= id) }

  /** A signature is valid exactly when it refers to an identifier by a fragment, the first element with it is there,
      and the signature value is that of this element without the signature. */
  lemma ValidExactlyWhen(c: Crypto, root: Node, s: Node, position: nat)
    ensures Judged(c, root, s, position).Valid? <==>
              exists id, target :: ReferenceUri(s) == Some("#" + id) && FirstWithId(Nodes(root), id) == Some(target)
                && SignatureValue(s) == Some(c.sign(target.(children := Without(target.children, s))))
  {
    hide ReferenceUri, SignatureValue, FirstWithId, Nodes, Without;
    forall id: string | ReferenceUri(s) == Some("#" + id) ensures ("#" + id)[1..] == id {
    }
    if Judged(c, root, s, position).Valid? {
      var uri := ReferenceUri(s).value;
      assert uri == "#" + uri[1..];
    }
  }

  /** The signature is valid and refers to the element with this identifier. */
  ghost predicate Genuine(c: Crypto, root: Node, s: Node, id: string) {
    forall position {:trigger Judged(c, root, s, position)} ::
      Judged(c, root, s, position) == GenuineResult(id, PlaceOf(Nodes(root), id), position)
  }

  /** The result for a signature at `position` of the element with this identifier at `place`. */
  function GenuineResult(id: string, place: nat, position: nat): SignatureResult {
    Valid(position, [Reference("#" + id, true, Some(place))])
  }

  /** A signature element as the pipeline makes it. */
  ghost predicate IsMade(c: Crypto, s: Node) { exists target, id :: s == SignatureFor(c, target, id) }

  predicate StandsAt(root: Node, n: Node, position: nat) { position < |Nodes(root)| && Nodes(root)[position] == n }

  ghost predicate MadeAt(c: Crypto, root: Node, position: nat) {
    position < |Nodes(root)| && IsMade(c, Nodes(root)[position])
  }

  /** No signature of the document that the pipeline made and whose references are verified is found wanting. */
  ghost predicate Accepting(c: Crypto, root: Node, examine: Examination) {
    forall position, references ::
      MadeAt(c, root, position) && Targets(references).Ok? ==> examine(position, references).Ok?
  }

  predicate IsSignature(n: Node) { n.local == "Signature" }

  /** All signatures of the document are genuine, and they refer to these identifiers. */
  ghost predicate AllGenuine(c: Crypto, root: Node, ids: seq<string>) {
    && (forall n :: n in Nodes(root) && IsSignature(n) ==>
          IsMade(c, n) && exists id :: id in ids && Genuine(c, root, n, id))
    && (forall id :: id in ids ==> exists n :: n in Nodes(root) && IsSignature(n) && Genuine(c, root, n, id))
  }

  lemma {:induction false} JudgedIsOf(c: Crypto, root: Node, ns: seq<Node>, position: nat, r: SignatureResult)
    requires r in JudgedAmong(c, root, ns, position)
    requires position <= |Nodes(root)| && ns == Nodes(root)[position..]
    ensures exists n, p: nat :: StandsAt(root, n, p) && IsSignature(n) && r == Judged(c, root, n, p)
    decreases |ns|
  {
    hide Judged, Nodes;
    var own := if ns[0].local == "Signature" then [Judged(c, root, ns[0], position)] else [];
    if r in own {
      assert r == Judged(c, root, ns[0], position) && IsSignature(ns[0]) && StandsAt(root, ns[0], position);
    } else {
      assert ns[1..] == Nodes(root)[position + 1..];
      JudgedIsOf(c, root, ns[1..], position + 1, r);
    }
  }

  lemma {:induction false} JudgedHas(c: Crypto, root: Node, ns: seq<Node>, position: nat, n: Node)
    requires n in ns && IsSignature(n)
    ensures exists p: nat :: Judged(c, root, n, p) in JudgedAmong(c, root, ns, position)
    decreases |ns|
  {
    hide Judged;
    var rest := JudgedAmong(c, root, ns[1..], position + 1);
    if ns[0] == n {
      var r := Judged(c, root, n, position);
      assert ([r] + rest)[0] == r;
      assert r in JudgedAmong(c, root, ns, position);
    } else {
      JudgedHas(c, root, ns[1..], position + 1, n);
      var p: nat :| Judged(c, root, n, p) in rest;
      assert Judged(c, root, n, p) in JudgedAmong(c, root, ns, position);
    }
  }

  function IdTargets(ids: seq<string>): seq<Target> {
    if ids == [] then [] else [Id(ids[0])] + IdTargets(ids[1..])
  }

  lemma {:induction false} InIdTargets(ids: seq<string>, t: Target)
    ensures t in IdTargets(ids) <==> t.Id? && t.id in ids
  {
    if ids != [] {
      InIdTargets(ids[1..], t);
    }
  }

  ghost predicate AllSignable(ids: seq<string>) { forall id :: id in ids ==> Signable(id) }

  lemma GenuineTargets(id: string, place: nat, position: nat)
    requires Signable(id)
    ensures Targets(GenuineResult(id, place, position).references) == Ok([Id(id)])
  {
    hide TargetOf;
    FragmentTarget(id);
    var reference := Reference("#" + id, true, Some(place));
    assert reference.uri[0] == '#';
    assert ReferenceTarget(reference) == Ok(Id(id));
    assert [reference][1..] == [] && TargetsFrom([]) == Ok([]);
    assert TargetsFrom([reference]) == Ok([Id(id)] + []);
    assert [Id(id)] + [] == [Id(id)];
  }

  lemma GenuineSupplies(id: string, place: nat, position: nat, target: Target)
    requires Signable(id)
    ensures Supplies(GenuineResult(id, place, position), target) <==> target == Id(id)
  {
    hide Targets;
    GenuineTargets(id, place, position);
  }

  predicate GenuineFor(r: SignatureResult, id: string) {
    r.Valid? && |r.references| == 1 && r.references[0].resolved.Some?
    && r == GenuineResult(id, r.references[0].resolved.value, r.node)
  }

  ghost predicate FromGenuine(r: SignatureResult, ids: seq<string>) { exists id :: id in ids && GenuineFor(r, id) }

  lemma SignatureOf(c: Crypto, root: Node, r: SignatureResult) returns (n: Node, position: nat)
    requires r in JudgedAll(c, root)
    ensures StandsAt(root, n, position) && IsSignature(n) && r == Judged(c, root, n, position)
  {
    hide Judged, JudgedAmong, Nodes;
    assert Nodes(root)[0..] == Nodes(root);
    JudgedIsOf(c, root, Nodes(root), 0, r);
    n, position :| StandsAt(root, n, position) && IsSignature(n) && r == Judged(c, root, n, position);
  }

  lemma SignedId(c: Crypto, root: Node, ids: seq<string>, n: Node) returns (id: string)
    requires AllGenuine(c, root, ids) && n in Nodes(root) && IsSignature(n)
    ensures id in ids && Genuine(c, root, n, id) && IsMade(c, n)
  {
    hide Nodes, Genuine, IsMade;
    id :| id in ids && Genuine(c, root, n, id);
  }

  lemma ResultFromGenuine(c: Crypto, root: Node, ids: seq<string>, r: SignatureResult)
    requires AllGenuine(c, root, ids) && r in JudgedAll(c, root)
    ensures FromGenuine(r, ids) && MadeAt(c, root, r.node)
  {
    hide Judged, JudgedAmong, JudgedAll, Nodes, PlaceOf, Genuine, AllGenuine, IsMade;
    var n, position := SignatureOf(c, root, r);
    var id := SignedId(c, root, ids, n);
    JudgedGenuine(c, root, n, id, position);
    assert GenuineFor(r, id);
  }

  lemma JudgedGenuine(c: Crypto, root: Node, n: Node, id: string, position: nat)
    requires Genuine(c, root, n, id)
    ensures Judged(c, root, n, position) == GenuineResult(id, PlaceOf(Nodes(root), id), position)
  {
    hide Judged;
  }

  lemma FromGenuineSupplies(r: SignatureResult, ids: seq<string>)
    requires FromGenuine(r, ids) && AllSignable(ids)
    ensures Targets(r.references).Ok?
    ensures forall t :: Supplies(r, t) ==> t.Id? && t.id in ids
  {
    hide Supplies, Signable, Targets;
    var id :| id in ids && GenuineFor(r, id);
    var place, p := r.references[0].resolved.value, r.node;
    forall t | Supplies(r, t) ensures t == Id(id) {
      GenuineSupplies(id, place, p, t);
    }
    GenuineTargets(id, place, p);
  }

  lemma FromGenuineValid(r: SignatureResult, ids: seq<string>)
    requires FromGenuine(r, ids)
    ensures r.Valid?
  {
  }

  lemma IdIsSupplied(c: Crypto, root: Node, ids: seq<string>, id: string)
    requires AllGenuine(c, root, ids) && AllSignable(ids) && id in ids
    ensures Supplied(JudgedAll(c, root), Id(id))
  {
    hide Judged, Supplies, Signable, JudgedAmong, Nodes, IsMade;
    var n :| n in Nodes(root) && IsSignature(n) && Genuine(c, root, n, id);
    JudgedHas(c, root, Nodes(root), 0, n);
    var p: nat :| Judged(c, root, n, p) in JudgedAll(c, root);
    JudgedGenuine(c, root, n, id, p);
    hide Genuine;
    GenuineSupplies(id, PlaceOf(Nodes(root), id), p, Id(id));
    assert Supplies(Judged(c, root, n, p), Id(id));
  }

  /** The results of the signer's certificate: each is valid, and together they supply the identifiers. */
  lemma JudgedAllSupplies(c: Crypto, root: Node, ids: seq<string>, examine: Examination)
    requires AllGenuine(c, root, ids) && AllSignable(ids) && Accepting(c, root, examine)
    ensures AllSound(JudgedAll(c, root), examine)
    ensures forall r :: r in JudgedAll(c, root) ==> r.Valid?
    ensures forall t :: Supplied(JudgedAll(c, root), t) <==> t.Id? && t.id in ids
  {
    hide JudgedAll, Supplies, Targets, Signable, AllGenuine, FromGenuine, MadeAt;
    var results := JudgedAll(c, root);
    forall r | r in results ensures Sound(r, examine) && r.Valid? {
      ResultFromGenuine(c, root, ids, r);
      FromGenuineValid(r, ids);
      FromGenuineSupplies(r, ids);
    }
    forall t ensures Supplied(results, t) <==> t.Id? && t.id in ids {
      if Supplied(results, t) {
        var r :| r in results && Supplies(r, t);
        ResultFromGenuine(c, root, ids, r);
        FromGenuineSupplies(r, ids);
      }
      if t.Id? && t.id in ids {
        IdIsSupplied(c, root, ids, t.id);
      }
    }
  }

  /** The document gets past the guards and has a signature where one is looked for. */
  ghost predicate Presentable(root: Node) {
    Guarded(root) && Candidates(root) != [] && BadUri(Candidates(root)) == None
  }

  lemma OneOutcome(results: seq<SignatureResult>)
    ensures AllResults([Results(results)]) == results
  {
    assert [Results(results)][1..] == [];
    assert results + [] == results;
  }

  /** Verification of such a document: verified, with the content and coverage of the signed identifiers. */
  lemma EvidenceOfGenuine(c: Crypto, root: Node, ids: seq<string>, examine: Examination)
    requires Presentable(root) && AllGenuine(c, root, ids) && AllSignable(ids) && ids != []
    requires Accepting(c, root, examine)
    requires Content(root, IdTargets(ids)).Ok?
    ensures var r := EmbeddedEvidence(c, root, examine);
            && r.Ok? && r.value.verified
            && r.value.content == Content(root, IdTargets(ids)).value
            && r.value.assertionCovered == AssertionDirectlyCovered(root, IdTargets(ids))
            && r.value.responseCovered == ResponseCovered(root, IdTargets(ids))
  {
    hide Guarded, Candidates, BadUri, AllGenuine, Content, AssertionDirectlyCovered, ResponseCovered, PassAll,
      JudgedAll, NodesAddUp, Sorted, EvidenceOf, IdTargets, Supplied, Sound, Signable, Accepting;
    var results := JudgedAll(c, root);
    var outcomes := [Results(results)];
    OneOutcome(results);
    JudgedAllSupplies(c, root, ids, examine);
    StartAddsUp();
    PassAllAddsUp(START, [], outcomes, examine);
    assert [] + outcomes == outcomes;
    var p := PassAll(START, outcomes, examine).value;
    SuppliedNotEmpty(results, Id(ids[0]));
    assert outcomes[0] in outcomes && Loaded(outcomes[0]);
    assert StartsValid(outcomes[0]) by { assert results[0] in results; }
    forall t ensures t in p.gathered.targets <==> t in IdTargets(ids) {
      InIdTargets(ids, t);
    }
    assert Id(ids[0]) in p.gathered.targets;
    SameCoverage(root, p.gathered.targets, IdTargets(ids));
  }

  lemma SuppliedNotEmpty(results: seq<SignatureResult>, t: Target)
    requires Supplied(results, t)
    ensures results != []
  {
  }

  /** A guarded document without signatures is not verified, and that is no error. */
  lemma EvidenceOfUnsigned(c: Crypto, root: Node, examine: Examination)
    requires Guarded(root) && Candidates(root) == []
    ensures EmbeddedEvidence(c, root, examine) == Ok(UNVERIFIED)
  {
  }
}
