/** Verifying the XML signatures of a document against every pinned certificate. What one certificate
    makes of the document is an oracle; the loop over certificates and its verdict are modelled. */
module SignatureVerdict {
  import opened Text
  import opened Dom
  import opened SamlIds
  import opened Coverage

  /** A signed reference: its URI, whether its digest matched, and the element it resolved to, by position. */
  datatype Reference = Reference(uri: string, digestVerified: bool, resolved: Option<nat>)

  /** What the verifier says of one signature element, identified by its position. */
  datatype SignatureResult = Valid(node: nat, references: seq<Reference>) | Invalid

  /** What one certificate makes of the document. */
  datatype CertificateOutcome =
    | LoadFailed(reason: string)
    | Failed(reason: string)
    | Results(results: seq<SignatureResult>)

  /** Evidence that a verified signature covers the response or an assertion. */
  datatype Evidence = Evidence(algorithm: string, assertionCovered: bool, responseCovered: bool)

  datatype VerdictError =
    | Wrapping
    | CertificateMismatch
    | BadReference(reference: ReferenceError)
    | Refused(reason: string)
    | NoCertificate(loadError: Option<string>)
    | ContentNotCovered(coverage: CoverageError)

  type Found = (nat, Evidence)

  datatype Verification = Verification(
    verified: bool, content: Option<Node>, assertionCovered: bool, responseCovered: bool, evidence: seq<Evidence>)

  const UNVERIFIED := Verification(false, None, false, false, [])

  /** What is found out about one verified signature element and its references: the evidence, and whether it
      meets the profile that is asked for. */
  type Examination = (nat, seq<Reference>) -> Result<Option<Evidence>, VerdictError>

  function ReferenceTarget(r: Reference): Result<Target, ReferenceError> {
    if r.uri != "" && r.uri[0] != '#' then Err(External)
    else if !r.digestVerified then Err(BadDigest)
    else
      match TargetOf(r.uri)
      case Err(e) => Err(e)
      case Ok(target) => if target.Id? && r.resolved.None? then Err(Unresolved) else Ok(target)
  }

  function TargetsFrom(references: seq<Reference>): Result<seq<Target>, ReferenceError> {
    if references == [] then Ok([])
    else
      match ReferenceTarget(references[0])
      case Err(e) => Err(e)
      case Ok(target) =>
        match TargetsFrom(references[1..])
        case Err(e) => Err(e)
        case Ok(rest) => Ok([target] + rest)
  }

  /** The specification of `verified_targets`. */
  function Targets(references: seq<Reference>): Result<seq<Target>, ReferenceError> {
    if references == [] then Err(NoReference) else TargetsFrom(references)
  }

  /** `verified_targets`. */
  method VerifiedTargets(references: seq<Reference>) returns (r: Result<seq<Target>, ReferenceError>)
    ensures r == Targets(references)
  {
    if references == [] {
      return Err(NoReference);
    }
    var targets: seq<Target> := [];
    PrependedNothing(TargetsFrom(references));
    assert references[0..] == references;
    for i := 0 to |references|
      invariant TargetsFrom(references) == Prepended(targets, TargetsFrom(references[i..]))
    {
      assert references[i..][1..] == references[i + 1..];
      var target := ReferenceTarget(references[i]);
      if target.Err? {
        return Err(target.error);
      }
      PrependedTwice(targets, target.value, TargetsFrom(references[i + 1..]));
      targets := targets + [target.value];
    }
    assert TargetsFrom(references[|references|..]) == Ok([]);
    assert targets + [] == targets;
    r := Ok(targets);
  }

  function Prepended(front: seq<Target>, r: Result<seq<Target>, ReferenceError>): Result<seq<Target>, ReferenceError> {
    match r case Err(e) => Err(e) case Ok(back) => Ok(front + back)
  }

  lemma PrependedNothing(r: Result<seq<Target>, ReferenceError>)
    ensures Prepended([], r) == r
  {
    if r.Ok? {
      assert [] + r.value == r.value;
    }
  }

  lemma PrependedTwice(front: seq<Target>, target: Target, r: Result<seq<Target>, ReferenceError>)
    ensures Prepended(front, Prepended([target], r)) == Prepended(front + [target], r)
  {
    if r.Ok? {
      Regroup(front, [target], r.value);
    }
  }

  /** What is wrong with a reference, in this order: it leaves the document, its digest did not match, its URI is
      none of the known forms, or it names an identifier and resolved to nothing. */
  lemma ReferenceErrors(r: Reference)
    ensures var local := r.uri == "" || r.uri[0] == '#'; var whole := r.uri == "" || r.uri == "#xpointer(/)";
            && (ReferenceTarget(r) == Err(External) <==> !local)
            && (ReferenceTarget(r) == Err(BadDigest) <==> local && !r.digestVerified)
            && (ReferenceTarget(r) == Err(Unsupported) <==>
                  local && r.digestVerified && !whole && forall id :: !Spells(r.uri, id))
            && (ReferenceTarget(r) == Err(Unresolved) <==>
                  r.digestVerified && r.resolved == None && exists id :: Spells(r.uri, id))
            && (ReferenceTarget(r) == Ok(WholeDocument) <==> r.digestVerified && whole)
            && (forall id :: ReferenceTarget(r) == Ok(Id(id)) <==>
                  r.digestVerified && r.resolved.Some? && Spells(r.uri, id))
  {
    hide TargetOf;
    forall id
      ensures TargetOf(r.uri) == Ok(Id(id)) <==> Spells(r.uri, id)
      ensures TargetOf(r.uri) == Ok(WholeDocument) <==> r.uri == "" || r.uri == "#xpointer(/)"
      ensures TargetOf(r.uri).Err? <==> r.uri != "" && r.uri != "#xpointer(/)" && forall name :: !Spells(r.uri, name)
      ensures TargetOf(r.uri).Err? ==> TargetOf(r.uri).error == if r.uri[0] != '#' then External else Unsupported
    {
      UrisAndTargets(r.uri, id);
    }
    UrisAndTargets(r.uri, "");
  }

  /** Every target is a reference that resolved, with a digest that matched, and no identifier is empty. */
  lemma {:induction false} TargetsAreSound(references: seq<Reference>)
    requires TargetsFrom(references).Ok?
    ensures var targets := TargetsFrom(references).value;
            && |targets| == |references| && NoEmptyId(targets)
            && forall i :: 0 <= i < |targets| ==>
                 references[i].digestVerified && Ok(targets[i]) == TargetOf(references[i].uri)
                 && (targets[i].Id? ==> references[i].resolved.Some?)
  {
    if references != [] {
      TargetsAreSound(references[1..]);
      var targets, rest := TargetsFrom(references).value, TargetsFrom(references[1..]).value;
      assert targets == [ReferenceTarget(references[0]).value] + rest;
      forall i | 0 <= i < |targets|
        ensures references[i].digestVerified && Ok(targets[i]) == TargetOf(references[i].uri)
                && (targets[i].Id? ==> references[i].resolved.Some? && targets[i].id != "")
      {
        if i > 0 {
          assert targets[i] == rest[i - 1] && references[i] == references[1..][i - 1];
        }
      }
    }
  }

  // The loop.

  /** What the results so far add up to. */
  datatype Gathered = Gathered(triedInvalid: bool, targets: seq<Target>, nodes: set<nat>, evidence: seq<Found>)

  /** The state of the loop over certificates. */
  datatype Progress = Progress(haveKey: bool, loadError: Option<string>, lastError: Option<string>, first: bool,
                               gathered: Gathered)

  const NOTHING := Gathered(false, [], {}, [])
  const START := Progress(false, None, None, false, NOTHING)

  function Gather(g: Gathered, result: SignatureResult, examine: Examination): Result<Gathered, VerdictError> {
    match result
    case Invalid => Ok(g.(triedInvalid := true))
    case Valid(node, references) =>
      match Targets(references)
      case Err(e) => Err(BadReference(e))
      case Ok(targets) =>
        var next := g.(targets := g.targets + targets, nodes := g.nodes + {node});
        if node in g.nodes then Ok(next)
        else
          match examine(node, references)
          case Err(e) => Err(e)
          case Ok(None) => Ok(next)
          case Ok(Some(evidence)) => Ok(next.(evidence := g.evidence + [(node, evidence)]))
  }

  function GatherAll(g: Gathered, results: seq<SignatureResult>, examine: Examination): Result<Gathered, VerdictError>
    decreases |results|
  {
    if results == [] then Ok(g)
    else
      match Gather(g, results[0], examine)
      case Err(e) => Err(e)
      case Ok(next) => GatherAll(next, results[1..], examine)
  }

  function Earlier<T>(first: Option<T>, later: T): Option<T> { if first.Some? then first else Some(later) }

  function Pass(p: Progress, outcome: CertificateOutcome, examine: Examination): Result<Progress, VerdictError> {
    match outcome
    case LoadFailed(reason) => Ok(p.(loadError := Earlier(p.loadError, reason)))
    case Failed(reason) => Ok(p.(haveKey := true, lastError := Some(reason)))
    case Results(results) =>
      match GatherAll(p.gathered, results, examine)
      case Err(e) => Err(e)
      case Ok(g) => Ok(p.(haveKey := true, first := p.first || (results != [] && results[0].Valid?), gathered := g))
  }

  function PassAll(p: Progress, outcomes: seq<CertificateOutcome>, examine: Examination): Result<Progress, VerdictError>
    decreases |outcomes|
  {
    if outcomes == [] then Ok(p)
    else
      match Pass(p, outcomes[0], examine)
      case Err(e) => Err(e)
      case Ok(next) => PassAll(next, outcomes[1..], examine)
  }

  function Inserted(f: Found, sorted: seq<Found>): seq<Found> {
    if sorted == [] || f.0 <= sorted[0].0 then [f] + sorted else [sorted[0]] + Inserted(f, sorted[1..])
  }

  /** `sort_by_key` on the position of the signature. */
  function Sorted(found: seq<Found>): seq<Found> {
    if found == [] then [] else Inserted(found[0], Sorted(found[1..]))
  }

  function EvidenceOf(found: seq<Found>): seq<Evidence> {
    if found == [] then [] else [found[0].1] + EvidenceOf(found[1..])
  }

  /** The verdict after the loop. */
  function Conclusion(root: Node, p: Progress): Result<Verification, VerdictError> {
    if !p.haveKey then Err(NoCertificate(p.loadError))
    else if p.first && p.gathered.targets != [] then
      match Content(root, p.gathered.targets)
      case Err(e) => Err(ContentNotCovered(e))
      case Ok(content) =>
        Ok(Verification(true, content, AssertionDirectlyCovered(root, p.gathered.targets),
                        ResponseCovered(root, p.gathered.targets), EvidenceOf(Sorted(p.gathered.evidence))))
    else if p.lastError.Some? && !p.gathered.triedInvalid then Err(Refused(p.lastError.value))
    else Ok(UNVERIFIED)
  }

  function Verdict(root: Node, outcomes: seq<CertificateOutcome>, examine: Examination)
    : Result<Verification, VerdictError>
  {
    match PassAll(START, outcomes, examine)
    case Err(e) => Err(e)
    case Ok(p) => Conclusion(root, p)
  }

  /** The inner loop: the signatures one certificate judged. */
  method TakeResults(g: Gathered, results: seq<SignatureResult>, examine: Examination)
    returns (r: Result<Gathered, VerdictError>)
    ensures r == GatherAll(g, results, examine)
  {
    hide Targets;
    var triedInvalid, targets, nodes, evidence := g.triedInvalid, g.targets, g.nodes, g.evidence;
    for i := 0 to |results|
      invariant GatherAll(g, results, examine)
             == GatherAll(Gathered(triedInvalid, targets, nodes, evidence), results[i..], examine)
    {
      assert results[i..][1..] == results[i + 1..];
      match results[i] {
        case Invalid =>
          triedInvalid := true;
        case Valid(node, references) =>
          var found := VerifiedTargets(references);
          if found.Err? {
            return Err(BadReference(found.error));
          }
          if node !in nodes {
            nodes := nodes + {node};
            var examined := examine(node, references);
            if examined.Err? {
              return Err(examined.error);
            }
            if examined.value.Some? {
              evidence := evidence + [(node, examined.value.value)];
            }
          } else {
            assert nodes + {node} == nodes;
          }
          targets := targets + found.value;
      }
    }
    r := Ok(Gathered(triedInvalid, targets, nodes, evidence));
  }

  /** The certificate loop and verdict of `verify_signatures_detailed_with_profile`. */
  method TryCertificates(root: Node, outcomes: seq<CertificateOutcome>, examine: Examination)
    returns (r: Result<Verification, VerdictError>)
    ensures r == Verdict(root, outcomes, examine)
  {
    hide GatherAll, Sorted, EvidenceOf;
    var haveKey, first := false, false;
    var loadError: Option<string>, lastError: Option<string> := None, None;
    var gathered := NOTHING;
    for i := 0 to |outcomes|
      invariant PassAll(START, outcomes, examine)
             == PassAll(Progress(haveKey, loadError, lastError, first, gathered), outcomes[i..], examine)
    {
      assert outcomes[i..][1..] == outcomes[i + 1..];
      match outcomes[i] {
        case LoadFailed(reason) =>
          if loadError.None? {
            loadError := Some(reason);
          }
        case Failed(reason) =>
          haveKey := true;
          lastError := Some(reason);
        case Results(results) =>
          haveKey := true;
          first := first || (results != [] && results[0].Valid?);
          var next := TakeResults(gathered, results, examine);
          if next.Err? {
            return Err(next.error);
          }
          gathered := next.value;
      }
    }
    r := Conclusion(root, Progress(haveKey, loadError, lastError, first, gathered));
  }
}
