/** The verdict on a document's signatures depends on which outcomes the pinned certificates have,
    not on their order or number, and not on certificates that cannot be loaded. */
module SignatureOrder {
  import opened Text
  import opened Dom
  import opened SamlIds
  import opened Coverage
  import opened SignatureVerdict

  /** All signature results of a run, in the order they are met. */
  function AllResults(outcomes: seq<CertificateOutcome>): seq<SignatureResult> {
    if outcomes == [] then []
    else (if outcomes[0].Results? then outcomes[0].results else []) + AllResults(outcomes[1..])
  }

  /** Its references are sound. */
  predicate Targeted(result: SignatureResult) { result.Valid? ==> Targets(result.references).Ok? }

  ghost predicate AllTargeted(results: seq<SignatureResult>) { forall r :: r in results ==> Targeted(r) }

  /** The references found for each signature element. */
  type References = nat -> seq<Reference>

  /** What a signature refers to does not depend on the certificate that verified it. */
  ghost predicate Consistent(results: seq<SignatureResult>, refs: References) {
    forall r :: r in results && r.Valid? ==> r.references == refs(r.node)
  }

  ghost predicate Sound(result: SignatureResult, examine: Examination) {
    result.Valid? ==> Targets(result.references).Ok? && examine(result.node, result.references).Ok?
  }

  ghost predicate AllSound(results: seq<SignatureResult>, examine: Examination) {
    forall r :: r in results ==> Sound(r, examine)
  }

  predicate Supplies(result: SignatureResult, target: Target) {
    match result
    case Invalid => false
    case Valid(_, references) =>
      match Targets(references)
      case Ok(targets) => target in targets
      case Err(_) => false
  }

  ghost predicate Supplied(results: seq<SignatureResult>, target: Target) {
    exists r :: r in results && Supplies(r, target)
  }

  predicate IsAt(result: SignatureResult, node: nat) { result.Valid? && result.node == node }

  ghost predicate Occurs(results: seq<SignatureResult>, node: nat) {
    exists r :: r in results && IsAt(r, node)
  }

  ghost predicate TargetsAddUp(targets: seq<Target>, results: seq<SignatureResult>) {
    forall t :: t in targets <==> Supplied(results, t)
  }

  ghost predicate NodesAddUp(nodes: set<nat>, results: seq<SignatureResult>) {
    forall n: nat :: n in nodes <==> Occurs(results, n)
  }

  ghost predicate EvidenceAddsUp(found: seq<Found>, nodes: set<nat>, examine: Examination, refs: References) {
    forall f :: f in found <==> f.0 in nodes && examine(f.0, refs(f.0)) == Ok(Some(f.1))
  }

  ghost predicate OncePerNode(found: seq<Found>) {
    forall i, j :: 0 <= i < j < |found| ==> found[i].0 != found[j].0
  }

  /** The state is what these results add up to, whatever their order. */
  ghost predicate AddsUp(g: Gathered, results: seq<SignatureResult>) {
    (g.triedInvalid <==> Invalid in results) && TargetsAddUp(g.targets, results) && NodesAddUp(g.nodes, results)
  }

  /** So is the evidence, when what a signature refers to does not depend on the certificate. */
  ghost predicate Evidenced(g: Gathered, examine: Examination, refs: References) {
    EvidenceAddsUp(g.evidence, g.nodes, examine, refs) && OncePerNode(g.evidence)
  }

  lemma SuppliedSnoc(results: seq<SignatureResult>, result: SignatureResult, target: Target)
    ensures Supplied(results + [result], target) <==> Supplied(results, target) || Supplies(result, target)
  {
    hide Supplies;
    var all := results + [result];
    assert result in all;
    if Supplied(results, target) {
      var r :| r in results && Supplies(r, target);
      assert r in all;
    }
  }

  lemma OccursSnoc(results: seq<SignatureResult>, result: SignatureResult, node: nat)
    ensures Occurs(results + [result], node) <==> Occurs(results, node) || IsAt(result, node)
  {
    var all := results + [result];
    assert result in all;
    if Occurs(results, node) {
      var r :| r in results && IsAt(r, node);
      assert r in all;
    }
  }

  lemma GatherTargets(g: Gathered, results: seq<SignatureResult>, result: SignatureResult, examine: Examination)
    requires TargetsAddUp(g.targets, results) && Gather(g, result, examine).Ok?
    ensures TargetsAddUp(Gather(g, result, examine).value.targets, results + [result])
  {
    hide Targets, Supplied;
    forall t
      ensures t in Gather(g, result, examine).value.targets <==> Supplied(results + [result], t)
    {
      SuppliedSnoc(results, result, t);
    }
  }

  lemma GatherNodes(g: Gathered, results: seq<SignatureResult>, result: SignatureResult, examine: Examination)
    requires NodesAddUp(g.nodes, results) && Gather(g, result, examine).Ok?
    ensures NodesAddUp(Gather(g, result, examine).value.nodes, results + [result])
  {
    hide Targets, Occurs;
    forall n: nat
      ensures n in Gather(g, result, examine).value.nodes <==> Occurs(results + [result], n)
    {
      OccursSnoc(results, result, n);
    }
  }

  /** One more result adds up. */
  lemma GatherAddsUp(g: Gathered, results: seq<SignatureResult>, result: SignatureResult, examine: Examination)
    requires AddsUp(g, results)
    ensures Gather(g, result, examine).Ok? ==> AddsUp(Gather(g, result, examine).value, results + [result])
    ensures Gather(g, result, examine).Ok? ==> Targeted(result)
    ensures Sound(result, examine) ==> Gather(g, result, examine).Ok?
  {
    hide Targets, TargetsAddUp, NodesAddUp;
    if Gather(g, result, examine).Ok? {
      GatherTargets(g, results, result, examine);
      GatherNodes(g, results, result, examine);
    }
  }

  lemma GatherEvidence(g: Gathered, result: SignatureResult, examine: Examination, refs: References)
    requires Evidenced(g, examine, refs) && Gather(g, result, examine).Ok?
    requires result.Valid? ==> result.references == refs(result.node)
    ensures Evidenced(Gather(g, result, examine).value, examine, refs)
  {
    hide Targets;
    var next := Gather(g, result, examine).value;
    if result.Valid? && result.node !in g.nodes && examine(result.node, result.references).value.Some? {
      var f := (result.node, examine(result.node, result.references).value.value);
      assert next.evidence == g.evidence + [f];
      forall i, j | 0 <= i < j < |next.evidence| ensures next.evidence[i].0 != next.evidence[j].0 {
        if j == |g.evidence| {
          assert g.evidence[i] in g.evidence;
        }
      }
      forall e: Found ensures e in next.evidence <==> e.0 in next.nodes && examine(e.0, refs(e.0)) == Ok(Some(e.1)) {
        assert e in next.evidence <==> e in g.evidence || e == f;
      }
    }
  }

  /** A result is refused exactly when it is unsound. */
  lemma RefusedWhenUnsound(g: Gathered, results: seq<SignatureResult>, result: SignatureResult, examine: Examination,
                           refs: References)
    requires AddsUp(g, results) && AllSound(results, examine) && Consistent(results + [result], refs)
    ensures Gather(g, result, examine).Ok? <==> Sound(result, examine)
  {
    hide Targets, TargetsAddUp;
    assert result in results + [result];
    if result.Valid? && result.node in g.nodes {
      assert Occurs(results, result.node);
      var r :| r in results && IsAt(r, result.node);
      assert Sound(r, examine) && r in results + [result];
    }
  }

  lemma {:induction false} GatherAllAddsUp(g: Gathered, before: seq<SignatureResult>, results: seq<SignatureResult>,
                                           examine: Examination)
    requires AddsUp(g, before)
    ensures var r := GatherAll(g, results, examine);
            r.Ok? ==> AddsUp(r.value, before + results) && AllTargeted(results)
    ensures AllSound(results, examine) ==> GatherAll(g, results, examine).Ok?
    decreases |results|
  {
    if results == [] {
      assert before + results == before;
    } else {
      hide AddsUp, Gather, Sound, Targeted;
      var next := Gather(g, results[0], examine);
      GatherAddsUp(g, before, results[0], examine);
      if next.Ok? {
        GatherAllAddsUp(next.value, before + [results[0]], results[1..], examine);
        assert before + [results[0]] + results[1..] == before + results;
      }
      assert results == [results[0]] + results[1..];
    }
  }

  lemma {:induction false} GatherAllEvidence(g: Gathered, before: seq<SignatureResult>, results: seq<SignatureResult>,
                                             examine: Examination, refs: References)
    requires AddsUp(g, before) && AllSound(before, examine) && Evidenced(g, examine, refs)
    requires Consistent(before + results, refs)
    ensures GatherAll(g, results, examine).Ok? <==> AllSound(results, examine)
    ensures GatherAll(g, results, examine).Ok? ==> Evidenced(GatherAll(g, results, examine).value, examine, refs)
    decreases |results|
  {
    if results != [] {
      hide AddsUp, Gather, Sound, Evidenced;
      var result, rest := results[0], results[1..];
      var next := Gather(g, result, examine);
      assert before + [result] + rest == before + results;
      ConsistentParts(before + [result], rest, refs);
      RefusedWhenUnsound(g, before, result, examine, refs);
      GatherAddsUp(g, before, result, examine);
      assert result in before + [result];
      if next.Ok? {
        GatherEvidence(g, result, examine, refs);
        GatherAllEvidence(next.value, before + [result], rest, examine, refs);
      }
      assert results == [result] + rest;
    }
  }

  lemma ConsistentParts(a: seq<SignatureResult>, b: seq<SignatureResult>, refs: References)
    requires Consistent(a + b, refs)
    ensures Consistent(a, refs) && Consistent(b, refs)
  {
    assert forall r :: r in a || r in b ==> r in a + b;
  }

  predicate Loaded(o: CertificateOutcome) { !o.LoadFailed? }

  predicate StartsValid(o: CertificateOutcome) { o.Results? && o.results != [] && o.results[0].Valid? }

  ghost predicate AnyLoaded(outcomes: seq<CertificateOutcome>) { exists o :: o in outcomes && Loaded(o) }

  ghost predicate AnyFailed(outcomes: seq<CertificateOutcome>) { exists o :: o in outcomes && o.Failed? }

  /** The first signature verified under some certificate. */
  ghost predicate AnyStartsValid(outcomes: seq<CertificateOutcome>) { exists o :: o in outcomes && StartsValid(o) }

  ghost predicate ProgressAddsUp(p: Progress, outcomes: seq<CertificateOutcome>) {
    && AddsUp(p.gathered, AllResults(outcomes)) && AllTargeted(AllResults(outcomes))
    && (p.haveKey <==> AnyLoaded(outcomes))
    && (p.lastError.Some? <==> AnyFailed(outcomes))
    && (p.first <==> AnyStartsValid(outcomes))
  }

  lemma AnySnoc(outcomes: seq<CertificateOutcome>, o: CertificateOutcome)
    ensures AnyLoaded(outcomes + [o]) <==> AnyLoaded(outcomes) || Loaded(o)
    ensures AnyFailed(outcomes + [o]) <==> AnyFailed(outcomes) || o.Failed?
    ensures AnyStartsValid(outcomes + [o]) <==> AnyStartsValid(outcomes) || StartsValid(o)
  {
    var all := outcomes + [o];
    assert o in all;
    assert forall x :: x in outcomes ==> x in all;
    assert forall x :: x in all ==> x in outcomes || x == o;
  }

  lemma {:induction false} AllResultsSnoc(outcomes: seq<CertificateOutcome>, o: CertificateOutcome)
    ensures AllResults(outcomes + [o]) == AllResults(outcomes) + if o.Results? then o.results else []
  {
    if outcomes == [] {
      assert [o][1..] == [];
      assert outcomes + [o] == [o];
    } else {
      AllResultsSnoc(outcomes[1..], o);
      var all := outcomes + [o];
      assert all[0] == outcomes[0] && all[1..] == outcomes[1..] + [o];
      var own := if outcomes[0].Results? then outcomes[0].results else [];
      Regroup(own, AllResults(outcomes[1..]), if o.Results? then o.results else []);
    }
  }

  lemma PassAddsUp(p: Progress, before: seq<CertificateOutcome>, o: CertificateOutcome, examine: Examination)
    requires ProgressAddsUp(p, before)
    ensures Pass(p, o, examine).Ok? ==> ProgressAddsUp(Pass(p, o, examine).value, before + [o])
    ensures (o.Results? ==> AllSound(o.results, examine)) ==> Pass(p, o, examine).Ok?
  {
    hide AddsUp, GatherAll, Sound, Targeted, AnyLoaded, AnyFailed, AnyStartsValid, AllResults;
    AnySnoc(before, o);
    AllResultsSnoc(before, o);
    if o.Results? {
      GatherAllAddsUp(p.gathered, AllResults(before), o.results, examine);
    } else {
      assert AllResults(before) + [] == AllResults(before);
    }
  }

  lemma {:induction false} PassAllAddsUp(p: Progress, before: seq<CertificateOutcome>,
                                         outcomes: seq<CertificateOutcome>, examine: Examination)
    requires ProgressAddsUp(p, before)
    ensures var r := PassAll(p, outcomes, examine); r.Ok? ==> ProgressAddsUp(r.value, before + outcomes)
    ensures AllSound(AllResults(outcomes), examine) ==> PassAll(p, outcomes, examine).Ok?
    decreases |outcomes|
  {
    if outcomes == [] {
      assert before + outcomes == before;
    } else {
      hide ProgressAddsUp, Pass, Sound;
      var next := Pass(p, outcomes[0], examine);
      PassAddsUp(p, before, outcomes[0], examine);
      if next.Ok? {
        PassAllAddsUp(next.value, before + [outcomes[0]], outcomes[1..], examine);
        assert before + [outcomes[0]] + outcomes[1..] == before + outcomes;
      }
    }
  }

  lemma {:induction false} PassAllEvidence(p: Progress, before: seq<CertificateOutcome>,
                                           outcomes: seq<CertificateOutcome>, examine: Examination, refs: References)
    requires ProgressAddsUp(p, before) && AllSound(AllResults(before), examine) && Evidenced(p.gathered, examine, refs)
    requires Consistent(AllResults(before) + AllResults(outcomes), refs)
    ensures var r := PassAll(p, outcomes, examine);
            (r.Ok? <==> AllSound(AllResults(outcomes), examine))
            && (r.Ok? ==> Evidenced(r.value.gathered, examine, refs))
    decreases |outcomes|
  {
    if outcomes == [] {
    } else {
      hide ProgressAddsUp, Sound, Evidenced, GatherAll, AddsUp;
      var o, rest := outcomes[0], outcomes[1..];
      var own := if o.Results? then o.results else [];
      var earlier := AllResults(before);
      Regroup(earlier, own, AllResults(rest));
      AllResultsSnoc(before, o);
      ConsistentParts(earlier + own, AllResults(rest), refs);
      PassEvidence(p, before, o, examine, refs);
      PassAddsUp(p, before, o, examine);
      var next := Pass(p, o, examine);
      if next.Ok? {
        PassAllEvidence(next.value, before + [o], rest, examine, refs);
      }
    }
  }

  lemma PassEvidence(p: Progress, before: seq<CertificateOutcome>, o: CertificateOutcome, examine: Examination,
                     refs: References)
    requires ProgressAddsUp(p, before) && AllSound(AllResults(before), examine) && Evidenced(p.gathered, examine, refs)
    requires Consistent(AllResults(before) + (if o.Results? then o.results else []), refs)
    ensures var r := Pass(p, o, examine);
            (r.Ok? <==> (o.Results? ==> AllSound(o.results, examine)))
            && (r.Ok? ==> Evidenced(r.value.gathered, examine, refs))
  {
    hide Sound, Evidenced, GatherAll, AddsUp, AllResults, AnyLoaded, AnyFailed, AnyStartsValid;
    if o.Results? {
      GatherAllEvidence(p.gathered, AllResults(before), o.results, examine, refs);
    }
  }

  // Which reasons are kept.

  ghost predicate LoadFailsAt(outcomes: seq<CertificateOutcome>, i: nat, reason: string) {
    i < |outcomes| && outcomes[i] == LoadFailed(reason) && forall k :: 0 <= k < i ==> !outcomes[k].LoadFailed?
  }

  ghost predicate FailsAt(outcomes: seq<CertificateOutcome>, i: nat, reason: string) {
    i < |outcomes| && outcomes[i] == Failed(reason) && forall k :: i < k < |outcomes| ==> !outcomes[k].Failed?
  }

  ghost predicate FirstLoadFailure(outcomes: seq<CertificateOutcome>, reason: string) {
    exists i: nat :: LoadFailsAt(outcomes, i, reason)
  }

  ghost predicate LastFailure(outcomes: seq<CertificateOutcome>, reason: string) {
    exists i: nat :: FailsAt(outcomes, i, reason)
  }

  lemma FirstStep(first: CertificateOutcome, rest: seq<CertificateOutcome>, reason: string)
    ensures FirstLoadFailure([first] + rest, reason) <==>
              first == LoadFailed(reason) || (!first.LoadFailed? && FirstLoadFailure(rest, reason))
  {
    var all := [first] + rest;
    assert forall k :: 0 < k < |all| ==> all[k] == rest[k - 1];
    var here: nat := 0;
    if first == LoadFailed(reason) {
      assert LoadFailsAt(all, here, reason);
      assert FirstLoadFailure(all, reason);
    } else if FirstLoadFailure(all, reason) {
      var i: nat :| LoadFailsAt(all, i, reason);
      assert LoadFailsAt(rest, i - 1, reason) by {
        assert forall k :: 0 <= k < |rest| ==> rest[k] == all[k + 1];
      }
    } else if FirstLoadFailure(rest, reason) && !first.LoadFailed? {
      var i: nat :| LoadFailsAt(rest, i, reason);
      assert LoadFailsAt(all, i + 1, reason);
    }
  }

  lemma LastStep(first: CertificateOutcome, rest: seq<CertificateOutcome>, reason: string)
    ensures LastFailure([first] + rest, reason) <==>
              || LastFailure(rest, reason)
              || (first == Failed(reason) && forall k :: 0 <= k < |rest| ==> !rest[k].Failed?)
  {
    var all := [first] + rest;
    assert forall k :: 0 <= k < |rest| ==> rest[k] == all[k + 1];
    if LastFailure(all, reason) {
      var i: nat :| FailsAt(all, i, reason);
      if i > 0 {
        assert FailsAt(rest, i - 1, reason);
      }
    }
    if LastFailure(rest, reason) {
      var i: nat :| FailsAt(rest, i, reason);
      assert FailsAt(all, i + 1, reason) by {
        assert forall k :: 0 < k < |all| ==> all[k] == rest[k - 1];
      }
    } else if first == Failed(reason) && forall k :: 0 <= k < |rest| ==> !rest[k].Failed? {
      var here: nat := 0;
      assert FailsAt(all, here, reason);
      assert LastFailure(all, reason);
    }
  }

  /** The first reason why a certificate could not be loaded is kept, and the last why one could not verify. */
  lemma {:induction false} ReasonsKept(p: Progress, outcomes: seq<CertificateOutcome>, examine: Examination)
    requires PassAll(p, outcomes, examine).Ok?
    ensures var q := PassAll(p, outcomes, examine).value;
            && (p.loadError.Some? ==> q.loadError == p.loadError)
            && (p.loadError == None ==>
                  forall reason :: q.loadError == Some(reason) <==> FirstLoadFailure(outcomes, reason))
            && (forall reason :: LastFailure(outcomes, reason) ==> q.lastError == Some(reason))
            && ((forall k :: 0 <= k < |outcomes| ==> !outcomes[k].Failed?) ==> q.lastError == p.lastError)
    decreases |outcomes|
  {
    if outcomes != [] {
      hide GatherAll, FirstLoadFailure, LastFailure;
      var first, rest := outcomes[0], outcomes[1..];
      assert outcomes == [first] + rest;
      ReasonsKept(Pass(p, first, examine).value, rest, examine);
      forall reason
        ensures FirstLoadFailure(outcomes, reason) <==>
                  first == LoadFailed(reason) || (!first.LoadFailed? && FirstLoadFailure(rest, reason))
        ensures LastFailure(outcomes, reason) <==>
                  || LastFailure(rest, reason)
                  || (first == Failed(reason) && forall k :: 0 <= k < |rest| ==> !rest[k].Failed?)
      {
        FirstStep(first, rest, reason);
        LastStep(first, rest, reason);
      }
    }
  }

  lemma StartAddsUp()
    ensures ProgressAddsUp(START, [])
  {
    assert AllResults([]) == [];
  }

  lemma StartEvidence(examine: Examination, refs: References)
    ensures Evidenced(START.gathered, examine, refs) && AllSound(AllResults([]), examine)
  {
    assert AllResults([]) == [];
  }

  // Evidence in document order.

  ghost predicate Ascending(found: seq<Found>) {
    forall i, j :: 0 <= i < j < |found| ==> found[i].0 < found[j].0
  }

  lemma {:induction false} InsertedAscends(f: Found, sorted: seq<Found>)
    requires Ascending(sorted) && forall i :: 0 <= i < |sorted| ==> sorted[i].0 != f.0
    ensures Ascending(Inserted(f, sorted))
    ensures forall g :: g in Inserted(f, sorted) <==> g == f || g in sorted
  {
    if sorted != [] && f.0 > sorted[0].0 {
      var rest := Inserted(f, sorted[1..]);
      InsertedAscends(f, sorted[1..]);
      var all := [sorted[0]] + rest;
      forall i, j | 0 <= i < j < |all| ensures all[i].0 < all[j].0 {
        if i == 0 {
          assert all[j] in rest;
          if all[j] != f {
            var k :| 0 <= k < |sorted[1..]| && sorted[1..][k] == all[j];
            assert sorted[k + 1] == all[j];
          }
        } else {
          assert all[i] == rest[i - 1] && all[j] == rest[j - 1];
        }
      }
      assert sorted == [sorted[0]] + sorted[1..];
      assert Inserted(f, sorted) == all;
    } else {
      assert Inserted(f, sorted) == [f] + sorted;
    }
  }

  /** Sorting orders the evidence by signature and keeps what there is. */
  lemma {:induction false} SortedAscends(found: seq<Found>)
    requires OncePerNode(found)
    ensures Ascending(Sorted(found))
    ensures forall g :: g in Sorted(found) <==> g in found
  {
    if found != [] {
      var rest := found[1..];
      assert forall i, j :: 0 <= i < j < |rest| ==> rest[i] == found[i + 1] && rest[j] == found[j + 1];
      SortedAscends(rest);
      forall i | 0 <= i < |Sorted(rest)| ensures Sorted(rest)[i].0 != found[0].0 {
        assert Sorted(rest)[i] in rest;
        var k :| 0 <= k < |rest| && rest[k] == Sorted(rest)[i];
        assert found[k + 1] == rest[k];
      }
      InsertedAscends(found[0], Sorted(rest));
      assert found == [found[0]] + rest;
    }
  }

  lemma LeastIsFirst(a: seq<Found>, b: seq<Found>)
    requires Ascending(a) && Ascending(b) && a != [] && b != []
    requires a[0] in b && b[0] in a
    ensures a[0] == b[0]
  {
    var i :| 0 <= i < |b| && b[i] == a[0];
    var j :| 0 <= j < |a| && a[j] == b[0];
  }

  lemma SameEmptiness<T(!new)>(a: seq<T>, b: seq<T>)
    requires forall t :: t in a <==> t in b
    ensures a == [] <==> b == []
  {
    if a != [] {
      assert a[0] in b;
    }
    if b != [] {
      assert b[0] in a;
    }
  }

  lemma {:induction false} AscendingIsUnique(a: seq<Found>, b: seq<Found>)
    requires Ascending(a) && Ascending(b) && forall f :: f in a <==> f in b
    ensures a == b
  {
    SameEmptiness(a, b);
    if a != [] {
      assert a[0] in b;
      assert b[0] in b;
      LeastIsFirst(a, b);
      var a1, b1 := a[1..], b[1..];
      forall f ensures f in a1 <==> f in b1 {
        if f in a1 {
          var i :| 0 <= i < |a1| && a1[i] == f;
          assert a[i + 1] == f && f in b && f != b[0];
        }
        if f in b1 {
          var i :| 0 <= i < |b1| && b1[i] == f;
          assert b[i + 1] == f && f in a && f != a[0];
        }
      }
      AscendingIsUnique(a1, b1);
    }
  }

  // The main results.

  /** The same outcomes in any order and number, and any certificates that cannot be loaded. */
  ghost predicate SameOutcomes(a: seq<CertificateOutcome>, b: seq<CertificateOutcome>) {
    forall o :: Loaded(o) ==> (o in a <==> o in b)
  }

  lemma {:induction false} ResultsComeFrom(outcomes: seq<CertificateOutcome>, r: SignatureResult)
    ensures r in AllResults(outcomes) <==> exists o :: o in outcomes && o.Results? && r in o.results
  {
    if outcomes != [] {
      var first, rest := outcomes[0], outcomes[1..];
      ResultsComeFrom(rest, r);
      assert first in outcomes;
      if r in AllResults(rest) {
        var o :| o in rest && o.Results? && r in o.results;
        assert o in outcomes;
      }
    }
  }

  lemma SameResults(a: seq<CertificateOutcome>, b: seq<CertificateOutcome>, r: SignatureResult)
    requires SameOutcomes(a, b)
    ensures r in AllResults(a) <==> r in AllResults(b)
  {
    ResultsComeFrom(a, r);
    ResultsComeFrom(b, r);
  }

  ghost predicate SameMembers(a: seq<SignatureResult>, b: seq<SignatureResult>) {
    forall r :: r in a <==> r in b
  }

  lemma SameEvidence(g: Gathered, h: Gathered, a: seq<SignatureResult>, b: seq<SignatureResult>, examine: Examination,
                     refs: References)
    requires SameMembers(a, b) && AddsUp(g, a) && AddsUp(h, b)
    requires Evidenced(g, examine, refs) && Evidenced(h, examine, refs)
    ensures SameTargets(g.targets, h.targets) && Sorted(g.evidence) == Sorted(h.evidence)
    ensures g.triedInvalid == h.triedInvalid
  {
    hide Targets, Supplies, Sorted;
    assert forall t :: Supplied(a, t) <==> Supplied(b, t);
    assert forall n: nat :: Occurs(a, n) <==> Occurs(b, n);
    assert g.nodes == h.nodes;
    SortedAscends(g.evidence);
    SortedAscends(h.evidence);
    AscendingIsUnique(Sorted(g.evidence), Sorted(h.evidence));
  }

  lemma SameProgress(p: Progress, q: Progress, a: seq<CertificateOutcome>, b: seq<CertificateOutcome>,
                     examine: Examination, refs: References)
    requires SameOutcomes(a, b) && ProgressAddsUp(p, a) && ProgressAddsUp(q, b)
    requires Evidenced(p.gathered, examine, refs) && Evidenced(q.gathered, examine, refs)
    ensures p.haveKey == q.haveKey && p.first == q.first && p.lastError.Some? == q.lastError.Some?
    ensures SameTargets(p.gathered.targets, q.gathered.targets)
    ensures Sorted(p.gathered.evidence) == Sorted(q.gathered.evidence)
    ensures p.gathered.triedInvalid == q.gathered.triedInvalid
  {
    hide AddsUp, Sorted, Targeted, Evidenced;
    forall r ensures r in AllResults(a) <==> r in AllResults(b) {
      SameResults(a, b, r);
    }
    SameEvidence(p.gathered, q.gathered, AllResults(a), AllResults(b), examine, refs);
  }

  /** No result of a run that ends with a verdict is unsound. */
  lemma VerdictMeansSound(root: Node, outcomes: seq<CertificateOutcome>, examine: Examination, refs: References,
                          r: SignatureResult)
    requires Verdict(root, outcomes, examine).Ok? && Consistent(AllResults(outcomes), refs) && r in AllResults(outcomes)
    ensures Sound(r, examine)
  {
    hide PassAll, Conclusion, ProgressAddsUp, Evidenced, Consistent, Sound, AllResults;
    StartAddsUp();
    StartEvidence(examine, refs);
    NoResults();
    assert [] + AllResults(outcomes) == AllResults(outcomes);
    PassAllEvidence(START, [], outcomes, examine, refs);
  }

  lemma NoResults()
    ensures AllResults([]) == []
  {
  }

  /** Both runs of the loop end alike. */
  lemma SameRuns(a: seq<CertificateOutcome>, b: seq<CertificateOutcome>, examine: Examination, refs: References)
    requires SameOutcomes(a, b) && Consistent(AllResults(a), refs)
    ensures PassAll(START, a, examine).Ok? <==> PassAll(START, b, examine).Ok?
    ensures PassAll(START, a, examine).Ok? ==>
              var p, q := PassAll(START, a, examine).value, PassAll(START, b, examine).value;
              && p.haveKey == q.haveKey && p.first == q.first && p.lastError.Some? == q.lastError.Some?
              && SameTargets(p.gathered.targets, q.gathered.targets)
              && Sorted(p.gathered.evidence) == Sorted(q.gathered.evidence)
              && p.gathered.triedInvalid == q.gathered.triedInvalid
  {
    hide ProgressAddsUp, PassAll, Sorted, Sound, Evidenced, SameTargets;
    StartAddsUp();
    StartEvidence(examine, refs);
    PassAllAddsUp(START, [], a, examine);
    PassAllAddsUp(START, [], b, examine);
    assert [] + a == a && [] + b == b;
    forall r ensures r in AllResults(a) <==> r in AllResults(b) {
      SameResults(a, b, r);
    }
    assert AllResults([]) + AllResults(a) == AllResults(a) && AllResults([]) + AllResults(b) == AllResults(b);
    PassAllEvidence(START, [], a, examine, refs);
    PassAllEvidence(START, [], b, examine, refs);
    if PassAll(START, a, examine).Ok? {
      SameProgress(PassAll(START, a, examine).value, PassAll(START, b, examine).value, a, b, examine, refs);
    }
  }

  /** Neither the order nor the repetition of certificates changes the verdict, its content, its
      coverage or its evidence, and certificates that cannot be loaded change nothing. An error
      remains an error; which one is reported may differ. */
  lemma CertificateOrderDoesNotMatter(root: Node, a: seq<CertificateOutcome>, b: seq<CertificateOutcome>,
                                      examine: Examination, refs: References)
    requires SameOutcomes(a, b) && Consistent(AllResults(a), refs)
    ensures Verdict(root, a, examine).Ok? <==> Verdict(root, b, examine).Ok?
    ensures Verdict(root, a, examine).Ok? ==> Verdict(root, a, examine) == Verdict(root, b, examine)
  {
    hide PassAll, Content, AssertionDirectlyCovered, ResponseCovered, Sorted, EvidenceOf, SameOutcomes, Consistent;
    SameRuns(a, b, examine, refs);
    var p, q := PassAll(START, a, examine), PassAll(START, b, examine);
    if p.Ok? {
      SameCoverage(root, p.value.gathered.targets, q.value.gathered.targets);
      SameEmptiness(p.value.gathered.targets, q.value.gathered.targets);
    }
  }

  lemma {:induction false} EvidenceListed(found: seq<Found>)
    ensures |EvidenceOf(found)| == |found| && forall i :: 0 <= i < |found| ==> EvidenceOf(found)[i] == found[i].1
  {
    if found != [] {
      EvidenceListed(found[1..]);
    }
  }

  /** A signature element that verified under some certificate, and what it is evidence of. */
  ghost predicate IsEvidence(outcomes: seq<CertificateOutcome>, examine: Examination, refs: References, f: Found) {
    Occurs(AllResults(outcomes), f.0) && examine(f.0, refs(f.0)) == Ok(Some(f.1))
  }

  /** The evidence of a verified result: that of each signature element that verified and is evidence of something,
      once, in document order. */
  lemma VerdictEvidence(root: Node, outcomes: seq<CertificateOutcome>, examine: Examination, refs: References)
    requires Verdict(root, outcomes, examine).Ok? && Verdict(root, outcomes, examine).value.verified
    requires Consistent(AllResults(outcomes), refs)
    ensures exists found: seq<Found> :: Ascending(found)
              && (forall f :: f in found <==> IsEvidence(outcomes, examine, refs, f))
              && |Verdict(root, outcomes, examine).value.evidence| == |found|
              && forall i :: 0 <= i < |found| ==> Verdict(root, outcomes, examine).value.evidence[i] == found[i].1
  {
    hide PassAll, Content, AssertionDirectlyCovered, ResponseCovered, Sorted, EvidenceOf, TargetsAddUp, Occurs,
      AllTargeted, Consistent, AllSound, AllResults, AnyLoaded, AnyFailed, AnyStartsValid;
    StartAddsUp();
    StartEvidence(examine, refs);
    NoResults();
    assert [] + outcomes == outcomes && [] + AllResults(outcomes) == AllResults(outcomes);
    PassAllAddsUp(START, [], outcomes, examine);
    PassAllEvidence(START, [], outcomes, examine, refs);
    var g := PassAll(START, outcomes, examine).value.gathered;
    SortedAscends(g.evidence);
    EvidenceListed(Sorted(g.evidence));
    var found := Sorted(g.evidence);
    assert forall f :: f in found <==> IsEvidence(outcomes, examine, refs, f);
  }

  /** When it is not verified: no certificate could be loaded, and the first reason is given; or some could not
      verify and no signature was found invalid, and the last reason is given; or it is no error. */
  lemma NotVerifiedExactly(root: Node, outcomes: seq<CertificateOutcome>, examine: Examination)
    requires AllSound(AllResults(outcomes), examine) && !AnyStartsValid(outcomes)
    ensures var r := Verdict(root, outcomes, examine);
            if !AnyLoaded(outcomes) then
              exists reason :: r == Err(NoCertificate(reason))
                && forall text :: reason == Some(text) <==> FirstLoadFailure(outcomes, text)
            else if AnyFailed(outcomes) && Invalid !in AllResults(outcomes) then
              exists reason :: r == Err(Refused(reason)) && LastFailure(outcomes, reason)
            else r == Ok(UNVERIFIED)
  {
    hide PassAll, AllSound, AllTargeted, AllResults, AnyLoaded, AnyStartsValid, FirstLoadFailure, LastFailure,
      TargetsAddUp, NodesAddUp;
    StartAddsUp();
    assert [] + outcomes == outcomes;
    PassAllAddsUp(START, [], outcomes, examine);
    ReasonsKept(START, outcomes, examine);
    var r, p := Verdict(root, outcomes, examine), PassAll(START, outcomes, examine).value;
    if !AnyLoaded(outcomes) {
      assert r == Err(NoCertificate(p.loadError));
    } else if AnyFailed(outcomes) && Invalid !in AllResults(outcomes) {
      var reason := SomeLastFailure(outcomes);
      assert r == Err(Refused(reason)) && LastFailure(outcomes, reason);
    }
  }

  lemma {:induction false} SomeLastFailure(outcomes: seq<CertificateOutcome>) returns (reason: string)
    requires AnyFailed(outcomes)
    ensures LastFailure(outcomes, reason)
  {
    var first, rest := outcomes[0], outcomes[1..];
    assert outcomes == [first] + rest;
    if AnyFailed(rest) {
      reason := SomeLastFailure(rest);
    } else {
      reason := first.reason;
      assert forall k :: 0 <= k < |rest| ==> rest[k] in rest;
    }
    LastStep(first, rest, reason);
  }

  // A certificate that cannot be loaded.

  /** The two differ at most in the first loading error. */
  predicate Alike(p: Progress, q: Progress) { p.(loadError := None) == q.(loadError := None) }

  lemma {:induction false} PassAllAlike(p: Progress, q: Progress, outcomes: seq<CertificateOutcome>,
                                        examine: Examination)
    requires Alike(p, q)
    ensures var r, s := PassAll(p, outcomes, examine), PassAll(q, outcomes, examine);
            if r.Ok? then s.Ok? && Alike(r.value, s.value) else r == s
    decreases |outcomes|
  {
    if outcomes != [] {
      hide GatherAll;
      var next, also := Pass(p, outcomes[0], examine), Pass(q, outcomes[0], examine);
      if next.Ok? {
        PassAllAlike(next.value, also.value, outcomes[1..], examine);
      }
    }
  }

  lemma {:induction false} PassAllConcat(p: Progress, a: seq<CertificateOutcome>, b: seq<CertificateOutcome>,
                                         examine: Examination)
    ensures PassAll(p, a + b, examine)
         == match PassAll(p, a, examine) case Ok(q) => PassAll(q, b, examine) case Err(e) => Err(e)
    decreases |a|
  {
    if a == [] {
      assert a + b == b;
    } else {
      hide Pass;
      assert (a + b)[0] == a[0] && (a + b)[1..] == a[1..] + b;
      var next := Pass(p, a[0], examine);
      if next.Ok? {
        PassAllConcat(next.value, a[1..], b, examine);
      }
    }
  }

  /** A certificate that cannot be loaded, anywhere in the list, never changes a result. */
  lemma UnloadableIsIgnored(root: Node, a: seq<CertificateOutcome>, b: seq<CertificateOutcome>, reason: string,
                            examine: Examination)
    ensures var with := a + [LoadFailed(reason)] + b;
            && (Verdict(root, with, examine).Ok? <==> Verdict(root, a + b, examine).Ok?)
            && (Verdict(root, with, examine).Ok? ==> Verdict(root, with, examine) == Verdict(root, a + b, examine))
  {
    hide Content, AssertionDirectlyCovered, ResponseCovered, Sorted, EvidenceOf, PassAll;
    var bad := [LoadFailed(reason)];
    Regroup(a, bad, b);
    PassAllConcat(START, a, bad + b, examine);
    PassAllConcat(START, a, b, examine);
    if PassAll(START, a, examine).Ok? {
      var p := PassAll(START, a, examine).value;
      var q := p.(loadError := Earlier(p.loadError, reason));
      OneBad(p, reason, b, examine);
      PassAllAlike(q, p, b, examine);
    }
  }

  lemma OneBad(p: Progress, reason: string, b: seq<CertificateOutcome>, examine: Examination)
    ensures PassAll(p, [LoadFailed(reason)] + b, examine)
         == PassAll(p.(loadError := Earlier(p.loadError, reason)), b, examine)
  {
    assert ([LoadFailed(reason)] + b)[1..] == b;
  }

  /** A verdict of verified is given exactly when the first signature verified under some certificate;
      then the content is covered by targets that some verified signature supplied. */
  lemma VerifiedMeansFirstVerified(root: Node, outcomes: seq<CertificateOutcome>, examine: Examination)
    requires Verdict(root, outcomes, examine).Ok?
    ensures Verdict(root, outcomes, examine).value.verified <==> AnyStartsValid(outcomes)
    ensures Verdict(root, outcomes, examine).value.verified ==>
              exists targets: seq<Target> :: TargetsAddUp(targets, AllResults(outcomes))
                && Content(root, targets) == Ok(Verdict(root, outcomes, examine).value.content)
  {
    hide PassAll, Content, AssertionDirectlyCovered, ResponseCovered, Sorted, EvidenceOf, TargetsAddUp, NodesAddUp;
    StartAddsUp();
    PassAllAddsUp(START, [], outcomes, examine);
    assert [] + outcomes == outcomes;
    var p := PassAll(START, outcomes, examine).value;
    if AnyStartsValid(outcomes) {
      FirstSupplies(outcomes);
      var t :| Supplied(AllResults(outcomes), t);
      assert t in p.gathered.targets by { InTargets(p.gathered.targets, AllResults(outcomes), t); }
      var o :| o in outcomes && StartsValid(o);
      assert Loaded(o);
    }
  }

  lemma InTargets(targets: seq<Target>, results: seq<SignatureResult>, t: Target)
    requires TargetsAddUp(targets, results) && Supplied(results, t)
    ensures t in targets
  {
  }

  lemma FirstSupplies(outcomes: seq<CertificateOutcome>)
    requires AnyStartsValid(outcomes) && AllTargeted(AllResults(outcomes))
    ensures exists t :: Supplied(AllResults(outcomes), t)
  {
    var o :| o in outcomes && StartsValid(o);
    var r := o.results[0];
    ResultsComeFrom(outcomes, r);
    assert Targeted(r);
    TargetsAreSound(r.references);
    assert Supplies(r, Targets(r.references).value[0]);
    assert Supplied(AllResults(outcomes), Targets(r.references).value[0]);
  }
}
