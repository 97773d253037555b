/** The signature scan and cut, seen on the tree: the spans are the root's direct signature children
    and cutting them out prints the tree without those children. */
module RedirectTree {
  import opened Text
  import opened Xml
  import opened RedirectSignature

  /** The tree operation the byte surgery stands for. */
  function DropSignatures(children: seq<Node>): seq<Node> {
    if children == [] then []
    else (if IsDirectSignature(children[0]) then [] else [children[0]]) + DropSignatures(children[1..])
  }

  /** A Signature element of XML Signature (section 4.1 of XML Signature 1.0). */
  predicate IsDirectSignature(n: Node) {
    IsElement(n) && n.tag.ns == Some("http://www.w3.org/2000/09/xmldsig#") && n.tag.local == "Signature"
  }

  /** Dropping the signatures leaves the other children, each as often as it was there and in the same order. */
  lemma {:induction false} DropAround(a: seq<Node>, n: Node, b: seq<Node>)
    ensures DropSignatures(a + [n] + b)
         == DropSignatures(a) + (if IsDirectSignature(n) then [] else [n]) + DropSignatures(b)
  {
    hide IsDirectSignature;
    var own := if IsDirectSignature(n) then [] else [n];
    if a == [] {
      assert ([] + [n] + b)[1..] == b;
    } else {
      var first, all := if IsDirectSignature(a[0]) then [] else [a[0]], a + [n] + b;
      assert all[0] == a[0] && all[1..] == a[1..] + [n] + b;
      DropAround(a[1..], n, b);
      Regroup(first, DropSignatures(a[1..]), own);
      Regroup(first, DropSignatures(a[1..]) + own, DropSignatures(b));
    }
  }

  lemma {:induction false} DropHas(ns: seq<Node>, n: Node)
    ensures n in DropSignatures(ns) <==> n in ns && !IsDirectSignature(n)
  {
    if ns != [] {
      hide IsDirectSignature;
      DropHas(ns[1..], n);
      assert n in ns <==> n == ns[0] || n in ns[1..];
    }
  }

  lemma {:induction false} NoSpansExactlyWhen(ns: seq<Node>, at: nat)
    ensures ChildSpans(ns, at) == [] <==> forall n :: n in ns ==> !IsDirectSignature(n)
  {
    if ns != [] {
      hide IsDirectSignature;
      NoSpansExactlyWhen(ns[1..], at + |Print(ns[0])|);
      assert forall n :: n in ns <==> n == ns[0] || n in ns[1..];
    }
  }

  function WithoutSignatures(d: Document): Document {
    if d.root.Element? then d.(root := d.root.(children := DropSignatures(d.root.children))) else d
  }

  /** Byte ranges of the signatures among `children` printed from `at`. */
  function ChildSpans(children: seq<Node>, at: nat): seq<Span> {
    if children == [] then []
    else
      var end := at + |Print(children[0])|;
      SpanOf(children[0], at) + ChildSpans(children[1..], end)
  }

  function DirectSpans(d: Document): seq<Span> {
    if d.root.Element? then ChildSpans(d.root.children, |PrintAll(d.before)| + |OpenText(d.root)|) else []
  }

  // Event positions.

  lemma {:induction false} EventsWithin(n: Node, at: nat)
    ensures forall i :: 0 <= i < |Events(n, at)| ==> Events(n, at)[i].end <= at + |Print(n)|
    decreases n, 1
  {
    if n.Element? {
      EventsAllWithin(n.children, at + |OpenText(n)|);
    }
  }

  lemma {:induction false} EventsAllWithin(ns: seq<Node>, at: nat)
    ensures forall i :: 0 <= i < |EventsAll(ns, at)| ==> EventsAll(ns, at)[i].end <= at + |PrintAll(ns)|
    decreases ns, 0
  {
    if ns != [] {
      EventsWithin(ns[0], at);
      EventsAllWithin(ns[1..], at + |Print(ns[0])|);
    }
  }

  // Folding the scan over the events of a subtree.

  ghost function Then(xml: string, limits: Limits, r: Result<Scan, ScanError>, events: seq<Placed>)
    : Result<Scan, ScanError>
    requires Within(xml, events)
  {
    match r
    case Ok(s) => Steps(xml, limits, s, events)
    case Err(e) => Err(e)
  }

  lemma {:induction false} StepsConcat(xml: string, limits: Limits, s: Scan, a: seq<Placed>, b: seq<Placed>)
    requires Within(xml, a) && Within(xml, b)
    ensures Within(xml, a + b)
    ensures Steps(xml, limits, s, a + b) == Then(xml, limits, Steps(xml, limits, s, a), b)
    decreases |a|
  {
    if a == [] {
      assert a + b == b;
    } else {
      assert (a + b)[1..] == a[1..] + b && (a + b)[0] == a[0];
      match Step(xml, limits, s, a[0])
      case Ok(next) => StepsConcat(xml, limits, next, a[1..], b);
      case Err(_) =>
    }
  }

  lemma StepsOne(xml: string, limits: Limits, s: Scan, p: Placed)
    requires p.end <= |xml|
    ensures Steps(xml, limits, s, [p]) == Step(xml, limits, s, p)
  {
  }

  /** What a stretch of events asks of the limits and adds to the scan. */
  datatype Summary = Summary(count: nat, height: nat, doctype: bool, spans: seq<Span>)

  function Both(a: Summary, b: Summary): Summary {
    Summary(a.count + b.count, if a.height > b.height then a.height else b.height, a.doctype || b.doctype,
            a.spans + b.spans)
  }

  ghost predicate Started(limits: Limits, s: Scan) {
    s.nodes <= limits.maxNodes && s.depth <= limits.maxDepth
  }

  ghost predicate Fits(limits: Limits, s: Scan, sum: Summary) {
    s.nodes + sum.count <= limits.maxNodes && s.depth + sum.height <= limits.maxDepth && !sum.doctype
  }

  ghost function Grown(s: Scan, sum: Summary): Scan {
    s.(nodes := s.nodes + sum.count, spans := s.spans + sum.spans)
  }

  /** The events are accepted exactly when they fit, and then add their summary. */
  ghost predicate Adds(xml: string, limits: Limits, s: Scan, events: seq<Placed>, sum: Summary) {
    && Within(xml, events)
    && var r := Steps(xml, limits, s, events);
       (r.Ok? <==> Fits(limits, s, sum)) && (r.Ok? ==> r.value == Grown(s, sum))
  }

  /** Two stretches of events, one after the other. */
  lemma AddsBoth(xml: string, limits: Limits, s: Scan, a: seq<Placed>, sumA: Summary, b: seq<Placed>, sumB: Summary)
    requires Within(xml, b) && Adds(xml, limits, s, a, sumA)
    requires Fits(limits, s, sumA) ==> Adds(xml, limits, Grown(s, sumA), b, sumB)
    ensures Adds(xml, limits, s, a + b, Both(sumA, sumB))
  {
    StepsConcat(xml, limits, s, a, b);
    assert s.spans + sumA.spans + sumB.spans == s.spans + (sumA.spans + sumB.spans);
  }

  lemma AddsNothing(xml: string, limits: Limits, s: Scan)
    requires Started(limits, s)
    ensures Adds(xml, limits, s, [], Summary(0, 0, false, []))
  {
    assert s.spans + [] == s.spans;
  }

  lemma AddsOne(xml: string, limits: Limits, s: Scan, p: Placed, sum: Summary)
    requires p.end <= |xml|
    requires var r := Step(xml, limits, s, p); (r.Ok? <==> Fits(limits, s, sum)) && (r.Ok? ==> r.value == Grown(s, sum))
    ensures Adds(xml, limits, s, [p], sum)
  {
    StepsOne(xml, limits, s, p);
  }

  /** The events of an element around those of its children. */
  ghost function Enclosed(n: Node, at: nat): seq<Placed>
    requires n.Element?
  {
    EventsAll(n.children, at + |OpenText(n)|)
  }

  ghost function Entered(s: Scan, open: Option<nat>): Scan {
    s.(depth := s.depth + 1, nodes := s.nodes + 1, open := open)
  }

  /** An element adds itself, a level, and a span when its start tag opened one. */
  lemma AddsElement(xml: string, limits: Limits, s: Scan, n: Node, at: nat, open: Option<nat>, inner: Summary)
    requires n.Element? && at + |Print(n)| <= |xml| && Started(limits, s) && inner.spans == []
    requires (s.depth == 1 && s.open == None) || (s.depth >= 2 && open == s.open)
    requires var start := Step(xml, limits, s, Placed(Start(n.tag), at + |OpenText(n)|));
             if Started(limits, Entered(s, open)) then start == Ok(Entered(s, open)) else start.Err?
    requires Within(xml, Enclosed(n, at))
    requires Started(limits, Entered(s, open)) ==> Adds(xml, limits, Entered(s, open), Enclosed(n, at), inner)
    ensures Adds(xml, limits, s, Events(n, at),
                 Summary(inner.count + 1, inner.height + 1, inner.doctype,
                         if s.depth == 1 && open.Some? then [(open.value, at + |Print(n)|)] else []))
  {
    hide Steps, ElementStart, EventsAll;
    var start, end := Placed(Start(n.tag), at + |OpenText(n)|), Placed(End, at + |Print(n)|);
    StepsOne(xml, limits, s, start);
    StepsConcat(xml, limits, s, [start], Enclosed(n, at));
    StepsConcat(xml, limits, s, [start] + Enclosed(n, at), [end]);
    assert s.spans + [] == s.spans;
    StepsOne(xml, limits, Grown(Entered(s, open), inner), end);
  }

  /** Below a child of the root the scan only counts. */
  function DeepSummary(n: Node): Summary { Summary(Count(n), Height(n), HasDoctype(n), []) }

  function DeepSummaryAll(ns: seq<Node>): Summary { Summary(CountAll(ns), HeightAll(ns), HasDoctypeAny(ns), []) }

  lemma {:induction false} DeepSteps(xml: string, limits: Limits, s: Scan, n: Node, at: nat)
    requires s.depth >= 2 && Started(limits, s) && at + |Print(n)| <= |xml|
    ensures Adds(xml, limits, s, Events(n, at), DeepSummary(n))
    decreases n, 1
  {
    if n.Element? {
      var inside := at + |OpenText(n)|;
      EventsAllWithin(n.children, inside);
      if Started(limits, Entered(s, s.open)) {
        DeepStepsAll(xml, limits, Entered(s, s.open), n.children, inside);
      }
      AddsElement(xml, limits, s, n, at, s.open, DeepSummaryAll(n.children));
    } else {
      assert s.spans + [] == s.spans;
      AddsOne(xml, limits, s, Events(n, at)[0], DeepSummary(n));
    }
  }

  lemma {:induction false} DeepStepsAll(xml: string, limits: Limits, s: Scan, ns: seq<Node>, at: nat)
    requires s.depth >= 2 && Started(limits, s) && at + |PrintAll(ns)| <= |xml|
    ensures Adds(xml, limits, s, EventsAll(ns, at), DeepSummaryAll(ns))
    decreases ns, 0
  {
    if ns == [] {
      AddsNothing(xml, limits, s);
    } else {
      var end := at + |Print(ns[0])|;
      DeepSteps(xml, limits, s, ns[0], at);
      EventsAllWithin(ns[1..], end);
      if Fits(limits, s, DeepSummary(ns[0])) {
        DeepStepsAll(xml, limits, Grown(s, DeepSummary(ns[0])), ns[1..], end);
      }
      AddsBoth(xml, limits, s, Events(ns[0], at), DeepSummary(ns[0]), EventsAll(ns[1..], end), DeepSummaryAll(ns[1..]));
      assert Both(DeepSummary(ns[0]), DeepSummaryAll(ns[1..])) == DeepSummaryAll(ns);
    }
  }

  // Children of the root.

  /** Looking back for `<` from the end of a start tag finds the tag's own. */
  lemma StartFound(xml: string, at: nat, end: nat)
    requires at < end <= |xml| && xml[at] == '<'
    requires forall i :: at < i < end ==> xml[i] != '<'
    ensures ElementStart(xml, end) == Ok(at)
  {
    assert xml[..end][at] == '<';
  }

  predicate IsTagText(text: string) {
    text != "" && text[0] == '<' && forall i :: 0 < i < |text| ==> text[i] != '<'
  }

  lemma TagTextStart(xml: string, text: string, rest: string, at: nat)
    requires at + |text + rest| <= |xml| && xml[at..at + |text + rest|] == text + rest && IsTagText(text)
    ensures ElementStart(xml, at + |text|) == Ok(at)
  {
    forall i | 0 <= i < |text| ensures xml[at + i] == text[i] {
      assert xml[at..at + |text + rest|][i] == (text + rest)[i];
    }
    forall i | at < i < at + |text| ensures xml[i] != '<' {
      assert xml[at + (i - at)] == text[i - at];
    }
    StartFound(xml, at, at + |text|);
  }

  lemma SourceIsTagText(source: string, end: string)
    requires '<' !in source && '<' !in end
    ensures IsTagText("<" + source + end)
  {
  }

  lemma TagStart(xml: string, n: Node, at: nat)
    requires IsElement(n) && WellFormed(n) && PrintedAt(xml, n, at)
    ensures ElementStart(xml, at + if n.Element? then |OpenText(n)| else |Print(n)|) == Ok(at)
  {
    if n.Element? {
      SourceIsTagText(n.tag.source, ">");
      var rest := PrintAll(n.children) + CloseText(n);
      assert Print(n) == OpenText(n) + rest;
      TagTextStart(xml, OpenText(n), rest, at);
    } else {
      SourceIsTagText(n.tag.source, "/>");
      assert Print(n) == Print(n) + "";
      TagTextStart(xml, Print(n), "", at);
    }
  }

  ghost predicate PrintedAt(xml: string, n: Node, at: nat) {
    at + |Print(n)| <= |xml| && xml[at..at + |Print(n)|] == Print(n)
  }

  function SpanOf(n: Node, at: nat): seq<Span> {
    if IsDirectSignature(n) then [(at, at + |Print(n)|)] else []
  }

  /** At a child of the root the scan also records a span, exactly when it is a signature. */
  function ChildSummary(n: Node, at: nat): Summary { DeepSummary(n).(spans := SpanOf(n, at)) }

  function ChildSummaryAll(ns: seq<Node>, at: nat): Summary { DeepSummaryAll(ns).(spans := ChildSpans(ns, at)) }

  lemma ChildStart(xml: string, limits: Limits, s: Scan, tag: Tag, at: nat, end: nat)
    requires s.depth == 1 && s.open == None && Started(limits, s) && end <= |xml| && ElementStart(xml, end) == Ok(at)
    ensures var entered := Entered(s, if IsSignature(tag) then Some(at) else None);
            var start := Step(xml, limits, s, Placed(Start(tag), end));
            if Started(limits, entered) then start == Ok(entered) else start.Err?
  {
    hide ElementStart;
  }

  lemma ChildLeaf(xml: string, limits: Limits, s: Scan, n: Node, at: nat)
    requires s.depth == 1 && s.open == None && Started(limits, s) && !n.Element? && at + |Print(n)| <= |xml|
    requires IsElement(n) ==> ElementStart(xml, at + |Print(n)|) == Ok(at)
    ensures Adds(xml, limits, s, Events(n, at), ChildSummary(n, at))
  {
    hide ElementStart, Steps, Print;
    assert s.spans + [] == s.spans;
    AddsOne(xml, limits, s, Events(n, at)[0], ChildSummary(n, at));
  }

  lemma ChildSteps(xml: string, limits: Limits, s: Scan, n: Node, at: nat)
    requires s.depth == 1 && s.open == None && Started(limits, s) && WellFormed(n) && PrintedAt(xml, n, at)
    ensures Adds(xml, limits, s, Events(n, at), ChildSummary(n, at))
  {
    hide Step, Steps, Adds, ElementStart, Print, EventsAll;
    if IsElement(n) {
      TagStart(xml, n, at);
    }
    if n.Element? {
      var inside := at + |OpenText(n)|;
      PrintedInside(xml, n, at);
      EventsAllWithin(n.children, inside);
      var open := if IsSignature(n.tag) then Some(at) else None;
      ChildStart(xml, limits, s, n.tag, at, inside);
      if Started(limits, Entered(s, open)) {
        DeepStepsAll(xml, limits, Entered(s, open), n.children, inside);
      }
      AddsElement(xml, limits, s, n, at, open, DeepSummaryAll(n.children));
    } else {
      ChildLeaf(xml, limits, s, n, at);
    }
  }

  ghost predicate PrintedAllAt(xml: string, ns: seq<Node>, at: nat) {
    at + |PrintAll(ns)| <= |xml| && xml[at..at + |PrintAll(ns)|] == PrintAll(ns)
  }

  lemma PrintedSplit(xml: string, ns: seq<Node>, at: nat)
    requires ns != [] && PrintedAllAt(xml, ns, at)
    ensures PrintedAt(xml, ns[0], at) && PrintedAllAt(xml, ns[1..], at + |Print(ns[0])|)
  {
    var all, first := xml[at..at + |PrintAll(ns)|], |Print(ns[0])|;
    assert all[..first] == xml[at..at + first];
    assert all[first..] == xml[at + first..at + |PrintAll(ns)|];
  }

  lemma {:induction false} ChildStepsAll(xml: string, limits: Limits, s: Scan, ns: seq<Node>, at: nat)
    requires s.depth == 1 && s.open == None && Started(limits, s) && WellFormedAll(ns) && PrintedAllAt(xml, ns, at)
    ensures Adds(xml, limits, s, EventsAll(ns, at), ChildSummaryAll(ns, at))
    decreases |ns|
  {
    if ns == [] {
      AddsNothing(xml, limits, s);
    } else {
      PrintedSplit(xml, ns, at);
      var end := at + |Print(ns[0])|;
      var first, rest := ChildSummary(ns[0], at), ChildSummaryAll(ns[1..], end);
      ChildSteps(xml, limits, s, ns[0], at);
      EventsAllWithin(ns[1..], end);
      if Fits(limits, s, first) {
        ChildStepsAll(xml, limits, Grown(s, first), ns[1..], end);
      }
      AddsBoth(xml, limits, s, Events(ns[0], at), first, EventsAll(ns[1..], end), rest);
      assert Both(first, rest) == ChildSummaryAll(ns, at);
    }
  }

  // The whole document.

  /** Outside the root nothing is counted; only a document type declaration stops the scan. */
  lemma {:induction false} OutsideSteps(xml: string, limits: Limits, s: Scan, ns: seq<Node>, at: nat)
    requires Started(limits, s) && forall i :: 0 <= i < |ns| ==> !IsElement(ns[i])
    requires at + |PrintAll(ns)| <= |xml|
    ensures Adds(xml, limits, s, EventsAll(ns, at), Summary(0, 0, HasDoctypeAny(ns), []))
    decreases |ns|
  {
    assert s.spans + [] == s.spans;
    if ns != [] {
      var end, first := at + |Print(ns[0])|, Summary(0, 0, HasDoctype(ns[0]), []);
      AddsOne(xml, limits, s, Events(ns[0], at)[0], first);
      OutsideSteps(xml, limits, s, ns[1..], end);
      AddsBoth(xml, limits, s, Events(ns[0], at), first, EventsAll(ns[1..], end),
               Summary(0, 0, HasDoctypeAny(ns[1..]), []));
    }
  }

  /** What a document must meet for the scan to accept it. */
  predicate Allowed(limits: Limits, d: Document) {
    && |PrintDocument(d)| <= limits.maxBytes
    && Count(d.root) <= limits.maxNodes && Height(d.root) <= limits.maxDepth
    && !HasDoctypeAny(d.before) && !HasDoctype(d.root) && !HasDoctypeAny(d.after)
  }

  function RootSpans(n: Node, at: nat): seq<Span> {
    if n.Element? then ChildSpans(n.children, at + |OpenText(n)|) else []
  }

  lemma RootSteps(xml: string, limits: Limits, n: Node, at: nat)
    requires IsElement(n) && WellFormed(n) && PrintedAt(xml, n, at)
    ensures Adds(xml, limits, Scan(0, 0, None, []), Events(n, at), DeepSummary(n).(spans := RootSpans(n, at)))
  {
    EventsWithin(n, at);
    var s := Scan(0, 0, None, []);
    if n.Element? {
      RootElementSteps(xml, limits, n, at);
    } else {
      assert s.spans + [] == s.spans;
      AddsOne(xml, limits, s, Events(n, at)[0], DeepSummary(n));
    }
  }

  lemma RootStart(xml: string, limits: Limits, tag: Tag, at: nat)
    requires at <= |xml|
    ensures var entered, start := Scan(1, 1, None, []), Step(xml, limits, Scan(0, 0, None, []), Placed(Start(tag), at));
            if Started(limits, entered) then start == Ok(entered) else start.Err?
  {
    hide ElementStart;
  }

  lemma RootEnd(xml: string, limits: Limits, s: Scan, at: nat)
    requires at <= |xml| && s.depth == 1 && s.open == None
    ensures Step(xml, limits, s, Placed(End, at)) == Ok(s.(depth := 0))
  {
    hide ElementStart;
  }

  lemma RootElementSteps(xml: string, limits: Limits, n: Node, at: nat)
    requires n.Element? && WellFormed(n) && PrintedAt(xml, n, at) && Within(xml, Events(n, at))
    ensures Adds(xml, limits, Scan(0, 0, None, []), Events(n, at), DeepSummary(n).(spans := RootSpans(n, at)))
  {
    var s, inside := Scan(0, 0, None, []), at + |OpenText(n)|;
    EventsAllWithin(n.children, inside);
    PrintedInside(xml, n, at);
    var start, end := Placed(Start(n.tag), inside), Placed(End, at + |Print(n)|);
    var entered, sum := Scan(1, 1, None, []), ChildSummaryAll(n.children, inside);
    hide ElementStart, Step;
    RootStart(xml, limits, n.tag, inside);
    StepsOne(xml, limits, s, start);
    StepsConcat(xml, limits, s, [start], Enclosed(n, at));
    StepsConcat(xml, limits, s, [start] + Enclosed(n, at), [end]);
    if Started(limits, entered) {
      ChildStepsAll(xml, limits, entered, n.children, inside);
      RootEnd(xml, limits, Grown(entered, sum), at + |Print(n)|);
      StepsOne(xml, limits, Grown(entered, sum), end);
    }
  }

  lemma PrintedInside(xml: string, n: Node, at: nat)
    requires n.Element? && PrintedAt(xml, n, at)
    ensures PrintedAllAt(xml, n.children, at + |OpenText(n)|)
  {
    var inside, size := at + |OpenText(n)|, |PrintAll(n.children)|;
    assert xml[at..at + |Print(n)|][|OpenText(n)|..][..size] == xml[inside..inside + size];
    assert Print(n)[|OpenText(n)|..][..size] == PrintAll(n.children);
  }

  lemma RootPrinted(d: Document)
    ensures PrintedAt(PrintDocument(d), d.root, |PrintAll(d.before)|)
  {
    Regroup(PrintAll(d.before), Print(d.root), PrintAll(d.after));
  }

  /** For every well-formed document the scan succeeds exactly within its limits, and then finds
      exactly the root's direct signature children. */
  lemma SpansOfDocument(d: Document, limits: Limits)
    requires ValidDocument(d)
    ensures Within(PrintDocument(d), DocumentEvents(d))
    ensures var r := Spans(PrintDocument(d), limits, DocumentEvents(d));
            (r.Ok? <==> Allowed(limits, d)) && (r.Ok? ==> r.value == DirectSpans(d))
  {
    var xml, root := PrintDocument(d), |PrintAll(d.before)|;
    var after := root + |Print(d.root)|;
    RootPrinted(d);
    hide Print, Steps, WellFormed, EventsAll, Events, HasDoctype, HasDoctypeAny, Count, Height;
    var s, before, rootSum := Scan(0, 0, None, []), Summary(0, 0, HasDoctypeAny(d.before), []),
                              DeepSummary(d.root).(spans := RootSpans(d.root, root));
    OutsideSteps(xml, limits, s, d.before, 0);
    RootSteps(xml, limits, d.root, root);
    assert Grown(s, before) == s;
    AddsBoth(xml, limits, s, EventsAll(d.before, 0), before, Events(d.root, root), rootSum);
    EventsAllWithin(d.after, after);
    var sum := Both(before, rootSum);
    if Fits(limits, s, sum) {
      OutsideSteps(xml, limits, Grown(s, sum), d.after, after);
    }
    AddsBoth(xml, limits, s, EventsAll(d.before, 0) + Events(d.root, root), sum, EventsAll(d.after, after),
             Summary(0, 0, HasDoctypeAny(d.after), []));
  }

  // Cutting the spans out.

  /** A stretch of text, to be cut or kept. */
  datatype Chunk = Chunk(text: string, cut: bool)

  function Chunks(ns: seq<Node>): seq<Chunk> {
    if ns == [] then [] else [Chunk(Print(ns[0]), IsDirectSignature(ns[0]))] + Chunks(ns[1..])
  }

  function AllText(chunks: seq<Chunk>): string {
    if chunks == [] then "" else chunks[0].text + AllText(chunks[1..])
  }

  function KeptText(chunks: seq<Chunk>): string {
    if chunks == [] then ""
    else if chunks[0].cut then KeptText(chunks[1..])
    else chunks[0].text + KeptText(chunks[1..])
  }

  function CutSpans(chunks: seq<Chunk>, at: nat): seq<Span> {
    if chunks == [] then []
    else
      var end := at + |chunks[0].text|;
      if chunks[0].cut then [(at, end)] + CutSpans(chunks[1..], end) else CutSpans(chunks[1..], end)
  }

  lemma TextCons(c: Chunk, rest: seq<Chunk>)
    ensures AllText([c] + rest) == c.text + AllText(rest)
    ensures KeptText([c] + rest) == (if c.cut then "" else c.text) + KeptText(rest)
  {
    assert ([c] + rest)[1..] == rest;
    assert "" + KeptText(rest) == KeptText(rest);
  }

  lemma SpansCons(c: Chunk, rest: seq<Chunk>, at: nat)
    ensures CutSpans([c] + rest, at)
         == (if c.cut then [(at, at + |c.text|)] else []) + CutSpans(rest, at + |c.text|)
  {
    assert ([c] + rest)[1..] == rest;
    assert [] + CutSpans(rest, at + |c.text|) == CutSpans(rest, at + |c.text|);
  }

  lemma DropCons(ns: seq<Node>)
    requires ns != []
    ensures PrintAll(DropSignatures(ns))
         == (if IsDirectSignature(ns[0]) then "" else Print(ns[0])) + PrintAll(DropSignatures(ns[1..]))
  {
    hide Print, IsDirectSignature;
    var rest := DropSignatures(ns[1..]);
    if IsDirectSignature(ns[0]) {
      assert [] + rest == rest;
    } else {
      assert ([ns[0]] + rest)[1..] == rest;
    }
  }

  lemma {:induction false} ChunksOfChildren(ns: seq<Node>, at: nat)
    ensures AllText(Chunks(ns)) == PrintAll(ns)
    ensures KeptText(Chunks(ns)) == PrintAll(DropSignatures(ns))
    ensures CutSpans(Chunks(ns), at) == ChildSpans(ns, at)
    decreases |ns|
  {
    if ns != [] {
      hide Print, IsDirectSignature, AllText, KeptText, CutSpans, DropSignatures;
      var c, rest := Chunk(Print(ns[0]), IsDirectSignature(ns[0])), Chunks(ns[1..]);
      ChunksOfChildren(ns[1..], at + |Print(ns[0])|);
      TextCons(c, rest);
      SpansCons(c, rest, at);
      DropCons(ns);
    }
  }

  lemma {:induction false} CutSpansOrdered(chunks: seq<Chunk>, at: nat, cursor: nat, to: nat)
    requires cursor <= at && at + |AllText(chunks)| <= to
    ensures Ordered(CutSpans(chunks, at), cursor, to)
    decreases |chunks|
  {
    if chunks != [] {
      var end := at + |chunks[0].text|;
      CutSpansOrdered(chunks[1..], end, if chunks[0].cut then end else cursor, to);
      if chunks[0].cut {
        assert CutSpans(chunks, at)[1..] == CutSpans(chunks[1..], end);
      }
    }
  }

  /** Cutting the marked chunks out of their text leaves the text of the others. */
  lemma {:induction false} CutChunks(xml: string, pre: string, chunks: seq<Chunk>, post: string, cursor: nat)
    requires cursor <= |pre| && xml == pre + AllText(chunks) + post
    ensures Ordered(CutSpans(chunks, |pre|), cursor, |xml|)
    ensures Cut(xml, CutSpans(chunks, |pre|), cursor) == pre[cursor..] + (KeptText(chunks) + post)
    decreases |chunks|
  {
    CutSpansOrdered(chunks, |pre|, cursor, |xml|);
    if chunks == [] {
      assert xml[cursor..] == pre[cursor..] + ("" + post);
    } else {
      var c, rest := chunks[0], chunks[1..];
      var text, next := c.text, pre + c.text;
      assert next + AllText(rest) + post == xml by { Regroup(pre, text, AllText(rest)); }
      if c.cut {
        CutChunks(xml, next, rest, post, |next|);
        hide AllText, KeptText;
        assert CutSpans(chunks, |pre|) == [(|pre|, |next|)] + CutSpans(rest, |next|);
        assert next[|next|..] + (KeptText(rest) + post) == KeptText(rest) + post;
        assert xml[cursor..|pre|] == pre[cursor..];
      } else {
        CutChunks(xml, next, rest, post, cursor);
        assert KeptText(chunks) == text + KeptText(rest);
        hide AllText, KeptText, Cut, Ordered;
        assert next[cursor..] == pre[cursor..] + text;
        Regroup(pre[cursor..], text, KeptText(rest) + post);
        Regroup(text, KeptText(rest), post);
      }
    }
  }

  lemma Around(before: string, open: string, inside: string, close: string, after: string)
    ensures before + (open + inside + close) + after == before + open + (inside + (close + after))
    ensures before + (open + inside + close) + after == before + open + inside + (close + after)
  {
    Regroup(open, inside, close);
    Regroup(before, open, inside + close);
    Regroup(before + open, inside + close, after);
    Regroup(inside, close, after);
    Regroup(before + open, inside, close + after);
  }

  lemma {:induction false} PrintAllDrop(d: Document)
    requires d.root.Element?
    ensures PrintDocument(WithoutSignatures(d))
         == PrintAll(d.before) + OpenText(d.root)
          + (PrintAll(DropSignatures(d.root.children)) + (CloseText(d.root) + PrintAll(d.after)))
  {
    var open, inside, close, after := OpenText(d.root), PrintAll(DropSignatures(d.root.children)),
                                      CloseText(d.root), PrintAll(d.after);
    assert Print(WithoutSignatures(d).root) == open + inside + close;
    Around(PrintAll(d.before), open, inside, close, after);
  }

  /** Cutting out the spans prints the document without its direct signature children. */
  lemma CutDocument(d: Document)
    requires ValidDocument(d)
    ensures Ordered(DirectSpans(d), 0, |PrintDocument(d)|)
    ensures Cut(PrintDocument(d), DirectSpans(d), 0) == PrintDocument(WithoutSignatures(d))
  {
    var xml := PrintDocument(d);
    if d.root.Element? {
      hide PrintAll, Cut, CutSpans, AllText, KeptText, Ordered;
      var pre, inside, post := PrintAll(d.before) + OpenText(d.root), PrintAll(d.root.children),
                               CloseText(d.root) + PrintAll(d.after);
      Around(PrintAll(d.before), OpenText(d.root), inside, CloseText(d.root), PrintAll(d.after));
      assert xml == pre + inside + post;
      ChunksOfChildren(d.root.children, |pre|);
      CutChunks(xml, pre, Chunks(d.root.children), post, 0);
      assert pre[0..] == pre;
      PrintAllDrop(d);
    } else {
      assert xml[0..] == xml;
    }
  }

  // A second scan.

  lemma {:induction false} DropKeeps(ns: seq<Node>)
    ensures var left := DropSignatures(ns);
            && CountAll(left) <= CountAll(ns) && HeightAll(left) <= HeightAll(ns) && |PrintAll(left)| <= |PrintAll(ns)|
            && (WellFormedAll(ns) ==> WellFormedAll(left)) && (HasDoctypeAny(left) ==> HasDoctypeAny(ns))
  {
    if ns != [] {
      DropKeeps(ns[1..]);
      if IsDirectSignature(ns[0]) {
        assert DropSignatures(ns) == DropSignatures(ns[1..]);
      } else {
        assert DropSignatures(ns)[1..] == DropSignatures(ns[1..]);
      }
    }
  }

  /** A second scan of the rewritten text is accepted and finds nothing. */
  lemma SecondScanFindsNone(d: Document, limits: Limits)
    requires ValidDocument(d) && Allowed(limits, d)
    ensures var again := WithoutSignatures(d);
            && ValidDocument(again) && Allowed(limits, again)
            && Within(PrintDocument(again), DocumentEvents(again))
            && Spans(PrintDocument(again), limits, DocumentEvents(again)) == Ok([])
  {
    var again := WithoutSignatures(d);
    if d.root.Element? {
      DropKeeps(d.root.children);
      forall n ensures n in again.root.children ==> !IsDirectSignature(n) {
        DropHas(d.root.children, n);
      }
      NoSpansExactlyWhen(again.root.children, |PrintAll(d.before)| + |OpenText(again.root)|);
    }
    SpansOfDocument(again, limits);
  }

  /** `redirect_message_xml` for the text and events of a document: without `detach` a protocol
      signature is an error, with it the signature children are gone and nothing else changes. */
  method RedirectMessageXml(ghost d: Document, xml: string, events: seq<Placed>, limits: Limits, detach: bool)
    returns (r: Result<string, ScanError>)
    requires ValidDocument(d) && xml == PrintDocument(d) && events == DocumentEvents(d)
    ensures r.Ok? <==> Allowed(limits, d) && (detach || DirectSpans(d) == [])
    ensures r.Ok? ==> r.value == PrintDocument(WithoutSignatures(d))
    ensures r == Err(SignatureNotDetached) <==> Allowed(limits, d) && !detach && DirectSpans(d) != []
    ensures DirectSpans(d) != [] <==>
              exists n :: n in Children(d.root) && IsElement(n) && n.tag.local == "Signature"
                && n.tag.ns == Some("http://www.w3.org/2000/09/xmldsig#")
  {
    NoSpansExactlyWhen(Children(d.root), |PrintAll(d.before)| + if d.root.Element? then |OpenText(d.root)| else 0);
    SpansOfDocument(d, limits);
    CutDocument(d);
    var spans := ProtocolSignatureSpans(xml, limits, events);
    if spans.Err? {
      NoOtherRefusal(xml, limits, Scan(0, 0, None, []), events);
      return Err(spans.error);
    }
    if spans.value == [] {
      assert Cut(xml, [], 0) == xml;
      return Ok(xml);
    }
    if !detach {
      return Err(SignatureNotDetached);
    }
    var rewritten := RemoveSpans(xml, spans.value);
    r := Ok(rewritten);
  }

  /** The scan itself never reports an undetached signature. */
  lemma {:induction false} NoOtherRefusal(xml: string, limits: Limits, s: Scan, events: seq<Placed>)
    requires Within(xml, events)
    ensures Steps(xml, limits, s, events) != Err(SignatureNotDetached)
    decreases |events|
  {
    if events != [] {
      match Step(xml, limits, s, events[0])
      case Ok(next) => NoOtherRefusal(xml, limits, next, events[1..]);
      case Err(_) =>
    }
  }
}
