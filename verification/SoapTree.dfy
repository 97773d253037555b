/** When a SOAP body is read: exactly for the messages of section 4 of SOAP 1.1 that hold one element. */
module SoapTree {
  import opened Text
  import opened Xml
  import opened Soap

  predicate IsBody(n: Node) { IsElement(n) && n.tag.local == "Body" }

  predicate IsHeader(n: Node) { IsElement(n) && n.tag.local == "Header" }

  predicate InSoap(tag: Tag) { tag.ns == Some("http://schemas.xmlsoap.org/soap/envelope/") }

  /** An attribute `mustUnderstand`, unprefixed or of SOAP, that is `1` or `true` between white space. */
  ghost predicate Demands(a: Attribute) {
    && a.local == "mustUnderstand" && (a.ns == None || a.ns == Some("http://schemas.xmlsoap.org/soap/envelope/"))
    && (Trim(a.value) == "1" || Trim(a.value) == "true")
  }

  /** A Header or Body in the SOAP namespace, without a header block that must be understood. */
  ghost predicate IsSoapPart(n: Node) {
    && IsElement(n) && InSoap(n.tag) && (n.tag.local == "Header" || n.tag.local == "Body")
    && (n.tag.local == "Header" ==>
          forall b, a :: b in ChildElements(n) && a in b.tag.attributes ==> !Demands(a))
  }

  /** The same as the scan tells it. */
  ghost predicate IsPart(n: Node) {
    && IsElement(n) && n.tag.ns == Some(SOAP) && (IsHeader(n) || IsBody(n))
    && (IsHeader(n) ==> forall b :: b in ChildElements(n) ==> !MustBeUnderstood(b.tag))
  }

  lemma PartExactlyWhen(n: Node)
    ensures IsPart(n) <==> IsSoapPart(n)
  {
    hide MustBeUnderstood, Demands;
    forall b | b in ChildElements(n)
      ensures MustBeUnderstood(b.tag) <==> exists a :: a in b.tag.attributes && Demands(a)
    {
      DemandedExactlyWhen(b.tag);
    }
  }

  lemma DemandedExactlyWhen(tag: Tag)
    ensures MustBeUnderstood(tag) <==> exists a :: a in tag.attributes && Demands(a)
  {
    hide Trim;
    if MustBeUnderstood(tag) {
      var i :| 0 <= i < |tag.attributes| && IsMustUnderstand(tag.attributes[i]);
      assert tag.attributes[i] in tag.attributes;
    }
    forall a | a in tag.attributes && Demands(a) ensures MustBeUnderstood(tag) {
      var i :| 0 <= i < |tag.attributes| && tag.attributes[i] == a;
      assert IsMustUnderstand(tag.attributes[i]);
    }
  }

  function Bodies(ns: seq<Node>): seq<Node> {
    if ns == [] then [] else (if IsBody(ns[0]) then [ns[0]] else []) + Bodies(ns[1..])
  }

  /** A SOAP 1.1 Envelope of Header and Body elements, with one Body that holds one element. */
  ghost predicate IsSoapMessage(root: Node) {
    && IsElement(root) && InSoap(root.tag) && root.tag.local == "Envelope"
    && (forall c :: c in ChildElements(root) ==> IsSoapPart(c))
    && |Bodies(ChildElements(root))| == 1
    && |ChildElements(Bodies(ChildElements(root))[0])| == 1
  }

  lemma {:induction false} StepsConcat(s: Scan, a: seq<Placed>, b: seq<Placed>)
    ensures Steps(s, a + b) == match Steps(s, a) case Ok(next) => Steps(next, b) case Err(e) => Err(e)
    decreases |a|
  {
    if a == [] {
      assert a + b == b;
    } else {
      assert (a + b)[1..] == a[1..] + b;
      match Step(s, a[0].event)
      case Ok(next) => StepsConcat(next, a[1..], b);
      case Err(_) =>
    }
  }

  lemma StepsOne(s: Scan, p: Placed)
    ensures Steps(s, [p]) == Step(s, p.event)
  {
  }

  /** The events of an element: start, inside, end. */
  lemma StepsElement(s: Scan, n: Node, at: nat)
    requires n.Element?
    ensures Steps(s, Events(n, at)) ==
            match Step(s, Start(n.tag))
            case Err(e) => Err(e)
            case Ok(entered) =>
              match Steps(entered, EventsAll(n.children, at + |OpenText(n)|))
              case Err(e) => Err(e)
              case Ok(inner) => Step(inner, End)
  {
    var start, end := Placed(Start(n.tag), at + |OpenText(n)|), Placed(End, at + |Print(n)|);
    var inside := EventsAll(n.children, start.end);
    StepsConcat(s, [start], inside);
    StepsConcat(s, [start] + inside, [end]);
  }

  lemma PartsAreSoap(root: Node)
    ensures forall c :: c in ChildElements(root) ==> (IsPart(c) <==> IsSoapPart(c))
    ensures forall c :: c in ChildElements(root) && IsPart(c) ==> IsHeader(c) || IsBody(c)
  {
    hide IsSoapPart, MustBeUnderstood;
    forall c ensures IsPart(c) <==> IsSoapPart(c) {
      PartExactlyWhen(c);
    }
  }

  // Below a header block or the body's element nothing is looked at.

  ghost predicate Settled(s: Scan) {
    && s.depth >= 3 && s.sawEnvelope
    && (s.inHeader ==> s.headerDepth == 2) && (s.inBody ==> s.bodyDepth == 2)
  }

  lemma {:induction false} DeepSteps(s: Scan, n: Node, at: nat)
    requires Settled(s)
    ensures HasDoctype(n) ==> Steps(s, Events(n, at)).Err?
    ensures !HasDoctype(n) ==> Steps(s, Events(n, at)) == Ok(s)
    decreases n, 1
  {
    if n.Element? {
      DeepStepsAll(s.(depth := s.depth + 1), n.children, at + |OpenText(n)|);
      StepsElement(s, n, at);
    } else {
      StepsOne(s, Events(n, at)[0]);
    }
  }

  lemma {:induction false} DeepStepsAll(s: Scan, ns: seq<Node>, at: nat)
    requires Settled(s)
    ensures HasDoctypeAny(ns) ==> Steps(s, EventsAll(ns, at)).Err?
    ensures !HasDoctypeAny(ns) ==> Steps(s, EventsAll(ns, at)) == Ok(s)
    decreases ns, 0
  {
    if ns != [] {
      var end := at + |Print(ns[0])|;
      DeepSteps(s, ns[0], at);
      DeepStepsAll(s, ns[1..], end);
      StepsConcat(s, Events(ns[0], at), EventsAll(ns[1..], end));
    }
  }

  // Inside a Header or a Body.

  lemma BlockSteps(s: Scan, n: Node, at: nat)
    requires s.depth == 2 && s.sawEnvelope && s.inHeader && s.headerDepth == 2 && !s.inBody
    ensures var fine := !HasDoctype(n) && !(IsElement(n) && MustBeUnderstood(n.tag));
            if fine then Steps(s, Events(n, at)) == Ok(s) else Steps(s, Events(n, at)).Err?
  {
    if n.Element? {
      DeepStepsAll(s.(depth := 3), n.children, at + |OpenText(n)|);
      StepsElement(s, n, at);
    } else {
      StepsOne(s, Events(n, at)[0]);
    }
  }

  lemma {:induction false} BlocksSteps(s: Scan, ns: seq<Node>, at: nat)
    requires s.depth == 2 && s.sawEnvelope && s.inHeader && s.headerDepth == 2 && !s.inBody
    ensures var fine := !HasDoctypeAny(ns) && forall b :: b in Elements(ns) ==> !MustBeUnderstood(b.tag);
            if fine then Steps(s, EventsAll(ns, at)) == Ok(s) else Steps(s, EventsAll(ns, at)).Err?
    decreases |ns|
  {
    if ns != [] {
      var end := at + |Print(ns[0])|;
      BlockSteps(s, ns[0], at);
      BlocksSteps(s, ns[1..], end);
      StepsConcat(s, Events(ns[0], at), EventsAll(ns[1..], end));
    }
  }

  /** `kids` are the body elements the scan has met. */
  ghost predicate Met(s: Scan, kids: seq<Node>) {
    && AllElements(kids)
    && s.bodyChildren == |kids| <= 1
    && s.child == if kids == [] then None else Some(NameOf(kids[0].tag))
  }

  ghost predicate InBody(s: Scan, kids: seq<Node>) {
    s.depth == 2 && s.sawEnvelope && !s.inHeader && s.inBody && s.bodyDepth == 2 && Met(s, kids)
  }

  /** Between the children of the envelope. */
  ghost predicate AtEnvelope(s: Scan, kids: seq<Node>) {
    s.depth == 1 && s.sawEnvelope && !s.inHeader && !s.inBody && Met(s, kids)
  }

  datatype Place = InsideBody | InsideEnvelope

  ghost predicate At(place: Place, s: Scan, kids: seq<Node>) {
    if place == InsideBody then InBody(s, kids) else AtEnvelope(s, kids)
  }

  /** The events are accepted exactly when `fine` and at most one body element is met in all. */
  ghost predicate Meets(place: Place, s: Scan, events: seq<Placed>, fine: bool, kids: seq<Node>, more: seq<Node>) {
    var r := Steps(s, events);
    && (r.Ok? <==> fine && |kids + more| <= 1)
    && (r.Ok? ==> At(place, r.value, kids + more))
  }

  lemma MeetsBoth(place: Place, s: Scan, a: seq<Placed>, fineA: bool, b: seq<Placed>, fineB: bool,
                  kids: seq<Node>, moreA: seq<Node>, moreB: seq<Node>)
    requires Meets(place, s, a, fineA, kids, moreA)
    requires Steps(s, a).Ok? ==> Meets(place, Steps(s, a).value, b, fineB, kids + moreA, moreB)
    ensures Meets(place, s, a + b, fineA && fineB, kids, moreA + moreB)
  {
    StepsConcat(s, a, b);
    assert kids + moreA + moreB == kids + (moreA + moreB);
  }

  function Own(n: Node): seq<Node> { if IsElement(n) then [n] else [] }

  lemma BodyChildSteps(s: Scan, n: Node, at: nat, kids: seq<Node>)
    requires InBody(s, kids)
    ensures Meets(InsideBody, s, Events(n, at), !HasDoctype(n), kids, Own(n))
  {
    assert kids + [] == kids;
    if n.Element? {
      if kids == [] {
        DeepStepsAll(s.(depth := 3, bodyChildren := 1, child := Some(NameOf(n.tag))), n.children, at + |OpenText(n)|);
      }
      StepsElement(s, n, at);
    } else {
      StepsOne(s, Events(n, at)[0]);
    }
  }

  lemma {:induction false} BodyChildrenSteps(s: Scan, ns: seq<Node>, at: nat, kids: seq<Node>)
    requires InBody(s, kids)
    ensures Meets(InsideBody, s, EventsAll(ns, at), !HasDoctypeAny(ns), kids, Elements(ns))
    decreases |ns|
  {
    if ns == [] {
      assert kids + [] == kids;
    } else {
      var end, first := at + |Print(ns[0])|, Events(ns[0], at);
      BodyChildSteps(s, ns[0], at, kids);
      if Steps(s, first).Ok? {
        BodyChildrenSteps(Steps(s, first).value, ns[1..], end, kids + Own(ns[0]));
      }
      MeetsBoth(InsideBody, s, first, !HasDoctype(ns[0]), EventsAll(ns[1..], end), !HasDoctypeAny(ns[1..]),
                kids, Own(ns[0]), Elements(ns[1..]));
    }
  }

  // Children of the envelope.

  function BodyKids(n: Node): seq<Node> { if IsBody(n) then ChildElements(n) else [] }

  function AllBodyKids(ns: seq<Node>): seq<Node> {
    if ns == [] then [] else BodyKids(ns[0]) + AllBodyKids(ns[1..])
  }

  ghost predicate PartFine(n: Node) { !HasDoctype(n) && (IsElement(n) ==> IsPart(n)) }

  lemma PartSteps(s: Scan, n: Node, at: nat, kids: seq<Node>)
    requires AtEnvelope(s, kids)
    ensures Meets(InsideEnvelope, s, Events(n, at), PartFine(n), kids, BodyKids(n))
  {
    assert kids + [] == kids;
    if n.Element? {
      StepsElement(s, n, at);
      var inside := at + |OpenText(n)|;
      if n.tag.ns == Some(SOAP) && IsHeader(n) {
        BlocksSteps(s.(depth := 2, inHeader := true, headerDepth := 2), n.children, inside);
      } else if n.tag.ns == Some(SOAP) && IsBody(n) {
        BodyChildrenSteps(s.(depth := 2, inBody := true, bodyDepth := 2), n.children, inside, kids);
      }
    } else {
      StepsOne(s, Events(n, at)[0]);
    }
  }

  ghost predicate PartsFine(ns: seq<Node>) {
    ns == [] || (PartFine(ns[0]) && PartsFine(ns[1..]))
  }

  lemma {:induction false} PartsFineAll(ns: seq<Node>)
    ensures PartsFine(ns) <==> !HasDoctypeAny(ns) && forall c :: c in Elements(ns) ==> IsPart(c)
  {
    if ns != [] {
      PartsFineAll(ns[1..]);
      if IsElement(ns[0]) {
        assert ns[0] in Elements(ns);
      }
    }
  }

  lemma {:induction false} PartsSteps(s: Scan, ns: seq<Node>, at: nat, kids: seq<Node>)
    requires AtEnvelope(s, kids)
    ensures Meets(InsideEnvelope, s, EventsAll(ns, at), PartsFine(ns), kids, AllBodyKids(ns))
    decreases |ns|
  {
    if ns == [] {
      assert kids + [] == kids;
    } else {
      var end, first := at + |Print(ns[0])|, Events(ns[0], at);
      PartSteps(s, ns[0], at, kids);
      if Steps(s, first).Ok? {
        PartsSteps(Steps(s, first).value, ns[1..], end, kids + BodyKids(ns[0]));
      }
      MeetsBoth(InsideEnvelope, s, first, PartFine(ns[0]), EventsAll(ns[1..], end), PartsFine(ns[1..]),
                kids, BodyKids(ns[0]), AllBodyKids(ns[1..]));
    }
  }

  lemma OtherSteps(s: Scan, n: Node, at: nat)
    requires !IsElement(n)
    ensures HasDoctype(n) ==> Steps(s, Events(n, at)).Err?
    ensures !HasDoctype(n) ==> Steps(s, Events(n, at)) == Ok(s)
  {
    StepsOne(s, Events(n, at)[0]);
  }

  lemma {:induction false} OutsideSteps(s: Scan, ns: seq<Node>, at: nat)
    requires forall i :: 0 <= i < |ns| ==> !IsElement(ns[i])
    ensures HasDoctypeAny(ns) ==> Steps(s, EventsAll(ns, at)).Err?
    ensures !HasDoctypeAny(ns) ==> Steps(s, EventsAll(ns, at)) == Ok(s)
    decreases |ns|
  {
    if ns != [] {
      var end := at + |Print(ns[0])|;
      OtherSteps(s, ns[0], at);
      OutsideSteps(s, ns[1..], end);
      StepsConcat(s, Events(ns[0], at), EventsAll(ns[1..], end));
    }
  }

  // The whole message.

  ghost predicate NoDoctype(d: Document) {
    !HasDoctypeAny(d.before) && !HasDoctype(d.root) && !HasDoctypeAny(d.after)
  }

  /** What the scan alone accepts: it counts elements over all Body children together. */
  ghost predicate ScanAccepts(d: Document)
    requires IsElement(d.root)
  {
    && NoDoctype(d) && Named(d.root.tag, SOAP, "Envelope")
    && (forall c :: c in ChildElements(d.root) ==> IsPart(c))
    && |AllBodyKids(Children(d.root))| == 1
  }

  lemma RootSteps(n: Node, at: nat)
    requires IsElement(n)
    ensures var r := Steps(START, Events(n, at)); var kids := AllBodyKids(Children(n));
            && (r.Ok? <==> !HasDoctype(n) && Named(n.tag, SOAP, "Envelope")
                           && (forall c :: c in ChildElements(n) ==> IsPart(c)) && |kids| <= 1)
            && (r.Ok? ==> r.value.sawEnvelope && Met(r.value, kids))
  {
    if n.Element? {
      StepsElement(START, n, at);
      var entered := START.(depth := 1, sawEnvelope := true);
      assert [] + AllBodyKids(n.children) == AllBodyKids(n.children);
      PartsSteps(entered, n.children, at + |OpenText(n)|, []);
      PartsFineAll(n.children);
    } else {
      StepsOne(START, Events(n, at)[0]);
    }
  }

  lemma {:induction false} AllBodyKidsAreElements(ns: seq<Node>)
    ensures AllElements(AllBodyKids(ns))
  {
    if ns != [] {
      AllBodyKidsAreElements(ns[1..]);
    }
  }

  lemma ScanVerdict(d: Document)
    requires ValidDocument(d)
    ensures var r := Finish(Steps(START, DocumentEvents(d))); var kids := AllBodyKids(Children(d.root));
            && (r.Ok? <==> ScanAccepts(d))
            && AllElements(kids)
            && (r.Ok? ==> kids != [] && r.value == NameOf(kids[0].tag))
  {
    var root := |PrintAll(d.before)|;
    var after := root + |Print(d.root)|;
    OutsideSteps(START, d.before, 0);
    RootSteps(d.root, root);
    StepsConcat(START, EventsAll(d.before, 0), Events(d.root, root));
    StepsConcat(START, EventsAll(d.before, 0) + Events(d.root, root), EventsAll(d.after, after));
    AllBodyKidsAreElements(Children(d.root));
    var scanned := Steps(START, Events(d.root, root));
    if scanned.Ok? {
      OutsideSteps(scanned.value, d.after, after);
    }
  }

  /** With one Body among the parts, the walk finds it and its elements are the ones scanned. */
  lemma {:induction false} WalkFindsBody(ns: seq<Node>, found: Option<Node>)
    requires forall c :: c in Elements(ns) ==> IsHeader(c) || IsBody(c)
    ensures var bodies := (if found.Some? then [found.value] else []) + Bodies(Elements(ns));
            var r := BodyAmong(Elements(ns), found);
            && (r.Ok? <==> |bodies| == 1) && (r.Ok? ==> r.value == bodies[0])
    decreases |ns|
  {
    if ns != [] {
      var rest := Elements(ns[1..]);
      if IsElement(ns[0]) {
        assert Elements(ns)[1..] == rest;
        assert ns[0] in Elements(ns);
        if IsBody(ns[0]) && found.None? {
          WalkFindsBody(ns[1..], Some(ns[0]));
        } else {
          WalkFindsBody(ns[1..], found);
        }
      } else {
        assert Elements(ns) == rest;
        WalkFindsBody(ns[1..], found);
      }
    }
  }

  /** The elements of the only Body. */
  lemma {:induction false} KidsOfBodies(ns: seq<Node>)
    ensures Bodies(Elements(ns)) == [] ==> AllBodyKids(ns) == []
    ensures |Bodies(Elements(ns))| == 1 ==> AllBodyKids(ns) == ChildElements(Bodies(Elements(ns))[0])
    decreases |ns|
  {
    if ns != [] {
      KidsOfBodies(ns[1..]);
      var rest := Bodies(Elements(ns[1..]));
      if IsElement(ns[0]) {
        assert Elements(ns)[1..] == Elements(ns[1..]);
      } else {
        assert Elements(ns) == Elements(ns[1..]);
      }
      assert Bodies(Elements(ns)) == (if IsBody(ns[0]) then [ns[0]] else []) + rest;
      assert rest == [] && IsBody(ns[0]) ==> AllBodyKids(ns) == BodyKids(ns[0]) + [] == ChildElements(ns[0]);
    }
  }

  lemma {:induction false} ScanNeverNamesDiffer(s: Scan, events: seq<Placed>)
    ensures Steps(s, events) != Err(NamesDiffer)
    decreases |events|
  {
    if events != [] && Step(s, events[0].event).Ok? {
      ScanNeverNamesDiffer(Step(s, events[0].event).value, events[1..]);
    }
  }

  lemma {:induction false} WalkNeverNamesDiffer(children: seq<Node>, found: Option<Node>)
    requires AllElements(children)
    ensures BodyAmong(children, found) != Err(NamesDiffer)
  {
    if children != [] {
      WalkNeverNamesDiffer(children[1..], found);
      WalkNeverNamesDiffer(children[1..], Some(children[0]));
    }
  }

  /** For every document, the body is read exactly when the message is a SOAP 1.1 envelope with one
      body element and no header block that must be understood; scan and walk name that element. */
  lemma ReadsExactlySoapMessages(d: Document)
    requires ValidDocument(d)
    ensures var r := Reading(d.root, DocumentEvents(d));
            && (r.Ok? <==> NoDoctype(d) && IsSoapMessage(d.root))
            && (r.Ok? ==>
                  var child := ChildElements(Bodies(ChildElements(d.root))[0])[0];
                  IsElement(child) && r.value == SoapBody(child, if child.tag.ns.Some? then child.tag.ns.value else ""))
    ensures Reading(d.root, DocumentEvents(d)) != Err(NamesDiffer)
  {
    ScanVerdict(d);
    ScanNeverNamesDiffer(START, DocumentEvents(d));
    WalkNeverNamesDiffer(ChildElements(d.root), None);
    KidsOfBodies(Children(d.root));
    PartsAreSoap(d.root);
    hide IsPart, IsSoapPart;
    if ScanAccepts(d) {
      WalkFindsBody(Children(d.root), None);
      assert [] + Bodies(ChildElements(d.root)) == Bodies(ChildElements(d.root));
    }
  }

  /** `read_soap_body`, on the tree and the events of one document: it gives the element of the one Body exactly for
      SOAP messages, and the namespaces found by the scan are that element's. */
  method ReadSoapBody(ghost d: Document, root: Node, events: seq<Placed>) returns (r: Result<SoapBody, SoapError>)
    requires ValidDocument(d) && root == d.root && events == DocumentEvents(d)
    ensures r.Ok? <==> NoDoctype(d) && IsSoapMessage(d.root)
    ensures r.Ok? ==>
              var child := ChildElements(Bodies(ChildElements(d.root))[0])[0];
              IsElement(child) && r.value == SoapBody(child, if child.tag.ns.Some? then child.tag.ns.value else "")
    ensures r != Err(NamesDiffer)
  {
    ReadsExactlySoapMessages(d);
    hide Steps, BodyAmong, IsSoapMessage, ChildElements;
    var scanned := SoapBodyNamespace(events);
    if scanned.Err? {
      return Err(scanned.error);
    }
    var body := EnvelopeBody(root);
    if body.Err? {
      return Err(body.error);
    }
    var child := SingleElementChild(body.value);
    if child.Err? {
      return Err(child.error);
    }
    if !IsElement(child.value) || child.value.tag.local != scanned.value.local {
      return Err(NamesDiffer);
    }
    r := Ok(SoapBody(child.value, scanned.value.ns));
  }
}
