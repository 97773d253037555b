/** Reading the one element in a SOAP 1.1 body: a depth-and-flags scan of the event stream checks
    namespaces and headers, a walk of the tree by local names finds the element. */
module Soap {
  import opened Text
  import opened Xml

  const SOAP := "http://schemas.xmlsoap.org/soap/envelope/"

  datatype SoapError =
    | NotEnvelope
    | NotHeaderOrBody
    | NotSoapNamespace
    | MustUnderstand
    | SeveralBodyElements
    | NoBodyElement
    | SeveralBodies
    | NoBody
    | NamesDiffer
    | DoctypeNotAllowed

  datatype NamedNamespace = NamedNamespace(local: string, ns: string)

  // The scan.

  datatype Scan = Scan(
    depth: nat, sawEnvelope: bool, inHeader: bool, headerDepth: nat, inBody: bool, bodyDepth: nat,
    bodyChildren: nat, child: Option<NamedNamespace>)

  const START := Scan(0, false, false, 0, false, 0, 0, None)

  /** `reject_must_understand`: an unprefixed attribute counts as well. */
  predicate MustBeUnderstood(tag: Tag) {
    exists i :: 0 <= i < |tag.attributes| && IsMustUnderstand(tag.attributes[i])
  }

  predicate IsMustUnderstand(a: Attribute) {
    && a.local == "mustUnderstand" && (a.ns == Some(SOAP) || a.ns == None)
    && (Trim(a.value) == "1" || Trim(a.value) == "true")
  }

  function NameOf(tag: Tag): NamedNamespace {
    NamedNamespace(tag.local, if tag.ns.Some? then tag.ns.value else "")
  }

  /** `observe_start`, for a start tag at `depth`. */
  function ObserveStart(s: Scan, tag: Tag, depth: nat, empty: bool): Result<Scan, SoapError> {
    if depth == 1 then
      if Named(tag, SOAP, "Envelope") then Ok(s.(sawEnvelope := true)) else Err(NotEnvelope)
    else if depth == 2 && s.sawEnvelope then
      if tag.ns != Some(SOAP) then Err(NotSoapNamespace)
      else if tag.local == "Header" then Ok(s.(inHeader := !empty, headerDepth := depth))
      else if tag.local == "Body" then Ok(s.(inBody := !empty, bodyDepth := depth))
      else Err(NotHeaderOrBody)
    else if s.inHeader && depth == s.headerDepth + 1 && MustBeUnderstood(tag) then Err(MustUnderstand)
    else if s.inBody && depth == s.bodyDepth + 1 then
      if s.bodyChildren + 1 > 1 then Err(SeveralBodyElements)
      else Ok(s.(bodyChildren := s.bodyChildren + 1, child := Some(NameOf(tag))))
    else Ok(s)
  }

  function Step(s: Scan, event: Event): Result<Scan, SoapError> {
    match event
    case Start(tag) => ObserveStart(s.(depth := s.depth + 1), tag, s.depth + 1, false)
    case EmptyElement(tag) => ObserveStart(s, tag, s.depth + 1, true)
    case End =>
      Ok(s.(inHeader := s.inHeader && s.depth != s.headerDepth, inBody := s.inBody && s.depth != s.bodyDepth,
            depth := if s.depth == 0 then 0 else s.depth - 1))
    case DoctypeEvent => Err(SoapError.DoctypeNotAllowed)
    case OtherEvent => Ok(s)
  }

  function Steps(s: Scan, events: seq<Placed>): Result<Scan, SoapError>
    decreases |events|
  {
    if events == [] then Ok(s)
    else
      match Step(s, events[0].event)
      case Err(e) => Err(e)
      case Ok(next) => Steps(next, events[1..])
  }

  function Finish(r: Result<Scan, SoapError>): Result<NamedNamespace, SoapError> {
    match r
    case Err(e) => Err(e)
    case Ok(s) =>
      if !s.sawEnvelope then Err(NotEnvelope)
      else if s.child.None? then Err(NoBodyElement)
      else Ok(s.child.value)
  }

  /** `soap_body_namespace`. */
  method SoapBodyNamespace(events: seq<Placed>) returns (r: Result<NamedNamespace, SoapError>)
    ensures r == Finish(Steps(START, events))
  {
    var scan := START;
    for i := 0 to |events|
      invariant Steps(START, events) == Steps(scan, events[i..])
    {
      assert events[i..][1..] == events[i + 1..];
      var next := Step(scan, events[i].event);
      if next.Err? {
        return Err(next.error);
      }
      scan := next.value;
    }
    if !scan.sawEnvelope {
      return Err(NotEnvelope);
    }
    r := if scan.child.None? then Err(NoBodyElement) else Ok(scan.child.value);
  }

  // The tree walk, by local names.

  predicate AllElements(ns: seq<Node>) { forall i :: 0 <= i < |ns| ==> IsElement(ns[i]) }

  /** Child elements, which are what the parsed tree keeps as children. */
  function Elements(ns: seq<Node>): (r: seq<Node>)
    ensures AllElements(r)
  {
    if ns == [] then [] else (if IsElement(ns[0]) then [ns[0]] else []) + Elements(ns[1..])
  }

  function ChildElements(n: Node): seq<Node> { Elements(Children(n)) }

  /** `envelope_body`. */
  method EnvelopeBody(envelope: Node) returns (r: Result<Node, SoapError>)
    requires IsElement(envelope)
    ensures r == BodyOf(envelope)
  {
    if envelope.tag.local != "Envelope" {
      return Err(NotEnvelope);
    }
    var children := ChildElements(envelope);
    var body: Option<Node> := None;
    for i := 0 to |children|
      invariant BodyAmong(children, None) == BodyAmong(children[i..], body)
    {
      assert children[i..][1..] == children[i + 1..];
      var child := children[i];
      if child.tag.local == "Header" {
      } else if child.tag.local == "Body" {
        if body.Some? {
          return Err(SeveralBodies);
        }
        body := Some(child);
      } else {
        return Err(NotHeaderOrBody);
      }
    }
    r := if body.Some? then Ok(body.value) else Err(NoBody);
  }

  function BodyAmong(children: seq<Node>, body: Option<Node>): Result<Node, SoapError>
    requires AllElements(children)
  {
    if children == [] then if body.Some? then Ok(body.value) else Err(NoBody)
    else if children[0].tag.local == "Header" then BodyAmong(children[1..], body)
    else if children[0].tag.local != "Body" then Err(NotHeaderOrBody)
    else if body.Some? then Err(SeveralBodies)
    else BodyAmong(children[1..], Some(children[0]))
  }

  function BodyOf(envelope: Node): Result<Node, SoapError>
    requires IsElement(envelope)
  {
    if envelope.tag.local != "Envelope" then Err(NotEnvelope) else BodyAmong(ChildElements(envelope), None)
  }

  /** `single_element_child`. */
  function SingleElementChild(body: Node): Result<Node, SoapError> {
    var children := ChildElements(body);
    if |children| == 0 then Err(NoBodyElement)
    else if |children| > 1 then Err(SeveralBodyElements)
    else Ok(children[0])
  }

  /** The element found, and its namespace. */
  datatype SoapBody = SoapBody(element: Node, ns: string)

  /** What `read_soap_body` makes of the parsed tree and the events of the same text. */
  function Reading(root: Node, events: seq<Placed>): Result<SoapBody, SoapError>
    requires IsElement(root)
  {
    match Finish(Steps(START, events))
    case Err(e) => Err(e)
    case Ok(name) =>
      match BodyOf(root)
      case Err(e) => Err(e)
      case Ok(body) =>
        match SingleElementChild(body)
        case Err(e) => Err(e)
        case Ok(child) =>
          if !IsElement(child) || child.tag.local != name.local then Err(NamesDiffer)
          else Ok(SoapBody(child, name.ns))
  }

  // The parts by themselves.

  predicate IsPartName(local: string) { local == "Header" || local == "Body" }

  ghost predicate TwoBodies(children: seq<Node>)
    requires AllElements(children)
  {
    exists i, j :: 0 <= i < j < |children| && children[i].tag.local == children[j].tag.local == "Body"
  }

  /** The walk gives a Body among Header and Body children, the only one; every error says what is wrong with them. */
  lemma {:induction false} BodyAmongIs(children: seq<Node>, found: Option<Node>)
    requires AllElements(children)
    ensures match BodyAmong(children, found)
            case Ok(body) =>
              && (forall k :: 0 <= k < |children| ==> IsPartName(children[k].tag.local)) && !TwoBodies(children)
              && (if found.Some? then
                    body == found.value && forall k :: 0 <= k < |children| ==> children[k].tag.local == "Header"
                  else body in children && body.tag.local == "Body")
            case Err(NotHeaderOrBody) => exists k :: 0 <= k < |children| && !IsPartName(children[k].tag.local)
            case Err(SeveralBodies) =>
              TwoBodies(children) || (found.Some? && exists k :: 0 <= k < |children| && children[k].tag.local == "Body")
            case Err(NoBody) => found.None? && forall k :: 0 <= k < |children| ==> children[k].tag.local == "Header"
            case _ => false
    decreases |children|
  {
    if children != [] {
      var rest := children[1..];
      assert forall k :: 0 < k < |children| ==> children[k] == rest[k - 1];
      assert forall k :: 0 <= k < |rest| ==> rest[k] == children[k + 1];
      if children[0].tag.local == "Header" {
        BodyAmongIs(rest, found);
        TwoBodiesCons(children);
      } else if children[0].tag.local == "Body" && found.None? {
        BodyAmongIs(rest, Some(children[0]));
        TwoBodiesCons(children);
      }
    }
  }

  lemma TwoBodiesCons(children: seq<Node>)
    requires AllElements(children) && children != []
    ensures TwoBodies(children) <==>
              || TwoBodies(children[1..])
              || (children[0].tag.local == "Body"
                  && exists k :: 0 <= k < |children[1..]| && children[1..][k].tag.local == "Body")
  {
    var rest := children[1..];
    if TwoBodies(children) {
      var i, j :| 0 <= i < j < |children| && children[i].tag.local == children[j].tag.local == "Body";
      assert rest[j - 1] == children[j] && (i > 0 ==> rest[i - 1] == children[i]);
    }
    if TwoBodies(rest) {
      var i, j :| 0 <= i < j < |rest| && rest[i].tag.local == rest[j].tag.local == "Body";
      assert children[i + 1] == rest[i] && children[j + 1] == rest[j];
    }
    if exists k :: 0 <= k < |rest| && rest[k].tag.local == "Body" {
      var k :| 0 <= k < |rest| && rest[k].tag.local == "Body";
      assert children[k + 1] == rest[k];
    }
  }

  /** A body is read only when it has exactly one element, which is read. */
  lemma SingleExactlyWhen(body: Node)
    ensures match SingleElementChild(body)
            case Ok(child) => ChildElements(body) == [child]
            case Err(NoBodyElement) => ChildElements(body) == []
            case Err(SeveralBodyElements) => |ChildElements(body)| >= 2
            case _ => false
  {
  }

  /** Even on a tree and events that do not belong together, what is read has the name that the scan found. */
  lemma ReadingAgrees(root: Node, events: seq<Placed>)
    requires IsElement(root) && Reading(root, events).Ok?
    ensures var body := Reading(root, events).value;
            IsElement(body.element) && root.tag.local == "Envelope"
            && Finish(Steps(START, events)) == Ok(NamedNamespace(body.element.tag.local, body.ns))
  {
    hide Steps, BodyAmong, ChildElements;
  }

  /** Without any element there is no envelope. */
  lemma {:induction false} NoElementNoEnvelope(s: Scan, events: seq<Placed>)
    requires !s.sawEnvelope && forall i :: 0 <= i < |events| ==> events[i].event == OtherEvent || events[i].event == End
    ensures Finish(Steps(s, events)) == Err(NotEnvelope)
    decreases |events|
  {
    if events != [] {
      NoElementNoEnvelope(Step(s, events[0].event).value, events[1..]);
    }
  }
}
