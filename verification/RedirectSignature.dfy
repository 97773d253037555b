/** Removing the protocol signature before DEFLATE (section 3.4.4.1 of SAML Bindings 2.0):
    a scan of the event stream finds the byte spans of the root's direct `ds:Signature` children,
    and the spans are cut out of the text. */
module RedirectSignature {
  import opened Text
  import opened Xml

  const DSIG := "http://www.w3.org/2000/09/xmldsig#"

  datatype Limits = Limits(maxBytes: nat, maxDepth: nat, maxNodes: nat)

  datatype ScanError =
    | TooManyBytes
    | TooManyNodes
    | TooDeep
    | DoctypeNotAllowed
    | EndWithoutStart
    | NoStartTag
    | Unclosed
    | SignatureNotDetached

  type Span = (nat, nat)

  datatype Scan = Scan(depth: nat, nodes: nat, open: Option<nat>, spans: seq<Span>)

  predicate IsSignature(tag: Tag) { tag.local == "Signature" && tag.ns == Some(DSIG) }

  function ElementStart(xml: string, end: nat): Result<nat, ScanError>
    requires end <= |xml|
  {
    match LastIndex(xml[..end], '<')
    case Some(start) => Ok(start)
    case None => Err(NoStartTag)
  }

  function Counted(s: Scan, limits: Limits): Result<Scan, ScanError> {
    if s.nodes + 1 > limits.maxNodes then Err(TooManyNodes) else Ok(s.(nodes := s.nodes + 1))
  }

  /** What one event does to the scan. */
  function Step(xml: string, limits: Limits, s: Scan, p: Placed): Result<Scan, ScanError>
    requires p.end <= |xml|
  {
    match p.event
    case DoctypeEvent => Err(DoctypeNotAllowed)
    case OtherEvent => Ok(s)
    case Start(tag) =>
      (match Counted(s, limits)
       case Err(e) => Err(e)
       case Ok(counted) =>
         var open := if s.depth == 1 && IsSignature(tag) then ElementStart(xml, p.end) else Err(NoStartTag);
         if s.depth == 1 && IsSignature(tag) && open.Err? then Err(open.error)
         else if s.depth + 1 > limits.maxDepth then Err(TooDeep)
         else
           Ok(counted.(depth := s.depth + 1, open := if open.Ok? then Some(open.value) else s.open)))
    case EmptyElement(tag) =>
      (match Counted(s, limits)
       case Err(e) => Err(e)
       case Ok(counted) =>
         if s.depth == 1 && IsSignature(tag) then
           match ElementStart(xml, p.end)
           case Err(e) => Err(e)
           case Ok(start) => Ok(counted.(spans := s.spans + [(start, p.end)]))
         else Ok(counted))
    case End =>
      if s.depth == 0 then Err(EndWithoutStart)
      else if s.depth == 2 && s.open.Some? then
        Ok(s.(depth := 1, open := None, spans := s.spans + [(s.open.value, p.end)]))
      else Ok(s.(depth := s.depth - 1))
  }

  ghost predicate Within(xml: string, events: seq<Placed>) {
    forall i :: 0 <= i < |events| ==> events[i].end <= |xml|
  }

  ghost function Steps(xml: string, limits: Limits, s: Scan, events: seq<Placed>): Result<Scan, ScanError>
    requires Within(xml, events)
    decreases |events|
  {
    if events == [] then Ok(s)
    else
      match Step(xml, limits, s, events[0])
      case Err(e) => Err(e)
      case Ok(next) => Steps(xml, limits, next, events[1..])
  }

  /** The specification of `protocol_signature_spans` over the events of its text. */
  ghost function Spans(xml: string, limits: Limits, events: seq<Placed>): Result<seq<Span>, ScanError>
    requires Within(xml, events)
  {
    if |xml| > limits.maxBytes then Err(TooManyBytes)
    else
      match Steps(xml, limits, Scan(0, 0, None, []), events)
      case Err(e) => Err(e)
      case Ok(s) => if s.open.Some? || s.depth != 0 then Err(Unclosed) else Ok(s.spans)
  }

  /** Start tags less end tags. */
  function Opened(events: seq<Placed>): int {
    if events == [] then 0
    else (if events[0].event.Start? then 1 else if events[0].event == End then -1 else 0) + Opened(events[1..])
  }

  lemma {:induction false} DepthIsOpened(xml: string, limits: Limits, s: Scan, events: seq<Placed>)
    requires Within(xml, events) && Steps(xml, limits, s, events).Ok?
    ensures Steps(xml, limits, s, events).value.depth == s.depth + Opened(events)
    decreases |events|
  {
    if events != [] {
      hide ElementStart;
      DepthIsOpened(xml, limits, Step(xml, limits, s, events[0]).value, events[1..]);
    }
  }

  /** Whatever the events, spans are given only when every start tag has its end tag. */
  lemma SpansNeedEndTags(xml: string, limits: Limits, events: seq<Placed>)
    requires Within(xml, events) && Opened(events) != 0
    ensures Spans(xml, limits, events).Err?
  {
    hide Steps;
    if Steps(xml, limits, Scan(0, 0, None, []), events).Ok? {
      DepthIsOpened(xml, limits, Scan(0, 0, None, []), events);
    }
  }

  /** A signature of the root whose start tag cannot be found in the text is an error. */
  lemma LostTagIsRefused(xml: string, limits: Limits, s: Scan, tag: Tag, end: nat)
    requires end <= |xml| && '<' !in xml[..end] && s.depth == 1
    requires tag.local == "Signature" && tag.ns == Some("http://www.w3.org/2000/09/xmldsig#")
    ensures Step(xml, limits, s, Placed(Start(tag), end)).Err?
    ensures Step(xml, limits, s, Placed(EmptyElement(tag), end)).Err?
  {
  }

  /** `protocol_signature_spans`: one pass over the events, updating depth, count, open span and spans. */
  method ProtocolSignatureSpans(xml: string, limits: Limits, events: seq<Placed>)
    returns (r: Result<seq<Span>, ScanError>)
    requires Within(xml, events)
    ensures r == Spans(xml, limits, events)
  {
    if |xml| > limits.maxBytes {
      return Err(TooManyBytes);
    }
    var depth, nodes := 0, 0;
    var open: Option<nat> := None;
    var spans: seq<Span> := [];
    ghost var start := Scan(0, 0, None, []);
    for i := 0 to |events|
      invariant Steps(xml, limits, start, events)
             == Steps(xml, limits, Scan(depth, nodes, open, spans), events[i..])
    {
      var tag, end := events[i].event, events[i].end;
      assert events[i..][1..] == events[i + 1..];
      match tag {
        case DoctypeEvent =>
          return Err(DoctypeNotAllowed);
        case Start(t) =>
          nodes := nodes + 1;
          if nodes > limits.maxNodes {
            return Err(TooManyNodes);
          }
          if depth == 1 && IsSignature(t) {
            var found := ElementStart(xml, end);
            if found.Err? {
              return Err(found.error);
            }
            open := Some(found.value);
          }
          depth := depth + 1;
          if depth > limits.maxDepth {
            return Err(TooDeep);
          }
        case EmptyElement(t) =>
          nodes := nodes + 1;
          if nodes > limits.maxNodes {
            return Err(TooManyNodes);
          }
          if depth == 1 && IsSignature(t) {
            var found := ElementStart(xml, end);
            if found.Err? {
              return Err(found.error);
            }
            spans := spans + [(found.value, end)];
          }
        case End =>
          if depth == 0 {
            return Err(EndWithoutStart);
          }
          depth := depth - 1;
          if depth == 1 && open.Some? {
            spans := spans + [(open.value, end)];
            open := None;
          }
        case OtherEvent =>
      }
    }
    if open.Some? || depth != 0 {
      return Err(Unclosed);
    }
    r := Ok(spans);
  }

  ghost predicate Ordered(spans: seq<Span>, from: nat, to: nat) {
    if spans == [] then from <= to
    else from <= spans[0].0 <= spans[0].1 && Ordered(spans[1..], spans[0].1, to)
  }

  lemma {:induction false} OrderedBounds(spans: seq<Span>, from: nat, to: nat)
    requires Ordered(spans, from, to)
    ensures from <= to
  {
    if spans != [] {
      OrderedBounds(spans[1..], spans[0].1, to);
    }
  }

  /** The text from `cursor` on, with the spans left out. */
  ghost function Cut(xml: string, spans: seq<Span>, cursor: nat): string
    requires Ordered(spans, cursor, |xml|)
  {
    if spans == [] then xml[cursor..]
    else
      OrderedBounds(spans[1..], spans[0].1, |xml|);
      xml[cursor..spans[0].0] + Cut(xml, spans[1..], spans[0].1)
  }

  /** `remove_spans`. */
  method RemoveSpans(xml: string, spans: seq<Span>) returns (rewritten: string)
    requires Ordered(spans, 0, |xml|)
    ensures rewritten == Cut(xml, spans, 0)
  {
    rewritten := "";
    var cursor: nat := 0;
    for i := 0 to |spans|
      invariant Ordered(spans[i..], cursor, |xml|)
      invariant Cut(xml, spans, 0) == rewritten + Cut(xml, spans[i..], cursor)
    {
      assert spans[i..][1..] == spans[i + 1..];
      OrderedBounds(spans[i + 1..], spans[i].1, |xml|);
      rewritten := rewritten + xml[cursor..spans[i].0];
      cursor := spans[i].1;
    }
    OrderedBounds(spans[|spans|..], cursor, |xml|);
    rewritten := rewritten + xml[cursor..];
  }
}
