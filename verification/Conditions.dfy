/** The scan for a condition the service provider does not understand (section 2.5.1 of SAML Core 2.0):
    a stack of open elements over the event stream against a search of the tree. */
module Conditions {
  import opened Text
  import opened Xml

  const PROTOCOL := "urn:oasis:names:tc:SAML:2.0:protocol"
  const ASSERTION := "urn:oasis:names:tc:SAML:2.0:assertion"

  datatype ElementNamespace = ProtocolNamespace | AssertionNamespace | OtherNamespace

  datatype Frame = Frame(ns: ElementNamespace, local: string)

  function NamespaceOf(tag: Tag): ElementNamespace {
    if tag.ns == Some(PROTOCOL) then ProtocolNamespace
    else if tag.ns == Some(ASSERTION) then AssertionNamespace
    else OtherNamespace
  }

  function FrameOf(tag: Tag): Frame { Frame(NamespaceOf(tag), tag.local) }

  predicate UnderstoodCondition(local: string) {
    local == "AudienceRestriction" || local == "OneTimeUse" || local == "ProxyRestriction"
  }

  /** `unknown_condition_child`: looks at the top three open elements. */
  function UnknownConditionChild(stack: seq<Frame>, child: Frame): Option<string> {
    if |stack| == 0 || stack[|stack| - 1] != Frame(AssertionNamespace, "Conditions") then None
    else if |stack| < 3 then None
    else if stack[|stack| - 3] != Frame(ProtocolNamespace, "Response") then None
    else if stack[|stack| - 2] != Frame(AssertionNamespace, "Assertion") then None
    else if child.ns == AssertionNamespace && UnderstoodCondition(child.local) then None
    else Some(child.local)
  }

  /** The scan so far: a condition found, or the elements still open. */
  datatype Search = Found(name: string) | Open(stack: seq<Frame>)

  function Step(s: Search, event: Event): Search {
    match s
    case Found(_) => s
    case Open(stack) =>
      match event
      case Start(tag) =>
        (match UnknownConditionChild(stack, FrameOf(tag))
         case Some(name) => Found(name)
         case None => Open(stack + [FrameOf(tag)]))
      case EmptyElement(tag) =>
        (match UnknownConditionChild(stack, FrameOf(tag))
         case Some(name) => Found(name)
         case None => s)
      case End => Open(if stack == [] then [] else stack[..|stack| - 1])
      case _ => s
  }

  function Steps(s: Search, events: seq<Placed>): Search
    decreases |events|
  {
    if events == [] then s else Steps(Step(s, events[0].event), events[1..])
  }

  function Verdict(s: Search): Option<string> { if s.Found? then Some(s.name) else None }

  lemma {:induction false} FoundStays(name: string, events: seq<Placed>)
    ensures Steps(Found(name), events) == Found(name)
  {
    if events != [] {
      FoundStays(name, events[1..]);
    }
  }

  /** `unrecognized_condition_name`. */
  method UnrecognizedConditionName(events: seq<Placed>) returns (r: Option<string>)
    ensures r == Verdict(Steps(Open([]), events))
  {
    var stack: seq<Frame> := [];
    for i := 0 to |events|
      invariant Steps(Open([]), events) == Steps(Open(stack), events[i..])
    {
      ghost var rest := events[i..][1..];
      assert rest == events[i + 1..];
      match events[i].event {
        case Start(tag) =>
          var unknown := UnknownConditionChild(stack, FrameOf(tag));
          if unknown.Some? {
            FoundStays(unknown.value, rest);
            return unknown;
          }
          stack := stack + [FrameOf(tag)];
        case EmptyElement(tag) =>
          var unknown := UnknownConditionChild(stack, FrameOf(tag));
          if unknown.Some? {
            FoundStays(unknown.value, rest);
            return unknown;
          }
        case End =>
          if stack != [] {
            stack := stack[..|stack| - 1];
          }
        case _ =>
      }
    }
    r := None;
  }

  // The same on the tree.

  /** Any condition but the three that section 2.5.1 of SAML Core 2.0 defines with a meaning of their own. */
  predicate IsUnknownCondition(tag: Tag) {
    !(tag.ns == Some("urn:oasis:names:tc:SAML:2.0:assertion")
      && tag.local in ["AudienceRestriction", "OneTimeUse", "ProxyRestriction"])
  }

  /** Whether an element with these three nearest ancestors is a condition that is not understood. */
  predicate Offends(above: seq<Tag>, tag: Tag) {
    && |above| >= 3
    && Named(above[|above| - 3], PROTOCOL, "Response")
    && Named(above[|above| - 2], ASSERTION, "Assertion")
    && Named(above[|above| - 1], ASSERTION, "Conditions")
    && IsUnknownCondition(tag)
  }

  /** The first offending element at or below `n`, in document order. */
  function FirstOffence(n: Node, above: seq<Tag>): Option<string>
    decreases n, 1
  {
    if !IsElement(n) then None
    else if Offends(above, n.tag) then Some(n.tag.local)
    else if n.Empty? then None
    else FirstOffenceAll(n.children, above + [n.tag])
  }

  function FirstOffenceAll(ns: seq<Node>, above: seq<Tag>): Option<string>
    decreases ns, 0
  {
    if ns == [] then None
    else
      var first := FirstOffence(ns[0], above);
      if first.Some? then first else FirstOffenceAll(ns[1..], above)
  }

  predicate IsNamed(n: Node, ns: string, local: string) { IsElement(n) && Named(n.tag, ns, local) }

  predicate InAssertion(n: Node, local: string) { IsNamed(n, "urn:oasis:names:tc:SAML:2.0:assertion", local) }

  ghost predicate OffendingConditions(n: Node) {
    InAssertion(n, "Conditions") && exists c :: c in Children(n) && IsElement(c) && IsUnknownCondition(c.tag)
  }

  ghost predicate OffendingAssertion(n: Node) {
    InAssertion(n, "Assertion") && exists c :: c in Children(n) && OffendingConditions(c)
  }

  ghost predicate OffendingResponse(n: Node) {
    && IsNamed(n, "urn:oasis:names:tc:SAML:2.0:protocol", "Response")
    && exists c :: c in Children(n) && OffendingAssertion(c)
  }

  /** Somewhere in the tree a Response has an Assertion with Conditions with a child not understood. */
  ghost predicate HasOffence(n: Node) {
    OffendingResponse(n) || exists c :: c in Children(n) && HasOffence(c)
  }

  // The scan finds the first offence.

  function Frames(above: seq<Tag>): seq<Frame> {
    seq(|above|, i requires 0 <= i < |above| => FrameOf(above[i]))
  }

  lemma FrameIs(tag: Tag, local: string)
    ensures FrameOf(tag) == Frame(AssertionNamespace, local) <==> Named(tag, ASSERTION, local)
    ensures FrameOf(tag) == Frame(ProtocolNamespace, local) <==> Named(tag, PROTOCOL, local)
  {
    assert |PROTOCOL| != |ASSERTION|;
  }

  lemma StackOffends(above: seq<Tag>, tag: Tag)
    ensures UnknownConditionChild(Frames(above), FrameOf(tag)) == if Offends(above, tag) then Some(tag.local) else None
  {
    var n := |above|;
    if n >= 3 {
      FrameIs(above[n - 1], "Conditions");
      FrameIs(above[n - 2], "Assertion");
      FrameIs(above[n - 3], "Response");
    }
    FrameIs(tag, tag.local);
  }

  lemma {:induction false} StepsConcat(s: Search, a: seq<Placed>, b: seq<Placed>)
    ensures Steps(s, a + b) == Steps(Steps(s, a), b)
    decreases |a|
  {
    if a == [] {
      assert a + b == b;
    } else {
      StepsConcat(Step(s, a[0].event), a[1..], b);
      assert (a + b)[1..] == a[1..] + b;
    }
  }

  function After(above: seq<Tag>, offence: Option<string>): Search {
    if offence.Some? then Found(offence.value) else Open(Frames(above))
  }

  lemma StepsOne(s: Search, p: Placed)
    ensures Steps(s, [p]) == Step(s, p.event)
  {
    assert Steps(s, [p]) == Steps(Step(s, p.event), [p][1..]);
  }

  lemma {:induction false} ScanNode(n: Node, above: seq<Tag>, at: nat)
    ensures Steps(Open(Frames(above)), Events(n, at)) == After(above, FirstOffence(n, above))
    decreases n, 1
  {
    var s := Open(Frames(above));
    if n.Element? {
      StackOffends(above, n.tag);
      var start, end := Placed(Start(n.tag), at + |OpenText(n)|), Placed(End, at + |Print(n)|);
      var inside := EventsAll(n.children, start.end);
      StepsOne(s, start);
      StepsConcat(s, [start], inside);
      StepsConcat(s, [start] + inside, [end]);
      if Offends(above, n.tag) {
        FoundStays(n.tag.local, inside);
        FoundStays(n.tag.local, [end]);
      } else {
        var below := above + [n.tag];
        assert Frames(below) == Frames(above) + [FrameOf(n.tag)];
        ScanAll(n.children, below, start.end);
        StepsOne(After(below, FirstOffenceAll(n.children, below)), end);
        assert Frames(below)[..|Frames(below)| - 1] == Frames(above);
      }
    } else {
      if n.Empty? {
        StackOffends(above, n.tag);
      }
      StepsOne(s, Events(n, at)[0]);
    }
  }

  lemma {:induction false} ScanAll(ns: seq<Node>, above: seq<Tag>, at: nat)
    ensures Steps(Open(Frames(above)), EventsAll(ns, at)) == After(above, FirstOffenceAll(ns, above))
    decreases ns, 0
  {
    if ns != [] {
      var end := at + |Print(ns[0])|;
      ScanNode(ns[0], above, at);
      StepsConcat(Open(Frames(above)), Events(ns[0], at), EventsAll(ns[1..], end));
      var first := FirstOffence(ns[0], above);
      if first.Some? {
        FoundStays(first.value, EventsAll(ns[1..], end));
      } else {
        ScanAll(ns[1..], above, end);
      }
    }
  }

  lemma {:induction false} OutsideNone(ns: seq<Node>)
    requires forall i :: 0 <= i < |ns| ==> !IsElement(ns[i])
    ensures FirstOffenceAll(ns, []) == None
  {
    if ns != [] {
      OutsideNone(ns[1..]);
    }
  }

  /** For every document the scan returns the first offending element of the tree in document order. */
  lemma ScanFindsFirst(d: Document)
    requires ValidDocument(d)
    ensures Verdict(Steps(Open([]), DocumentEvents(d))) == FirstOffence(d.root, [])
  {
    var root := |PrintAll(d.before)|;
    var after := root + |Print(d.root)|;
    var s := Open(Frames([]));
    assert Frames([]) == [];
    OutsideNone(d.before);
    OutsideNone(d.after);
    ScanAll(d.before, [], 0);
    ScanNode(d.root, [], root);
    ScanAll(d.after, [], after);
    StepsConcat(s, EventsAll(d.before, 0), Events(d.root, root));
    StepsConcat(s, EventsAll(d.before, 0) + Events(d.root, root), EventsAll(d.after, after));
    var first := FirstOffence(d.root, []);
    if first.Some? {
      FoundStays(first.value, EventsAll(d.after, after));
    }
  }

  // There is a first one exactly when there is one.

  predicate EndsWith(above: seq<Tag>, back: nat, ns: string, local: string)
    requires back > 0
  {
    |above| >= back && Named(above[|above| - back], ns, local)
  }

  /** An offence at or below `n`, some of whose Response, Assertion and Conditions may be above it. */
  ghost predicate OffenceFrom(above: seq<Tag>, n: Node) {
    || HasOffence(n)
    || (EndsWith(above, 1, PROTOCOL, "Response") && OffendingAssertion(n))
    || (EndsWith(above, 2, PROTOCOL, "Response") && EndsWith(above, 1, ASSERTION, "Assertion") &&
        OffendingConditions(n))
    || (IsElement(n) && Offends(above, n.tag))
  }

  lemma {:induction false} FirstIffSome(n: Node, above: seq<Tag>)
    ensures FirstOffence(n, above).Some? <==> OffenceFrom(above, n)
    decreases n, 1
  {
    if n.Element? {
      var below := above + [n.tag];
      FirstIffSomeAll(n.children, below);
      ChildOffence(n, above);
    }
  }

  lemma ChildOffence(n: Node, above: seq<Tag>)
    requires n.Element?
    ensures OffenceFrom(above, n) <==>
            Offends(above, n.tag) || exists c :: c in n.children && OffenceFrom(above + [n.tag], c)
  {
    var below := above + [n.tag];
    forall c | c in n.children
      ensures OffenceFrom(below, c) <==>
              || HasOffence(c)
              || (Named(n.tag, PROTOCOL, "Response") && OffendingAssertion(c))
              || (EndsWith(above, 1, PROTOCOL, "Response") && Named(n.tag, ASSERTION, "Assertion") &&
                  OffendingConditions(c))
              || (EndsWith(above, 2, PROTOCOL, "Response") && EndsWith(above, 1, ASSERTION, "Assertion")
                  && Named(n.tag, ASSERTION, "Conditions") && IsElement(c) && IsUnknownCondition(c.tag))
    {
    }
  }

  lemma {:induction false} FirstIffSomeAll(ns: seq<Node>, above: seq<Tag>)
    ensures FirstOffenceAll(ns, above).Some? <==> exists c :: c in ns && OffenceFrom(above, c)
    decreases ns, 0
  {
    if ns != [] {
      FirstIffSome(ns[0], above);
      FirstIffSomeAll(ns[1..], above);
    }
  }

  /** The scan reports nothing exactly when no Response in the document has such a condition. */
  lemma ScanReportsNoneIff(d: Document)
    requires ValidDocument(d)
    ensures Verdict(Steps(Open([]), DocumentEvents(d))) == None <==> !HasOffence(d.root)
  {
    ScanFindsFirst(d);
    FirstIffSome(d.root, []);
  }
}
