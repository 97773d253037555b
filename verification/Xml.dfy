/** XML as the scanners meet it: a tree with resolved names, the text it is printed as, and the
    event stream a namespace-resolving reader reports for that text, each event with the position
    at which it ends. */
module Xml {
  import opened Text

  /** An attribute with its resolved name; the value is decoded Unicode text. */
  datatype Attribute = Attribute(ns: Option<string>, local: string, value: string)

  /** A start tag: its resolved name and attributes, and its text between the angle brackets. */
  datatype Tag = Tag(ns: Option<string>, local: string, attributes: seq<Attribute>, source: string)

  /** `Other` is text, CDATA, a comment, a processing instruction or a reference. */
  datatype Node =
    | Element(tag: Tag, children: seq<Node>, close: string)
    | Empty(tag: Tag)
    | Other(source: string)
    | Doctype(source: string)

  datatype Event = Start(tag: Tag) | EmptyElement(tag: Tag) | End | OtherEvent | DoctypeEvent

  /** An event and the reader's position after it. */
  datatype Placed = Placed(event: Event, end: nat)

  function Children(n: Node): seq<Node> { if n.Element? then n.children else [] }

  predicate Named(tag: Tag, ns: string, local: string) { tag.ns == Some(ns) && tag.local == local }

  predicate IsElement(n: Node) { n.Element? || n.Empty? }

  function OpenText(n: Node): string
    requires n.Element?
  {
    "<" + n.tag.source + ">"
  }

  function CloseText(n: Node): string
    requires n.Element?
  {
    "</" + n.close + ">"
  }

  function Print(n: Node): string {
    match n
    case Element(_, children, _) => OpenText(n) + PrintAll(children) + CloseText(n)
    case Empty(tag) => "<" + tag.source + "/>"
    case Other(source) => source
    case Doctype(source) => source
  }

  function PrintAll(ns: seq<Node>): string {
    if ns == [] then "" else Print(ns[0]) + PrintAll(ns[1..])
  }

  /** The events of a node printed at position `at`. */
  function Events(n: Node, at: nat): seq<Placed> {
    var end := at + |Print(n)|;
    match n
    case Element(tag, children, _) =>
      var inside := at + |OpenText(n)|;
      [Placed(Start(tag), inside)] + EventsAll(children, inside) + [Placed(End, end)]
    case Empty(tag) => [Placed(EmptyElement(tag), end)]
    case Other(_) => [Placed(OtherEvent, end)]
    case Doctype(_) => [Placed(DoctypeEvent, end)]
  }

  function EventsAll(ns: seq<Node>, at: nat): seq<Placed> {
    if ns == [] then [] else Events(ns[0], at) + EventsAll(ns[1..], at + |Print(ns[0])|)
  }

  /** `<` does not occur inside a start tag (section 3.1 of XML 1.0). */
  predicate WellFormed(n: Node) {
    match n
    case Element(tag, children, _) => '<' !in tag.source && WellFormedAll(children)
    case Empty(tag) => '<' !in tag.source
    case _ => true
  }

  predicate WellFormedAll(ns: seq<Node>) {
    ns == [] || (WellFormed(ns[0]) && WellFormedAll(ns[1..]))
  }

  /** The node and all below it. */
  function Inside(n: Node): seq<Node> { [n] + if n.Element? then InsideAll(n.children) else [] }

  function InsideAll(ns: seq<Node>): seq<Node> { if ns == [] then [] else Inside(ns[0]) + InsideAll(ns[1..]) }

  /** A tree is well formed exactly when no tag in it, however deep, holds `<`. */
  lemma {:induction false} WellFormedExactlyWhen(n: Node)
    ensures WellFormed(n) <==> forall m :: m in Inside(n) && IsElement(m) ==> '<' !in m.tag.source
    decreases n, 1
  {
    if n.Element? {
      WellFormedAllExactlyWhen(n.children);
      assert forall m :: m in Inside(n) <==> m == n || m in InsideAll(n.children);
    } else {
      assert forall m :: m in Inside(n) <==> m == n;
    }
  }

  lemma {:induction false} WellFormedAllExactlyWhen(ns: seq<Node>)
    ensures WellFormedAll(ns) <==> forall m :: m in InsideAll(ns) && IsElement(m) ==> '<' !in m.tag.source
    decreases ns, 0
  {
    if ns != [] {
      WellFormedExactlyWhen(ns[0]);
      WellFormedAllExactlyWhen(ns[1..]);
      assert forall m :: m in InsideAll(ns) <==> m in Inside(ns[0]) || m in InsideAll(ns[1..]);
    }
  }

  lemma PrintsTwo(m: Node, n: Node)
    ensures PrintAll([m, n]) == Print(m) + Print(n)
  {
    hide Print;
    assert [m, n][1..] == [n] && [n][1..] == [];
    assert PrintAll([n]) == Print(n) + "" == Print(n);
  }

  /** The text of an element that holds text and an empty element. */
  lemma PrintsAsMarkup(tag: Tag, text: string, inner: Tag, close: string)
    ensures Print(Element(tag, [Other(text), Empty(inner)], close))
         == "<" + tag.source + ">" + (text + ("<" + inner.source + "/>")) + ("</" + close + ">")
  {
    PrintsTwo(Other(text), Empty(inner));
  }

  predicate HasDoctype(n: Node) {
    match n
    case Element(_, children, _) => HasDoctypeAny(children)
    case Doctype(_) => true
    case _ => false
  }

  predicate HasDoctypeAny(ns: seq<Node>) {
    ns != [] && (HasDoctype(ns[0]) || HasDoctypeAny(ns[1..]))
  }

  /** Elements in a node. */
  function Count(n: Node): nat {
    match n
    case Element(_, children, _) => 1 + CountAll(children)
    case Empty(_) => 1
    case _ => 0
  }

  function CountAll(ns: seq<Node>): nat {
    if ns == [] then 0 else Count(ns[0]) + CountAll(ns[1..])
  }

  /** Start tags that are open at once; a self-closing tag is never open. */
  function Height(n: Node): nat {
    match n
    case Element(_, children, _) => 1 + HeightAll(children)
    case _ => 0
  }

  function HeightAll(ns: seq<Node>): nat {
    if ns == [] then 0
    else if Height(ns[0]) > HeightAll(ns[1..]) then Height(ns[0])
    else HeightAll(ns[1..])
  }

  /** A document: one element, and around it only comments, white space and declarations. */
  datatype Document = Document(before: seq<Node>, root: Node, after: seq<Node>)

  predicate ValidDocument(d: Document) {
    && IsElement(d.root) && WellFormed(d.root)
    && (forall i :: 0 <= i < |d.before| ==> !IsElement(d.before[i]))
    && (forall i :: 0 <= i < |d.after| ==> !IsElement(d.after[i]))
  }

  function PrintDocument(d: Document): string { PrintAll(d.before) + Print(d.root) + PrintAll(d.after) }

  function DocumentEvents(d: Document): seq<Placed> {
    var root := |PrintAll(d.before)|;
    EventsAll(d.before, 0) + Events(d.root, root) + EventsAll(d.after, root + |Print(d.root)|)
  }
}
