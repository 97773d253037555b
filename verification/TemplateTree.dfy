/** Templates as element trees, and the fit of the byte search to them: on the text such a tree is
    printed as, filling and removing placeholders is an operation on the tree. */
module TemplateTree {
  import opened Text
  import opened Template
  import opened TemplateText
  import Escape

  /** An attribute with the white space around its parts. */
  datatype Attribute = Attribute(space: string, name: string, before: string, after: string,
                                 quote: char, value: seq<Piece>)

  datatype Item = Words(piece: Piece) | Child(element: Element)

  /** `tail` is the white space before the end of the start tag; a closed element is printed `<n/>`. */
  datatype Element = Element(name: string, attributes: seq<Attribute>, tail: string, closed: bool, items: seq<Item>)

  // Printing.

  function Head(a: Attribute): string { a.space + a.name + a.before + "=" + a.after + [a.quote] }

  function AttributePieces(a: Attribute): seq<Piece> { [Lit(Head(a))] + a.value + [Lit([a.quote])] }

  function AttributesPieces(attributes: seq<Attribute>): seq<Piece> {
    if attributes == [] then [] else AttributePieces(attributes[0]) + AttributesPieces(attributes[1..])
  }

  function OpenPieces(e: Element): seq<Piece> {
    [Lit("<" + e.name)] + AttributesPieces(e.attributes) + [Lit(e.tail)]
  }

  function CloseTag(e: Element): string { "</" + e.name + ">" }

  function ElementPieces(e: Element): seq<Piece> {
    OpenPieces(e) + if e.closed then [Lit("/>")] else [Lit(">")] + ItemsPieces(e.items) + [Lit(CloseTag(e))]
  }

  function ItemPieces(item: Item): seq<Piece> {
    match item case Words(piece) => [piece] case Child(e) => ElementPieces(e)
  }

  function ItemsPieces(items: seq<Item>): seq<Piece> {
    if items == [] then [] else ItemPieces(items[0]) + ItemsPieces(items[1..])
  }

  function Print(items: seq<Item>): string { Spell(ItemsPieces(items)) }

  // Well-formedness.

  /** White space of spaces, tabs, line feeds, form feeds and carriage returns. */
  predicate AllSpace(s: string) {
    forall i :: 0 <= i < |s| ==> s[i] == ' ' || s[i] == '\t' || s[i] == '\n' || s[i] == '\r' || s[i] as int == 12
  }

  /** A name of ASCII letters, digits, colons, underscores, hyphens and periods. */
  predicate IsName(s: string) {
    s != "" && forall i :: 0 <= i < |s| ==>
      var c := s[i];
      'A' <= c <= 'Z' || 'a' <= c <= 'z' || '0' <= c <= '9' || c == ':' || c == '_' || c == '-' || c == '.'
  }

  lemma SpaceBytes(s: string)
    requires AllSpace(s)
    ensures forall i :: 0 <= i < |s| ==> IsAsciiSpace(s[i])
  {
  }

  lemma NameHolds(s: string)
    requires IsName(s)
    ensures forall i :: 0 <= i < |s| ==> IsNameByte(s[i])
  {
  }

  /** The name of a placeholder. */
  predicate IsKey(s: string) { Escape.NoMarkup(s) && Unbraced(s) }

  /** No tag begins in a literal; it may hold `>`, braces and quotes. */
  predicate PlainPiece(p: Piece) { if p.Lit? then p.text != "" && '<' !in p.text else IsKey(p.key) }

  predicate PlainPieces(ps: seq<Piece>) { forall i :: 0 <= i < |ps| ==> PlainPiece(ps[i]) }

  /** The value does not hold its own quote. */
  predicate Delimited(value: seq<Piece>, quote: char) {
    forall i :: 0 <= i < |value| && value[i].Lit? ==> quote !in value[i].text
  }

  predicate WellFormedAttribute(a: Attribute) {
    && a.space != "" && AllSpace(a.space) && IsName(a.name) && AllSpace(a.before) && AllSpace(a.after)
    && (a.quote == '\"' || a.quote == '\'') && PlainPieces(a.value) && Delimited(a.value, a.quote)
  }

  predicate WellFormedElement(e: Element) {
    && IsName(e.name) && AllSpace(e.tail) && (e.closed ==> e.items == [])
    && (forall i :: 0 <= i < |e.attributes| ==> WellFormedAttribute(e.attributes[i]))
    && WellFormedItems(e.items)
  }

  predicate WellFormedItem(item: Item) {
    match item case Words(piece) => PlainPiece(piece) case Child(e) => WellFormedElement(e)
  }

  predicate WellFormedItems(items: seq<Item>) { forall i :: 0 <= i < |items| ==> WellFormedItem(items[i]) }

  // What the search takes for an attribute.

  /** The text ends with the opening quote of an attribute: where the white space in front of its name begins. */
  function Assigned(s: string): (r: Option<nat>)
    ensures r.Some? ==> r.value < |s|
  {
    if s == "" || !IsQuote(s[|s| - 1]) then None
    else
      var equals := BeforeSpace(s, |s| - 1);
      if equals == 0 || s[equals - 1] != '=' then None
      else
        var nameEnd := BeforeSpace(s, equals - 1);
        var nameStart := BeforeName(s, nameEnd);
        if nameStart == nameEnd then None else Some(BeforeSpace(s, nameStart))
  }

  /** Between this text and these pieces a placeholder reads like the value of an attribute. */
  predicate Mimics(held: string, ps: seq<Piece>) {
    && Assigned(held).Some? && ps != [] && ps[0].Lit? && ps[0].text != ""
    && ps[0].text[0] == held[|held| - 1]
  }

  function Literal(s: string): seq<Piece> { if s == "" then [] else [Lit(s)] }

  /** The text and the pieces without what reads like an attribute with the placeholder for its value. */
  function Trimmed(held: string, ps: seq<Piece>, key: string): seq<Piece>
    decreases |ps|
  {
    if ps == [] then Literal(held)
    else if ps[0].Lit? then Trimmed(held + ps[0].text, ps[1..], key)
    else if ps[0].key == key && Mimics(held, ps[1..]) then
      Literal(held[..Assigned(held).value]) + Trimmed(ps[1].text[1..], ps[2..], key)
    else Literal(held) + ([ps[0]] + Trimmed("", ps[1..], key))
  }

  /** Something in them reads like an attribute with the placeholder for its value. */
  predicate Cuts(held: string, ps: seq<Piece>, key: string)
    decreases |ps|
  {
    ps != [] &&
    (if ps[0].Lit? then Cuts(held + ps[0].text, ps[1..], key)
     else (ps[0].key == key && Mimics(held, ps[1..])) || Cuts("", ps[1..], key))
  }

  predicate UncutAttributes(attributes: seq<Attribute>, key: string) {
    attributes == [] || (!Cuts("", attributes[0].value, key) && UncutAttributes(attributes[1..], key))
  }

  predicate UncutIn(item: Item, key: string)
    decreases item
  {
    match item
    case Words(_) => true
    case Child(e) => UncutAttributes(e.attributes, key) && Uncut([], e.items, key)
  }

  /** No text, from the run in front of the items on, and no attribute value reads like an attribute around the
      placeholder. */
  predicate Uncut(run: seq<Piece>, items: seq<Item>, key: string)
    decreases items
  {
    if items == [] then !Cuts("", run, key)
    else
      match items[0]
      case Words(piece) => Uncut(run + [piece], items[1..], key)
      case Child(_) => !Cuts("", run, key) && UncutIn(items[0], key) && Uncut([], items[1..], key)
  }

  // Operations on the tree.

  predicate MentionsKey(attributes: seq<Attribute>, key: string) {
    exists i :: 0 <= i < |attributes| && !Lacks(attributes[i].value, key)
  }

  predicate WholeBody(e: Element, key: string) { !e.closed && e.items == [Words(Hole(key))] }

  function DropAttributes(attributes: seq<Attribute>, key: string): seq<Attribute> {
    if attributes == [] then []
    else (if attributes[0].value == [Hole(key)] then [] else [attributes[0]]) + DropAttributes(attributes[1..], key)
  }

  function WithoutAttributesIn(item: Item, key: string): Item {
    match item
    case Words(_) => item
    case Child(e) => Child(e.(attributes := DropAttributes(e.attributes, key),
                              items := WithoutAttributes(e.items, key)))
  }

  /** Deletes every attribute whose complete value is the placeholder. */
  function WithoutAttributes(items: seq<Item>, key: string): seq<Item> {
    if items == [] then [] else [WithoutAttributesIn(items[0], key)] + WithoutAttributes(items[1..], key)
  }

  function WordsOf(ps: seq<Piece>): seq<Item> {
    if ps == [] then [] else [Words(ps[0])] + WordsOf(ps[1..])
  }

  function TrimmedAttribute(a: Attribute, key: string): Attribute { a.(value := Trimmed("", a.value, key)) }

  function TrimmedAttributes(attributes: seq<Attribute>, key: string): seq<Attribute> {
    if attributes == [] then []
    else
      (if attributes[0].value == [Hole(key)] then [] else [TrimmedAttribute(attributes[0], key)])
      + TrimmedAttributes(attributes[1..], key)
  }

  function TrimmedIn(item: Item, key: string): Item
    decreases item
  {
    match item case Words(_) => item case Child(e) => Child(TrimmedElement(e, key))
  }

  function TrimmedElement(e: Element, key: string): Element
    decreases e
  {
    e.(attributes := TrimmedAttributes(e.attributes, key), items := TrimmedItems([], e.items, key))
  }

  /** What the search for attributes leaves of a run of texts and placeholders and the items behind it. */
  function TrimmedItems(run: seq<Piece>, items: seq<Item>, key: string): seq<Item>
    decreases items
  {
    if items == [] then WordsOf(Trimmed("", run, key))
    else
      match items[0]
      case Words(piece) => TrimmedItems(run + [piece], items[1..], key)
      case Child(_) => WordsOf(Trimmed("", run, key)) + ([TrimmedIn(items[0], key)] + TrimmedItems([], items[1..], key))
  }

  /** The template without its whole-value attributes, by the code or by its documentation: the code also
      deletes what reads like such an attribute in text and in the values of others. */
  function Cleared(items: seq<Item>, key: string, asCoded: bool): seq<Item> {
    if asCoded then TrimmedItems([], items, key) else WithoutAttributes(items, key)
  }

  /** Where the texts and placeholders at the end begin. */
  function LastRun(items: seq<Item>): (r: nat)
    ensures r <= |items|
    ensures forall i :: r <= i < |items| ==> items[i].Words?
    ensures r > 0 ==> items[r - 1].Child?
  {
    if items == [] || items[|items| - 1].Child? then |items| else LastRun(items[..|items| - 1])
  }

  predicate EndsWith(e: Element, key: string) {
    !e.closed && e.items != [] && e.items[|e.items| - 1] == Words(Hole(key))
  }

  /** The body without its last item. */
  function Front(e: Element): seq<Item>
    requires e.items != []
  {
    e.items[..|e.items| - 1]
  }

  function RunStart(e: Element): (r: nat)
    requires e.items != []
    ensures r < |e.items|
  {
    LastRun(Front(e))
  }

  /** What stands between the last tag and the last item. */
  function Run(e: Element): seq<Piece>
    requires e.items != []
  {
    ItemsPieces(Front(e)[RunStart(e)..])
  }

  /** The element to which the last tag in front of the last item belongs. */
  function Opener(e: Element): (o: Element)
    requires e.items != []
    ensures RunStart(e) > 0 ==> o < e
  {
    if RunStart(e) == 0 then e else e.items[RunStart(e) - 1].element
  }

  predicate TagEnd(ps: seq<Piece>) {
    ps == [] || (var p := ps[|ps| - 1]; p.Lit? && p.text != "" && p.text[|p.text| - 1] == '>')
  }

  /** Whether the search deletes from the last tag in front of the placeholder to the end of the element:
      what ends with `>` in front of the placeholder is taken for a start tag, and it and the end tag
      have one name. A tag that mentions the placeholder too is passed before. */
  predicate Removes(e: Element, key: string) {
    && EndsWith(e, key) && TagEnd(Run(e)) && Lacks(Run(e), key) && !MentionsKey(Opener(e).attributes, key)
    && (RunStart(e) > 0 ==> Opener(e).closed && Opener(e).name == e.name)
  }

  /** Whether the whole element is deleted, by the code or by its documentation. */
  predicate Removable(e: Element, key: string, asCoded: bool) {
    if asCoded then Removes(e, key) && RunStart(e) == 0 else WholeBody(e, key)
  }

  function WithoutElementsIn(item: Item, key: string, asCoded: bool): seq<Item> {
    match item
    case Words(_) => [item]
    case Child(e) =>
      if Removable(e, key, asCoded) then [] else [Child(e.(items := WithoutElements(e.items, key, asCoded)))]
  }

  /** Deletes the elements whose complete body is the placeholder. */
  function WithoutElements(items: seq<Item>, key: string, asCoded: bool): seq<Item> {
    if items == [] then []
    else WithoutElementsIn(items[0], key, asCoded) + WithoutElements(items[1..], key, asCoded)
  }

  function FilledAttributes(attributes: seq<Attribute>, key: string, text: string): seq<Attribute> {
    if attributes == [] then []
    else
      [attributes[0].(value := Filled(attributes[0].value, key, text))]
      + FilledAttributes(attributes[1..], key, text)
  }

  function FilledIn(item: Item, key: string, text: string): seq<Item> {
    match item
    case Words(piece) => WordsOf(FilledPiece(piece, key, text))
    case Child(e) =>
      [Child(e.(attributes := FilledAttributes(e.attributes, key, text), items := FilledItems(e.items, key, text)))]
  }

  /** Puts `text` in place of every placeholder of that name. */
  function FilledItems(items: seq<Item>, key: string, text: string): seq<Item> {
    if items == [] then [] else FilledIn(items[0], key, text) + FilledItems(items[1..], key, text)
  }

  /** Rendering one placeholder; `asCoded` distinguishes the code from its documentation. */
  function Rendered(items: seq<Item>, key: string, value: Option<string>, asCoded: bool): seq<Item> {
    match value
    case Some(v) => FilledItems(items, key, Escape.XmlEscape(v))
    case None => FilledItems(WithoutElements(Cleared(items, key, asCoded), key, asCoded), key, "")
  }

  function RenderedAll(items: seq<Item>, tags: seq<Replacement>): seq<Item>
    decreases |tags|
  {
    if tags == [] then items else RenderedAll(Rendered(items, tags[0].0, tags[0].1, true), tags[1..])
  }

  // What the code leaves of a template whose placeholder has no value.

  function TagClose(e: Element): string { if e.closed then "/>" else ">" }

  function CodedElement(e: Element, key: string): seq<Piece> {
    if Removes(e, key) then
      if RunStart(e) == 0 then []
      else OpenPieces(e) + [Lit(">")] + CodedPieces(e.items[..RunStart(e) - 1], key)
    else if e.closed then OpenPieces(e) + [Lit("/>")]
    else OpenPieces(e) + ([Lit(">")] + CodedPieces(e.items, key) + [Lit(CloseTag(e))])
  }

  function CodedItem(item: Item, key: string): seq<Piece> {
    match item case Words(piece) => [piece] case Child(e) => CodedElement(e, key)
  }

  /** The pieces that the deletion of elements leaves: with an element can go its start tag, and then
      what is left is no tree. */
  function CodedPieces(items: seq<Item>, key: string): seq<Piece> {
    if items == [] then [] else CodedItem(items[0], key) + CodedPieces(items[1..], key)
  }

  /** The ways in which the code parts from its documentation at an element. */
  datatype Fault = Stays | TakesText | TakesEndTag

  predicate HasFault(e: Element, key: string, fault: Fault) {
    match fault
    case Stays => WholeBody(e, key) && MentionsKey(e.attributes, key)
    case TakesText => Removes(e, key) && RunStart(e) == 0 && |e.items| > 1
    case TakesEndTag => Removes(e, key) && RunStart(e) > 0
  }

  predicate FaultyItem(item: Item, key: string, fault: Fault) {
    match item
    case Words(_) => false
    case Child(e) => HasFault(e, key, fault) || Faulty(e.items, key, fault)
  }

  /** Some element of the tree has the fault. */
  predicate Faulty(items: seq<Item>, key: string, fault: Fault) {
    items != [] && (FaultyItem(items[0], key, fault) || Faulty(items[1..], key, fault))
  }

  // The parts the finder of elements sees.

  function Ones(ps: seq<Piece>): seq<Part> {
    if ps == [] then [] else [One(ps[0])] + Ones(ps[1..])
  }

  function AttributesParts(attributes: seq<Attribute>): seq<Part> {
    if attributes == [] then [] else Ones(AttributePieces(attributes[0])) + AttributesParts(attributes[1..])
  }

  function OpenParts(e: Element): seq<Part> {
    [One(Lit("<" + e.name))] + AttributesParts(e.attributes) + [One(Lit(e.tail))]
  }

  /** A start tag and what follows it. */
  function Lure(o: Element, ps: seq<Piece>): seq<Piece> { OpenPieces(o) + ([Lit(TagClose(o))] + ps) }

  function ElementParts(e: Element, key: string): seq<Part>
    decreases e, 1
  {
    if Removes(e, key) then
      LeadParts(e, key) + [Around(Lure(Opener(e), Run(e)), [Lit(CloseTag(e))])]
    else
      OpenParts(e) + BodyParts(e, key)
  }

  /** What stays in front of a deleted range that ends with the element. */
  function LeadParts(e: Element, key: string): seq<Part>
    requires e.items != []
    decreases e, 0
  {
    if RunStart(e) == 0 then []
    else
      OpenParts(e) + ([One(Lit(">"))] + ItemsParts(e.items[..RunStart(e) - 1], key))
  }

  function BodyParts(e: Element, key: string): seq<Part>
    decreases e, 0
  {
    if e.closed then [One(Lit("/>"))]
    else [One(Lit(">"))] + ItemsParts(e.items, key) + [One(Lit(CloseTag(e)))]
  }

  function ItemParts(item: Item, key: string): seq<Part> {
    match item case Words(piece) => [One(piece)] case Child(e) => ElementParts(e, key)
  }

  function ItemsParts(items: seq<Item>, key: string): seq<Part> {
    if items == [] then [] else ItemParts(items[0], key) + ItemsParts(items[1..], key)
  }

  lemma {:induction false} OnesPieces(ps: seq<Piece>, key: string)
    ensures AllPieces(Ones(ps), key) == ps && Kept(Ones(ps)) == ps
  {
    if ps != [] {
      OnesPieces(ps[1..], key);
      assert Ones(ps)[1..] == Ones(ps[1..]);
      assert [ps[0]] + ps[1..] == ps;
    }
  }

  lemma OnePart(part: Part, key: string)
    ensures AllPieces([part], key) == Pieces(part, key)
    ensures Kept([part]) == if part.One? then [part.piece] else []
  {
    assert [part][1..] == [];
  }

  lemma {:induction false} AttributesPiecesConcat(a: seq<Attribute>, b: seq<Attribute>)
    ensures AttributesPieces(a + b) == AttributesPieces(a) + AttributesPieces(b)
  {
    if a == [] {
      assert a + b == b;
    } else {
      AttributesPiecesConcat(a[1..], b);
      assert (a + b)[0] == a[0] && (a + b)[1..] == a[1..] + b;
      Regroup(AttributePieces(a[0]), AttributesPieces(a[1..]), AttributesPieces(b));
    }
  }

  lemma {:induction false} AttributesPartsPieces(attributes: seq<Attribute>, key: string)
    ensures AllPieces(AttributesParts(attributes), key) == AttributesPieces(attributes)
    ensures Kept(AttributesParts(attributes)) == AttributesPieces(attributes)
  {
    if attributes != [] {
      hide AttributePieces;
      var first, rest := Ones(AttributePieces(attributes[0])), AttributesParts(attributes[1..]);
      OnesPieces(AttributePieces(attributes[0]), key);
      AttributesPartsPieces(attributes[1..], key);
      AllPiecesConcat(first, rest, key);
      KeptConcat(first, rest);
    }
  }

  lemma Framed(first: Part, middle: seq<Part>, last: Part, key: string)
    ensures AllPieces([first] + middle + [last], key) == Pieces(first, key) + AllPieces(middle, key) + Pieces(last, key)
    ensures first.One? && last.One? ==> Kept([first] + middle + [last]) == [first.piece] + Kept(middle) + [last.piece]
  {
    OnePart(first, key);
    OnePart(last, key);
    AllPiecesConcat([first], middle, key);
    AllPiecesConcat([first] + middle, [last], key);
    KeptConcat([first], middle);
    KeptConcat([first] + middle, [last]);
  }

  lemma OpenPartsPieces(e: Element, key: string)
    ensures AllPieces(OpenParts(e), key) == OpenPieces(e) && Kept(OpenParts(e)) == OpenPieces(e)
  {
    AttributesPartsPieces(e.attributes, key);
    Framed(One(Lit("<" + e.name)), AttributesParts(e.attributes), One(Lit(e.tail)), key);
  }

  lemma {:induction false} ItemsPiecesConcat(a: seq<Item>, b: seq<Item>)
    ensures ItemsPieces(a + b) == ItemsPieces(a) + ItemsPieces(b)
  {
    if a == [] {
      assert a + b == b;
    } else {
      hide ItemPieces;
      ItemsPiecesConcat(a[1..], b);
      assert (a + b)[0] == a[0] && (a + b)[1..] == a[1..] + b;
      Regroup(ItemPieces(a[0]), ItemsPieces(a[1..]), ItemsPieces(b));
    }
  }

  lemma NoPieces()
    ensures ItemsPieces([]) == []
  {
  }

  lemma {:induction false} WordsOfPieces(ps: seq<Piece>)
    ensures ItemsPieces(WordsOf(ps)) == ps
  {
    if ps != [] {
      WordsOfPieces(ps[1..]);
      assert [ps[0]] + ps[1..] == ps;
    }
  }

  lemma OneItem(item: Item)
    ensures ItemsPieces([item]) == ItemPieces(item)
  {
    hide ItemPieces;
    assert [item][1..] == [];
  }

  /** The body of an element at its last tag. */
  lemma AtLastTag(e: Element)
    requires e.items != []
    ensures RunStart(e) == 0 ==> ItemsPieces(e.items) == Run(e) + ItemPieces(e.items[|e.items| - 1])
    ensures RunStart(e) > 0 ==>
      ItemsPieces(e.items) == ItemsPieces(e.items[..RunStart(e) - 1]) + ElementPieces(Opener(e))
                              + Run(e) + ItemPieces(e.items[|e.items| - 1])
  {
    hide ItemPieces, LastRun, ItemsPieces;
    var n, r := |e.items| - 1, RunStart(e);
    assert e.items == Front(e) + [e.items[n]];
    ItemsPiecesConcat(Front(e), [e.items[n]]);
    OneItem(e.items[n]);
    if r == 0 {
      assert Front(e)[0..] == Front(e);
    } else {
      AtLastChild(e);
    }
  }

  lemma AtLastChild(e: Element)
    requires e.items != [] && RunStart(e) > 0
    ensures ItemsPieces(Front(e)) == ItemsPieces(e.items[..RunStart(e) - 1]) + ElementPieces(Opener(e)) + Run(e)
  {
    hide ItemsPieces;
    var r := RunStart(e);
    var lead, c, run := e.items[..r - 1], e.items[r - 1], Front(e)[r..];
    assert Front(e) == lead + [c] + run;
    ItemsPiecesConcat(lead + [c], run);
    ItemsPiecesConcat(lead, [c]);
    OneItem(c);
  }

  lemma {:induction false} ItemsPartsPieces(items: seq<Item>, key: string)
    ensures AllPieces(ItemsParts(items, key), key) == ItemsPieces(items)
    ensures Kept(ItemsParts(items, key)) == CodedPieces(items, key)
    decreases items, 0
  {
    if items != [] {
      hide ItemParts, ItemPieces, CodedItem;
      var first, rest := ItemParts(items[0], key), ItemsParts(items[1..], key);
      ItemPartsPieces(items[0], key);
      ItemsPartsPieces(items[1..], key);
      AllPiecesConcat(first, rest, key);
      KeptConcat(first, rest);
    }
  }

  lemma ItemPartsPieces(item: Item, key: string)
    ensures AllPieces(ItemParts(item, key), key) == ItemPieces(item)
    ensures Kept(ItemParts(item, key)) == CodedItem(item, key)
    decreases item, 1
  {
    match item
    case Words(piece) =>
      OnePart(One(piece), key);
    case Child(e) =>
      hide Removes, OpenPieces;
      if Removes(e, key) {
        RemovedPieces(e, key);
      } else {
        StandingPieces(e, key);
      }
  }

  lemma LurePieces(e: Element, key: string)
    requires Removes(e, key)
    ensures Pieces(Around(Lure(Opener(e), Run(e)), [Lit(CloseTag(e))]), key)
         == OpenPieces(Opener(e)) + [Lit(TagClose(Opener(e)))] + Run(e) + [Hole(key)] + [Lit(CloseTag(e))]
  {
    hide OpenPieces, Run, CloseTag;
    var open, close := OpenPieces(Opener(e)), [Lit(TagClose(Opener(e)))];
    Regroup(open, close, Run(e));
  }

  lemma RemovedPieces(e: Element, key: string)
    requires Removes(e, key)
    ensures AllPieces(ElementParts(e, key), key) == ElementPieces(e)
    ensures Kept(ElementParts(e, key)) == CodedElement(e, key)
    decreases e, 2
  {
    hide OpenPieces, Lacks, MentionsKey, ItemsPieces, Run, CodedPieces, OpenParts, TagEnd, LeadParts;
    var lead := LeadParts(e, key);
    var range := Around(Lure(Opener(e), Run(e)), [Lit(CloseTag(e))]);
    OnePart(range, key);
    AllPiecesConcat(lead, [range], key);
    KeptConcat(lead, [range]);
    assert Kept(lead) + Kept([range]) == Kept(lead);
    if RunStart(e) > 0 {
      LeadPieces(e, key);
      SwallowedBody(e, key);
    } else {
      WholeBodyPieces(e, key);
    }
  }

  lemma WholeBodyPieces(e: Element, key: string)
    requires Removes(e, key) && RunStart(e) == 0
    ensures LeadParts(e, key) == []
    ensures Pieces(Around(Lure(Opener(e), Run(e)), [Lit(CloseTag(e))]), key) == ElementPieces(e)
  {
    hide OpenPieces, Lacks, MentionsKey, ItemsPieces, Run, TagEnd;
    AtLastTag(e);
    LurePieces(e, key);
    Regroup(OpenPieces(e) + [Lit(">")], Run(e), [Hole(key)]);
    Regroup(OpenPieces(e), [Lit(">")], ItemsPieces(e.items));
    Regroup(OpenPieces(e), [Lit(">")] + ItemsPieces(e.items), [Lit(CloseTag(e))]);
  }

  lemma SwallowedBody(e: Element, key: string)
    requires Removes(e, key) && RunStart(e) > 0
    ensures ElementPieces(e)
         == OpenPieces(e) + ([Lit(">")] + ItemsPieces(e.items[..RunStart(e) - 1]))
          + Pieces(Around(Lure(Opener(e), Run(e)), [Lit(CloseTag(e))]), key)
  {
    hide OpenPieces, Lacks, MentionsKey, ItemsPieces, Run, TagEnd, RunStart;
    var o := Opener(e);
    var open, lead, close := OpenPieces(e), ItemsPieces(e.items[..RunStart(e) - 1]), [Lit(CloseTag(e))];
    AtLastTag(e);
    LurePieces(e, key);
    var child := OpenPieces(o) + [Lit(TagClose(o))];
    assert ElementPieces(o) == child;
    var tail := child + Run(e) + [Hole(key)];
    Regroup(lead, child, Run(e));
    Regroup(lead, child + Run(e), [Hole(key)]);
    assert ItemsPieces(e.items) == lead + tail;
    Regroup([Lit(">")], lead, tail);
    Regroup([Lit(">")] + lead, tail, close);
    Regroup(open, [Lit(">")] + lead, tail + close);
  }

  lemma LeadPieces(e: Element, key: string)
    requires e.items != [] && RunStart(e) > 0
    ensures AllPieces(LeadParts(e, key), key) == OpenPieces(e) + ([Lit(">")] + ItemsPieces(e.items[..RunStart(e) - 1]))
    ensures Kept(LeadParts(e, key)) == OpenPieces(e) + ([Lit(">")] + CodedPieces(e.items[..RunStart(e) - 1], key))
    decreases e, 1
  {
    hide OpenPieces, OpenParts, CodedPieces, ItemsPieces;
    var open, body := OpenParts(e), ItemsParts(e.items[..RunStart(e) - 1], key);
    OpenPartsPieces(e, key);
    ItemsPartsPieces(e.items[..RunStart(e) - 1], key);
    OnePart(One(Lit(">")), key);
    AllPiecesConcat([One(Lit(">"))], body, key);
    KeptConcat([One(Lit(">"))], body);
    AllPiecesConcat(open, [One(Lit(">"))] + body, key);
    KeptConcat(open, [One(Lit(">"))] + body);
  }

  lemma StandingPieces(e: Element, key: string)
    requires !Removes(e, key)
    ensures AllPieces(ElementParts(e, key), key) == ElementPieces(e)
    ensures Kept(ElementParts(e, key)) == CodedElement(e, key)
    decreases e, 2
  {
    hide OpenParts, BodyParts, OpenPieces, Removes;
    var open, body := OpenParts(e), BodyParts(e, key);
    OpenPartsPieces(e, key);
    BodyPieces(e, key);
    AllPiecesConcat(open, body, key);
    KeptConcat(open, body);
  }

  lemma SameOpen(a: Element, b: Element)
    requires a.name == b.name && a.attributes == b.attributes && a.tail == b.tail
    ensures OpenPieces(a) == OpenPieces(b) && CloseTag(a) == CloseTag(b)
  {
  }

  lemma BodyPieces(e: Element, key: string)
    ensures AllPieces(BodyParts(e, key), key)
         == if e.closed then [Lit("/>")] else [Lit(">")] + ItemsPieces(e.items) + [Lit(CloseTag(e))]
    ensures Kept(BodyParts(e, key))
         == if e.closed then [Lit("/>")] else [Lit(">")] + CodedPieces(e.items, key) + [Lit(CloseTag(e))]
    decreases e, 1
  {
    hide ItemsPieces, CodedPieces;
    if e.closed {
      OnePart(One(Lit("/>")), key);
    } else {
      ItemsPartsPieces(e.items, key);
      Framed(One(Lit(">")), ItemsParts(e.items, key), One(Lit(CloseTag(e))), key);
    }
  }

  /** Where no end tag is taken, what is left is a tree. */
  lemma {:induction false} LeavesTree(items: seq<Item>, key: string)
    requires !Faulty(items, key, TakesEndTag)
    ensures CodedPieces(items, key) == ItemsPieces(WithoutElements(items, key, true))
    decreases items, 0
  {
    if items != [] {
      hide WithoutElementsIn, CodedItem, FaultyItem;
      LeavesTreeIn(items[0], key);
      LeavesTree(items[1..], key);
      ItemsPiecesConcat(WithoutElementsIn(items[0], key, true), WithoutElements(items[1..], key, true));
    }
  }

  lemma LeavesTreeIn(item: Item, key: string)
    requires !FaultyItem(item, key, TakesEndTag)
    ensures CodedItem(item, key) == ItemsPieces(WithoutElementsIn(item, key, true))
    decreases item, 1
  {
    hide Removes, RunStart, OpenPieces, ItemsPieces;
    match item
    case Words(_) =>
      OneItem(item);
    case Child(e) =>
      if Removes(e, key) {
        assert RunStart(e) == 0 by { assert !HasFault(e, key, TakesEndTag); }
        NoPieces();
      } else {
        LeavesTree(e.items, key);
        var left := e.(items := WithoutElements(e.items, key, true));
        OneItem(Child(left));
        SameOpen(e, left);
      }
  }
}
