/** Rendering a template as text is rendering its tree. */
module TemplateRender {
  import opened Text
  import opened Template
  import opened TemplateText
  import opened TemplateTree
  import opened TemplateFit
  import opened TemplateItems
  import opened TemplateTrim
  import opened TemplatePassive
  import Escape

  // Deleting.

  /** Deleting attribute ranges in the printed template deletes whole-value attributes of the tree and what reads
      like one, and leaves a tree. */
  lemma RemovesAttributes(items: seq<Item>, key: string)
    requires WellFormedItems(items) && Unbraced(key) && Settled(items, key)
    ensures WithoutRanges(AttributeKind, Print(items), Needle(key), 0) == Print(Cleared(items, key, true))
  {
    hide WithoutRanges, AllFit, PartsPassive, WellFormedItems, ItemsPieces, FlatMap, ItemsTrimmed,
      TrimmedItems, Settled;
    var parts := ItemsTrimmed([], items, key);
    ItemsTrimmedPieces([], items, key);
    SettledParts(items, key);
    ItemsTrimmedFit("", [], items, key, "");
    NoSpell();
    assert "" + Spell([]) == "" && Spell([]) + Print(items) == Print(items);
    RemovesRanges(AttributeKind, key, "", [], parts);
    assert Spell([]) + Spell(Kept(parts)) == Spell(Kept(parts));
  }

  /** Deleting element ranges in the printed template deletes from the tree. */
  lemma RemovesElements(items: seq<Item>, key: string)
    requires WellFormedItems(items) && Unbraced(key) && AllPassive(ItemsPieces(items), key)
    ensures WithoutRanges(ElementKind, Print(items), Needle(key), 0) == Spell(CodedPieces(items, key))
  {
    hide WithoutRanges, AllFit, PartsPassive, WellFormedItems, CodedPieces, Print, Unremovable, AllPassive, AllLacking;
    var parts := ItemsParts(items, key);
    ItemsPartsPieces(items, key);
    ItemsLacking(items, key);
    PartsOfPassive(parts, key);
    assert AllPassive([], key) && Lacks([], key) by { NonePassive(key); }
    if EndsWithHole(items, key) {
      NothingBehind(ElementKind, "" + Print(items[..|items| - 1]), Needle(key));
    }
    ItemsFit("", items, 0, key, "");
    WholeList("", items);
    NoSpell();
    RemovesRanges(ElementKind, key, "", [], parts);
    PrintImage(items, key);
    assert "" + Spell([]) == "" && "" + Spell([]) + Image(parts, key) == Print(items);
    assert Spell([]) + Spell(Kept(parts)) == Spell(Kept(parts));
  }

  lemma NonePassive(key: string)
    ensures AllPassive([], key) && Lacks([], key)
  {
  }

  lemma NothingBehind(kind: Kind, before: string, needle: string)
    ensures Unremovable(kind, before, needle, "")
  {
    assert |before| + |needle| == |before + needle + ""|;
  }

  // Filling.

  lemma {:induction false} AttributesFilled(attributes: seq<Attribute>, key: string, text: string)
    ensures Filled(AttributesPieces(attributes), key, text) == AttributesPieces(FilledAttributes(attributes, key, text))
  {
    if attributes != [] {
      AttributeFilled(attributes[0], key, text);
      AttributesFilled(attributes[1..], key, text);
      FilledConcat(AttributePieces(attributes[0]), AttributesPieces(attributes[1..]), key, text);
    }
  }

  lemma OneFilled(p: Piece, key: string, text: string)
    ensures Filled([p], key, text) == FilledPiece(p, key, text)
  {
    assert [p][1..] == [];
  }

  lemma FramedFilled(open: string, ps: seq<Piece>, close: string, key: string, text: string)
    ensures Filled([Lit(open)] + ps + [Lit(close)], key, text) == [Lit(open)] + Filled(ps, key, text) + [Lit(close)]
  {
    OneFilled(Lit(open), key, text);
    OneFilled(Lit(close), key, text);
    FilledConcat([Lit(open)], ps, key, text);
    FilledConcat([Lit(open)] + ps, [Lit(close)], key, text);
  }

  lemma AttributeFilled(a: Attribute, key: string, text: string)
    ensures Filled(AttributePieces(a), key, text) == AttributePieces(a.(value := Filled(a.value, key, text)))
  {
    FramedFilled(Head(a), a.value, [a.quote], key, text);
  }

  lemma {:induction false} ItemsFilled(items: seq<Item>, key: string, text: string)
    ensures Filled(ItemsPieces(items), key, text) == ItemsPieces(FilledItems(items, key, text))
    decreases items, 0
  {
    if items != [] {
      hide ItemPieces, FilledIn;
      ItemFilled(items[0], key, text);
      ItemsFilled(items[1..], key, text);
      FilledConcat(ItemPieces(items[0]), ItemsPieces(items[1..]), key, text);
      ItemsPiecesConcat(FilledIn(items[0], key, text), FilledItems(items[1..], key, text));
    }
  }

  lemma ItemFilled(item: Item, key: string, text: string)
    ensures Filled(ItemPieces(item), key, text) == ItemsPieces(FilledIn(item, key, text))
    decreases item, 1
  {
    match item
    case Words(piece) =>
      OneFilled(piece, key, text);
      WordsOfPieces(FilledPiece(piece, key, text));
    case Child(e) =>
      var filled := e.(attributes := FilledAttributes(e.attributes, key, text),
                       items := FilledItems(e.items, key, text));
      assert FilledIn(item, key, text) == [Child(filled)];
      OneItem(Child(filled));
      AttributesFilled(e.attributes, key, text);
      FramedFilled("<" + e.name, AttributesPieces(e.attributes), e.tail, key, text);
      assert Filled(OpenPieces(e), key, text) == OpenPieces(filled);
      if e.closed {
        FilledConcat(OpenPieces(e), [Lit("/>")], key, text);
        OneFilled(Lit("/>"), key, text);
      } else {
        ItemsFilled(e.items, key, text);
        FramedFilled(">", ItemsPieces(e.items), CloseTag(e), key, text);
        FilledConcat(OpenPieces(e), [Lit(">")] + ItemsPieces(e.items) + [Lit(CloseTag(e))], key, text);
      }
  }

  lemma ReplacesInPieces(ps: seq<Piece>, key: string, text: string)
    requires AllPassive(ps, key) && Unbraced(key)
    ensures ReplaceAll(Spell(ps), Needle(key), text) == Spell(Filled(ps, key, text))
  {
    hide ReplaceAll, Passive;
    ReplaceFills([], ps, key, text);
    assert Spell([]) + Spell(ps) == Spell(ps);
    assert Spell([]) + Spell(Filled(ps, key, text)) == Spell(Filled(ps, key, text));
  }

  /** Replacing text in the printed template fills the placeholders of the tree. */
  lemma ReplacesInTree(items: seq<Item>, key: string, text: string)
    requires AllPassive(ItemsPieces(items), key) && Unbraced(key)
    ensures ReplaceAll(Print(items), Needle(key), text) == Print(FilledItems(items, key, text))
  {
    hide ReplaceAll, AllPassive;
    ReplacesInPieces(ItemsPieces(items), key, text);
    ItemsFilled(items, key, text);
  }

  // Rendering keeps a template well-formed.

  lemma {:induction false} DroppedWellFormed(attributes: seq<Attribute>, key: string)
    requires AllWellFormed(attributes)
    ensures AllWellFormed(DropAttributes(attributes, key))
    decreases |attributes|
  {
    if attributes != [] {
      hide WellFormedAttribute;
      DroppedWellFormed(attributes[1..], key);
      assert WellFormedAttribute(attributes[0]);
    }
  }

  lemma {:induction false} WithoutAttributesWellFormed(items: seq<Item>, key: string)
    requires WellFormedItems(items)
    ensures WellFormedItems(WithoutAttributes(items, key))
    decreases items, 0
  {
    if items != [] {
      hide WellFormedItem, WithoutAttributesIn;
      WithoutAttributesItemWellFormed(items[0], key);
      WithoutAttributesWellFormed(items[1..], key);
    }
  }

  lemma WithoutAttributesItemWellFormed(item: Item, key: string)
    requires WellFormedItem(item)
    ensures WellFormedItem(WithoutAttributesIn(item, key))
    decreases item, 1
  {
    match item
    case Words(_) =>
    case Child(e) =>
      WithoutAttributesWellFormed(e.items, key);
      DroppedWellFormed(e.attributes, key);
  }

  lemma {:induction false} TrimmedPlain(held: string, ps: seq<Piece>, key: string, quote: char)
    requires PlainPieces(ps) && Delimited(ps, quote) && '<' !in held && quote !in held
    ensures PlainPieces(Trimmed(held, ps, key)) && Delimited(Trimmed(held, ps, key), quote)
    decreases |ps|
  {
    hide Assigned;
    if ps != [] {
      assert PlainPiece(ps[0]);
      if ps[0].Lit? {
        TrimmedPlain(held + ps[0].text, ps[1..], key, quote);
      } else if ps[0].key == key && Mimics(held, ps[1..]) {
        assert PlainPiece(ps[1]);
        TrimmedPlain(ps[1].text[1..], ps[2..], key, quote);
      } else {
        TrimmedPlain("", ps[1..], key, quote);
      }
    }
  }

  lemma {:induction false} TrimmedAttributesWellFormed(attributes: seq<Attribute>, key: string)
    requires AllWellFormed(attributes)
    ensures AllWellFormed(TrimmedAttributes(attributes, key))
    decreases |attributes|
  {
    if attributes != [] {
      hide Trimmed, PlainPieces, Delimited;
      TrimmedAttributesWellFormed(attributes[1..], key);
      var a := attributes[0];
      assert WellFormedAttribute(a);
      TrimmedPlain("", a.value, key, a.quote);
      assert WellFormedAttribute(TrimmedAttribute(a, key));
    }
  }

  lemma {:induction false} WordsOfWellFormed(ps: seq<Piece>)
    requires PlainPieces(ps)
    ensures WellFormedItems(WordsOf(ps))
  {
    if ps != [] {
      hide PlainPiece;
      WordsOfWellFormed(ps[1..]);
      assert PlainPiece(ps[0]) && WellFormedItem(Words(ps[0]));
    }
  }

  lemma RunWellFormed(run: seq<Piece>, key: string)
    requires PlainPieces(run)
    ensures WellFormedItems(WordsOf(Trimmed("", run, key)))
  {
    assert Delimited(run, '<') by {
      forall i | 0 <= i < |run| && run[i].Lit? ensures '<' !in run[i].text {
        assert PlainPiece(run[i]);
      }
    }
    TrimmedPlain("", run, key, '<');
    WordsOfWellFormed(Trimmed("", run, key));
  }

  lemma {:induction false} TrimmedItemsWellFormed(run: seq<Piece>, items: seq<Item>, key: string)
    requires WellFormedItems(items) && PlainPieces(run)
    ensures WellFormedItems(TrimmedItems(run, items, key))
    decreases items, 0
  {
    hide WellFormedItem, Trimmed, TrimmedIn;
    RunWellFormed(run, key);
    if items != [] {
      assert WellFormedItem(items[0]);
      match items[0]
      case Words(piece) =>
        PlainSnoc(run, piece);
        TrimmedItemsWellFormed(run + [piece], items[1..], key);
      case Child(e) =>
        TrimmedItemWellFormed(items[0], key);
        TrimmedItemsWellFormed([], items[1..], key);
    }
  }

  lemma TrimmedItemWellFormed(item: Item, key: string)
    requires WellFormedItem(item) && item.Child?
    ensures WellFormedItem(TrimmedIn(item, key))
    decreases item, 1
  {
    hide TrimmedAttributes, TrimmedItems;
    var e := item.element;
    assert WellFormedElement(e);
    TrimmedAttributesWellFormed(e.attributes, key);
    TrimmedItemsWellFormed([], e.items, key);
    NothingTrimmed(key);
    assert WellFormedElement(TrimmedElement(e, key));
  }

  lemma NothingTrimmed(key: string)
    ensures TrimmedItems([], [], key) == []
  {
  }

  lemma ClearedWellFormed(items: seq<Item>, key: string, asCoded: bool)
    requires WellFormedItems(items)
    ensures WellFormedItems(Cleared(items, key, asCoded))
  {
    hide WellFormedItems;
    if asCoded {
      TrimmedItemsWellFormed([], items, key);
    } else {
      WithoutAttributesWellFormed(items, key);
    }
  }

  lemma {:induction false} WithoutElementsWellFormed(items: seq<Item>, key: string, asCoded: bool)
    requires WellFormedItems(items)
    ensures WellFormedItems(WithoutElements(items, key, asCoded))
    decreases items, 0
  {
    if items != [] {
      hide WellFormedItem, WithoutElementsIn;
      WithoutElementsItemWellFormed(items[0], key, asCoded);
      WithoutElementsWellFormed(items[1..], key, asCoded);
    }
  }

  lemma WithoutElementsItemWellFormed(item: Item, key: string, asCoded: bool)
    requires WellFormedItem(item)
    ensures WellFormedItems(WithoutElementsIn(item, key, asCoded))
    decreases item, 1
  {
    hide Removable;
    match item
    case Words(_) =>
    case Child(e) =>
      WithoutElementsWellFormed(e.items, key, asCoded);
      assert WellFormedItem(Child(e.(items := WithoutElements(e.items, key, asCoded))));
  }

  /** Text that can be put into any place of a template. */
  predicate IsFilling(s: string) { Escape.NoMarkup(s) }

  lemma {:induction false} FilledPlain(ps: seq<Piece>, key: string, text: string, quote: char)
    requires PlainPieces(ps) && Delimited(ps, quote) && IsQuote(quote) && IsFilling(text)
    ensures PlainPieces(Filled(ps, key, text)) && Delimited(Filled(ps, key, text), quote)
  {
    if ps != [] {
      FilledPlain(ps[1..], key, text, quote);
      assert PlainPiece(ps[0]);
      FillingPlain(text, quote);
    }
  }

  lemma FillingPlain(text: string, quote: char)
    requires IsFilling(text) && IsQuote(quote)
    ensures quote !in text && (text != "" ==> PlainPiece(Lit(text)))
  {
    assert forall i :: 0 <= i < |text| ==> !Escape.IsMarkup(text[i]);
  }

  lemma {:induction false} FilledAttributesWellFormed(attributes: seq<Attribute>, key: string, text: string)
    requires AllWellFormed(attributes) && IsFilling(text)
    ensures AllWellFormed(FilledAttributes(attributes, key, text))
    decreases |attributes|
  {
    if attributes != [] {
      hide IsFilling, AllSpace, IsName, PlainPieces, Delimited;
      FilledAttributesWellFormed(attributes[1..], key, text);
      assert WellFormedAttribute(attributes[0]);
      FilledPlain(attributes[0].value, key, text, attributes[0].quote);
    }
  }

  lemma {:induction false} FilledWellFormed(items: seq<Item>, key: string, text: string)
    requires WellFormedItems(items) && IsFilling(text)
    ensures WellFormedItems(FilledItems(items, key, text))
    decreases items, 0
  {
    if items != [] {
      hide WellFormedItem, FilledIn, IsFilling;
      FilledItemWellFormed(items[0], key, text);
      FilledWellFormed(items[1..], key, text);
    }
  }

  lemma FilledItemWellFormed(item: Item, key: string, text: string)
    requires WellFormedItem(item) && IsFilling(text)
    ensures WellFormedItems(FilledIn(item, key, text))
    decreases item, 1
  {
    hide IsFilling, AllSpace, IsName;
    match item
    case Words(piece) =>
      FillingPlain(text, '\"');
      var filled := FilledPiece(piece, key, text);
      assert filled != [] ==> filled[1..] == [] && WordsOf(filled) == [Words(filled[0])];
    case Child(e) =>
      FilledWellFormed(e.items, key, text);
      FilledAttributesWellFormed(e.attributes, key, text);
      assert WellFormedItem(FilledIn(item, key, text)[0]);
  }

  lemma {:induction false} EscapedBraceless(v: string, apostrophe: string)
    requires '{' !in v && '{' !in apostrophe
    ensures '{' !in Escape.Escaped(v, apostrophe)
  {
    if v != "" {
      EscapedBraceless(v[1..], apostrophe);
    }
  }

  lemma EscapedIsFilling(v: string)
    ensures IsFilling(Escape.XmlEscape(v))
    ensures '{' !in v ==> '{' !in Escape.XmlEscape(v)
  {
    hide Escape.Escaped, Escape.XmlEscape, Escape.NoMarkup;
    Escape.EscapesAreMaps(v);
    Escape.EscapedHasNoMarkup(v);
    if '{' !in v {
      EscapedBraceless(v, "&apos;");
    }
  }

  ghost predicate Braceless(value: Option<string>) { value.Some? ==> '{' !in value.value }

  lemma RenderedWellFormed(items: seq<Item>, key: string, value: Option<string>, asCoded: bool)
    requires WellFormedItems(items)
    ensures WellFormedItems(Rendered(items, key, value, asCoded))
  {
    hide WellFormedItems, Cleared;
    match value
    case Some(v) =>
      EscapedIsFilling(v);
      FilledWellFormed(items, key, Escape.XmlEscape(v));
    case None =>
      ClearedWellFormed(items, key, asCoded);
      WithoutElementsWellFormed(Cleared(items, key, asCoded), key, asCoded);
      FilledWellFormed(WithoutElements(Cleared(items, key, asCoded), key, asCoded), key, "");
  }

  // The main results.

  /** What rendering a placeholder without a value leaves, also where that is no tree. */
  lemma AbsentTagLeaves(items: seq<Item>, key: string)
    requires WellFormedItems(items) && Unbraced(key) && Settled(items, key)
    ensures TagReplaced(Print(items), key, None)
         == Spell(Filled(CodedPieces(Cleared(items, key, true), key), key, ""))
  {
    hide WithoutRanges, ReplaceAll, Cleared, WellFormedItems, CodedPieces, Spell, Filled, Settled, AllPassive;
    var bare := Cleared(items, key, true);
    RemovesAttributes(items, key);
    ClearedWellFormed(items, key, true);
    SettledParts(items, key);
    RemovesElements(bare, key);
    CodedPassive(bare, key);
    ReplacesInPieces(CodedPieces(bare, key), key, "");
  }

  /** The template can be searched for the placeholder, and stays a tree when that has no value. */
  ghost predicate Searchable(items: seq<Item>, key: string, value: Option<string>) {
    && AllPassive(ItemsPieces(items), key)
    && (value.None? ==> Settled(items, key) && !Faulty(Cleared(items, key, true), key, TakesEndTag))
  }

  /** Rendering one placeholder in the text renders it in the tree. */
  lemma TagRendersTree(items: seq<Item>, key: string, value: Option<string>)
    requires WellFormedItems(items) && Unbraced(key) && Searchable(items, key, value)
    ensures TagReplaced(Print(items), key, value) == Print(Rendered(items, key, value, true))
  {
    hide WithoutRanges, ReplaceAll, FilledItems, WithoutElements, Cleared, WellFormedItems, CodedPieces, Filled,
      FlatMap, Settled, AllPassive;
    match value
    case Some(v) =>
      ReplacesInTree(items, key, Escape.XmlEscape(v));
    case None =>
      AbsentTagLeaves(items, key);
      LeavesTree(Cleared(items, key, true), key);
      ItemsFilled(WithoutElements(Cleared(items, key, true), key, true), key, "");
  }

  /** At every step the template can be searched for the placeholder. */
  ghost predicate Renderable(items: seq<Item>, tags: seq<Replacement>)
    decreases |tags|
  {
    tags == [] ||
    (var (key, value) := tags[0];
     Unbraced(key) && Searchable(items, key, value) && Renderable(Rendered(items, key, value, true), tags[1..]))
  }

  /** Filling a template's text with any values is rendering its tree. */
  lemma {:induction false} TagsRenderTree(items: seq<Item>, tags: seq<Replacement>)
    requires WellFormedItems(items) && Renderable(items, tags)
    ensures TagsReplaced(Print(items), tags) == Print(RenderedAll(items, tags))
    decreases |tags|
  {
    if tags != [] {
      hide TagReplaced, Rendered, Print, WellFormedItems, Unbraced, Searchable;
      var (key, value) := tags[0];
      TagRendersTree(items, key, value);
      RenderedWellFormed(items, key, value, true);
      TagsRenderTree(Rendered(items, key, value, true), tags[1..]);
    }
  }
}
