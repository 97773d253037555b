/** Templates that are rendered as documented, whatever has a value: each attribute value is a placeholder or
    holds none, no text holds markup, and no element has a self-closing child of its own name. */
module TemplateTidy {
  import opened Text
  import opened Template
  import opened TemplateText
  import opened TemplateTree
  import opened TemplateItems
  import opened TemplateTrim
  import opened TemplatePassive
  import opened TemplateRender
  import opened TemplateFaults
  import opened TemplateLosses
  import opened TemplateDocumented
  import opened TemplateValues
  import opened TemplateMild
  import Escape

  predicate NoHoles(ps: seq<Piece>) { forall i :: 0 <= i < |ps| ==> ps[i].Lit? }

  predicate TidyValue(value: seq<Piece>) { NoHoles(value) || |value| == 1 }

  predicate TidyAttributes(attributes: seq<Attribute>) {
    forall i :: 0 <= i < |attributes| ==> TidyValue(attributes[i].value)
  }

  predicate TidyPiece(p: Piece) { p.Lit? ==> Escape.NoMarkup(p.text) }

  predicate TidyPieces(ps: seq<Piece>) { forall i :: 0 <= i < |ps| ==> TidyPiece(ps[i]) }

  predicate TidyItem(item: Item) {
    match item
    case Words(piece) => TidyPiece(piece)
    case Child(e) => TidyAttributes(e.attributes) && NoTwin(e.items, e.name) && Tidy(e.items)
  }

  predicate Tidy(items: seq<Item>) { forall i :: 0 <= i < |items| ==> TidyItem(items[i]) }

  lemma {:induction false} TidyIsMild(items: seq<Item>)
    requires Tidy(items)
    ensures Mild(items)
    decreases items, 0
  {
    forall i | 0 <= i < |items| ensures MildItem(items[i]) {
      TidyItemIsMild(items[i]);
    }
  }

  lemma TidyItemIsMild(item: Item)
    requires TidyItem(item)
    ensures MildItem(item)
    decreases item, 1
  {
    match item
    case Words(_) =>
    case Child(e) => TidyIsMild(e.items);
  }

  lemma TidyBoth(a: seq<Item>, b: seq<Item>)
    ensures Tidy(a + b) <==> Tidy(a) && Tidy(b)
  {
    hide TidyItem;
    var both := a + b;
    if Tidy(both) {
      assert forall i :: 0 <= i < |a| ==> a[i] == both[i];
      assert forall i :: 0 <= i < |b| ==> b[i] == both[|a| + i];
    }
  }

  lemma TidyCons(items: seq<Item>)
    requires items != []
    ensures Tidy(items) <==> TidyItem(items[0]) && Tidy(items[1..])
  {
    hide TidyItem;
    TidyBoth([items[0]], items[1..]);
    assert items == [items[0]] + items[1..];
    assert [items[0]][0] == items[0];
  }

  // Nothing is cut.

  lemma {:induction false} TidyTextUncut(held: string, ps: seq<Piece>, key: string)
    requires Escape.NoMarkup(held) && TidyPieces(ps)
    ensures !Cuts(held, ps, key)
    decreases |ps|
  {
    if ps != [] {
      QuotedEnd(held);
      assert TidyPiece(ps[0]);
      hide Assigned;
      TidyTextUncut(if ps[0].Lit? then held + ps[0].text else "", ps[1..], key);
      assert held != "" ==> !Escape.IsMarkup(held[|held| - 1]);
    }
  }

  lemma {:induction false} NoHolesUncut(held: string, ps: seq<Piece>, key: string)
    requires NoHoles(ps)
    ensures !Cuts(held, ps, key) && NoHoles(Trimmed(held, ps, key))
    decreases |ps|
  {
    hide Assigned, Mimics;
    if ps != [] {
      NoHolesUncut(held + ps[0].text, ps[1..], key);
    }
  }

  lemma TidyValueUncut(value: seq<Piece>, key: string)
    requires TidyValue(value)
    ensures !Cuts("", value, key) && TidyValue(Trimmed("", value, key))
    ensures value != [Hole(key)] ==> Lacks(Trimmed("", value, key), key)
  {
    hide Assigned;
    if NoHoles(value) {
      NoHolesUncut("", value, key);
    } else {
      assert value == [value[0]] && value[1..] == [];
      assert Trimmed("", [], key) == [];
      assert Trimmed("", value, key) == value;
    }
  }

  lemma {:induction false} TidyAttributesUncut(attributes: seq<Attribute>, key: string)
    requires TidyAttributes(attributes)
    ensures UncutAttributes(attributes, key)
    ensures TidyAttributes(TrimmedAttributes(attributes, key)) && !MentionsKey(TrimmedAttributes(attributes, key), key)
  {
    if attributes != [] {
      hide Trimmed, Cuts, TidyValue;
      assert TidyValue(attributes[0].value);
      TidyValueUncut(attributes[0].value, key);
      TidyAttributesUncut(attributes[1..], key);
      LeftCons(attributes, key);
    }
  }

  lemma TidySnoc(run: seq<Piece>, piece: Piece)
    requires TidyPieces(run) && TidyPiece(piece)
    ensures TidyPieces(run + [piece])
  {
    hide TidyPiece;
  }

  lemma {:induction false} TidyUncut(run: seq<Piece>, items: seq<Item>, key: string)
    requires TidyPieces(run) && Tidy(items)
    ensures Uncut(run, items, key)
    decreases items, 0
  {
    hide TidyItem, Cuts, UncutIn, TidyPiece;
    TidyTextUncut("", run, key);
    if items != [] {
      TidyCons(items);
      match items[0]
      case Words(piece) =>
        assert TidyPiece(piece) by { TidyWord(piece); }
        TidySnoc(run, piece);
        TidyUncut(run + [piece], items[1..], key);
      case Child(_) =>
        TidyItemUncut(items[0], key);
        TidyUncut([], items[1..], key);
    }
  }

  lemma TidyWord(piece: Piece)
    ensures TidyItem(Words(piece)) <==> TidyPiece(piece)
  {
  }

  lemma TidyItemUncut(item: Item, key: string)
    requires TidyItem(item)
    ensures UncutIn(item, key)
    decreases item, 1
  {
    match item
    case Words(_) =>
    case Child(e) =>
      hide TidyAttributes, Tidy, Uncut, UncutAttributes, NoTwin;
      TidyAttributesUncut(e.attributes, key);
      TidyUncut([], e.items, key);
  }

  lemma {:induction false} UncutLosesNothing(run: seq<Piece>, items: seq<Item>, key: string)
    requires Uncut(run, items, key)
    ensures !TextCut(run, items, key) && !ValueCut(items, key)
    decreases items, 0
  {
    hide Cuts, UncutIn, TextCutIn, ValueCutIn;
    if items != [] {
      match items[0]
      case Words(piece) =>
        UncutLosesNothing(run + [piece], items[1..], key);
        NoValueCut(piece, key);
      case Child(_) =>
        UncutItemLosesNothing(items[0], key);
        UncutLosesNothing([], items[1..], key);
    }
  }

  lemma UncutItemLosesNothing(item: Item, key: string)
    requires UncutIn(item, key)
    ensures !TextCutIn(item, key) && !ValueCutIn(item, key)
    decreases item, 1
  {
    hide Uncut, TextCut, ValueCut, UncutAttributes, WholeBody;
    match item
    case Words(_) =>
    case Child(e) => UncutLosesNothing([], e.items, key);
  }

  // No element is rendered otherwise than documented.

  predicate SilentItem(item: Item, key: string) {
    match item case Words(_) => true case Child(e) => !MentionsKey(e.attributes, key) && Silent(e.items, key)
  }

  /** No start tag mentions the placeholder. */
  predicate Silent(items: seq<Item>, key: string) { forall i :: 0 <= i < |items| ==> SilentItem(items[i], key) }

  lemma SilentBoth(a: seq<Item>, b: seq<Item>, key: string)
    ensures Silent(a + b, key) <==> Silent(a, key) && Silent(b, key)
  {
    hide SilentItem;
    var both := a + b;
    if Silent(both, key) {
      assert forall i :: 0 <= i < |a| ==> a[i] == both[i];
      assert forall i :: 0 <= i < |b| ==> b[i] == both[|a| + i];
    }
  }

  lemma {:induction false} TrimmedPiecesTidy(held: string, ps: seq<Piece>, key: string)
    requires Escape.NoMarkup(held) && TidyPieces(ps)
    ensures TidyPieces(Trimmed(held, ps, key))
    decreases |ps|
  {
    if ps != [] {
      TidyTextUncut(held, ps, key);
      assert TidyPiece(ps[0]);
      hide Assigned, Mimics;
      TrimmedPiecesTidy(if ps[0].Lit? then held + ps[0].text else "", ps[1..], key);
    }
  }

  lemma WordsTidy(ps: seq<Piece>, key: string)
    requires TidyPieces(ps)
    ensures Tidy(WordsOf(ps)) && Silent(WordsOf(ps), key)
  {
    WordsAreWords(ps);
  }

  lemma {:induction false} TrimmedTidy(run: seq<Piece>, items: seq<Item>, key: string)
    requires TidyPieces(run) && Tidy(items)
    ensures Tidy(TrimmedItems(run, items, key)) && Silent(TrimmedItems(run, items, key), key)
    decreases items, 0
  {
    hide TidyItem, SilentItem, Trimmed, TrimmedIn, WordsOf, TidyPiece, Tidy, Silent;
    TrimmedPiecesTidy("", run, key);
    WordsTidy(Trimmed("", run, key), key);
    if items != [] {
      TidyCons(items);
      match items[0]
      case Words(piece) =>
        TidyWord(piece);
        TidySnoc(run, piece);
        TrimmedTidy(run + [piece], items[1..], key);
      case Child(_) =>
        var lead, own, rest := WordsOf(Trimmed("", run, key)), [TrimmedIn(items[0], key)],
                               TrimmedItems([], items[1..], key);
        TrimmedItemTidy(items[0], key);
        TrimmedTidy([], items[1..], key);
        TidyBoth(own, rest);
        TidyBoth(lead, own + rest);
        SilentBoth(own, rest, key);
        SilentBoth(lead, own + rest, key);
    }
  }

  lemma TrimmedItemTidy(item: Item, key: string)
    requires TidyItem(item) && item.Child?
    ensures Tidy([TrimmedIn(item, key)]) && Silent([TrimmedIn(item, key)], key)
    decreases item, 1
  {
    hide TrimmedItems, TrimmedAttributes, NoTwin, Tidy, Silent, TidyAttributes, MentionsKey;
    var e := item.element;
    TrimmedTidy([], e.items, key);
    TidyAttributesUncut(e.attributes, key);
    TidyIsMild(e.items);
    TrimmedMild([], e.items, key, e.name);
    SameBody(e, key);
    TidyElement(TrimmedElement(e, key), key);
    OneTidy(TrimmedIn(item, key), key);
  }

  lemma TidyElement(e: Element, key: string)
    requires TidyAttributes(e.attributes) && NoTwin(e.items, e.name) && Tidy(e.items)
    requires !MentionsKey(e.attributes, key) && Silent(e.items, key)
    ensures TidyItem(Child(e)) && SilentItem(Child(e), key)
  {
  }

  lemma OneTidy(item: Item, key: string)
    requires TidyItem(item) && SilentItem(item, key)
    ensures Tidy([item]) && Silent([item], key)
  {
  }

  lemma {:induction false} SilentFaultless(items: seq<Item>, key: string)
    requires Tidy(items) && Silent(items, key)
    ensures !Faulty(items, key, Stays) && !Faulty(items, key, TakesText)
    decreases items, 0
  {
    if items != [] {
      hide TidyItem, SilentItem, FaultyItem;
      assert TidyItem(items[0]) && SilentItem(items[0], key);
      SilentItemFaultless(items[0], key);
      SilentFaultless(items[1..], key);
    }
  }

  lemma SilentItemFaultless(item: Item, key: string)
    requires TidyItem(item) && SilentItem(item, key)
    ensures !FaultyItem(item, key, Stays) && !FaultyItem(item, key, TakesText)
    decreases item, 1
  {
    hide Removes, MentionsKey, RunStart;
    match item
    case Words(_) =>
    case Child(e) =>
      SilentFaultless(e.items, key);
      if Removes(e, key) {
        RemovesEnds(e, key);
        if RunStart(e) == 0 {
          TidyBodyIsWhole(e, key);
        }
      }
  }

  lemma {:induction false} WordsPieces(items: seq<Item>)
    requires forall i :: 0 <= i < |items| ==> items[i].Words?
    ensures |ItemsPieces(items)| == |items|
    ensures forall i :: 0 <= i < |items| ==> ItemsPieces(items)[i] == items[i].piece
  {
    if items != [] {
      WordsPieces(items[1..]);
    }
  }

  /** Text without markup in front of the placeholder is not taken for a start tag. */
  lemma TidyTextIsNoTag(e: Element, key: string)
    requires Tidy(e.items) && EndsWith(e, key) && RunStart(e) == 0 && |e.items| > 1
    ensures !TagEnd(Run(e))
  {
    hide LastRun;
    OnlyWords(e, key);
    var front := Front(e)[0..];
    assert front == Front(e);
    WordsPieces(front);
    var n := |front| - 1;
    assert Run(e)[n] == e.items[n].piece && TidyItem(e.items[n]);
    var p := e.items[n].piece;
    if p.Lit? && p.text != "" {
      assert !Escape.IsMarkup(p.text[|p.text| - 1]);
    }
  }

  lemma TidyBodyIsWhole(e: Element, key: string)
    requires Tidy(e.items) && Removes(e, key) && EndsWith(e, key) && RunStart(e) == 0
    ensures |e.items| == 1
  {
    hide Lacks, MentionsKey, LastRun, TagEnd;
    if |e.items| > 1 {
      TidyTextIsNoTag(e, key);
    }
  }

  /** A tidy template is rendered as documented for every placeholder. */
  lemma TidyIsHarmless(items: seq<Item>, key: string)
    requires Tidy(items)
    ensures Harmless(items, key) && (AllPassive(ItemsPieces(items), key) ==> Settled(items, key))
  {
    hide Tidy, Uncut, TextCut, ValueCut, TrimmedItems, Silent, Faulty, Mild, AllPassive, AllSpellable;
    TidyUncut([], items, key);
    UncutLosesNothing([], items, key);
    TrimmedTidy([], items, key);
    var bare := Cleared(items, key, true);
    SilentFaultless(bare, key);
    TidyIsMild(bare);
    MildKeepsEndTags(bare, key);
  }

  // Rendering as documented keeps a template tidy.

  lemma {:induction false} BareTidy(items: seq<Item>, key: string, name: string)
    requires Tidy(items)
    ensures Tidy(WithoutAttributes(items, key))
    ensures NoTwin(items, name) ==> NoTwin(WithoutAttributes(items, key), name)
    decreases items, 0
  {
    if items != [] {
      hide TidyItem, WithoutAttributesIn;
      var left := WithoutAttributes(items, key);
      assert left[0] == WithoutAttributesIn(items[0], key) && left[1..] == WithoutAttributes(items[1..], key);
      TidyCons(items);
      TidyCons(left);
      TwinCons(items, name);
      TwinCons(left, name);
      BareItemTidy(items[0], key, name);
      BareTidy(items[1..], key, name);
    }
  }

  lemma BareItemTidy(item: Item, key: string, name: string)
    requires TidyItem(item)
    ensures TidyItem(WithoutAttributesIn(item, key))
    ensures NoTwin([item], name) ==> NoTwin([WithoutAttributesIn(item, key)], name)
    decreases item, 1
  {
    match item
    case Words(_) =>
    case Child(e) =>
      hide NoTwin, TidyAttributes;
      BareTidy(e.items, key, e.name);
      DroppedTidy(e.attributes, key);
      SameTagTwin(item, WithoutAttributesIn(item, key), name);
  }

  lemma {:induction false} DroppedTidy(attributes: seq<Attribute>, key: string)
    requires TidyAttributes(attributes)
    ensures TidyAttributes(DropAttributes(attributes, key))
  {
    if attributes != [] {
      hide TidyValue;
      DroppedTidy(attributes[1..], key);
    }
  }

  lemma {:induction false} ReducedTidy(items: seq<Item>, key: string)
    requires Tidy(items)
    ensures Tidy(WithoutElements(items, key, false))
    decreases items, 0
  {
    if items != [] {
      hide TidyItem, WithoutElementsIn;
      TidyCons(items);
      ReducedItemTidy(items[0], key);
      ReducedTidy(items[1..], key);
    }
  }

  lemma ReducedItemTidy(item: Item, key: string)
    requires TidyItem(item)
    ensures Tidy(WithoutElementsIn(item, key, false))
    decreases item, 1
  {
    match item
    case Words(_) =>
    case Child(e) =>
      hide Removable, TidyAttributes, NoTwin;
      ReducedTidy(e.items, key);
      TidyIsMild(e.items);
      ReducedMild(e.items, key, false, e.name);
      assert TidyItem(Child(e.(items := WithoutElements(e.items, key, false))));
  }

  lemma {:induction false} FilledNoHoles(ps: seq<Piece>, key: string, text: string)
    requires NoHoles(ps)
    ensures Filled(ps, key, text) == ps
  {
    if ps != [] {
      FilledNoHoles(ps[1..], key, text);
      assert [ps[0]] + ps[1..] == ps;
    }
  }

  lemma FilledValueTidy(value: seq<Piece>, key: string, text: string)
    requires TidyValue(value)
    ensures TidyValue(Filled(value, key, text))
  {
    if NoHoles(value) {
      FilledNoHoles(value, key, text);
    } else {
      assert value == [value[0]];
      OneFilled(value[0], key, text);
    }
  }

  lemma {:induction false} FilledAttributesTidy(attributes: seq<Attribute>, key: string, text: string)
    requires TidyAttributes(attributes)
    ensures TidyAttributes(FilledAttributes(attributes, key, text))
  {
    if attributes != [] {
      hide TidyValue;
      assert TidyValue(attributes[0].value);
      FilledValueTidy(attributes[0].value, key, text);
      FilledAttributesTidy(attributes[1..], key, text);
    }
  }

  lemma {:induction false} FilledTidy(items: seq<Item>, key: string, text: string)
    requires Tidy(items) && Escape.NoMarkup(text)
    ensures Tidy(FilledItems(items, key, text))
    decreases items, 0
  {
    if items != [] {
      hide TidyItem, FilledIn;
      TidyCons(items);
      FilledItemTidy(items[0], key, text);
      FilledTidy(items[1..], key, text);
    }
  }

  lemma FilledItemTidy(item: Item, key: string, text: string)
    requires TidyItem(item) && Escape.NoMarkup(text)
    ensures Tidy(FilledIn(item, key, text))
    decreases item, 1
  {
    match item
    case Words(piece) =>
      WordsAreWords(FilledPiece(piece, key, text));
    case Child(e) =>
      hide TidyAttributes, NoTwin;
      FilledTidy(e.items, key, text);
      TidyIsMild(e.items);
      FilledMild(e.items, key, text, e.name);
      FilledAttributesTidy(e.attributes, key, text);
      assert TidyItem(FilledIn(item, key, text)[0]);
  }

  lemma RenderedTidy(items: seq<Item>, key: string, value: Option<string>)
    requires Tidy(items)
    ensures Tidy(Rendered(items, key, value, false))
  {
    hide Tidy, NoTwin;
    match value
    case Some(v) =>
      EscapedIsFilling(v);
      FilledTidy(items, key, Escape.XmlEscape(v));
    case None =>
      BareTidy(items, key, "");
      ReducedTidy(WithoutAttributes(items, key), key);
      FilledTidy(WithoutElements(WithoutAttributes(items, key), key, false), key, "");
  }

  // Rendering as documented leaves no new spelling of another placeholder.

  lemma {:induction false} DroppedAmong(attributes: seq<Attribute>, key: string, p: Piece)
    requires p in AttributesPieces(DropAttributes(attributes, key))
    ensures p in AttributesPieces(attributes)
  {
    hide AttributePieces;
    var a, rest := attributes[0], DropAttributes(attributes[1..], key);
    var own := if a.value == [Hole(key)] then [] else [a];
    AttributesPiecesConcat(own, rest);
    assert own != [] ==> AttributesPieces(own) == AttributePieces(a) by { OneLeft(a); }
    if p in AttributesPieces(rest) {
      DroppedAmong(attributes[1..], key, p);
    }
  }

  lemma {:induction false} BareAmong(items: seq<Item>, key: string, p: Piece)
    requires p in ItemsPieces(WithoutAttributes(items, key))
    ensures p in ItemsPieces(items)
    decreases items, 0
  {
    hide WithoutAttributesIn, ItemPieces;
    var left := WithoutAttributes(items, key);
    assert left[0] == WithoutAttributesIn(items[0], key) && left[1..] == WithoutAttributes(items[1..], key);
    PiecesCons(items);
    PiecesCons(left);
    if p in ItemPieces(left[0]) {
      BareItemAmong(items[0], key, p);
    } else {
      BareAmong(items[1..], key, p);
    }
  }

  lemma BareItemAmong(item: Item, key: string, p: Piece)
    requires p in ItemPieces(WithoutAttributesIn(item, key))
    ensures p in ItemPieces(item)
    decreases item, 1
  {
    hide ItemsPieces, AttributesPieces, WithoutAttributes, DropAttributes;
    match item
    case Words(_) =>
    case Child(e) =>
      if p in ItemsPieces(WithoutAttributes(e.items, key)) {
        if !e.closed {
          BareAmong(e.items, key, p);
        }
      }
      if p in AttributesPieces(DropAttributes(e.attributes, key)) {
        DroppedAmong(e.attributes, key, p);
      }
  }

  lemma {:induction false} LeftAmong(items: seq<Item>, key: string, p: Piece)
    requires p in ItemsPieces(WithoutElements(items, key, false))
    ensures p in ItemsPieces(items)
    decreases items, 0
  {
    hide WithoutElementsIn, ItemPieces;
    var own, rest := WithoutElementsIn(items[0], key, false), WithoutElements(items[1..], key, false);
    ItemsPiecesConcat(own, rest);
    PiecesCons(items);
    if p in ItemsPieces(own) {
      LeftItemAmong(items[0], key, p);
    } else {
      LeftAmong(items[1..], key, p);
    }
  }

  lemma LeftItemAmong(item: Item, key: string, p: Piece)
    requires p in ItemsPieces(WithoutElementsIn(item, key, false))
    ensures p in ItemPieces(item)
    decreases item, 1
  {
    hide ItemsPieces, OpenPieces, WithoutElements, Removable;
    NoPieces();
    match item
    case Words(_) => OneItem(item);
    case Child(e) =>
      var left := e.(items := WithoutElements(e.items, key, false));
      OneItem(Child(left));
      SameOpen(e, left);
      if !e.closed && p in ItemsPieces(left.items) {
        LeftAmong(e.items, key, p);
      }
  }

  lemma RenderedPassive(items: seq<Item>, key: string, value: Option<string>, other: string)
    requires AllPassive(ItemsPieces(items), other)
    requires value.Some? ==> Inert(Escape.XmlEscape(value.value), Needle(other))
    ensures AllPassive(ItemsPieces(Rendered(items, key, value, false)), other)
  {
    hide ItemsPieces, Passive, Inert, WithoutAttributes, WithoutElements, Escape.XmlEscape, Needle;
    match value
    case Some(v) =>
      ItemsFilled(items, key, Escape.XmlEscape(v));
      FilledPassive(ItemsPieces(items), key, Escape.XmlEscape(v), other);
    case None =>
      var bare := WithoutAttributes(items, key);
      var left := WithoutElements(bare, key, false);
      forall p | p in ItemsPieces(left) ensures p in ItemsPieces(items) {
        LeftAmong(bare, key, p);
        BareAmong(items, key, p);
      }
      PassiveAmong(ItemsPieces(items), ItemsPieces(left), other);
      ItemsFilled(left, key, "");
      NoneInert(Needle(other));
      FilledPassive(ItemsPieces(left), key, "", other);
  }

  function DocumentedAll(items: seq<Item>, tags: seq<Replacement>): seq<Item>
    decreases |tags|
  {
    if tags == [] then items else DocumentedAll(Rendered(items, tags[0].0, tags[0].1, false), tags[1..])
  }

  /** Filling a tidy template with any values, present and absent mixed, renders it as documented, as long as no
      value spells a placeholder that comes after it. */
  lemma {:induction false} TidyRendersAsDocumented(items: seq<Item>, tags: seq<Replacement>)
    requires WellFormedItems(items) && Tidy(items)
    requires AllKeys(tags) && Apart(tags) && PassiveToAll(ItemsPieces(items), tags)
    ensures TagsReplaced(Print(items), tags) == Print(DocumentedAll(items, tags))
    decreases |tags|
  {
    if tags != [] {
      hide TagReplaced, Rendered, Print, WellFormedItems, Unbraced, Tidy, ItemsPieces, Inert, AllPassive, Needle,
        Escape.XmlEscape, Harmless, Settled;
      var (key, value) := tags[0];
      assert Unbraced(key) && AllPassive(ItemsPieces(items), key);
      TidyTag(items, key, value);
      RenderedWellFormed(items, key, value, false);
      RenderedTidy(items, key, value);
      var next := Rendered(items, key, value, false);
      forall i | 0 <= i < |tags[1..]| ensures AllPassive(ItemsPieces(next), tags[1..][i].0) {
        assert tags[1..][i] == tags[i + 1] && AllPassive(ItemsPieces(items), tags[i + 1].0);
        RenderedPassive(items, key, value, tags[i + 1].0);
      }
      ApartRest(tags);
      TidyRendersAsDocumented(next, tags[1..]);
    }
  }

  lemma TidyTag(items: seq<Item>, key: string, value: Option<string>)
    requires WellFormedItems(items) && Tidy(items) && Unbraced(key) && AllPassive(ItemsPieces(items), key)
    ensures TagReplaced(Print(items), key, value) == Print(Rendered(items, key, value, false))
  {
    hide TagReplaced, WellFormedItems, Tidy, ItemsPieces, AllPassive, Harmless, Settled, Unbraced, FilledItems,
      Print, WithoutElements, Cleared;
    match value
    case Some(v) => TagRendersTree(items, key, value);
    case None =>
      TidyIsHarmless(items, key);
      DocumentedExactlyWhen(items, key);
  }
}
