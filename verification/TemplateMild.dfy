/** Which templates stay trees whatever is filled in. */
module TemplateMild {
  import opened Text
  import opened Template
  import opened TemplateText
  import opened TemplateTree
  import opened TemplateTrim
  import opened TemplatePassive
  import opened TemplateRender
  import opened TemplateLosses
  import opened TemplateValues
  import Escape

  /** No self-closing child has this name. */
  predicate NoTwin(items: seq<Item>, name: string) {
    forall i :: 0 <= i < |items| && items[i].Child? && items[i].element.closed ==> items[i].element.name != name
  }

  predicate MildItem(item: Item) {
    match item case Words(_) => true case Child(e) => NoTwin(e.items, e.name) && Mild(e.items)
  }

  /** No element has a self-closing child of its own name. */
  predicate Mild(items: seq<Item>) { forall i :: 0 <= i < |items| ==> MildItem(items[i]) }

  lemma {:induction false} MildKeepsEndTags(items: seq<Item>, key: string)
    requires Mild(items)
    ensures !Faulty(items, key, TakesEndTag)
    decreases items, 0
  {
    if items != [] {
      hide MildItem, FaultyItem;
      assert MildItem(items[0]);
      MildItemKeepsEndTags(items[0], key);
      MildKeepsEndTags(items[1..], key);
    }
  }

  lemma MildItemKeepsEndTags(item: Item, key: string)
    requires MildItem(item)
    ensures !FaultyItem(item, key, TakesEndTag)
    decreases item, 1
  {
    match item
    case Words(_) =>
    case Child(e) =>
      hide RunStart, Mild, Lacks, MentionsKey, TagEnd;
      MildKeepsEndTags(e.items, key);
      if e.items != [] && RunStart(e) > 0 {
        var o := e.items[RunStart(e) - 1].element;
        assert !(o.closed && o.name == e.name);
      }
  }

  // Rendering keeps a template mild.

  lemma TwinBoth(a: seq<Item>, b: seq<Item>, name: string)
    ensures NoTwin(a + b, name) <==> NoTwin(a, name) && NoTwin(b, name)
  {
    var both := a + b;
    if NoTwin(both, name) {
      assert forall i :: 0 <= i < |a| ==> a[i] == both[i];
      assert forall i :: 0 <= i < |b| ==> b[i] == both[|a| + i];
    }
  }

  lemma MildBoth(a: seq<Item>, b: seq<Item>)
    ensures Mild(a + b) <==> Mild(a) && Mild(b)
  {
    hide MildItem;
    var both := a + b;
    if Mild(both) {
      assert forall i :: 0 <= i < |a| ==> a[i] == both[i];
      assert forall i :: 0 <= i < |b| ==> b[i] == both[|a| + i];
    }
  }

  lemma TwinCons(items: seq<Item>, name: string)
    requires items != []
    ensures NoTwin(items, name) <==> NoTwin([items[0]], name) && NoTwin(items[1..], name)
  {
    assert items == [items[0]] + items[1..];
  }

  lemma WordsMild(ps: seq<Piece>, name: string)
    ensures Mild(WordsOf(ps)) && NoTwin(WordsOf(ps), name)
  {
    WordsAreWords(ps);
  }

  lemma {:induction false} TrimmedMild(run: seq<Piece>, items: seq<Item>, key: string, name: string)
    requires Mild(items)
    ensures Mild(TrimmedItems(run, items, key))
    ensures NoTwin(items, name) ==> NoTwin(TrimmedItems(run, items, key), name)
    decreases items, 0
  {
    hide MildItem, Trimmed, TrimmedIn, WordsOf;
    WordsMild(Trimmed("", run, key), name);
    if items != [] {
      assert MildItem(items[0]);
      TwinCons(items, name);
      match items[0]
      case Words(piece) => TrimmedMild(run + [piece], items[1..], key, name);
      case Child(_) =>
        var lead, own, rest := WordsOf(Trimmed("", run, key)), [TrimmedIn(items[0], key)],
                               TrimmedItems([], items[1..], key);
        TrimmedItemMild(items[0], key, name);
        TrimmedMild([], items[1..], key, name);
        MildBoth(own, rest);
        TwinBoth(own, rest, name);
        MildBoth(lead, own + rest);
        TwinBoth(lead, own + rest, name);
    }
  }

  lemma TrimmedItemMild(item: Item, key: string, name: string)
    requires MildItem(item) && item.Child?
    ensures Mild([TrimmedIn(item, key)])
    ensures NoTwin([item], name) ==> NoTwin([TrimmedIn(item, key)], name)
    decreases item, 1
  {
    hide TrimmedItems, TrimmedAttributes, NoTwin, Mild;
    var e := item.element;
    TrimmedMild([], e.items, key, e.name);
    assert MildItem(TrimmedIn(item, key));
    OneMild(TrimmedIn(item, key));
    SameTagTwin(item, TrimmedIn(item, key), name);
  }

  lemma OneMild(item: Item)
    requires MildItem(item)
    ensures Mild([item])
  {
  }

  predicate SameTag(a: Item, b: Item) {
    a.Child? && b.Child? && a.element.name == b.element.name && a.element.closed == b.element.closed
  }

  lemma SameTagTwin(a: Item, b: Item, name: string)
    requires SameTag(a, b)
    ensures NoTwin([a], name) <==> NoTwin([b], name)
  {
    assert [a][0] == a && [b][0] == b;
  }

  lemma {:induction false} ReducedMild(items: seq<Item>, key: string, asCoded: bool, name: string)
    requires Mild(items)
    ensures Mild(WithoutElements(items, key, asCoded))
    ensures NoTwin(items, name) ==> NoTwin(WithoutElements(items, key, asCoded), name)
    decreases items, 0
  {
    if items != [] {
      hide MildItem, WithoutElementsIn;
      assert MildItem(items[0]);
      ReducedItemMild(items[0], key, asCoded);
      ReducedMild(items[1..], key, asCoded, name);
      TwinCons(items, name);
    }
  }

  lemma ReducedItemMild(item: Item, key: string, asCoded: bool)
    requires MildItem(item)
    ensures Mild(WithoutElementsIn(item, key, asCoded))
    ensures forall name :: NoTwin([item], name) ==> NoTwin(WithoutElementsIn(item, key, asCoded), name)
    decreases item, 1
  {
    match item
    case Words(_) =>
    case Child(e) =>
      hide Removable;
      ReducedMild(e.items, key, asCoded, e.name);
      var left := Child(e.(items := WithoutElements(e.items, key, asCoded)));
      assert MildItem(left) && SameTag(left, item);
      assert [item][0] == item;
  }

  lemma {:induction false} FilledMild(items: seq<Item>, key: string, text: string, name: string)
    requires Mild(items)
    ensures Mild(FilledItems(items, key, text))
    ensures NoTwin(items, name) ==> NoTwin(FilledItems(items, key, text), name)
    decreases items, 0
  {
    if items != [] {
      hide MildItem, FilledIn;
      assert MildItem(items[0]);
      FilledItemMild(items[0], key, text);
      FilledMild(items[1..], key, text, name);
      TwinCons(items, name);
    }
  }

  lemma FilledItemMild(item: Item, key: string, text: string)
    requires MildItem(item)
    ensures Mild(FilledIn(item, key, text))
    ensures forall name :: NoTwin([item], name) ==> NoTwin(FilledIn(item, key, text), name)
    decreases item, 1
  {
    match item
    case Words(piece) =>
      var filled := FilledPiece(piece, key, text);
      assert filled != [] ==> filled[1..] == [] && WordsOf(filled) == [Words(filled[0])];
    case Child(e) =>
      FilledMild(e.items, key, text, e.name);
      var filled := FilledIn(item, key, text);
      assert MildItem(filled[0]) && SameTag(filled[0], item);
      assert [item][0] == item;
  }

  lemma RenderedMild(items: seq<Item>, key: string, value: Option<string>)
    requires Mild(items)
    ensures Mild(Rendered(items, key, value, true))
  {
    hide Mild, NoTwin, TrimmedItems;
    match value
    case Some(v) => FilledMild(items, key, Escape.XmlEscape(v), "");
    case None =>
      TrimmedMild([], items, key, "");
      ReducedMild(Cleared(items, key, true), key, true, "");
      FilledMild(WithoutElements(Cleared(items, key, true), key, true), key, "", "");
  }

  // Rendering keeps literals without opening braces.

  lemma {:induction false} FilledSpellable(ps: seq<Piece>, key: string, text: string)
    requires AllSpellable(ps) && '{' !in text
    ensures AllSpellable(Filled(ps, key, text))
  {
    if ps != [] {
      FilledSpellable(ps[1..], key, text);
      assert Spellable(ps[0]);
    }
  }

  lemma LeftSpellable(items: seq<Item>, key: string)
    requires AllSpellable(ItemsPieces(items)) && !Faulty(items, key, TakesEndTag)
    ensures AllSpellable(ItemsPieces(WithoutElements(items, key, true)))
  {
    hide ItemsPieces, Faulty, WithoutElements, Spellable, CodedPieces;
    LeavesTree(items, key);
    var left, all := CodedPieces(items, key), ItemsPieces(items);
    forall i | 0 <= i < |left| ensures Spellable(left[i]) {
      CodedAmong(items, key, left[i]);
    }
  }

  lemma RenderedSpellable(items: seq<Item>, key: string, value: Option<string>)
    requires Mild(items) && AllSpellable(ItemsPieces(items)) && Braceless(value)
    ensures AllSpellable(ItemsPieces(Rendered(items, key, value, true)))
  {
    hide Mild, AllSpellable, ItemsPieces, Faulty, TrimmedItems, WithoutElements, AllPassive, Uncut;
    match value
    case Some(v) =>
      EscapedIsFilling(v);
      ItemsFilled(items, key, Escape.XmlEscape(v));
      FilledSpellable(ItemsPieces(items), key, Escape.XmlEscape(v));
    case None =>
      var bare := Cleared(items, key, true);
      NoneFair(key, true);
      SpellablePassive(ItemsPieces(items), key);
      TrimmedItemsFair([], items, key, key, true);
      TrimmedMild([], items, key, "");
      MildKeepsEndTags(bare, key);
      LeftSpellable(bare, key);
      ItemsFilled(WithoutElements(bare, key, true), key, "");
      FilledSpellable(ItemsPieces(WithoutElements(bare, key, true)), key, "");
  }

  /** Names free of braces, and values, but for the last, without an opening brace. */
  ghost predicate PlainTags(tags: seq<Replacement>) {
    AllKeys(tags) && forall i :: 0 <= i < |tags| - 1 ==> Braceless(tags[i].1)
  }

  /** A mild template can be rendered with any such values, present and absent mixed. */
  lemma {:induction false} MildRenderable(items: seq<Item>, tags: seq<Replacement>)
    requires Mild(items) && AllSpellable(ItemsPieces(items)) && PlainTags(tags)
    ensures Renderable(items, tags)
    decreases |tags|
  {
    if tags != [] {
      hide Mild, Rendered, Unbraced, Faulty, Settled, AllSpellable, ItemsPieces, AllPassive, TrimmedItems;
      var (key, value) := tags[0];
      SpellablePassive(ItemsPieces(items), key);
      BracelessSettled(items, key);
      TrimmedMild([], items, key, "");
      MildKeepsEndTags(Cleared(items, key, true), key);
      if |tags| > 1 {
        RenderedMild(items, key, value);
        RenderedSpellable(items, key, value);
        MildRenderable(Rendered(items, key, value, true), tags[1..]);
      } else {
        assert tags[1..] == [];
      }
    }
  }
}
