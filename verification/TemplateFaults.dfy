/** Where the deletion of elements parts from its documentation, which deletes the elements whose complete body the
    placeholder is and no more: the search also takes a `>` in text, or a self-closing tag, for the start tag
    around the placeholder, and passes an element whose start tag mentions the placeholder too. */
module TemplateFaults {
  import opened Text
  import opened TemplateText
  import opened TemplateTree
  import opened TemplateFit
  import opened TemplateItems
  import opened TemplateTrim
  import opened TemplateRender
  import opened TemplateTally

  // What the deletion leaves, with the other occurrences blanked.

  function Blank(items: seq<Item>, key: string): seq<Item> { FilledItems(items, key, "") }

  function BlankTag(e: Element, key: string): Element { e.(attributes := FilledAttributes(e.attributes, key, "")) }

  lemma BlankWellFormed(items: seq<Item>, key: string)
    requires WellFormedItems(items)
    ensures WellFormedItems(Blank(items, key))
  {
    FilledWellFormed(items, key, "");
  }

  lemma BlankTagWellFormed(e: Element, key: string)
    requires WellFormedElement(e)
    ensures var b := BlankTag(e, key); IsName(b.name) && AllWellFormed(b.attributes) && AllSpace(b.tail)
  {
    FilledAttributesWellFormed(e.attributes, key, "");
  }

  lemma OpenBlanked(e: Element, key: string)
    ensures Filled(OpenPieces(e), key, "") == OpenPieces(BlankTag(e, key))
  {
    AttributesFilled(e.attributes, key, "");
    FramedFilled("<" + e.name, AttributesPieces(e.attributes), e.tail, key, "");
  }

  lemma StartBlanked(e: Element, key: string)
    requires WellFormedElement(e)
    ensures Read(Filled(OpenPieces(e) + [Lit(TagClose(e))], key, "")) == Tally(InText, if e.closed then 0 else 1, 0)
  {
    hide OpenPieces, Read;
    OpenBlanked(e, key);
    OneFilled(Lit(TagClose(e)), key, "");
    FilledConcat(OpenPieces(e), [Lit(TagClose(e))], key, "");
    BlankTagWellFormed(e, key);
    ScanStartRead(BlankTag(e, key));
  }

  lemma CloseBlanked(e: Element, key: string)
    requires WellFormedElement(e)
    ensures Read(Filled([Lit(CloseTag(e))], key, "")) == Tally(InText, -1, 0)
  {
    hide Read;
    OneFilled(Lit(CloseTag(e)), key, "");
    ReadCloseTag(e);
  }

  lemma PieceBlanked(p: Piece, key: string)
    requires PlainPiece(p)
    ensures Read(Filled([p], key, "")) == Tally(InText, 0, if p == Hole(key) then 0 else |Glyphs(p)|)
  {
    hide Read;
    OneFilled(p, key, "");
    ReadPiece(p);
    ReadNothing();
  }

  lemma ReadBoth(ps: seq<Piece>, qs: seq<Piece>, key: string)
    requires Read(Filled(ps, key, "")).mode == InText
    ensures Read(Filled(ps + qs, key, "")) == Then(Read(Filled(ps, key, "")), Read(Filled(qs, key, "")))
  {
    hide Read;
    FilledConcat(ps, qs, key, "");
    ReadConcat(Filled(ps, key, ""), Filled(qs, key, ""));
  }

  // An end tag is taken: the rest is no tree.

  lemma {:induction false} WordsFaultless(items: seq<Item>, key: string, fault: Fault)
    requires forall i :: 0 <= i < |items| ==> items[i].Words?
    ensures !Faulty(items, key, fault)
  {
    if items != [] {
      WordsFaultless(items[1..], key, fault);
    }
  }

  lemma OnlyWords(e: Element, key: string)
    requires EndsWith(e, key) && RunStart(e) == 0
    ensures forall i :: 0 <= i < |e.items| ==> e.items[i].Words?
  {
    forall i | 0 <= i < |e.items| - 1 ensures e.items[i].Words? {
      assert Front(e)[i] == e.items[i];
    }
  }

  /** Deletion never leaves too few start tags, and leaves too many where it takes an end tag. */
  lemma {:induction false} CodeBalance(items: seq<Item>, key: string)
    requires WellFormedItems(items)
    ensures var t := Read(Filled(CodedPieces(items, key), key, ""));
            t.mode == InText && t.balance >= 0 && (Faulty(items, key, TakesEndTag) ==> t.balance > 0)
    decreases items, 0
  {
    if items == [] {
      ReadNothing();
    } else {
      hide CodedItem, Read, WellFormedItem, FaultyItem;
      assert WellFormedItem(items[0]);
      CodeItemBalance(items[0], key);
      CodeBalance(items[1..], key);
      ReadBoth(CodedItem(items[0], key), CodedPieces(items[1..], key), key);
    }
  }

  lemma CodeItemBalance(item: Item, key: string)
    requires WellFormedItem(item)
    ensures var t := Read(Filled(CodedItem(item, key), key, ""));
            t.mode == InText && t.balance >= 0 && (FaultyItem(item, key, TakesEndTag) ==> t.balance > 0)
    decreases item, 1
  {
    hide Read, Removes, RunStart, Filled, CodedPieces;
    match item
    case Words(piece) => PieceBlanked(piece, key);
    case Child(e) =>
      if Removes(e, key) {
        RemovesEnds(e, key);
        if RunStart(e) == 0 {
          OnlyWords(e, key);
          WordsFaultless(e.items, key, TakesEndTag);
          NothingBlanked(key);
        } else {
          LeadBalance(e, key);
        }
      } else {
        StandingBalance(e, key);
      }
  }

  lemma NothingBlanked(key: string)
    ensures Read(Filled([], key, "")) == Tally(InText, 0, 0)
  {
    ReadNothing();
  }

  lemma PrefixWellFormed(items: seq<Item>, n: nat)
    requires WellFormedItems(items) && n <= |items|
    ensures WellFormedItems(items[..n])
  {
    hide WellFormedItem;
  }

  lemma LeadBalance(e: Element, key: string)
    requires WellFormedElement(e) && EndsWith(e, key) && RunStart(e) > 0
    ensures var t := Read(Filled(OpenPieces(e) + [Lit(">")] + CodedPieces(e.items[..RunStart(e) - 1], key), key, ""));
            t.mode == InText && t.balance > 0
    decreases e, 0
  {
    hide Read, RunStart, Filled, CodedPieces, OpenPieces;
    PrefixWellFormed(e.items, RunStart(e) - 1);
    CodeBalance(e.items[..RunStart(e) - 1], key);
    StartBlanked(e, key);
    ReadBoth(OpenPieces(e) + [Lit(">")], CodedPieces(e.items[..RunStart(e) - 1], key), key);
  }

  lemma StandingBalance(e: Element, key: string)
    requires WellFormedElement(e) && !Removes(e, key)
    ensures var t := Read(Filled(CodedElement(e, key), key, ""));
            t.mode == InText && t.balance >= 0 && (Faulty(e.items, key, TakesEndTag) ==> t.balance > 0)
    decreases e, 0
  {
    hide Read, Filled, CodedPieces, OpenPieces, Removes;
    StartBlanked(e, key);
    if e.closed {
      assert !Faulty(e.items, key, TakesEndTag) by { WordsFaultless(e.items, key, TakesEndTag); }
    } else {
      var start, body, end := OpenPieces(e) + [Lit(">")], CodedPieces(e.items, key), [Lit(CloseTag(e))];
      CodeBalance(e.items, key);
      CloseBlanked(e, key);
      Regroup(OpenPieces(e), [Lit(">")], body);
      Regroup(OpenPieces(e), [Lit(">")] + body, end);
      ReadBoth(start, body, key);
      ReadBoth(start + body, end, key);
    }
  }

  // Text is taken.

  function TextOf(items: seq<Item>, key: string): nat { Read(ItemsPieces(Blank(items, key))).text }

  lemma {:induction false} FilledItemsConcat(a: seq<Item>, b: seq<Item>, key: string, text: string)
    ensures FilledItems(a + b, key, text) == FilledItems(a, key, text) + FilledItems(b, key, text)
  {
    if a == [] {
      assert a + b == b;
    } else {
      hide FilledIn;
      FilledItemsConcat(a[1..], b, key, text);
      assert (a + b)[0] == a[0] && (a + b)[1..] == a[1..] + b;
      Regroup(FilledIn(a[0], key, text), FilledItems(a[1..], key, text), FilledItems(b, key, text));
    }
  }

  lemma TextConcat(a: seq<Item>, b: seq<Item>, key: string)
    requires WellFormedItems(a)
    ensures TextOf(a + b, key) == TextOf(a, key) + TextOf(b, key)
  {
    hide Read, FilledItems, ItemsPieces, WellFormedItem;
    BlankWellFormed(a, key);
    TreeBalanced(Blank(a, key));
    FilledItemsConcat(a, b, key, "");
    ItemsPiecesConcat(Blank(a, key), Blank(b, key));
    ReadConcat(ItemsPieces(Blank(a, key)), ItemsPieces(Blank(b, key)));
  }

  function Blanked(e: Element, key: string): Element {
    e.(attributes := FilledAttributes(e.attributes, key, ""), items := Blank(e.items, key))
  }

  lemma BlankChild(e: Element, key: string)
    ensures Blank([Child(e)], key) == [Child(Blanked(e, key))]
  {
    var one := [Child(e)];
    assert one[0] == Child(e) && one[1..] == [];
    assert FilledItems(one, key, "") == FilledIn(one[0], key, "") + FilledItems(one[1..], key, "");
    assert FilledItems(one[1..], key, "") == [];
  }

  lemma TextChild(e: Element, key: string)
    requires WellFormedElement(e) && !e.closed
    ensures TextOf([Child(e)], key) == TextOf(e.items, key)
  {
    hide Read, FilledItems, ItemsPieces, FilledAttributes, WellFormedElement;
    var one := [Child(e)];
    assert WellFormedItem(one[0]);
    BlankWellFormed(one, key);
    BlankChild(e, key);
    var b := Child(Blanked(e, key));
    assert WellFormedItem(b) by { assert Blank(one, key)[0] == b; }
    OneItem(b);
    ItemBalanced(b);
  }

  lemma {:induction false} WordsText(items: seq<Item>, key: string, i: nat)
    requires WellFormedItems(items) && i < |items| && items[i].Words? && items[i].piece != Hole(key)
    ensures TextOf(items, key) > 0
  {
    hide TextOf, WellFormedItem;
    var before, one, after := items[..i], [items[i]], items[i + 1..];
    assert items == before + one + after;
    assert WellFormedItem(items[i]);
    PieceText(items[i].piece, key);
    TextConcat(before, one, key);
    TextConcat(before + one, after, key);
  }

  lemma PieceText(p: Piece, key: string)
    requires WellFormedItem(Words(p))
    ensures TextOf([Words(p)], key) == if p == Hole(key) then 0 else |Glyphs(p)|
    ensures TextOf([Words(p)], key) == 0 <==> p == Hole(key)
  {
    hide Read;
    var one := [Words(p)];
    assert one[0] == Words(p) && one[1..] == [];
    assert FilledItems(one, key, "") == FilledIn(one[0], key, "") + FilledItems(one[1..], key, "");
    assert FilledItems(one[1..], key, "") == [];
    assert [p][1..] == [] && WordsOf([p]) == [Words(p)];
    assert Blank(one, key) == if p == Hole(key) then [] else one;
    ReadPiece(p);
    ReadNothing();
    OneItem(Words(p));
    GlyphEnds(p);
  }

  /** The code keeps no more text than the documentation, and less where it takes text. */
  lemma {:induction false} KeepsText(items: seq<Item>, key: string)
    requires WellFormedItems(items)
    ensures TextOf(WithoutElements(items, key, true), key) <= TextOf(WithoutElements(items, key, false), key)
    ensures Faulty(items, key, TakesText) ==>
              TextOf(WithoutElements(items, key, true), key) < TextOf(WithoutElements(items, key, false), key)
    decreases items, 0
  {
    if items != [] {
      hide WithoutElementsIn, WellFormedItem, FaultyItem, TextOf;
      assert WellFormedItem(items[0]);
      KeepsTextIn(items[0], key);
      KeepsText(items[1..], key);
      WithoutElementsItemWellFormed(items[0], key, true);
      WithoutElementsItemWellFormed(items[0], key, false);
      TextConcat(WithoutElementsIn(items[0], key, true), WithoutElements(items[1..], key, true), key);
      TextConcat(WithoutElementsIn(items[0], key, false), WithoutElements(items[1..], key, false), key);
    }
  }

  lemma KeepsTextIn(item: Item, key: string)
    requires WellFormedItem(item)
    ensures TextOf(WithoutElementsIn(item, key, true), key) <= TextOf(WithoutElementsIn(item, key, false), key)
    ensures FaultyItem(item, key, TakesText) ==>
              TextOf(WithoutElementsIn(item, key, true), key) < TextOf(WithoutElementsIn(item, key, false), key)
    decreases item, 1
  {
    hide TextOf, RunStart, Lacks, MentionsKey, TagEnd, Run, WithoutElements;
    match item
    case Words(_) =>
    case Child(e) =>
      NoText(key);
      if Removable(e, key, true) {
        OnlyWords(e, key);
        WordsFaultless(e.items, key, TakesText);
        if !WholeBody(e, key) {
          LongBodyText(e, key);
        }
      } else if WholeBody(e, key) {
        OnlyHole(e, key);
      } else if e.closed {
        WordsFaultless(e.items, key, TakesText);
        assert WithoutElements([], key, true) == WithoutElements([], key, false) by { NoneWithout(key); }
      } else {
        KeepsText(e.items, key);
        StandingText(e, key, true);
        StandingText(e, key, false);
      }
  }

  lemma NoneWithout(key: string)
    ensures WithoutElements([], key, true) == WithoutElements([], key, false) == []
  {
  }

  lemma NoText(key: string)
    ensures TextOf([], key) == 0
  {
    ReadNothing();
  }

  lemma StandingText(e: Element, key: string, asCoded: bool)
    requires WellFormedElement(e) && !e.closed && !Removable(e, key, asCoded)
    ensures TextOf(WithoutElementsIn(Child(e), key, asCoded), key)
        == TextOf(WithoutElements(e.items, key, asCoded), key)
  {
    hide TextOf, WithoutElements, Removable;
    var left := e.(items := WithoutElements(e.items, key, asCoded));
    WithoutElementsWellFormed(e.items, key, asCoded);
    assert WithoutElementsIn(Child(e), key, asCoded) == [Child(left)];
    TextChild(left, key);
  }

  lemma {:induction false} WordsStay(items: seq<Item>, key: string, asCoded: bool)
    requires forall i :: 0 <= i < |items| ==> items[i].Words?
    ensures WithoutElements(items, key, asCoded) == items
  {
    if items != [] {
      WordsStay(items[1..], key, asCoded);
      assert [items[0]] + items[1..] == items;
    }
  }

  /** An element that ends with the placeholder and holds other text. */
  lemma LongBodyText(e: Element, key: string)
    requires WellFormedElement(e) && Removable(e, key, true) && !WholeBody(e, key)
    ensures TextOf(WithoutElementsIn(Child(e), key, false), key) > 0
    ensures |e.items| > 1
  {
    hide TextOf, MentionsKey;
    OnlyWords(e, key);
    WordsStay(e.items, key, false);
    StandingText(e, key, false);
    assert |e.items| == 1 ==> e.items == [Words(Hole(key))];
    FirstText(e, key);
    WordsText(e.items, key, 0);
  }

  lemma FirstText(e: Element, key: string)
    requires e.items != [] && |e.items| > 1 && RunStart(e) == 0 && Lacks(Run(e), key) && Front(e)[0].Words?
    ensures e.items[0] != Words(Hole(key))
  {
    var run := Front(e)[0..];
    assert ItemsPieces(run) == ItemPieces(run[0]) + ItemsPieces(run[1..]);
    assert ItemPieces(run[0]) == [run[0].piece];
    assert Run(e)[0] == run[0].piece;
  }

  lemma OnlyHole(e: Element, key: string)
    requires WellFormedElement(e) && WholeBody(e, key) && !Removable(e, key, true)
    ensures TextOf(WithoutElementsIn(Child(e), key, true), key) == 0
    ensures !Faulty(e.items, key, TakesText)
  {
    hide TextOf, Removes;
    WordsStay(e.items, key, true);
    WordsFaultless(e.items, key, TakesText);
    StandingText(e, key, true);
    assert WellFormedItem(e.items[0]);
    PieceText(Hole(key), key);
  }

  // An element is left.

  /** The number of tags in the text of a template. */
  function Tags(s: string): nat {
    if s == "" then 0 else (if s[0] == '<' then 1 else 0) + Tags(s[1..])
  }

  lemma {:induction false} TagsConcat(a: string, b: string)
    ensures Tags(a + b) == Tags(a) + Tags(b)
  {
    if a == "" {
      assert a + b == b;
    } else {
      TagsConcat(a[1..], b);
      assert (a + b)[0] == a[0] && (a + b)[1..] == a[1..] + b;
    }
  }

  lemma {:induction false} NoTags(s: string)
    requires '<' !in s
    ensures Tags(s) == 0
  {
    if s != "" {
      NoTags(s[1..]);
    }
  }

  function Opens(items: seq<Item>, key: string): nat { Tags(Print(Blank(items, key))) }

  lemma PrintBlankConcat(a: seq<Item>, b: seq<Item>, key: string)
    ensures Print(Blank(a + b, key)) == Print(Blank(a, key)) + Print(Blank(b, key))
  {
    FilledItemsConcat(a, b, key, "");
    ItemsPiecesConcat(Blank(a, key), Blank(b, key));
    FlatMapConcat(Glyphs, ItemsPieces(Blank(a, key)), ItemsPieces(Blank(b, key)));
  }

  lemma OpensConcat(a: seq<Item>, b: seq<Item>, key: string)
    ensures Opens(a + b, key) == Opens(a, key) + Opens(b, key)
  {
    hide Blank, Print;
    PrintBlankConcat(a, b, key);
    TagsConcat(Print(Blank(a, key)), Print(Blank(b, key)));
  }

  lemma PrintBlankChild(e: Element, key: string)
    ensures Print(Blank([Child(e)], key)) == Spell(OpenPieces(Blanked(e, key))) + BodyText(Blanked(e, key))
  {
    hide FlatMap, OpenPieces, BodyText;
    BlankChild(e, key);
    OneItem(Child(Blanked(e, key)));
    ElementSpelled(Blanked(e, key));
  }

  lemma OpenTags(e: Element, key: string)
    requires WellFormedElement(e)
    ensures Tags(Spell(OpenPieces(Blanked(e, key)))) == 1
  {
    hide FlatMap, WellFormedItems, FilledItems;
    var b := Blanked(e, key);
    FilledAttributesWellFormed(e.attributes, key, "");
    AttributesOpen(b.attributes, b.tail);
    NameBytes(e.name);
    OpenSpelled(b);
    var rest := e.name + (Spell(AttributesPieces(b.attributes)) + b.tail);
    NoTags(rest);
    var text := "<" + rest;
    assert Spell(OpenPieces(b)) == text;
    assert text[0] == '<' && text[1..] == rest;
  }

  lemma OpensChild(e: Element, key: string)
    requires WellFormedElement(e)
    ensures Opens([Child(e)], key) == if e.closed then 1 else 2 + Opens(e.items, key)
  {
    hide FlatMap, OpenPieces, FilledAttributes, FilledItems;
    var b := Blanked(e, key);
    PrintBlankChild(e, key);
    OpenTags(e, key);
    TagsConcat(Spell(OpenPieces(b)), BodyText(b));
    if e.closed {
      NoTags("/>");
    } else {
      NameBytes(e.name);
      NoTags(">");
      TagsConcat(">" + Print(b.items), CloseTag(b));
      TagsConcat(">", Print(b.items));
      var close := CloseTag(b);
      NoTags(close[1..]);
    }
  }

  lemma NothingOpens(key: string)
    ensures Opens([], key) == 0
  {
  }

  /** The code keeps what the documentation deletes, and nothing else differs. */
  lemma {:induction false} KeepsMore(items: seq<Item>, key: string)
    requires WellFormedItems(items) && !Faulty(items, key, TakesText)
    ensures Faulty(items, key, Stays) ==>
              Opens(WithoutElements(items, key, false), key) < Opens(WithoutElements(items, key, true), key)
    ensures !Faulty(items, key, Stays) ==>
              Blank(WithoutElements(items, key, false), key) == Blank(WithoutElements(items, key, true), key)
    decreases items, 0
  {
    if items != [] {
      hide WithoutElementsIn, FaultyItem, Print, FilledIn, WellFormedItem;
      assert WellFormedItem(items[0]);
      KeepsMoreIn(items[0], key);
      KeepsMore(items[1..], key);
      var a, b := WithoutElementsIn(items[0], key, false), WithoutElements(items[1..], key, false);
      var c, d := WithoutElementsIn(items[0], key, true), WithoutElements(items[1..], key, true);
      OpensConcat(a, b, key);
      OpensConcat(c, d, key);
      FilledItemsConcat(a, b, key, "");
      FilledItemsConcat(c, d, key, "");
    }
  }

  lemma KeepsMoreIn(item: Item, key: string)
    requires WellFormedItem(item) && !FaultyItem(item, key, TakesText)
    ensures FaultyItem(item, key, Stays) ==>
              Opens(WithoutElementsIn(item, key, false), key) < Opens(WithoutElementsIn(item, key, true), key)
    ensures !FaultyItem(item, key, Stays) ==>
              Blank(WithoutElementsIn(item, key, false), key) == Blank(WithoutElementsIn(item, key, true), key)
    decreases item, 1
  {
    hide Opens, FilledItems, MentionsKey, RunStart, Lacks, TagEnd, Run, WithoutElements;
    match item
    case Words(_) =>
    case Child(e) =>
      if WholeBody(e, key) {
        WordsFaultless(e.items, key, Stays);
        WholeBodyRemovable(e, key);
        if MentionsKey(e.attributes, key) {
          var kept := e.(items := WithoutElements(e.items, key, true));
          assert WithoutElementsIn(item, key, true) == [Child(kept)];
          assert WithoutElementsIn(item, key, false) == [];
          WithoutElementsWellFormed(e.items, key, true);
          OpensChild(kept, key);
          NothingOpens(key);
        }
      } else {
        assert EndsWith(e, key) && |e.items| == 1 ==> e.items == [Words(Hole(key))];
        StandsIn(e, key);
      }
  }

  lemma WholeBodyRemovable(e: Element, key: string)
    requires WholeBody(e, key)
    ensures Removable(e, key, true) <==> !MentionsKey(e.attributes, key)
  {
    hide MentionsKey;
    assert Front(e) == [];
    assert Front(e)[0..] == [];
    NoPieces();
  }

  lemma StandsIn(e: Element, key: string)
    requires WellFormedElement(e) && !WholeBody(e, key) && !Removable(e, key, true) && !Faulty(e.items, key, TakesText)
    ensures Faulty(e.items, key, Stays) ==>
              Opens(WithoutElementsIn(Child(e), key, false), key) < Opens(WithoutElementsIn(Child(e), key, true), key)
    ensures !Faulty(e.items, key, Stays) ==>
              Blank(WithoutElementsIn(Child(e), key, false), key) == Blank(WithoutElementsIn(Child(e), key, true), key)
    decreases e, 0
  {
    hide Opens, Blank, FilledAttributes, MentionsKey, CloseTag, WellFormedItems, Removes, WithoutElements;
    if e.closed {
      NoneWithout(key);
      WordsFaultless(e.items, key, Stays);
    } else {
      KeepsMore(e.items, key);
      var fewer := e.(items := WithoutElements(e.items, key, false));
      var more := e.(items := WithoutElements(e.items, key, true));
      assert WithoutElementsIn(Child(e), key, false) == [Child(fewer)];
      assert WithoutElementsIn(Child(e), key, true) == [Child(more)];
      WithoutElementsWellFormed(e.items, key, false);
      WithoutElementsWellFormed(e.items, key, true);
      OpensChild(fewer, key);
      OpensChild(more, key);
      BlankChild(fewer, key);
      BlankChild(more, key);
    }
  }
}
