/** Where the deletion of attributes parts from its documentation, which deletes the attributes whose complete
    value the placeholder is and no more: the search also deletes what reads like such an attribute in text
    and in the values of others. */
module TemplateLosses {
  import opened Text
  import opened Template
  import opened TemplateText
  import opened TemplateTree
  import opened TemplateFit
  import opened TemplateItems
  import opened TemplateTrim
  import opened TemplateRender
  import opened TemplateTally
  import opened TemplateFaults

  // Where something is lost.

  predicate TextCutIn(item: Item, key: string) {
    match item case Words(_) => false case Child(e) => TextCut([], e.items, key)
  }

  /** Some text, from the run in front of the items on, reads like an attribute around the placeholder. */
  predicate TextCut(run: seq<Piece>, items: seq<Item>, key: string)
    decreases items
  {
    if items == [] then Cuts("", run, key)
    else
      match items[0]
      case Words(piece) => TextCut(run + [piece], items[1..], key)
      case Child(_) => Cuts("", run, key) || TextCutIn(items[0], key) || TextCut([], items[1..], key)
  }

  predicate ValueCutIn(item: Item, key: string) {
    match item
    case Words(_) => false
    case Child(e) => (!WholeBody(e, key) && !UncutAttributes(e.attributes, key)) || ValueCut(e.items, key)
  }

  /** Some attribute value reads like another attribute around the placeholder, in an element that is not
      deleted as a whole. */
  predicate ValueCut(items: seq<Item>, key: string) {
    items != [] && (ValueCutIn(items[0], key) || ValueCut(items[1..], key))
  }

  // Comparing what is left.

  function Blanks(items: seq<Item>, key: string): string { Print(Blank(items, key)) }

  /** What the code leaves and what the documentation leaves: the code keeps no more text, and less if text is
      lost; if none is, then as many tags and no more characters, and fewer if any are lost. */
  ghost predicate Compared(code: seq<Item>, documented: seq<Item>, key: string, text: bool, value: bool) {
    && TextOf(code, key) <= TextOf(documented, key) && (text ==> TextOf(code, key) < TextOf(documented, key))
    && (!text ==>
          && Opens(code, key) == Opens(documented, key)
          && |Blanks(code, key)| <= |Blanks(documented, key)|
          && (value ==> |Blanks(code, key)| < |Blanks(documented, key)|)
          && (!value ==> Blanks(code, key) == Blanks(documented, key)))
  }

  lemma ComparedBoth(a: seq<Item>, b: seq<Item>, c: seq<Item>, d: seq<Item>, key: string,
                     text1: bool, value1: bool, text2: bool, value2: bool)
    requires WellFormedItems(a) && WellFormedItems(b)
    requires Compared(a, b, key, text1, value1) && Compared(c, d, key, text2, value2)
    ensures Compared(a + c, b + d, key, text1 || text2, value1 || value2)
  {
    hide TextOf, Opens, Blank, Print, WellFormedItems;
    TextConcat(a, c, key);
    TextConcat(b, d, key);
    OpensConcat(a, c, key);
    OpensConcat(b, d, key);
    PrintBlankConcat(a, c, key);
    PrintBlankConcat(b, d, key);
  }

  lemma Same(items: seq<Item>, key: string)
    ensures Compared(items, items, key, false, false)
  {
  }

  // Runs of text.

  function Unkeyed(ps: seq<Piece>, key: string): string { Spell(Filled(ps, key, "")) }

  lemma UnkeyedConcat(ps: seq<Piece>, qs: seq<Piece>, key: string)
    ensures Unkeyed(ps + qs, key) == Unkeyed(ps, key) + Unkeyed(qs, key)
  {
    hide Spell;
    FilledConcat(ps, qs, key, "");
    SpellConcat(Filled(ps, key, ""), Filled(qs, key, ""));
  }

  lemma UnkeyedOne(p: Piece, key: string)
    ensures Unkeyed([p], key) == if p == Hole(key) then "" else Glyphs(p)
  {
    OneFilled(p, key, "");
    SpellOne(p);
    NoSpell();
  }

  lemma UnkeyedLiteral(held: string, key: string)
    ensures Unkeyed(Literal(held), key) == held
  {
    if held != "" {
      UnkeyedOne(Lit(held), key);
    }
  }

  lemma UnkeyedCons(ps: seq<Piece>, key: string)
    requires ps != []
    ensures Unkeyed(ps, key) == Unkeyed([ps[0]], key) + Unkeyed(ps[1..], key)
  {
    hide Unkeyed;
    UnkeyedConcat([ps[0]], ps[1..], key);
    assert [ps[0]] + ps[1..] == ps;
  }

  /** Trimming shortens a text, and changes nothing where nothing is cut. */
  lemma {:induction false} TrimmedText(held: string, ps: seq<Piece>, key: string)
    ensures Cuts(held, ps, key) ==> |Unkeyed(Trimmed(held, ps, key), key)| < |held + Unkeyed(ps, key)|
    ensures !Cuts(held, ps, key) ==> Unkeyed(Trimmed(held, ps, key), key) == held + Unkeyed(ps, key)
    ensures |Unkeyed(Trimmed(held, ps, key), key)| <= |held + Unkeyed(ps, key)|
    decreases |ps|
  {
    hide Unkeyed, Assigned, Literal, Mimics, Glyphs;
    if ps == [] {
      UnkeyedLiteral(held, key);
      NothingUnkeyed(key);
    } else {
      UnkeyedCons(ps, key);
      UnkeyedOne(ps[0], key);
      if ps[0].Lit? {
        LitGlyphs(ps[0]);
        TrimmedText(held + ps[0].text, ps[1..], key);
        Regroup(held, ps[0].text, Unkeyed(ps[1..], key));
      } else if ps[0].key == key && Mimics(held, ps[1..]) {
        CutShortens(held, ps, key);
      } else {
        TrimmedText("", ps[1..], key);
        UnkeyedLiteral(held, key);
        var rest := Trimmed("", ps[1..], key);
        UnkeyedConcat(Literal(held), [ps[0]] + rest, key);
        UnkeyedConcat([ps[0]], rest, key);
      }
    }
  }

  lemma NothingUnkeyed(key: string)
    ensures Unkeyed([], key) == ""
  {
  }

  lemma CutShortens(held: string, ps: seq<Piece>, key: string)
    requires ps != [] && ps[0] == Hole(key) && Mimics(held, ps[1..])
    ensures |Unkeyed(Trimmed(held, ps, key), key)| < |held + Unkeyed(ps, key)|
    decreases |ps|, 0
  {
    hide Unkeyed, Literal, Glyphs, Assigned;
    var n := Assigned(held).value;
    var rest := ps[1].text[1..];
    CutText(held, ps, key);
    TrimmedText(rest, ps[2..], key);
    UnkeyedLiteral(held[..n], key);
    UnkeyedConcat(Literal(held[..n]), Trimmed(rest, ps[2..], key), key);
    UnkeyedCons(ps, key);
    UnkeyedCons(ps[1..], key);
    assert ps[1..][1..] == ps[2..];
    UnkeyedOne(ps[1], key);
    LitGlyphs(ps[1]);
  }

  lemma BlankRun(ps: seq<Piece>, key: string)
    requires PlainPieces(ps)
    ensures Blanks(WordsOf(ps), key) == Unkeyed(ps, key)
    ensures TextOf(WordsOf(ps), key) == |Unkeyed(ps, key)| && Opens(WordsOf(ps), key) == 0
  {
    hide Spell, Filled, FilledItems;
    WordsOfPieces(ps);
    ItemsFilled(WordsOf(ps), key, "");
    UnkeyedPlain(ps, key);
    NoTags(Unkeyed(ps, key));
    ScanText(Unkeyed(ps, key));
  }

  lemma {:induction false} UnkeyedPlain(ps: seq<Piece>, key: string)
    requires PlainPieces(ps)
    ensures '<' !in Unkeyed(ps, key)
  {
    if ps == [] {
      NothingUnkeyed(key);
    } else {
      hide Unkeyed, Glyphs;
      UnkeyedCons(ps, key);
      UnkeyedOne(ps[0], key);
      assert PlainPiece(ps[0]);
      GlyphEnds(ps[0]);
      UnkeyedPlain(ps[1..], key);
    }
  }

  lemma TrimmedPlainPieces(run: seq<Piece>, key: string)
    requires PlainPieces(run)
    ensures PlainPieces(Trimmed("", run, key))
  {
    assert Delimited(run, '<') by {
      forall i | 0 <= i < |run| && run[i].Lit? ensures '<' !in run[i].text {
        assert PlainPiece(run[i]);
      }
    }
    TrimmedPlain("", run, key, '<');
  }

  lemma RunCompared(run: seq<Piece>, key: string)
    requires PlainPieces(run)
    ensures Compared(WordsOf(Trimmed("", run, key)), WordsOf(run), key, Cuts("", run, key), false)
  {
    hide PlainPieces, TextOf, Opens, Blank, Unkeyed, Trimmed, Cuts, WordsOf;
    TrimmedPlainPieces(run, key);
    BlankRun(run, key);
    BlankRun(Trimmed("", run, key), key);
    TrimmedText("", run, key);
    assert "" + Unkeyed(run, key) == Unkeyed(run, key);
  }

  // Start tags.

  function BlankAttributes(attributes: seq<Attribute>, key: string): string {
    Spell(AttributesPieces(FilledAttributes(attributes, key, "")))
  }

  lemma BlankAttributesCons(a: Attribute, rest: seq<Attribute>, key: string)
    ensures BlankAttributes([a] + rest, key)
         == Head(a) + Unkeyed(a.value, key) + [a.quote] + BlankAttributes(rest, key)
  {
    hide Spell, AttributePieces;
    assert ([a] + rest)[1..] == rest;
    var filled := a.(value := Filled(a.value, key, ""));
    assert FilledAttributes([a] + rest, key, "") == [filled] + FilledAttributes(rest, key, "");
    var all := [filled] + FilledAttributes(rest, key, "");
    assert all[0] == filled && all[1..] == FilledAttributes(rest, key, "");
    SpellConcat(AttributePieces(filled), AttributesPieces(all[1..]));
    AttributeSpelled(filled);
    assert Head(filled) == Head(a);
  }

  lemma {:induction false} AttributesCompared(attributes: seq<Attribute>, key: string)
    ensures var code, kept := BlankAttributes(TrimmedAttributes(attributes, key), key),
                              BlankAttributes(DropAttributes(attributes, key), key);
            && |code| <= |kept| && (!UncutAttributes(attributes, key) ==> |code| < |kept|)
            && (UncutAttributes(attributes, key) ==> code == kept)
  {
    if attributes != [] {
      hide BlankAttributes, Unkeyed, Head, Trimmed, Cuts;
      var a, rest := attributes[0], attributes[1..];
      AttributesCompared(rest, key);
      if a.value == [Hole(key)] {
        WholeIsNotCut(key);
        assert [] + TrimmedAttributes(rest, key) == TrimmedAttributes(rest, key);
        assert [] + DropAttributes(rest, key) == DropAttributes(rest, key);
      } else {
        TrimmedText("", a.value, key);
        assert "" + Unkeyed(a.value, key) == Unkeyed(a.value, key);
        SameHead(a, key);
        BlankAttributesCons(TrimmedAttribute(a, key), TrimmedAttributes(rest, key), key);
        BlankAttributesCons(a, DropAttributes(rest, key), key);
      }
    }
  }

  lemma WholeIsNotCut(key: string)
    ensures !Cuts("", [Hole(key)], key) && Trimmed("", [Hole(key)], key) == [Hole(key)]
  {
    assert [Hole(key)][1..] == [] && Trimmed("", [], key) == [];
  }

  // Elements.

  lemma {:induction false} WithoutElementsConcat(a: seq<Item>, b: seq<Item>, key: string, asCoded: bool)
    ensures WithoutElements(a + b, key, asCoded)
         == WithoutElements(a, key, asCoded) + WithoutElements(b, key, asCoded)
  {
    if a == [] {
      assert a + b == b;
    } else {
      hide WithoutElementsIn;
      WithoutElementsConcat(a[1..], b, key, asCoded);
      assert (a + b)[0] == a[0] && (a + b)[1..] == a[1..] + b;
      Regroup(WithoutElementsIn(a[0], key, asCoded), WithoutElements(a[1..], key, asCoded),
              WithoutElements(b, key, asCoded));
    }
  }

  lemma {:induction false} WordsAreWords(ps: seq<Piece>)
    ensures |WordsOf(ps)| == |ps| && forall i :: 0 <= i < |ps| ==> WordsOf(ps)[i] == Words(ps[i])
  {
    if ps != [] {
      WordsAreWords(ps[1..]);
    }
  }

  lemma RunStays(ps: seq<Piece>, key: string)
    ensures WithoutElements(WordsOf(ps), key, false) == WordsOf(ps)
  {
    WordsAreWords(ps);
    WordsStay(WordsOf(ps), key, false);
  }

  /** What the documentation leaves of an item. */
  function DocumentedIn(item: Item, key: string): seq<Item> {
    WithoutElementsIn(WithoutAttributesIn(item, key), key, false)
  }

  function DocumentedItems(items: seq<Item>, key: string): seq<Item> {
    WithoutElements(WithoutAttributes(items, key), key, false)
  }

  lemma DocumentedCons(items: seq<Item>, key: string)
    requires items != []
    ensures DocumentedItems(items, key) == DocumentedIn(items[0], key) + DocumentedItems(items[1..], key)
  {
    hide WithoutAttributesIn, WithoutElementsIn;
    var left := WithoutAttributes(items, key);
    assert left[0] == WithoutAttributesIn(items[0], key) && left[1..] == WithoutAttributes(items[1..], key);
  }

  /** What the code leaves when it deletes no other elements than its documentation. */
  function CodedIn(item: Item, key: string): seq<Item>
    requires item.Child?
  {
    WithoutElementsIn(TrimmedIn(item, key), key, false)
  }

  function CodedItems(run: seq<Piece>, items: seq<Item>, key: string): seq<Item> {
    WithoutElements(TrimmedItems(run, items, key), key, false)
  }

  lemma CodedChild(run: seq<Piece>, items: seq<Item>, key: string)
    requires items != [] && items[0].Child?
    ensures CodedItems(run, items, key)
         == WordsOf(Trimmed("", run, key)) + (CodedIn(items[0], key) + CodedItems([], items[1..], key))
  {
    hide WithoutElementsIn, TrimmedIn, Trimmed, WordsOf;
    var lead, own, rest := WordsOf(Trimmed("", run, key)), [TrimmedIn(items[0], key)],
                           TrimmedItems([], items[1..], key);
    assert TrimmedItems(run, items, key) == lead + (own + rest) by { TrimmedItemsCons(run, items, key); }
    WithoutElementsConcat(lead, own + rest, key, false);
    WithoutElementsConcat(own, rest, key, false);
    RunStays(Trimmed("", run, key), key);
    assert own[1..] == [];
    assert WithoutElements(own, key, false) == CodedIn(items[0], key) + WithoutElements([], key, false);
  }

  lemma TrimmedItemsCons(run: seq<Piece>, items: seq<Item>, key: string)
    requires items != [] && items[0].Child?
    ensures TrimmedItems(run, items, key)
         == WordsOf(Trimmed("", run, key)) + ([TrimmedIn(items[0], key)] + TrimmedItems([], items[1..], key))
  {
  }

  lemma SnocRun(run: seq<Piece>, piece: Piece, items: seq<Item>, key: string)
    ensures WordsOf(run + [piece]) + DocumentedItems(items, key)
         == WordsOf(run) + DocumentedItems([Words(piece)] + items, key)
  {
    hide WithoutElements, WithoutAttributes;
    WordsAreWords(run + [piece]);
    WordsAreWords(run);
    assert WordsOf(run + [piece]) == WordsOf(run) + [Words(piece)];
    DocumentedCons([Words(piece)] + items, key);
    assert ([Words(piece)] + items)[1..] == items;
    Regroup(WordsOf(run), [Words(piece)], DocumentedItems(items, key));
  }

  lemma {:induction false} ItemsCompared(run: seq<Piece>, items: seq<Item>, key: string)
    requires WellFormedItems(items) && PlainPieces(run)
    ensures Compared(CodedItems(run, items, key), WordsOf(run) + DocumentedItems(items, key), key,
                     TextCut(run, items, key), ValueCut(items, key))
    decreases items, 0
  {
    hide Compared, WellFormedItem, Trimmed, Cuts, CodedIn, DocumentedIn, TextCutIn, ValueCutIn, WordsOf,
      CodedItems, DocumentedItems;
    if items == [] {
      RunCompared(run, key);
      NothingLeft(run, key);
    } else {
      assert WellFormedItem(items[0]);
      assert items == [items[0]] + items[1..];
      match items[0]
      case Words(piece) =>
        PlainSnoc(run, piece);
        ItemsCompared(run + [piece], items[1..], key);
        SnocRun(run, piece, items[1..], key);
        SnocCoded(run, items, key);
        assert !ValueCutIn(items[0], key) by { NoValueCut(piece, key); }
      case Child(_) =>
        ItemCompared(items[0], key);
        ItemsCompared([], items[1..], key);
        ChildCompared(run, items, key);
    }
  }

  lemma NoValueCut(piece: Piece, key: string)
    ensures !ValueCutIn(Words(piece), key)
  {
  }

  lemma SnocCoded(run: seq<Piece>, items: seq<Item>, key: string)
    requires items != [] && items[0].Words?
    ensures CodedItems(run, items, key) == CodedItems(run + [items[0].piece], items[1..], key)
  {
    hide WithoutElements;
  }

  lemma NothingLeft(run: seq<Piece>, key: string)
    ensures CodedItems(run, [], key) == WordsOf(Trimmed("", run, key))
    ensures WordsOf(run) + DocumentedItems([], key) == WordsOf(run)
  {
    RunStays(Trimmed("", run, key), key);
  }

  lemma ChildCompared(run: seq<Piece>, items: seq<Item>, key: string)
    requires WellFormedItems(items) && PlainPieces(run) && items != [] && items[0].Child?
    requires Compared(CodedIn(items[0], key), DocumentedIn(items[0], key), key, TextCutIn(items[0], key),
                      ValueCutIn(items[0], key))
    requires Compared(CodedItems([], items[1..], key), WordsOf([]) + DocumentedItems(items[1..], key), key,
                      TextCut([], items[1..], key), ValueCut(items[1..], key))
    ensures Compared(CodedItems(run, items, key), WordsOf(run) + DocumentedItems(items, key), key,
                     TextCut(run, items, key), ValueCut(items, key))
  {
    hide Compared, WellFormedItem, Trimmed, Cuts, CodedIn, DocumentedIn, TextCutIn, ValueCutIn, CodedItems,
      DocumentedItems;
    var rest := DocumentedItems(items[1..], key);
    assert WordsOf([]) + rest == rest;
    assert WellFormedItem(items[0]);
    InWellFormed(items[0], key);
    ComparedBoth(CodedIn(items[0], key), DocumentedIn(items[0], key), CodedItems([], items[1..], key), rest, key,
                 TextCutIn(items[0], key), ValueCutIn(items[0], key), TextCut([], items[1..], key),
                 ValueCut(items[1..], key));
    RunCompared(run, key);
    RunWellFormed(run, key);
    WordsOfWellFormed(run);
    var code, documented := CodedIn(items[0], key) + CodedItems([], items[1..], key),
                            DocumentedIn(items[0], key) + rest;
    ComparedBoth(WordsOf(Trimmed("", run, key)), WordsOf(run), code, documented, key, Cuts("", run, key), false,
                 TextCutIn(items[0], key) || TextCut([], items[1..], key),
                 ValueCutIn(items[0], key) || ValueCut(items[1..], key));
    CodedChild(run, items, key);
    DocumentedCons(items, key);
  }

  lemma InWellFormed(item: Item, key: string)
    requires WellFormedItem(item) && item.Child?
    ensures WellFormedItems(CodedIn(item, key)) && WellFormedItems(DocumentedIn(item, key))
  {
    hide WellFormedItem, TrimmedIn, WithoutAttributesIn, WithoutElementsIn;
    TrimmedItemWellFormed(item, key);
    WithoutElementsItemWellFormed(TrimmedIn(item, key), key, false);
    WithoutAttributesItemWellFormed(item, key);
    WithoutElementsItemWellFormed(WithoutAttributesIn(item, key), key, false);
  }

  lemma ItemCompared(item: Item, key: string)
    requires WellFormedItem(item) && item.Child?
    ensures Compared(CodedIn(item, key), DocumentedIn(item, key), key, TextCutIn(item, key), ValueCutIn(item, key))
    decreases item, 1
  {
    hide Compared, Trimmed, Cuts, WordsOf, TextCut, ValueCut, UncutAttributes, WholeBody, WithoutElements,
      TrimmedAttributes, DropAttributes, WithoutAttributes, WellFormedItems;
    var e := item.element;
    ItemsCompared([], e.items, key);
    NoWords(DocumentedItems(e.items, key));
    var t, d := TrimmedElement(e, key), Stripped(e, key);
    if WholeBody(e, key) {
      WholeBodyBoth(e, key);
      Same([], key);
    } else {
      assert !WholeBody(d, key) by { StrippedBody(e, key); }
      if WholeBody(t, key) {
        BodyBecomesWhole(e, key);
        VanishedCompared(e, key);
      } else {
        StandingCompared(e, key);
      }
    }
  }

  lemma NoWords(items: seq<Item>)
    ensures WordsOf([]) + items == items
  {
  }

  /** The element without the attributes that the placeholder is the whole value of. */
  function Stripped(e: Element, key: string): Element {
    e.(attributes := DropAttributes(e.attributes, key), items := WithoutAttributes(e.items, key))
  }

  lemma StrippedBody(e: Element, key: string)
    ensures WholeBody(Stripped(e, key), key) <==> WholeBody(e, key)
  {
    hide WithoutAttributesIn;
    StrippedItems(e.items, key);
    if e.items != [] {
      var left := WithoutAttributes(e.items, key);
      assert left[0] == WithoutAttributesIn(e.items[0], key);
      WordsKeep(e.items[0], key);
    }
  }

  lemma WordsKeep(item: Item, key: string)
    ensures WithoutAttributesIn(item, key).Words? <==> item.Words?
    ensures item.Words? ==> WithoutAttributesIn(item, key) == item
  {
  }

  lemma {:induction false} StrippedItems(items: seq<Item>, key: string)
    ensures |WithoutAttributes(items, key)| == |items|
  {
    if items != [] {
      StrippedItems(items[1..], key);
    }
  }

  lemma WholeBodyBoth(e: Element, key: string)
    requires WholeBody(e, key)
    ensures CodedIn(Child(e), key) == [] && DocumentedIn(Child(e), key) == []
    ensures !TextCutIn(Child(e), key) && !ValueCutIn(Child(e), key)
  {
    hide TrimmedAttributes, DropAttributes;
    var one := [Words(Hole(key))];
    assert e.items == one && one[0] == Words(Hole(key)) && one[1..] == [];
    WholeIsNotCut(key);
    assert [] + [Hole(key)] == [Hole(key)];
    assert WordsOf([Hole(key)]) == one by { WordsAreWords([Hole(key)]); }
    assert TrimmedItems([], one, key) == TrimmedItems([Hole(key)], [], key);
    assert TextCut([], one, key) == TextCut([Hole(key)], [], key) == Cuts("", [Hole(key)], key);
    assert !ValueCutIn(one[0], key) && !ValueCut(one[1..], key) && !ValueCut(one, key);
    assert WholeBody(TrimmedElement(e, key), key);
    StrippedBody(e, key);
  }

  /** Trimming a text to the placeholder alone cuts something, if there is more. */
  lemma {:induction false} TrimmedToHole(held: string, ps: seq<Piece>, key: string)
    requires PlainPieces(ps) && !Cuts(held, ps, key) && Trimmed(held, ps, key) == [Hole(key)]
    ensures held == "" && ps == [Hole(key)]
    decreases |ps|
  {
    hide Assigned, Mimics;
    assert ps != [];
    assert PlainPiece(ps[0]);
    if ps[0].Lit? {
      TrimmedToHole(held + ps[0].text, ps[1..], key);
    } else {
      var tail := Trimmed("", ps[1..], key);
      assert Literal(held) + ([ps[0]] + tail) == [Hole(key)];
      assert held == "" && tail == [];
      TrimmedToNothing("", ps[1..], key);
    }
  }

  lemma {:induction false} TrimmedToNothing(held: string, ps: seq<Piece>, key: string)
    requires PlainPieces(ps) && !Cuts(held, ps, key) && Trimmed(held, ps, key) == []
    ensures held == "" && ps == []
    decreases |ps|
  {
    hide Assigned, Mimics;
    if ps != [] {
      assert PlainPiece(ps[0]);
      if ps[0].Lit? {
        TrimmedToNothing(held + ps[0].text, ps[1..], key);
      }
    }
  }

  lemma {:induction false} TrimmedToWhole(run: seq<Piece>, items: seq<Item>, key: string)
    requires WellFormedItems(items) && PlainPieces(run) && !TextCut(run, items, key)
    requires TrimmedItems(run, items, key) == [Words(Hole(key))]
    ensures WordsOf(run) + items == [Words(Hole(key))]
    decreases |items|
  {
    hide WellFormedItem, Trimmed, Cuts, TrimmedIn;
    if items == [] {
      WordsAreWords(Trimmed("", run, key));
      assert Trimmed("", run, key) == [WordsOf(Trimmed("", run, key))[0].piece];
      TrimmedToHole("", run, key);
      WordsAreWords(run);
    } else {
      assert WellFormedItem(items[0]);
      match items[0]
      case Words(piece) =>
        PlainSnoc(run, piece);
        TrimmedToWhole(run + [piece], items[1..], key);
        WordsAreWords(run + [piece]);
        WordsAreWords(run);
        assert items == [items[0]] + items[1..];
        assert WordsOf(run + [piece]) == WordsOf(run) + [Words(piece)];
        Regroup(WordsOf(run), [Words(piece)], items[1..]);
      case Child(_) => ChildNotWhole(run, items, key);
    }
  }

  lemma ChildNotWhole(run: seq<Piece>, items: seq<Item>, key: string)
    requires items != [] && items[0].Child?
    ensures TrimmedItems(run, items, key) != [Words(Hole(key))]
  {
    var lead := WordsOf(Trimmed("", run, key));
    TrimmedItemsCons(run, items, key);
    assert TrimmedItems(run, items, key)[|lead|].Child?;
  }

  lemma BodyBecomesWhole(e: Element, key: string)
    requires WellFormedElement(e) && WholeBody(TrimmedElement(e, key), key) && !WholeBody(e, key)
    ensures TextCut([], e.items, key) && !e.closed
  {
    hide TextCut, TrimmedItems, WellFormedItems;
    NoWords(e.items);
    if !TextCut([], e.items, key) {
      TrimmedToWhole([], e.items, key);
    }
  }

  lemma VanishedCompared(e: Element, key: string)
    requires WellFormedElement(e) && TextCut([], e.items, key) && !e.closed && !WholeBody(e, key)
    requires WholeBody(TrimmedElement(e, key), key)
    requires Compared(CodedItems([], e.items, key), DocumentedItems(e.items, key), key, true, ValueCut(e.items, key))
    ensures Compared(CodedIn(Child(e), key), DocumentedIn(Child(e), key), key, true, ValueCutIn(Child(e), key))
  {
    hide TextOf, Opens, Blank, TrimmedItems, WithoutElements, WithoutAttributes, DropAttributes, WholeBody,
      TrimmedAttributes, UncutAttributes, ValueCut;
    DocumentedText(e, key);
    NoText(key);
    assert CodedIn(Child(e), key) == [];
  }

  lemma DocumentedText(e: Element, key: string)
    requires WellFormedElement(e) && !e.closed && !WholeBody(e, key)
    ensures TextOf(DocumentedIn(Child(e), key), key) == TextOf(DocumentedItems(e.items, key), key)
  {
    hide TextOf, WithoutElements, WithoutAttributes, DropAttributes, WholeBody;
    StrippedBody(e, key);
    WithoutAttributesItemWellFormed(Child(e), key);
    StandingText(Stripped(e, key), key, false);
  }

  lemma BlanksChild(e: Element, key: string)
    ensures Blanks([Child(e)], key)
         == "<" + e.name + (BlankAttributes(e.attributes, key) + e.tail)
          + (if e.closed then "/>" else ">" + Blanks(e.items, key) + CloseTag(e))
  {
    hide Spell, OpenPieces, AttributesPieces, FilledItems, FilledAttributes;
    var b := Blanked(e, key);
    PrintBlankChild(e, key);
    OpenSpelled(b);
    assert CloseTag(b) == CloseTag(e);
  }

  lemma StandingCompared(e: Element, key: string)
    requires WellFormedElement(e) && !WholeBody(e, key) && !WholeBody(TrimmedElement(e, key), key)
    requires Compared(CodedItems([], e.items, key), DocumentedItems(e.items, key), key, TextCut([], e.items, key),
                      ValueCut(e.items, key))
    ensures Compared(CodedIn(Child(e), key), DocumentedIn(Child(e), key), key, TextCutIn(Child(e), key),
                     ValueCutIn(Child(e), key))
  {
    hide TextOf, Opens, Blanks, TrimmedItems, WithoutElements, WithoutAttributes, DropAttributes, WholeBody,
      TrimmedAttributes, UncutAttributes, ValueCut, BlankAttributes, CloseTag, TextCut;
    StrippedBody(e, key);
    var t, d := TrimmedElement(e, key), Stripped(e, key);
    var code, kept := t.(items := CodedItems([], e.items, key)), d.(items := DocumentedItems(e.items, key));
    assert CodedIn(Child(e), key) == [Child(code)] && DocumentedIn(Child(e), key) == [Child(kept)];
    InWellFormed(Child(e), key);
    assert WellFormedItem([Child(code)][0]) && WellFormedItem([Child(kept)][0]);
    AttributesCompared(e.attributes, key);
    BlanksChild(code, key);
    BlanksChild(kept, key);
    OpensChild(code, key);
    OpensChild(kept, key);
    SameName(code, kept);
    if e.closed {
      ClosedText(code, key);
      ClosedText(kept, key);
      NothingLeft([], key);
      NothingCut(key);
    } else {
      TextChild(code, key);
      TextChild(kept, key);
    }
  }

  lemma SameName(a: Element, b: Element)
    requires a.name == b.name
    ensures CloseTag(a) == CloseTag(b)
  {
  }

  lemma NothingCut(key: string)
    ensures !TextCut([], [], key) && !ValueCut([], key)
  {
  }

  lemma ClosedText(e: Element, key: string)
    requires WellFormedElement(e) && e.closed
    ensures TextOf([Child(e)], key) == 0
  {
    hide Read, OpenPieces, FilledAttributes;
    BlankChild(e, key);
    var b := Blanked(e, key);
    OneItem(Child(b));
    FilledAttributesWellFormed(e.attributes, key, "");
    assert FilledItems([], key, "") == [];
    assert ElementPieces(b) == OpenPieces(b) + [Lit(TagClose(b))];
    ScanStartRead(b);
  }
}
