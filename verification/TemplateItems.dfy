/** The finder of elements sees a printed template as it is marked: what the tree operations delete is found,
    and no other placeholder has a range that can be removed. */
module TemplateItems {
  import opened Text
  import opened Template
  import opened TemplateText
  import opened TemplateTree
  import opened TemplateFit

  // Where items begin and end.

  lemma PrintTake(items: seq<Item>, i: nat)
    requires i < |items|
    ensures Print(items[..i + 1]) == Print(items[..i]) + Spell(ItemPieces(items[i]))
  {
    hide ItemPieces;
    assert items[..i + 1] == items[..i] + [items[i]];
    ItemsPiecesConcat(items[..i], [items[i]]);
    OneItem(items[i]);
    SpellConcat(ItemsPieces(items[..i]), ItemPieces(items[i]));
  }

  lemma PrintFrom(items: seq<Item>, i: nat)
    requires i < |items|
    ensures Print(items[i..]) == Spell(ItemPieces(items[i])) + Print(items[i + 1..])
  {
    hide ItemPieces;
    assert items[i..][0] == items[i] && items[i..][1..] == items[i + 1..];
    SpellConcat(ItemPieces(items[i]), ItemsPieces(items[i + 1..]));
  }

  lemma NoPrint()
    ensures Print([]) == ""
  {
  }

  /** An element's text begins with its name and ends with `>`. */
  lemma ElementEnds(e: Element)
    requires WellFormedElement(e)
    ensures var text := Spell(ElementPieces(e));
            |text| > 1 && text[0] == '<' && text[1] == e.name[0] && text[|text| - 1] == '>'
  {
    hide Spell, WellFormedItems;
    OpenSpelled(e);
    var open := Spell(OpenPieces(e));
    var inner := if e.closed then [] else [Lit(">")] + ItemsPieces(e.items);
    var end := if e.closed then Lit("/>") else Lit(CloseTag(e));
    assert ElementPieces(e) == OpenPieces(e) + (inner + [end]);
    SpellConcat(OpenPieces(e), inner + [end]);
    SpellConcat(inner, [end]);
    SpellOne(end);
    Regroup(open, Spell(inner), Glyphs(end));
    var text := open + Spell(inner) + Glyphs(end);
    assert text[|text| - 1] == Glyphs(end)[|Glyphs(end)| - 1];
    assert text[0] == open[0] && text[1] == open[1];
  }

  /** What an item's text begins and ends with. */
  lemma ItemEnds(item: Item)
    requires WellFormedItem(item)
    ensures var text := Spell(ItemPieces(item));
            && text != "" && !("</" <= text) && (text[0] == '<' ==> |text| > 1)
            && (item.Child? ==> text[0] == '<' && text[|text| - 1] == '>')
            && (item.Words? ==> text == Glyphs(item.piece))
  {
    hide Spell;
    match item
    case Words(piece) =>
      SpellOne(piece);
      GlyphEnds(piece);
    case Child(e) =>
      ElementEnds(e);
      NameBytes(e.name);
  }

  lemma NoEndTagAhead(items: seq<Item>, i: nat, after: string)
    requires WellFormedItems(items) && i < |items|
    ensures var back := Print(items[i..]) + after;
            var start := Spell(ItemPieces(items[i]));
            start != "" && back != "" && !("</" <= back) && back[0] == start[0]
  {
    hide Spell, ItemPieces, WellFormedItem, Print;
    PrintFrom(items, i);
    ItemEnds(items[i]);
    Regroup(Spell(ItemPieces(items[i])), Print(items[i + 1..]), after);
    StartKept(Spell(ItemPieces(items[i])), Print(items[i + 1..]) + after);
  }

  lemma StartKept(text: string, back: string)
    requires text != "" && !("</" <= text) && (text[0] == '<' ==> |text| > 1)
    ensures var both := text + back; both[0] == text[0] && !("</" <= both)
  {
    assert "</"[0] == '<' && "</"[1] == '/';
    var both := text + back;
    if text[0] == '<' {
      assert both[1] == text[1];
      assert "</" <= text <==> text[0] == '<' && text[1] == '/';
    }
  }

  // Placeholders inside a list of items.

  /** A placeholder that is not the last item. */
  lemma InnerHole(before: string, items: seq<Item>, i: nat, key: string, after: string)
    requires WellFormedItems(items) && i < |items| - 1 && items[i] == Words(Hole(key))
    ensures Unremovable(ElementKind, before, Needle(key), Print(items[i + 1..]) + after)
  {
    hide Unremovable, Spell, WellFormedItem, Print, ItemPieces;
    NoEndTagAhead(items, i + 1, after);
    NoEndTagQuiet(before, Needle(key), Print(items[i + 1..]) + after);
  }

  predicate EndsWithHole(items: seq<Item>, key: string) { items != [] && items[|items| - 1] == Words(Hole(key)) }

  /** The finder sees a list of items as it is marked, given what it sees of a placeholder at its end. */
  lemma {:induction false} ItemsFit(before: string, items: seq<Item>, i: nat, key: string, after: string)
    requires WellFormedItems(items) && i <= |items|
    requires EndsWithHole(items, key) ==>
               Unremovable(ElementKind, before + Print(items[..|items| - 1]), Needle(key), after)
    ensures AllFit(ElementKind, before + Print(items[..i]), ItemsParts(items[i..], key), key, after)
    decreases items, |items| - i
  {
    if i < |items| {
      hide AllFit, Unremovable, ItemParts, ItemPieces, Spell, WellFormedItem, Print;
      var item, rest := items[i], items[i + 1..];
      var front := before + Print(items[..i]);
      assert items[i..][0] == item && items[i..][1..] == rest;
      ItemsPartsPieces(rest, key);
      ItemPartsPieces(item, key);
      PrintImage(rest, key);
      ItemFits(before, items, i, key, after);
      PrintTake(items, i);
      Regroup(before, Print(items[..i]), Spell(ItemPieces(item)));
      ItemsFit(before, items, i + 1, key, after);
      FitConcat(ElementKind, front, ItemParts(item, key), ItemsParts(rest, key), key, after);
    }
  }

  lemma PrintImage(items: seq<Item>, key: string)
    ensures Image(ItemsParts(items, key), key) == Print(items)
  {
    ItemsPartsPieces(items, key);
  }

  lemma ItemFits(before: string, items: seq<Item>, i: nat, key: string, after: string)
    requires WellFormedItems(items) && i < |items|
    requires EndsWithHole(items, key) ==>
               Unremovable(ElementKind, before + Print(items[..|items| - 1]), Needle(key), after)
    ensures AllFit(ElementKind, before + Print(items[..i]), ItemParts(items[i], key), key,
                   Print(items[i + 1..]) + after)
    decreases items[i], 5
  {
    hide AllFit, Unremovable, Spell, Print;
    var front, back := before + Print(items[..i]), Print(items[i + 1..]) + after;
    var item := items[i];
    assert WellFormedItem(item);
    match item
    case Words(piece) =>
      if piece == Hole(key) {
        if i == |items| - 1 {
          assert back == after by { NoPrint(); assert items[i + 1..] == []; }
        } else {
          InnerHole(front, items, i, key, after);
        }
      }
      OnePartFits(ElementKind, front, One(piece), key, back);
    case Child(e) => ElementFits(front, e, key, back);
  }

  // The last tag in front of a placeholder at the end of an element.

  lemma {:induction false} WordsPlain(items: seq<Item>)
    requires WellFormedItems(items) && forall i :: 0 <= i < |items| ==> items[i].Words?
    ensures PlainPieces(ItemsPieces(items))
  {
    if items != [] {
      WordsPlain(items[1..]);
      assert WellFormedItem(items[0]);
    }
  }

  lemma RunPlain(e: Element)
    requires WellFormedElement(e) && e.items != []
    ensures PlainPieces(Run(e)) && WellFormedElement(Opener(e))
  {
    hide LastRun, ItemsPieces;
    var r := RunStart(e);
    var run := Front(e)[r..];
    assert forall i :: 0 <= i < |run| ==> run[i] == e.items[r + i];
    WordsPlain(run);
    if r > 0 {
      assert WellFormedItem(e.items[r - 1]);
    }
  }

  /** The text in front of the last tag. */
  function BeforeTag(before: string, e: Element): string
    requires e.items != []
  {
    if RunStart(e) == 0 then before else before + (Spell(OpenPieces(e)) + ">" + Print(e.items[..RunStart(e) - 1]))
  }

  function BeforeHole(before: string, e: Element): string
    requires e.items != []
  {
    before + Spell(OpenPieces(e)) + ">" + Print(Front(e))
  }

  lemma FrontPrinted(e: Element)
    requires e.items != []
    ensures RunStart(e) == 0 ==> Print(Front(e)) == Spell(Run(e))
    ensures RunStart(e) > 0 ==>
      Print(Front(e)) == Print(e.items[..RunStart(e) - 1]) + Spell(ElementPieces(Opener(e))) + Spell(Run(e))
  {
    hide FlatMap, ElementPieces;
    if RunStart(e) == 0 {
      assert Front(e)[0..] == Front(e);
    } else {
      AtLastChild(e);
      var lead, child := ItemsPieces(e.items[..RunStart(e) - 1]), ElementPieces(Opener(e));
      SpellConcat(lead + child, Run(e));
      SpellConcat(lead, child);
    }
  }

  lemma BeforeHoleIsLure(before: string, e: Element)
    requires WellFormedElement(e) && !e.closed && e.items != [] && (RunStart(e) > 0 ==> Opener(e).closed)
    ensures BeforeHole(before, e) == BeforeTag(before, e) + Spell(Lure(Opener(e), Run(e)))
  {
    hide Spell, Run, RunStart, OpenPieces, Print, Lure, WellFormedElement;
    var o, open, run := Opener(e), Spell(OpenPieces(e)), Spell(Run(e));
    FrontPrinted(e);
    LureSpelled(o, Run(e));
    if RunStart(e) == 0 {
      Regroup(before, open, ">");
      Regroup(before, open + ">", run);
    } else {
      var lead, child := Print(e.items[..RunStart(e) - 1]), Spell(OpenPieces(o)) + "/>";
      ClosedSpelled(o);
      Regroup(before, open, ">");
      Regroup(lead, child, run);
      Regroup(before, open + ">", lead + (child + run));
      Regroup(open + ">", lead, child + run);
      Regroup(before, open + ">" + lead, child + run);
    }
  }

  lemma ClosedSpelled(e: Element)
    ensures e.closed ==> Spell(ElementPieces(e)) == Spell(OpenPieces(e)) + "/>"
    ensures !e.closed ==>
      Spell(ElementPieces(e)) == Spell(OpenPieces(e) + ([Lit(">")] + ItemsPieces(e.items))) + "</" + (e.name + ">")
  {
    hide Spell, OpenPieces, ItemsPieces;
    if e.closed {
      SpellConcat(OpenPieces(e), [Lit("/>")]);
      SpellOne(Lit("/>"));
    } else {
      var body := [Lit(">")] + ItemsPieces(e.items);
      Regroup(OpenPieces(e), body, [Lit(CloseTag(e))]);
      SpellConcat(OpenPieces(e) + body, [Lit(CloseTag(e))]);
      SpellOne(Lit(CloseTag(e)));
      var front := Spell(OpenPieces(e) + body);
      Regroup("</", e.name, ">");
      Regroup(front, "</", e.name + ">");
    }
  }

  /** A placeholder at the end of a body whose last tag is an end tag. */
  lemma BehindEndTag(before: string, e: Element, key: string, after: string)
    requires WellFormedElement(e) && e.items != [] && RunStart(e) > 0 && !Opener(e).closed
    ensures Unremovable(ElementKind, BeforeHole(before, e), Needle(key), after)
  {
    hide Spell, Run, RunStart, OpenPieces, Print, WellFormedElement, Unremovable, ItemsPieces;
    var o, open, run := Opener(e), Spell(OpenPieces(e)), Spell(Run(e));
    RunPlain(e);
    PlainOpens(Run(e));
    NameOpens(o);
    FrontPrinted(e);
    ClosedSpelled(o);
    var lead, child := Print(e.items[..RunStart(e) - 1]), Spell(OpenPieces(o) + ([Lit(">")] + ItemsPieces(o.items)));
    var rest := o.name + ">";
    Regroup(lead, child + "</" + rest, run);
    Regroup(child + "</", rest, run);
    Regroup(child, "</", rest + run);
    Regroup(before + open + ">", lead, child + ("</" + (rest + run)));
    Regroup(before + open + ">" + lead, child, "</" + (rest + run));
    Regroup(before + open + ">" + lead + child, "</", rest + run);
    EndTagQuiet(before + open + ">" + lead + child, rest + run, Needle(key), after);
  }

  lemma NameOpens(e: Element)
    requires WellFormedElement(e)
    ensures '<' !in e.name
  {
    NameBytes(e.name);
  }

  lemma BehindText(before: string, e: Element, key: string, after: string)
    requires WellFormedElement(e) && e.items != [] && !TagEnd(Run(e))
    ensures Unremovable(ElementKind, BeforeHole(before, e), Needle(key), after)
  {
    hide Spell, RunStart, OpenPieces, Print, WellFormedElement, Unremovable, Run;
    var run := Run(e);
    RunPlain(e);
    FrontPrinted(e);
    var n := |run| - 1;
    SpellTake(run, n);
    assert run[..n + 1] == run;
    GlyphEnds(run[n]);
    var text, front := Spell(run), BeforeHole(before, e);
    assert text[|text| - 1] == Glyphs(run[n])[|Glyphs(run[n])| - 1];
    assert front[|front| - 1] == text[|text| - 1];
    NoTagQuiet(front, Needle(key), after);
  }

  /** A placeholder at the end of an element that is not deleted with it. */
  lemma LastHoleStays(before: string, e: Element, key: string, after: string)
    requires WellFormedElement(e) && EndsWith(e, key) && !Removes(e, key)
    ensures Unremovable(ElementKind, BeforeHole(before, e), Needle(key), CloseTag(e) + after)
  {
    hide Spell, Run, RunStart, OpenPieces, Print, Unremovable, TagEnd, MentionsKey, Lacks, BeforeHole, Lure, BeforeTag;
    var front, o := BeforeHole(before, e), Opener(e);
    if !TagEnd(Run(e)) {
      BehindText(before, e, key, CloseTag(e) + after);
    } else if RunStart(e) > 0 && !o.closed {
      BehindEndTag(before, e, key, CloseTag(e) + after);
    } else {
      RunPlain(e);
      BeforeHoleIsLure(before, e);
      if RunStart(e) > 0 && o.name != e.name {
        OtherTag(BeforeTag(before, e), o, Run(e), key, e.name, after);
      } else {
        PassedTag(BeforeTag(before, e), o, Run(e), key, CloseTag(e) + after);
      }
    }
  }

  /** The range from the last tag to the end of the element. */
  lemma RemovedRange(before: string, e: Element, key: string, after: string)
    requires WellFormedElement(e) && Removes(e, key)
    ensures RangeIs(ElementKind, before, Spell(Lure(Opener(e), Run(e))), Needle(key), CloseTag(e), after)
  {
    hide RangeFor, Spell, Run, RunStart, Lacks, MentionsKey, TagEnd, AfterTagName, TagText, Lure, WellFormedElement;
    var o := Opener(e);
    RunPlain(e);
    WellFormedParts(o);
    LureIsTag(o, Run(e));
    LureSpelled(o, Run(e));
    assert o.name == e.name;
    ElementRangeIs(before, o.name, AfterTagName(o, Run(e)), Needle(key), CloseTag(e) + after);
    var front := before + Spell(Lure(o, Run(e)));
    Regroup(front + Needle(key), CloseTag(e), after);
  }

  lemma WellFormedParts(e: Element)
    requires WellFormedElement(e)
    ensures IsName(e.name) && AllWellFormed(e.attributes) && AllSpace(e.tail)
  {
  }

  // Elements.

  lemma ElementFits(before: string, e: Element, key: string, after: string)
    requires WellFormedElement(e)
    ensures AllFit(ElementKind, before, ElementParts(e, key), key, after)
    decreases e, 4
  {
    hide AllFit, Removes, OpenParts, BodyParts, WellFormedElement, Spell, OpenPieces;
    if Removes(e, key) {
      RemovesEnds(e, key);
      RemovedFits(before, e, key, after);
    } else {
      var open, body := OpenParts(e), BodyParts(e, key);
      OpenFits(before, e, key, Image(body, key) + after);
      OpenPartsPieces(e, key);
      BodyFits(before, e, key, after);
      FitConcat(ElementKind, before, open, body, key, after);
    }
  }

  lemma BodyFits(before: string, e: Element, key: string, after: string)
    requires WellFormedElement(e) && !Removes(e, key)
    ensures AllFit(ElementKind, before + Spell(OpenPieces(e)), BodyParts(e, key), key, after)
    decreases e, 3
  {
    hide AllFit, Removes, Unremovable, Print, Spell, OpenPieces, WellFormedItems;
    var open := before + Spell(OpenPieces(e));
    if e.closed {
      LiteralFits(ElementKind, open, "/>", key, after);
    } else {
      var front := open + ">";
      if EndsWithHole(e.items, key) {
        LastHoleStays(before, e, key, after);
      }
      ItemsFit(front, e.items, 0, key, CloseTag(e) + after);
      WholeList(front, e.items);
      FramedFits(ElementKind, open, ">", ItemsParts(e.items, key), CloseTag(e), key, after);
    }
  }

  lemma WholeList(front: string, items: seq<Item>)
    ensures items[0..] == items && front + Print(items[..0]) == front
  {
    NoPrint();
    assert items[..0] == [];
  }

  lemma RemovesEnds(e: Element, key: string)
    requires Removes(e, key)
    ensures EndsWith(e, key)
  {
  }

  lemma RemovedFits(before: string, e: Element, key: string, after: string)
    requires WellFormedElement(e) && EndsWith(e, key) && Removes(e, key)
    ensures AllFit(ElementKind, before, ElementParts(e, key), key, after)
    decreases e, 3
  {
    hide AllFit, Removes, Spell, OpenPieces, Run, RunStart, Print, WellFormedElement, LeadParts, RangeFor, Lure;
    var front := BeforeTag(before, e);
    var lead, range := LeadParts(e, key), Around(Lure(Opener(e), Run(e)), [Lit(CloseTag(e))]);
    SpellOne(Lit(CloseTag(e)));
    RemovedRange(front, e, key, after);
    OnePartFits(ElementKind, front, range, key, after);
    LureOpens(e, key);
    assert "</"[1] == '/';
    StartKept(Image([range], key), after);
    LeadFits(before, e, key, Image([range], key) + after);
    FitConcat(ElementKind, before, lead, [range], key, after);
  }

  /** The deleted range begins with a start tag. */
  lemma LureOpens(e: Element, key: string)
    requires WellFormedElement(e) && Removes(e, key)
    ensures var text := Image([Around(Lure(Opener(e), Run(e)), [Lit(CloseTag(e))])], key);
            |text| > 1 && text[0] == '<' && text[1] != '/'
  {
    hide Spell, Run, RunStart, OpenPieces, Lure;
    var o := Opener(e);
    RunPlain(e);
    NameBytes(o.name);
    LureSpelled(o, Run(e));
    var range := Around(Lure(o, Run(e)), [Lit(CloseTag(e))]);
    OnePart(range, key);
    SpellAround(Lure(o, Run(e)), key, [Lit(CloseTag(e))]);
    var lure := Spell(Lure(o, Run(e)));
    assert lure[1] == o.name[0];
    var text := lure + Needle(key) + Spell([Lit(CloseTag(e))]);
    assert text[0] == lure[0] && text[1] == lure[1];
  }

  lemma LeadFits(before: string, e: Element, key: string, after: string)
    requires WellFormedElement(e) && e.items != [] && !e.closed && !("</" <= after)
    ensures AllFit(ElementKind, before, LeadParts(e, key), key, after)
    ensures before + Image(LeadParts(e, key), key) == BeforeTag(before, e)
    decreases e, 2
  {
    hide AllFit, Spell, OpenPieces, Run, RunStart, OpenParts, Print, ItemsPieces, WellFormedItem, Unremovable;
    if RunStart(e) == 0 {
      NoSpell();
      assert AllPieces([], key) == [] && before + "" == before;
      assert AllFit(ElementKind, before, [], key, after) by { NoneFit(ElementKind, before, key, after); }
    } else {
      var items := e.items[..RunStart(e) - 1];
      var open, body := OpenParts(e), [One(Lit(">"))] + ItemsParts(items, key);
      assert WellFormedItems(items);
      LeadBodyFits(before + Spell(OpenPieces(e)), items, key, after);
      OpenFits(before, e, key, Image(body, key) + after);
      OpenPartsPieces(e, key);
      FitConcat(ElementKind, before, open, body, key, after);
      ImageConcat(open, body, key);
      Regroup(Spell(OpenPieces(e)), ">", Print(items));
    }
  }

  lemma NoneFit(kind: Kind, before: string, key: string, after: string)
    ensures AllFit(kind, before, [], key, after)
  {
  }

  lemma LeadBodyFits(before: string, items: seq<Item>, key: string, after: string)
    requires WellFormedItems(items) && !("</" <= after)
    ensures AllFit(ElementKind, before, [One(Lit(">"))] + ItemsParts(items, key), key, after)
    ensures Image([One(Lit(">"))] + ItemsParts(items, key), key) == ">" + Print(items)
    decreases items, |items| + 1
  {
    hide AllFit, Spell, ItemsParts, Print, WellFormedItem, Unremovable;
    var parts := ItemsParts(items, key);
    if EndsWithHole(items, key) {
      NoEndTagQuiet(before + ">" + Print(items[..|items| - 1]), Needle(key), after);
    }
    ItemsFit(before + ">", items, 0, key, after);
    WholeList(before + ">", items);
    LiteralFits(ElementKind, before, ">", key, Image(parts, key) + after);
    FitConcat(ElementKind, before, [One(Lit(">"))], parts, key, after);
    ImageConcat([One(Lit(">"))], parts, key);
    PrintImage(items, key);
  }
}
