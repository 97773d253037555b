/** Families of templates that lose too much or too little when a placeholder has no value. */
module TemplateCases {
  import opened Text
  import opened Template
  import opened TemplateText
  import opened TemplateTree
  import opened TemplateFit
  import opened TemplateItems
  import opened TemplateTrim
  import opened TemplatePassive
  import opened TemplateRender
  import opened TemplateFaults
  import opened TemplateLosses
  import opened TemplateDocumented

  function StartText(e: Element, key: string): string { Spell(OpenPieces(BlankTag(TrimmedElement(e, key), key))) }

  lemma OneElement(e: Element, key: string)
    requires WellFormedElement(e) && Unbraced(key) && Settled([Child(e)], key)
    ensures TagReplaced(Print([Child(e)]), key, None)
         == Spell(Filled(CodedElement(TrimmedElement(e, key), key), key, ""))
  {
    hide TagReplaced, WellFormedElement, CodedElement, Filled, TrimmedElement, Settled;
    var items := [Child(e)];
    assert WellFormedItem(items[0]);
    AbsentTagLeaves(items, key);
    OneTrimmed(e, key);
    OneCoded(TrimmedElement(e, key), key);
  }

  lemma OneTrimmed(e: Element, key: string)
    ensures TrimmedItems([], [Child(e)], key) == [Child(TrimmedElement(e, key))]
  {
    hide TrimmedElement;
    var one := [Child(e)];
    assert one[0] == Child(e) && one[1..] == [];
    TrimmedItemsCons([], one, key);
    NothingTrimmed(key);
  }

  lemma OneStripped(e: Element, key: string)
    ensures WithoutAttributes([Child(e)], key) == [Child(Stripped(e, key))]
  {
    var one := [Child(e)];
    assert one[0] == Child(e) && one[1..] == [];
    assert WithoutAttributesIn(Child(e), key) == Child(Stripped(e, key));
  }

  /** A placeholder behind the items of a body. */
  lemma HoleTrimmed(run: seq<Piece>, key: string)
    ensures TrimmedItems(run, [Words(Hole(key))], key) == WordsOf(Trimmed("", run + [Hole(key)], key))
  {
    hide Trimmed;
    var one := [Words(Hole(key))];
    assert one[1..] == [];
  }

  lemma OnlyHoleTrimmed(e: Element, key: string)
    requires e.items == [Words(Hole(key))]
    ensures TrimmedElement(e, key).items == e.items
  {
    hide TrimmedAttributes;
    HoleTrimmed([], key);
    assert [] + [Hole(key)] == [Hole(key)];
    WholeIsNotCut(key);
    WordsAreWords([Hole(key)]);
  }

  lemma TextTrimmed(e: Element, text: string, key: string)
    requires e.items == [Words(Lit(text)), Words(Hole(key))] && text != ""
    ensures TrimmedElement(e, key).items == e.items
  {
    hide TrimmedAttributes, Assigned;
    var ps := [Lit(text), Hole(key)];
    assert e.items[1..] == [Words(Hole(key))] && [] + [Lit(text)] == [Lit(text)];
    HoleTrimmed([Lit(text)], key);
    assert [Lit(text)] + [Hole(key)] == ps && ps[1..] == [Hole(key)] && [Hole(key)][1..] == [];
    assert "" + text == text;
    assert Trimmed("", ps, key) == Trimmed(text, [Hole(key)], key);
    assert Trimmed(text, [Hole(key)], key) == [Lit(text)] + ([Hole(key)] + Trimmed("", [], key));
    assert Trimmed("", ps, key) == ps;
    WordsAreWords(ps);
  }

  lemma ChildTrimmed(e: Element, c: Element, key: string)
    requires e.items == [Child(c), Words(Hole(key))]
    ensures TrimmedElement(e, key).items == [Child(TrimmedElement(c, key)), Words(Hole(key))]
  {
    hide TrimmedAttributes, TrimmedElement;
    assert e.items[1..] == [Words(Hole(key))];
    TrimmedItemsCons([], e.items, key);
    HoleTrimmed([], key);
    assert [] + [Hole(key)] == [Hole(key)];
    WholeIsNotCut(key);
    WordsAreWords([Hole(key)]);
    SameBody(e, key);
  }

  lemma OneCoded(e: Element, key: string)
    ensures CodedPieces([Child(e)], key) == CodedElement(e, key)
  {
    var one := [Child(e)];
    assert one[0] == Child(e) && one[1..] == [] && CodedPieces(one[1..], key) == [];
    assert CodedPieces(one, key) == CodedItem(one[0], key) + CodedPieces(one[1..], key);
    assert CodedItem(one[0], key) == CodedElement(e, key);
  }

  lemma StartFilled(e: Element, key: string, rest: seq<Piece>)
    ensures Spell(Filled(OpenPieces(e) + [Lit(">")] + rest, key, ""))
         == Spell(OpenPieces(BlankTag(e, key))) + ">" + Spell(Filled(rest, key, ""))
  {
    hide OpenPieces, Spell;
    OpenBlanked(e, key);
    OneFilled(Lit(">"), key, "");
    FilledConcat(OpenPieces(e), [Lit(">")], key, "");
    FilledConcat(OpenPieces(e) + [Lit(">")], rest, key, "");
    SpellConcat(OpenPieces(BlankTag(e, key)), [Lit(">")]);
    SpellConcat(OpenPieces(BlankTag(e, key)) + [Lit(">")], Filled(rest, key, ""));
    SpellOne(Lit(">"));
  }

  /** An element whose whole body is the placeholder and whose start tag holds it beside other text, such as
      `<a b="x{K}">{K}</a>`: it is documented to go, and stays. */
  lemma StartTagKeepsElement(e: Element, key: string)
    requires WellFormedElement(e) && Unbraced(key) && Settled([Child(e)], key) && WholeBody(e, key)
    requires MentionsKey(TrimmedAttributes(e.attributes, key), key)
    ensures TagReplaced(Print([Child(e)]), key, None) == StartText(e, key) + ">" + CloseTag(e)
    ensures Print(Rendered([Child(e)], key, None, false)) == ""
  {
    hide TagReplaced, MentionsKey, OpenPieces, Spell, DropAttributes, TrimmedAttributes, Settled;
    var s := TrimmedElement(e, key);
    OnlyHoleTrimmed(e, key);
    OneElement(e, key);
    WholeBodyRemovable(s, key);
    OneHoleCoded(key);
    var rest := [Hole(key), Lit(CloseTag(s))];
    assert !Removes(s, key) by { WholeBodyStart(s, key); }
    assert CodedElement(s, key) == OpenPieces(s) + [Lit(">")] + rest;
    StartFilled(s, key, rest);
    assert rest == [Hole(key)] + [Lit(CloseTag(s))];
    FilledConcat([Hole(key)], [Lit(CloseTag(s))], key, "");
    OneFilled(Hole(key), key, "");
    OneFilled(Lit(CloseTag(s)), key, "");
    SpellOne(Lit(CloseTag(s)));
    assert Filled(rest, key, "") == [Lit(CloseTag(e))];
    OneStripped(e, key);
    assert WholeBody(Stripped(e, key), key) by { StrippedBody(e, key); }
    NoneLeft(Stripped(e, key), key);
    NoPrint();
  }

  lemma OneHoleCoded(key: string)
    ensures CodedPieces([Words(Hole(key))], key) == [Hole(key)]
  {
    var one := [Words(Hole(key))];
    assert one[1..] == [] && CodedPieces(one[1..], key) == [];
  }

  lemma WholeBodyStart(e: Element, key: string)
    requires WholeBody(e, key)
    ensures RunStart(e) == 0
  {
    assert Front(e) == [];
  }

  lemma NoneLeft(e: Element, key: string)
    requires WholeBody(e, key)
    ensures FilledItems(WithoutElements([Child(e)], key, false), key, "") == []
  {
    var one := [Child(e)];
    assert one[0] == Child(e) && one[1..] == [] && WithoutElements(one[1..], key, false) == [];
  }

  /** Two items, the second the placeholder. */
  lemma TwoItems(e: Element, first: Item, key: string)
    requires !e.closed && e.items == [first, Words(Hole(key))]
    ensures EndsWith(e, key) && Front(e) == [first]
    ensures RunStart(e) == if first.Child? then 1 else 0
    ensures first.Words? ==> Run(e) == [first.piece]
    ensures first.Child? ==> Run(e) == [] && Opener(e) == first.element && e.items[..RunStart(e) - 1] == []
  {
    assert Front(e) == [first];
    assert first.Words? ==> [first][..0] == [] && LastRun([first]) == LastRun([first][..0]);
    OneItem(first);
    NoPieces();
    assert [first][0..] == [first] && [first][1..] == [];
  }

  /** A placeholder behind a self-closing child of its parent's name, as in `<a><a/>{K}</a>`: with it go the
      child and the parent's end tag, so that the output is not XML. */
  lemma SelfClosingSiblingTakesEndTag(e: Element, c: Element, key: string)
    requires WellFormedElement(e) && Unbraced(key) && Settled([Child(e)], key)
    requires !e.closed && e.items == [Child(c), Words(Hole(key))] && c.closed && c.name == e.name
    requires !MentionsKey(TrimmedAttributes(c.attributes, key), key)
    ensures TagReplaced(Print([Child(e)]), key, None) == StartText(e, key) + ">"
    ensures TagReplaced(Print([Child(e)]), key, None) != Print(Rendered([Child(e)], key, None, false))
  {
    hide TagReplaced, MentionsKey, OpenPieces, Spell, TrimmedAttributes, Filled, LastRun, Rendered, Settled;
    var s, d := TrimmedElement(e, key), TrimmedElement(c, key);
    ChildTrimmed(e, c, key);
    OneElement(e, key);
    TwoItems(s, Child(d), key);
    assert TagEnd([]) && Lacks([], key) && Removes(s, key);
    assert CodedPieces([], key) == [];
    var lead := OpenPieces(s) + [Lit(">")];
    assert CodedElement(s, key) == lead + [];
    StartFilled(s, key, []);
    assert Filled([], key, "") == [] by { NoneFilled(key); }
    NoSpell();
    assert StartText(e, key) + ">" + "" == StartText(e, key) + ">";
    NotDocumented(e, key, TakesEndTag);
  }

  /** An element with a fault is not rendered as documented. */
  lemma NotDocumented(e: Element, key: string, fault: Fault)
    requires WellFormedElement(e) && Unbraced(key) && Settled([Child(e)], key)
    requires HasFault(TrimmedElement(e, key), key, fault)
    ensures TagReplaced(Print([Child(e)]), key, None) != Print(Rendered([Child(e)], key, None, false))
  {
    hide TagReplaced, Rendered, HasFault, WellFormedElement, Print, TrimmedElement, Settled;
    var items := [Child(e)];
    assert WellFormedItem(items[0]);
    OneTrimmed(e, key);
    assert FaultyItem(Child(TrimmedElement(e, key)), key, fault);
    DocumentedExactlyWhen(items, key);
  }

  lemma NoneFilled(key: string)
    ensures Filled([], key, "") == []
  {
  }

  /** A placeholder behind text that ends with `>`, as in `<a>x>{K}</a>`: the element goes, although its
      body holds more. */
  lemma GreaterThanTakesElement(e: Element, text: string, key: string)
    requires WellFormedElement(e) && Unbraced(key) && Settled([Child(e)], key)
    requires !e.closed && e.items == [Words(Lit(text)), Words(Hole(key))] && text != "" && text[|text| - 1] == '>'
    requires !MentionsKey(TrimmedAttributes(e.attributes, key), key)
    ensures TagReplaced(Print([Child(e)]), key, None) == ""
    ensures Print(Rendered([Child(e)], key, None, false)) != ""
  {
    hide TagReplaced, MentionsKey, OpenPieces, Spell, TrimmedAttributes, Filled, LastRun, Rendered, Settled;
    var s := TrimmedElement(e, key);
    TextTrimmed(e, text, key);
    OneElement(e, key);
    TwoItems(s, Words(Lit(text)), key);
    assert TagEnd([Lit(text)]) && Lacks([Lit(text)], key) && Removes(s, key);
    assert CodedElement(s, key) == [];
    NoneFilled(key);
    NoSpell();
    NotDocumented(e, key, TakesText);
  }

  // Text that looks like an attribute.

  lemma AbsentEverywhere(ps: seq<Piece>, key: string)
    requires AllPassive(ps, key) && Lacks(ps, key) && Unbraced(key)
    ensures WithoutRanges(ElementKind, Spell(ps), Needle(key), 0) == Spell(ps)
    ensures ReplaceAll(Spell(ps), Needle(key), "") == Spell(ps)
  {
    hide Spell, Find, Passive, Lacks;
    FindsNothing(ps, key);
    assert Spell(ps)[0..] == Spell(ps);
  }

  /** What reads like an attribute with the placeholder as its value goes, wherever it stands: in element
      text as in a start tag. */
  lemma QuotedTextGoes(front: seq<Piece>, a: Attribute, back: seq<Piece>, key: string)
    requires AllPassive(front, key) && AllPassive(back, key) && Lacks(front, key) && Lacks(back, key) && Unbraced(key)
    requires WellFormedAttribute(a) && a.value == [Hole(key)]
    requires Spell(front) != "" && !IsAsciiSpace(Spell(front)[|Spell(front)| - 1])
    ensures TagReplaced(Spell(front) + Head(a) + Needle(key) + [a.quote] + Spell(back), key, None)
         == Spell(front) + Spell(back)
  {
    hide Spell, WithoutRanges, RangeFor, Lacks, Passive, Head, ReplaceAll, WellFormedAttribute;
    var before, head, after := Spell(front), Head(a), Spell(back);
    AttributeRangeIs(before, a, Needle(key), after);
    HeadPassive(a, key);
    SpellOne(Lit(head));
    assert "" + before == before;
    DropsRange(AttributeKind, key, "", front, [Lit(head)], [a.quote], after);
    Untouched(before + head + Needle(key) + [a.quote], back, key);
    var left := front + back;
    SpellConcat(front, back);
    LacksBoth(front, back, key);
    AbsentEverywhere(left, key);
  }

  lemma HeadPassive(a: Attribute, key: string)
    requires WellFormedAttribute(a)
    ensures AllPassive([Lit(Head(a))], key) && Lacks([Lit(Head(a))], key)
  {
    NameBytes(a.name);
    SpellablePassive([Lit(Head(a))], key);
  }

  lemma LacksBoth(ps: seq<Piece>, qs: seq<Piece>, key: string)
    requires Lacks(ps, key) && Lacks(qs, key)
    ensures Lacks(ps + qs, key)
  {
  }

  lemma Untouched(front: string, back: seq<Piece>, key: string)
    requires AllPassive(back, key) && Lacks(back, key) && Unbraced(key)
    ensures WithoutRanges(AttributeKind, front + Spell(back), Needle(key), |front|) == Spell(back)
  {
    hide RangeFor, Spell, Passive, Lacks;
    FindsNothing(back, key);
    assert (front + Spell(back))[|front|..] == Spell(back);
  }

  /** So text of an element goes that the documentation keeps, as in `<a>x b="{K}"</a>`. */
  lemma QuotedTextIsLost(e: Element, text: string, a: Attribute, key: string)
    requires WellFormedElement(e) && !e.closed && Unbraced(key) && !MentionsKey(e.attributes, key)
    requires AllPassive(OpenPieces(e), key) && Inert(text, Needle(key))
    requires WellFormedAttribute(a) && a.value == [Hole(key)]
    requires text != "" && !IsAsciiSpace(text[|text| - 1])
    requires e.items == [Words(Lit(text + Head(a))), Words(Hole(key)), Words(Lit([a.quote]))]
    ensures TagReplaced(Print([Child(e)]), key, None) == Print([Child(e.(items := [Words(Lit(text))]))])
    ensures Print(Rendered([Child(e)], key, None, false))
         == Print([Child(e.(items := [Words(Lit(text + Head(a) + [a.quote]))]))])
  {
    hide TagReplaced, WellFormedElement, Lacks, OpenPieces, Spell, MentionsKey, Head, Rendered, AllPassive, Inert;
    var front, back := OpenPieces(e) + [Lit(">")] + [Lit(text)], [Lit(CloseTag(e))];
    FrontPassive(e, text, key);
    OpenLacks(e, key);
    LacksBoth(OpenPieces(e), [Lit(">"), Lit(text)], key) by { LitsLack(">", text, key); }
    assert front == OpenPieces(e) + [Lit(">"), Lit(text)];
    assert Lacks(back, key) by { LitsLack(CloseTag(e), "", key); }
    FrontSpelled(e, text);
    QuotedTextGoes(front, a, back, key);
    PrintedAround(e, text, a, key);
    PrintedText(e, text);
    SpellOne(Lit(CloseTag(e)));
    QuotedTextKept(e, text + Head(a), [a.quote], key);
  }

  lemma FrontPassive(e: Element, text: string, key: string)
    requires WellFormedElement(e) && AllPassive(OpenPieces(e), key) && Inert(text, Needle(key))
    ensures AllPassive(OpenPieces(e) + [Lit(">")] + [Lit(text)], key) && AllPassive([Lit(CloseTag(e))], key)
  {
    hide OpenPieces, Inert;
    NameBytes(e.name);
    BracelessInert(">", key);
    BracelessInert(CloseTag(e), key);
    FairBoth(OpenPieces(e) + [Lit(">")], [Lit(text)], key, false);
    FairBoth(OpenPieces(e), [Lit(">")], key, false);
  }

  lemma {:induction false} NothingDropped(attributes: seq<Attribute>, key: string)
    requires !MentionsKey(attributes, key)
    ensures DropAttributes(attributes, key) == attributes && FilledAttributes(attributes, key, "") == attributes
  {
    if attributes != [] {
      var a := attributes[0];
      assert Lacks(a.value, key);
      forall i | 0 <= i < |attributes[1..]| ensures Lacks(attributes[1..][i].value, key) {
        assert attributes[1..][i] == attributes[i + 1];
      }
      NothingFilled(a.value, key);
      NothingDropped(attributes[1..], key);
      assert a.value != [Hole(key)] by { LacksMore(a.value, key); }
    }
  }

  lemma LacksMore(ps: seq<Piece>, key: string)
    requires Lacks(ps, key)
    ensures ps != [Hole(key)]
  {
    assert [Hole(key)][0] == Hole(key);
  }

  lemma {:induction false} NothingFilled(ps: seq<Piece>, key: string)
    requires Lacks(ps, key)
    ensures Filled(ps, key, "") == ps
  {
    if ps != [] {
      NothingFilled(ps[1..], key);
      assert [ps[0]] + ps[1..] == ps;
    }
  }

  /** As documented, a placeholder between two texts goes and the texts stay. */
  lemma QuotedTextKept(e: Element, text: string, rest: string, key: string)
    requires !e.closed && !MentionsKey(e.attributes, key)
    requires e.items == [Words(Lit(text)), Words(Hole(key)), Words(Lit(rest))]
    ensures Print(Rendered([Child(e)], key, None, false)) == Print([Child(e.(items := [Words(Lit(text + rest))]))])
  {
    hide MentionsKey, OpenPieces, Spell;
    var p, r := Lit(text), Lit(rest);
    NothingDropped(e.attributes, key);
    ThreeWords(p, Hole(key), r);
    WordsKept([p, Hole(key), r], key);
    OneStripped(e, key);
    assert Stripped(e, key) == e;
    var one := [Child(e)];
    assert one[0] == Child(e) && one[1..] == [] && WithoutElements(one[1..], key, false) == [];
    assert WithoutElements(one, key, false) == [Child(e)];
    BlankChild(e, key);
    var kept := e.(items := [Words(p), Words(r)]);
    BlankWords(p, r, key);
    assert Blanked(e, key) == kept;
    PrintedBody(kept);
    PrintedText(e, text + rest);
    SameOpen(e, kept);
    TwoPrinted(p, r);
  }

  lemma {:induction false} WordsKept(ps: seq<Piece>, key: string)
    ensures WithoutAttributes(WordsOf(ps), key) == WordsOf(ps)
    ensures WithoutElements(WordsOf(ps), key, false) == WordsOf(ps)
  {
    if ps != [] {
      WordsKept(ps[1..], key);
      assert WordsOf(ps)[1..] == WordsOf(ps[1..]);
    }
  }

  lemma BlankWords(p: Piece, r: Piece, key: string)
    requires p != Hole(key) && r != Hole(key)
    ensures Blank([Words(p), Words(Hole(key)), Words(r)], key) == [Words(p), Words(r)]
  {
    var three := [Words(p), Words(Hole(key)), Words(r)];
    assert three[1..] == [Words(Hole(key)), Words(r)] && three[1..][1..] == [Words(r)] && [Words(r)][1..] == [];
    assert FilledItems([Words(r)], key, "") == FilledIn(Words(r), key, "") + FilledItems([], key, "");
    OneWord(p);
    OneWord(r);
    assert FilledIn(Words(r), key, "") == [Words(r)] && FilledIn(Words(p), key, "") == [Words(p)];
    assert FilledItems(three[1..], key, "") == FilledIn(Words(Hole(key)), key, "") + FilledItems([Words(r)], key, "");
    assert FilledIn(Words(Hole(key)), key, "") == [];
  }

  lemma OneWord(p: Piece)
    ensures WordsOf([p]) == [Words(p)]
  {
    assert [p][1..] == [];
  }

  lemma TwoPrinted(p: Piece, r: Piece)
    ensures Print([Words(p), Words(r)]) == Glyphs(p) + Glyphs(r)
  {
    hide Spell;
    assert [Words(p), Words(r)] == [Words(p)] + [Words(r)];
    ItemsPiecesConcat([Words(p)], [Words(r)]);
    OneItem(Words(p));
    OneItem(Words(r));
    SpellConcat([p], [r]);
    SpellOne(p);
    SpellOne(r);
  }

  lemma LitsLack(a: string, b: string, key: string)
    ensures Lacks([Lit(a), Lit(b)], key) && Lacks([Lit(a)], key)
  {
  }

  lemma FrontSpelled(e: Element, text: string)
    ensures Spell(OpenPieces(e) + [Lit(">")] + [Lit(text)]) == Spell(OpenPieces(e)) + ">" + text
    ensures text != "" ==> var s := Spell(OpenPieces(e)) + ">" + text; s[|s| - 1] == text[|text| - 1]
  {
    hide Spell, OpenPieces;
    SpellConcat(OpenPieces(e) + [Lit(">")], [Lit(text)]);
    SpellConcat(OpenPieces(e), [Lit(">")]);
    SpellOne(Lit(">"));
    SpellOne(Lit(text));
  }

  lemma PrintedBody(e: Element)
    requires !e.closed
    ensures Print([Child(e)]) == Spell(OpenPieces(e)) + ">" + Print(e.items) + CloseTag(e)
  {
    hide Spell, OpenPieces, ItemsPieces;
    OneItem(Child(e));
    var body := [Lit(">")] + ItemsPieces(e.items);
    assert ItemPieces(Child(e)) == ElementPieces(e);
    SpellConcat(OpenPieces(e), body + [Lit(CloseTag(e))]);
    SpellConcat(body, [Lit(CloseTag(e))]);
    SpellConcat([Lit(">")], ItemsPieces(e.items));
    SpellOne(Lit(">"));
    SpellOne(Lit(CloseTag(e)));
    Regroup(Spell(OpenPieces(e)), ">", Print(e.items));
    Regroup(Spell(OpenPieces(e)), ">" + Print(e.items), CloseTag(e));
  }

  lemma PrintedText(e: Element, text: string)
    requires !e.closed
    ensures Print([Child(e.(items := [Words(Lit(text))]))]) == Spell(OpenPieces(e)) + ">" + text + CloseTag(e)
  {
    hide Spell, OpenPieces;
    var f := e.(items := [Words(Lit(text))]);
    SameOpen(e, f);
    PrintedBody(f);
    OneItem(Words(Lit(text)));
    SpellOne(Lit(text));
  }

  lemma PrintedAround(e: Element, text: string, a: Attribute, key: string)
    requires !e.closed
    requires e.items == [Words(Lit(text + Head(a))), Words(Hole(key)), Words(Lit([a.quote]))]
    ensures Print([Child(e)])
         == Spell(OpenPieces(e)) + ">" + text + Head(a) + Needle(key) + [a.quote] + CloseTag(e)
  {
    hide Spell, OpenPieces, Head;
    PrintedBody(e);
    var p, q, r := Lit(text + Head(a)), Hole(key), Lit([a.quote]);
    assert e.items == WordsOf([p, q, r]) by { ThreeWords(p, q, r); }
    WordsOfPieces([p, q, r]);
    SpellAround([p], key, [r]);
    assert [p] + [q] + [r] == [p, q, r];
    SpellOne(p);
    SpellOne(r);
    var open := Spell(OpenPieces(e)) + ">";
    Regroup(open, text, Head(a));
    Regroup(open, text + Head(a), Needle(key));
    Regroup(open, text + Head(a) + Needle(key), [a.quote]);
  }

  lemma ThreeWords(p: Piece, q: Piece, r: Piece)
    ensures WordsOf([p, q, r]) == [Words(p), Words(q), Words(r)]
  {
    assert [p, q, r][1..] == [q, r] && [q, r][1..] == [r] && [r][1..] == [];
    assert WordsOf([r]) == [Words(r)];
    assert WordsOf([q, r]) == [Words(q)] + WordsOf([r]);
  }
}
