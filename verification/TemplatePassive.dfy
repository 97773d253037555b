/** A template can be searched for a placeholder when no literal has part in a spelling of it: then the search
    finds the placeholder itself and nothing else. */
module TemplatePassive {
  import opened Template
  import opened TemplateText
  import opened TemplateTree
  import opened TemplateFit
  import opened TemplateItems
  import opened TemplateTrim

  /** Passive, and without opening braces in literals if so asked. */
  ghost predicate Fair(ps: seq<Piece>, key: string, braceless: bool) {
    AllPassive(ps, key) && (braceless ==> AllSpellable(ps))
  }

  lemma FairBoth(ps: seq<Piece>, qs: seq<Piece>, key: string, braceless: bool)
    ensures Fair(ps + qs, key, braceless) <==> Fair(ps, key, braceless) && Fair(qs, key, braceless)
  {
    hide Passive, Spellable;
    var both := ps + qs;
    if Fair(both, key, braceless) {
      assert forall i :: 0 <= i < |ps| ==> ps[i] == both[i];
      assert forall i :: 0 <= i < |qs| ==> qs[i] == both[|ps| + i];
    }
  }

  lemma FairOne(p: Piece, key: string, braceless: bool)
    ensures Fair([p], key, braceless) <==> Passive(p, key) && (braceless ==> Spellable(p))
  {
    hide Passive, Spellable;
    assert [p][0] == p;
  }

  lemma PassiveAmong(ps: seq<Piece>, qs: seq<Piece>, key: string)
    requires AllPassive(ps, key) && forall p :: p in qs ==> p in ps
    ensures AllPassive(qs, key)
  {
    hide Passive;
    forall i | 0 <= i < |qs| ensures Passive(qs[i], key) {
      assert qs[i] in ps;
    }
  }

  // The parts the finder of elements sees.

  ghost predicate Lacking(part: Part, key: string) {
    part.Around? ==> Lacks(part.before, key) && Lacks(part.after, key)
  }

  ghost predicate AllLacking(parts: seq<Part>, key: string) { forall i :: 0 <= i < |parts| ==> Lacking(parts[i], key) }

  /** Parts are passive when their pieces are. */
  lemma {:induction false} PartsOfPassive(parts: seq<Part>, key: string)
    requires AllPassive(AllPieces(parts, key), key) && AllLacking(parts, key)
    ensures PartsPassive(parts, key)
  {
    if parts != [] {
      hide Passive, Lacks, Pieces;
      FairBoth(Pieces(parts[0], key), AllPieces(parts[1..], key), key, false);
      PartOfPassive(parts[0], key);
      PartsOfPassive(parts[1..], key);
    }
  }

  lemma PartOfPassive(part: Part, key: string)
    requires AllPassive(Pieces(part, key), key) && Lacking(part, key)
    ensures PartPassive(part, key)
  {
    hide Passive, Lacks;
    match part
    case One(piece) => assert [piece][0] == piece;
    case Around(before, after) =>
      FairBoth(before + [Hole(key)], after, key, false);
      FairBoth(before, [Hole(key)], key, false);
  }

  lemma {:induction false} OnesLacking(ps: seq<Piece>, key: string)
    ensures AllLacking(Ones(ps), key)
  {
    if ps != [] {
      OnesLacking(ps[1..], key);
    }
  }

  lemma LackingBoth(a: seq<Part>, b: seq<Part>, key: string)
    requires AllLacking(a, key) && AllLacking(b, key)
    ensures AllLacking(a + b, key)
  {
    hide Lacking;
  }

  lemma {:induction false} AttributesLacking(attributes: seq<Attribute>, key: string)
    ensures AllLacking(AttributesParts(attributes), key)
  {
    if attributes != [] {
      hide AttributePieces, Lacking;
      OnesLacking(AttributePieces(attributes[0]), key);
      AttributesLacking(attributes[1..], key);
    }
  }

  lemma FramedLacking(open: string, middle: seq<Part>, close: string, key: string)
    requires AllLacking(middle, key)
    ensures AllLacking([One(Lit(open))] + middle + [One(Lit(close))], key)
  {
  }

  lemma OpenLacking(e: Element, key: string)
    ensures AllLacking(OpenParts(e), key)
  {
    hide AllLacking, AttributesParts;
    AttributesLacking(e.attributes, key);
    FramedLacking("<" + e.name, AttributesParts(e.attributes), e.tail, key);
  }

  lemma {:induction false} ItemsLacking(items: seq<Item>, key: string)
    ensures AllLacking(ItemsParts(items, key), key)
    decreases items, 0
  {
    if items != [] {
      hide Lacking, ItemParts;
      ItemLacking(items[0], key);
      ItemsLacking(items[1..], key);
    }
  }

  lemma ItemLacking(item: Item, key: string)
    ensures AllLacking(ItemParts(item, key), key)
    decreases item, 1
  {
    hide AllLacking, Removes, OpenParts, LeadParts, BodyParts, Lure, RunStart;
    match item
    case Words(piece) => OneLacking(piece, key);
    case Child(e) =>
      if Removes(e, key) {
        RemovesEnds(e, key);
        LureLacks(e, key);
        LeadLacking(e, key);
        LackingBoth(LeadParts(e, key), [Around(Lure(Opener(e), Run(e)), [Lit(CloseTag(e))])], key);
      } else {
        OpenLacking(e, key);
        BodyLacking(e, key);
        LackingBoth(OpenParts(e), BodyParts(e, key), key);
      }
  }

  lemma OneLacking(piece: Piece, key: string)
    ensures AllLacking([One(piece)], key)
  {
  }

  lemma BodyLacking(e: Element, key: string)
    ensures AllLacking(BodyParts(e, key), key)
    decreases e, 0
  {
    hide AllLacking, ItemsParts;
    if e.closed {
      OneLacking(Lit("/>"), key);
    } else {
      ItemsLacking(e.items, key);
      FramedLacking(">", ItemsParts(e.items, key), CloseTag(e), key);
    }
  }

  lemma LeadLacking(e: Element, key: string)
    requires e.items != []
    ensures AllLacking(LeadParts(e, key), key)
    decreases e, 0
  {
    hide Lacking, OpenParts, RunStart, ItemsParts;
    if RunStart(e) > 0 {
      OpenLacking(e, key);
      ItemsLacking(e.items[..RunStart(e) - 1], key);
      assert Lacking(One(Lit(">")), key) by { OneIsLacking(Lit(">"), key); }
    }
  }

  lemma OneIsLacking(piece: Piece, key: string)
    ensures Lacking(One(piece), key)
  {
  }

  lemma {:induction false} NotMentioned(attributes: seq<Attribute>, key: string)
    requires !MentionsKey(attributes, key)
    ensures Lacks(AttributesPieces(attributes), key)
  {
    if attributes != [] {
      var a := attributes[0];
      assert Lacks(a.value, key);
      assert Lacks(AttributePieces(a), key);
      forall i | 0 <= i < |attributes[1..]| ensures Lacks(attributes[1..][i].value, key) {
        assert attributes[1..][i] == attributes[i + 1];
      }
      NotMentioned(attributes[1..], key);
    }
  }

  lemma OpenLacks(e: Element, key: string)
    requires !MentionsKey(e.attributes, key)
    ensures Lacks(OpenPieces(e), key)
  {
    NotMentioned(e.attributes, key);
  }

  lemma LureLacks(e: Element, key: string)
    requires Removes(e, key)
    ensures AllLacking([Around(Lure(Opener(e), Run(e)), [Lit(CloseTag(e))])], key)
  {
    hide Run, OpenPieces, MentionsKey, RunStart;
    OpenLacks(Opener(e), key);
  }

  // What the deletion of elements leaves.

  lemma AmongBoth(ps: seq<Piece>, qs: seq<Piece>, p: Piece)
    ensures p in ps + qs <==> p in ps || p in qs
  {
  }

  lemma {:induction false} CodedAmong(items: seq<Item>, key: string, p: Piece)
    requires p in CodedPieces(items, key)
    ensures p in ItemsPieces(items)
    decreases items, 0
  {
    hide CodedItem, ItemPieces;
    AmongBoth(CodedItem(items[0], key), CodedPieces(items[1..], key), p);
    AmongBoth(ItemPieces(items[0]), ItemsPieces(items[1..]), p);
    if p in CodedItem(items[0], key) {
      CodedAmongIn(items[0], key, p);
    } else {
      CodedAmong(items[1..], key, p);
    }
  }

  lemma CodedAmongIn(item: Item, key: string, p: Piece)
    requires p in CodedItem(item, key)
    ensures p in ItemPieces(item)
    decreases item, 1
  {
    hide OpenPieces, Removes, RunStart, CodedPieces, ItemsPieces;
    match item
    case Words(_) =>
    case Child(e) =>
      if Removes(e, key) {
        RemovesEnds(e, key);
        var n := RunStart(e) - 1;
        if p !in OpenPieces(e) && p != Lit(">") {
          CodedAmong(e.items[..n], key, p);
          assert e.items == e.items[..n] + e.items[n..];
          ItemsPiecesConcat(e.items[..n], e.items[n..]);
        }
      } else if p in CodedPieces(e.items, key) {
        CodedAmong(e.items, key, p);
      }
  }

  lemma CodedPassive(items: seq<Item>, key: string)
    requires AllPassive(ItemsPieces(items), key)
    ensures AllPassive(CodedPieces(items, key), key)
  {
    hide CodedPieces, ItemsPieces, AllPassive;
    forall p | p in CodedPieces(items, key) ensures p in ItemsPieces(items) {
      CodedAmong(items, key, p);
    }
    PassiveAmong(ItemsPieces(items), CodedPieces(items, key), key);
  }

  // The parts the finder of attributes sees.

  lemma InertBoth(a: string, b: string, needle: string)
    requires Inert(a, needle) && Inert(b, needle)
    ensures Inert(a + b, needle)
  {
    var both := a + b;
    forall i | 0 <= i < |both| ensures !(needle <= both[i..]) && !(both[i..] <= needle) {
      if i < |a| {
        assert both[i..] == a[i..] + b;
        PrefixesMeet(needle, a[i..], b);
        assert a[i..] <= both[i..];
      } else {
        assert both[i..] == b[i - |a|..];
      }
    }
  }

  lemma NoneInert(needle: string)
    ensures Inert("", needle)
  {
  }

  lemma LiteralPassive(held: string, key: string)
    requires Inert(held, Needle(key))
    ensures PartsPassive(Ones(Literal(held)), key)
  {
    hide Inert;
    if held != "" {
      assert [Lit(held)][1..] == [];
    }
  }

  lemma CutPassive(before: string, after: string, key: string)
    requires '{' !in before && '{' !in after
    ensures PartPassive(Around([Lit(before)], [Lit(after)]), key)
  {
    BracelessInert(before, key);
    BracelessInert(after, key);
  }

  /** Where nothing is cut, or no literal holds a brace, trimming a passive text leaves it passive. */
  lemma {:induction false} TrimmedPassive(held: string, ps: seq<Piece>, key: string, braceless: bool)
    requires Fair(ps, key, braceless) && Inert(held, Needle(key)) && (braceless ==> '{' !in held)
    requires Cuts(held, ps, key) ==> braceless
    ensures PartsPassive(TrimmedParts(held, ps, key), key)
    decreases |ps|
  {
    hide PartPassive, Assigned, Inert, Ones, Literal;
    LiteralPassive(held, key);
    if ps != [] {
      NoneInert(Needle(key));
      assert Passive(ps[0], key) && (braceless ==> Spellable(ps[0]));
      FairRest(ps, key, braceless);
      if ps[0].Lit? {
        InertBoth(held, ps[0].text, Needle(key));
        TrimmedPassive(held + ps[0].text, ps[1..], key, braceless);
      } else if ps[0].key == key && Mimics(held, ps[1..]) {
        CutTrimmedPassive(held, ps, key);
      } else {
        assert PartPassive(One(ps[0]), key) by { OnePassive(ps[0], key); }
        TrimmedPassive("", ps[1..], key, braceless);
      }
    }
  }

  lemma OnePassive(p: Piece, key: string)
    requires Passive(p, key)
    ensures PartPassive(One(p), key)
  {
  }

  lemma FairRest(ps: seq<Piece>, key: string, braceless: bool)
    requires Fair(ps, key, braceless) && ps != []
    ensures Fair(ps[1..], key, braceless)
  {
    FairBoth([ps[0]], ps[1..], key, braceless);
    assert [ps[0]] + ps[1..] == ps;
  }

  lemma CutTrimmedPassive(held: string, ps: seq<Piece>, key: string)
    requires Fair(ps, key, true) && '{' !in held
    requires ps != [] && ps[0] == Hole(key) && Mimics(held, ps[1..])
    ensures PartsPassive(TrimmedParts(held, ps, key), key)
    decreases |ps|, 0
  {
    hide PartPassive, Assigned, Inert, Ones, Literal, Passive;
    var n := Assigned(held).value;
    assert Spellable(ps[1]);
    BracelessInert(held[..n], key);
    LiteralPassive(held[..n], key);
    CutPassive(held[n..], ps[1].text[..1], key);
    BracelessInert(ps[1].text[1..], key);
    FairRest(ps, key, true);
    FairRest(ps[1..], key, true);
    assert ps[1..][1..] == ps[2..];
    TrimmedPassive(ps[1].text[1..], ps[2..], key, true);
  }

  lemma AttributePassive(a: Attribute, key: string, braceless: bool)
    requires Fair(AttributePieces(a), key, braceless) && (Cuts("", a.value, key) ==> braceless)
    ensures PartsPassive(AttributeParts(a, key), key)
  {
    hide PartPassive, TrimmedParts, Head, Inert, Passive, Spellable;
    FairBoth([Lit(Head(a))] + a.value, [Lit([a.quote])], key, braceless);
    FairBoth([Lit(Head(a))], a.value, key, braceless);
    FairOne(Lit(Head(a)), key, braceless);
    FairOne(Lit([a.quote]), key, braceless);
    OnePassive(Lit(Head(a)), key);
    OnePassive(Lit([a.quote]), key);
    NoneInert(Needle(key));
    if IsWhole(a, key) {
      WholePassive(a, key);
    } else {
      TrimmedPassive("", a.value, key, braceless);
    }
  }

  lemma WholePassive(a: Attribute, key: string)
    requires Passive(Lit(Head(a)), key) && Passive(Lit([a.quote]), key)
    ensures PartPassive(Around([Lit(Head(a))], [Lit([a.quote])]), key)
  {
    hide Inert, Head;
  }

  lemma {:induction false} AttributesTrimmedPassive(attributes: seq<Attribute>, key: string, braceless: bool)
    requires Fair(AttributesPieces(attributes), key, braceless) && (!UncutAttributes(attributes, key) ==> braceless)
    ensures PartsPassive(AttributesTrimmed(attributes, key), key)
  {
    if attributes != [] {
      hide PartPassive, AttributeParts, AttributePieces, Fair;
      FairBoth(AttributePieces(attributes[0]), AttributesPieces(attributes[1..]), key, braceless);
      AttributePassive(attributes[0], key, braceless);
      AttributesTrimmedPassive(attributes[1..], key, braceless);
    }
  }

  lemma FramedPassive(open: string, middle: seq<Part>, close: string, key: string)
    requires Passive(Lit(open), key) && Passive(Lit(close), key) && PartsPassive(middle, key)
    ensures PartsPassive([One(Lit(open))] + middle + [One(Lit(close))], key)
  {
    hide PartPassive, Passive;
    OnePassive(Lit(open), key);
    OnePassive(Lit(close), key);
  }

  lemma {:induction false} ItemsTrimmedPassive(run: seq<Piece>, items: seq<Item>, key: string, braceless: bool)
    requires Fair(run, key, braceless) && Fair(ItemsPieces(items), key, braceless)
    requires !Uncut(run, items, key) ==> braceless
    ensures PartsPassive(ItemsTrimmed(run, items, key), key)
    decreases items, 0
  {
    hide PartPassive, TrimmedParts, ItemTrimmed, ItemPieces, Fair, Inert, UncutIn, Cuts;
    NoneInert(Needle(key));
    if items == [] {
      TrimmedPassive("", run, key, braceless);
    } else {
      FairBoth(ItemPieces(items[0]), ItemsPieces(items[1..]), key, braceless);
      match items[0]
      case Words(piece) =>
        WordPieces(piece);
        FairBoth(run, [piece], key, braceless);
        ItemsTrimmedPassive(run + [piece], items[1..], key, braceless);
      case Child(e) =>
        TrimmedPassive("", run, key, braceless);
        ItemTrimmedPassive(items[0], key, braceless);
        NoneFair(key, braceless);
        ItemsTrimmedPassive([], items[1..], key, braceless);
    }
  }

  function AfterStart(e: Element): seq<Piece> {
    if e.closed then [Lit("/>")] else [Lit(">")] + ItemsPieces(e.items) + [Lit(CloseTag(e))]
  }

  lemma PiecesOfElement(e: Element)
    ensures ItemPieces(Child(e)) == OpenPieces(e) + AfterStart(e)
  {
  }

  lemma PiecesCons(items: seq<Item>)
    requires items != []
    ensures ItemsPieces(items) == ItemPieces(items[0]) + ItemsPieces(items[1..])
  {
  }

  lemma WordPieces(piece: Piece)
    ensures ItemPieces(Words(piece)) == [piece]
  {
  }

  lemma NoneFair(key: string, braceless: bool)
    ensures Fair([], key, braceless)
  {
  }

  lemma ItemTrimmedPassive(item: Item, key: string, braceless: bool)
    requires item.Child? && Fair(ItemPieces(item), key, braceless) && (!UncutIn(item, key) ==> braceless)
    ensures PartsPassive(ItemTrimmed(item, key), key)
    decreases item, 1
  {
    hide PartPassive, AttributesTrimmed, ItemsTrimmed, CloseTag, OpenPieces, Fair, UncutAttributes, Passive, Spellable,
      OpenTrimmed, BodyTrimmed, AfterStart;
    var e := item.element;
    PiecesOfElement(e);
    FairBoth(OpenPieces(e), AfterStart(e), key, braceless);
    OpenTrimmedPassive(e, key, braceless);
    BodyTrimmedPassive(e, key, braceless);
    assert ItemTrimmed(item, key) == OpenTrimmed(e, key) + BodyTrimmed(e, key);
  }

  lemma OpenTrimmedPassive(e: Element, key: string, braceless: bool)
    requires Fair(OpenPieces(e), key, braceless) && (!UncutAttributes(e.attributes, key) ==> braceless)
    ensures PartsPassive(OpenTrimmed(e, key), key)
  {
    hide PartPassive, AttributesTrimmed, Fair, UncutAttributes, Passive, Spellable, AttributesPieces;
    var open, middle := [Lit("<" + e.name)], AttributesPieces(e.attributes);
    FairBoth(open + middle, [Lit(e.tail)], key, braceless);
    FairBoth(open, middle, key, braceless);
    FairOne(Lit("<" + e.name), key, braceless);
    FairOne(Lit(e.tail), key, braceless);
    AttributesTrimmedPassive(e.attributes, key, braceless);
    FramedPassive("<" + e.name, AttributesTrimmed(e.attributes, key), e.tail, key);
  }

  lemma BodyTrimmedPassive(e: Element, key: string, braceless: bool)
    requires Fair(AfterStart(e), key, braceless) && (!Uncut([], e.items, key) ==> braceless)
    ensures PartsPassive(BodyTrimmed(e, key), key)
    decreases e, 0
  {
    hide PartPassive, ItemsTrimmed, CloseTag, Fair, Uncut, Passive, Spellable, ItemsPieces;
    if e.closed {
      FairOne(Lit("/>"), key, braceless);
      OnePassive(Lit("/>"), key);
    } else {
      FairBoth([Lit(">")] + ItemsPieces(e.items), [Lit(CloseTag(e))], key, braceless);
      FairBoth([Lit(">")], ItemsPieces(e.items), key, braceless);
      FairOne(Lit(">"), key, braceless);
      FairOne(Lit(CloseTag(e)), key, braceless);
      NoneFair(key, braceless);
      ItemsTrimmedPassive([], e.items, key, braceless);
      FramedPassive(">", ItemsTrimmed([], e.items, key), CloseTag(e), key);
    }
  }

  // What the deletion of attributes leaves, searched for another placeholder.

  lemma LiteralFair(held: string, other: string, braceless: bool)
    requires Inert(held, Needle(other)) && (braceless ==> '{' !in held)
    ensures Fair(Literal(held), other, braceless)
  {
    hide Inert;
  }

  lemma {:induction false} TrimmedFair(held: string, ps: seq<Piece>, key: string, other: string, braceless: bool)
    requires Fair(ps, other, braceless) && Inert(held, Needle(other)) && (braceless ==> '{' !in held)
    requires Cuts(held, ps, key) ==> braceless
    ensures Fair(Trimmed(held, ps, key), other, braceless)
    decreases |ps|
  {
    hide Assigned, Inert, Literal;
    LiteralFair(held, other, braceless);
    if ps != [] {
      NoneInert(Needle(other));
      assert Passive(ps[0], other) && (braceless ==> Spellable(ps[0]));
      FairRest(ps, other, braceless);
      if ps[0].Lit? {
        InertBoth(held, ps[0].text, Needle(other));
        TrimmedFair(held + ps[0].text, ps[1..], key, other, braceless);
      } else if ps[0].key == key && Mimics(held, ps[1..]) {
        CutFair(held, ps, key, other);
      } else {
        TrimmedFair("", ps[1..], key, other, braceless);
        FairOne(ps[0], other, braceless);
        FairBoth([ps[0]], Trimmed("", ps[1..], key), other, braceless);
        FairBoth(Literal(held), [ps[0]] + Trimmed("", ps[1..], key), other, braceless);
      }
    }
  }

  lemma CutFair(held: string, ps: seq<Piece>, key: string, other: string)
    requires Fair(ps, other, true) && '{' !in held && ps != [] && ps[0] == Hole(key) && Mimics(held, ps[1..])
    ensures Fair(Trimmed(held, ps, key), other, true)
    decreases |ps|, 0
  {
    hide Assigned, Inert, Literal, Passive;
    var n := Assigned(held).value;
    assert Spellable(ps[1]);
    BracelessInert(held[..n], other);
    LiteralFair(held[..n], other, true);
    BracelessInert(ps[1].text[1..], other);
    FairRest(ps, other, true);
    FairRest(ps[1..], other, true);
    assert ps[1..][1..] == ps[2..];
    TrimmedFair(ps[1].text[1..], ps[2..], key, other, true);
    FairBoth(Literal(held[..n]), Trimmed(ps[1].text[1..], ps[2..], key), other, true);
  }

  lemma {:induction false} AttributesFair(attributes: seq<Attribute>, key: string, other: string, braceless: bool)
    requires Fair(AttributesPieces(attributes), other, braceless) && (!UncutAttributes(attributes, key) ==> braceless)
    ensures Fair(AttributesPieces(TrimmedAttributes(attributes, key)), other, braceless)
  {
    if attributes != [] {
      hide AttributePieces, Fair, TrimmedAttribute, Inert, Trimmed;
      var a := attributes[0];
      FairBoth(AttributePieces(a), AttributesPieces(attributes[1..]), other, braceless);
      AttributesFair(attributes[1..], key, other, braceless);
      LeftCons(attributes, key);
      AttributesPiecesConcat(AttributeLeft(a, key), TrimmedAttributes(attributes[1..], key));
      if a.value == [Hole(key)] {
        NoneFair(other, braceless);
        assert AttributesPieces([]) == [];
      } else {
        AttributeFair(a, key, other, braceless);
        OneLeft(TrimmedAttribute(a, key));
      }
      FairBoth(AttributesPieces(AttributeLeft(a, key)), AttributesPieces(TrimmedAttributes(attributes[1..], key)),
               other, braceless);
    }
  }

  lemma AttributeFair(a: Attribute, key: string, other: string, braceless: bool)
    requires Fair(AttributePieces(a), other, braceless) && (Cuts("", a.value, key) ==> braceless)
    ensures Fair(AttributePieces(TrimmedAttribute(a, key)), other, braceless)
  {
    hide Fair, Inert, Trimmed, Head;
    var open, close, value := [Lit(Head(a))], [Lit([a.quote])], Trimmed("", a.value, key);
    FairBoth(open + a.value, close, other, braceless);
    FairBoth(open, a.value, other, braceless);
    NoneInert(Needle(other));
    TrimmedFair("", a.value, key, other, braceless);
    FairBoth(open + value, close, other, braceless);
    FairBoth(open, value, other, braceless);
    SameHead(a, key);
  }

  lemma {:induction false} TrimmedItemsFair(run: seq<Piece>, items: seq<Item>, key: string, other: string,
                                            braceless: bool)
    requires Fair(run, other, braceless) && Fair(ItemsPieces(items), other, braceless)
    requires !Uncut(run, items, key) ==> braceless
    ensures Fair(ItemsPieces(TrimmedItems(run, items, key)), other, braceless)
    decreases items, 0
  {
    hide ItemPieces, Fair, Inert, UncutIn, Cuts, Trimmed, TrimmedIn, ItemsPieces;
    NoneInert(Needle(other));
    WordsOfPieces(Trimmed("", run, key));
    if items == [] {
      TrimmedFair("", run, key, other, braceless);
    } else {
      PiecesCons(items);
      FairBoth(ItemPieces(items[0]), ItemsPieces(items[1..]), other, braceless);
      match items[0]
      case Words(piece) =>
        WordPieces(piece);
        FairBoth(run, [piece], other, braceless);
        TrimmedItemsFair(run + [piece], items[1..], key, other, braceless);
      case Child(e) =>
        var lead, own, rest := WordsOf(Trimmed("", run, key)), [TrimmedIn(items[0], key)],
                               TrimmedItems([], items[1..], key);
        TrimmedFair("", run, key, other, braceless);
        ItemFair(items[0], key, other, braceless);
        NoneFair(other, braceless);
        TrimmedItemsFair([], items[1..], key, other, braceless);
        OneItem(own[0]);
        ItemsPiecesConcat(lead, own + rest);
        ItemsPiecesConcat(own, rest);
        FairBoth(ItemsPieces(own), ItemsPieces(rest), other, braceless);
        FairBoth(ItemsPieces(lead), ItemsPieces(own) + ItemsPieces(rest), other, braceless);
    }
  }

  lemma ItemFair(item: Item, key: string, other: string, braceless: bool)
    requires item.Child? && Fair(ItemPieces(item), other, braceless) && (!UncutIn(item, key) ==> braceless)
    ensures Fair(ItemPieces(TrimmedIn(item, key)), other, braceless)
    decreases item, 1
  {
    hide CloseTag, OpenPieces, Fair, UncutAttributes, AfterStart;
    var e := item.element;
    var t := TrimmedElement(e, key);
    assert ItemPieces(item) == OpenPieces(e) + AfterStart(e) by { PiecesOfElement(e); }
    assert ItemPieces(TrimmedIn(item, key)) == OpenPieces(t) + AfterStart(t) by { PiecesOfElement(t); }
    FairBoth(OpenPieces(e), AfterStart(e), other, braceless);
    OpenFair(e, key, other, braceless);
    BodyFair(e, key, other, braceless);
    FairBoth(OpenPieces(t), AfterStart(t), other, braceless);
  }

  lemma OpenFair(e: Element, key: string, other: string, braceless: bool)
    requires Fair(OpenPieces(e), other, braceless) && (!UncutAttributes(e.attributes, key) ==> braceless)
    ensures Fair(OpenPieces(TrimmedElement(e, key)), other, braceless)
  {
    hide Fair, UncutAttributes, AttributesPieces, TrimmedAttributes, TrimmedItems;
    var t := TrimmedElement(e, key);
    var open, tail := [Lit("<" + e.name)], [Lit(e.tail)];
    FairBoth(open + AttributesPieces(e.attributes), tail, other, braceless);
    FairBoth(open, AttributesPieces(e.attributes), other, braceless);
    AttributesFair(e.attributes, key, other, braceless);
    FairBoth(open + AttributesPieces(t.attributes), tail, other, braceless);
    FairBoth(open, AttributesPieces(t.attributes), other, braceless);
  }

  lemma BodyFair(e: Element, key: string, other: string, braceless: bool)
    requires Fair(AfterStart(e), other, braceless) && (!Uncut([], e.items, key) ==> braceless)
    ensures Fair(AfterStart(TrimmedElement(e, key)), other, braceless)
    decreases e, 0
  {
    hide Fair, Uncut, ItemsPieces, TrimmedAttributes, TrimmedItems, CloseTag;
    var t := TrimmedElement(e, key);
    SameBody(e, key);
    if !e.closed {
      var open, close := [Lit(">")], [Lit(CloseTag(e))];
      FairBoth(open + ItemsPieces(e.items), close, other, braceless);
      FairBoth(open, ItemsPieces(e.items), other, braceless);
      NoneFair(other, braceless);
      TrimmedItemsFair([], e.items, key, other, braceless);
      FairBoth(open + ItemsPieces(t.items), close, other, braceless);
      FairBoth(open, ItemsPieces(t.items), other, braceless);
    }
  }

  /** The template can be searched: no literal has part in a spelling of the placeholder, nor, after something was
      cut, in one that the cut makes. */
  ghost predicate Settled(items: seq<Item>, key: string) {
    AllPassive(ItemsPieces(items), key) && (Uncut([], items, key) || AllSpellable(ItemsPieces(items)))
  }

  /** So can every template without opening braces in its literals. */
  lemma BracelessSettled(items: seq<Item>, key: string)
    requires AllSpellable(ItemsPieces(items))
    ensures Settled(items, key)
  {
    SpellablePassive(ItemsPieces(items), key);
  }

  lemma SettledParts(items: seq<Item>, key: string)
    requires Settled(items, key)
    ensures PartsPassive(ItemsTrimmed([], items, key), key)
    ensures AllPassive(ItemsPieces(Cleared(items, key, true)), key)
  {
    hide ItemsTrimmed, Uncut, PartsPassive, AllPassive, AllSpellable, TrimmedItems;
    var braceless := !Uncut([], items, key);
    NoneFair(key, braceless);
    ItemsTrimmedPassive([], items, key, braceless);
    TrimmedItemsFair([], items, key, key, braceless);
  }
}
