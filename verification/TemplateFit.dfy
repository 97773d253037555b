/** The range finders see a printed template as it is marked: every whole-value attribute and
    whole-body element is found, and nothing else can be removed. */
module TemplateFit {
  import opened Text
  import opened Template
  import opened TemplateText
  import opened TemplateTree
  import Escape

  // Positions.

  lemma {:induction false} BackOverSpace(before: string, s: string, after: string)
    requires AllSpace(s)
    requires before == "" || !IsAsciiSpace(before[|before| - 1])
    ensures BeforeSpace(before + s + after, |before + s|) == |before|
    decreases |s|
  {
    SpaceBytes(s);
    hide IsAsciiSpace;
    if s != "" {
      var s1, last := s[..|s| - 1], s[|s| - 1..];
      BackOverSpace(before, s1, last + after);
      Regroup(before, s1, last);
      Regroup(before + s1, last, after);
      assert s1 + last == s;
      assert (before + s + after)[|before + s1|] == s[|s| - 1];
    } else {
      assert before != "" ==> (before + s + after)[|before| - 1] == before[|before| - 1];
    }
  }

  lemma {:induction false} BackOverName(before: string, s: string, after: string)
    requires forall i :: 0 <= i < |s| ==> IsNameByte(s[i])
    requires before == "" || !IsNameByte(before[|before| - 1])
    ensures BeforeName(before + s + after, |before + s|) == |before|
    decreases |s|
  {
    hide IsNameByte;
    if s != "" {
      var s1, last := s[..|s| - 1], s[|s| - 1..];
      BackOverName(before, s1, last + after);
      Regroup(before, s1, last);
      Regroup(before + s1, last, after);
      assert s1 + last == s;
      assert (before + s + after)[|before + s1|] == s[|s| - 1];
    } else {
      assert before != "" ==> (before + s + after)[|before| - 1] == before[|before| - 1];
    }
  }

  predicate EndsName(c: char) { IsAsciiSpace(c) || c == '/' || c == '>' }

  lemma {:induction false} OverName(before: string, s: string, after: string)
    requires forall i :: 0 <= i < |s| ==> IsNameByte(s[i])
    requires after != "" && EndsName(after[0])
    ensures AfterName(before + s + after, |before|) == |before + s|
    decreases |s|
  {
    if s != "" {
      var first, s1 := s[..1], s[1..];
      OverName(before + first, s1, after);
      assert first + s1 == s;
      assert before + first + s1 + after == before + s + after;
      assert (before + s + after)[|before|] == s[0];
    } else {
      assert (before + s + after)[|before|] == after[0];
    }
  }

  lemma LastIndexIs(before: string, c: char, s: string)
    requires c !in s
    ensures LastIndex(before + [c] + s, c) == Some(|before|)
  {
    var text := before + [c] + s;
    assert text[|before|] == c;
    assert forall i :: |before| < i < |text| ==> text[i] == s[i - |before| - 1];
  }

  /** The finder names exactly a whole-value attribute and the white space in front of it. */
  lemma AttributeRangeIs(before: string, a: Attribute, needle: string, after: string)
    requires WellFormedAttribute(a) && needle != ""
    requires before != "" && !IsAsciiSpace(before[|before| - 1])
    ensures RangeIs(AttributeKind, before, Head(a), needle, [a.quote], after)
  {
    hide BeforeSpace, BeforeName;
    var named := before + a.space;
    var spaced := named + a.name;
    var equals := spaced + a.before + "=";
    var quoted := equals + a.after + [a.quote];
    var close := [a.quote] + after;
    var raw := quoted + needle + [a.quote] + after;
    HeadAfter(before, a);
    var at := |quoted|;
    Regroup(quoted + needle, [a.quote], after);
    assert raw[at - 1] == a.quote;
    assert raw[at + |needle|] == a.quote;

    Regroup(equals + a.after, [a.quote], needle + close);
    Regroup(quoted, needle, close);
    BackOverSpace(equals, a.after, [a.quote] + (needle + close));
    assert raw[|equals| - 1] == '=';

    var tail := "=" + a.after + [a.quote] + (needle + close);
    assert raw == spaced + a.before + tail;
    BackOverSpace(spaced, a.before, tail);
    assert raw == named + a.name + (a.before + tail);
    BackOverName(named, a.name, a.before + tail);
    assert raw == before + a.space + (a.name + (a.before + tail));
    BackOverSpace(before, a.space, a.name + (a.before + tail));
  }

  lemma HeadAfter(before: string, a: Attribute)
    ensures before + Head(a) == before + a.space + a.name + a.before + "=" + a.after + [a.quote]
  {
  }

  lemma NameBytes(name: string)
    requires IsName(name)
    ensures '<' !in name && '{' !in name && !IsAsciiSpace(name[|name| - 1]) && !IsQuote(name[|name| - 1])
    ensures name[0] != '/' && name[0] != '!' && name[0] != '?'
  {
  }

  /** What may stand between the name of a start tag and a placeholder that a `>` precedes. */
  predicate TagText(s: string) { s != "" && '<' !in s && EndsName(s[0]) && s[|s| - 1] == '>' }

  lemma NoEndTagHere(raw: string, at: nat, length: nat, close: string)
    requires 0 < at && at + length <= |raw| && close != "" && close[0] == '<'
    requires at + length == |raw| || raw[at + length] != '<'
    ensures ElementRange(raw, at, length) == None && !(close <= raw[at + length..])
  {
    hide AfterName, LastIndex;
    assert at + length < |raw| ==> raw[at + length..][0] == raw[at + length];
  }

  lemma ElementRangeAt(raw: string, at: nat, length: nat, open: nat, name: string)
    requires 0 < at && at + length <= |raw| && raw[at - 1] == '>'
    requires LastIndex(raw[..at - 1], '<') == Some(open) && open + 1 + |name| <= |raw|
    requires IsName(name) && raw[open + 1..open + 1 + |name|] == name
    requires AfterName(raw, open + 1) == open + 1 + |name|
    ensures ElementRange(raw, at, length)
         == if "</" + name + ">" <= raw[at + length..] then Some((open, at + length + |name| + 3)) else None
  {
    NameBytes(name);
    hide AfterName, LastIndex, IsName;
    var close := "</" + name + ">";
    if at + length == |raw| || raw[at + length] != '<' {
      NoEndTagHere(raw, at, length, close);
    } else {
      assert raw[open + 1] == name[0] by { assert raw[open + 1] == raw[open + 1..open + 1 + |name|][0]; }
    }
  }

  lemma StartTagAt(before: string, name: string, mid: string, tail: string)
    requires IsName(name) && TagText(mid)
    ensures var raw := before + ("<" + name + mid) + tail;
            var at := |before + ("<" + name + mid)|;
            && raw[at - 1] == '>'
            && LastIndex(raw[..at - 1], '<') == Some(|before|)
            && AfterName(raw, |before| + 1) == |before| + 1 + |name|
            && raw[|before| + 1..|before| + 1 + |name|] == name
  {
    hide AfterName, LastIndex;
    var open := "<" + name + mid;
    var raw, at := before + open + tail, |before + open|;
    NameBytes(name);
    var inner := name + mid[..|mid| - 1];
    assert raw[..at - 1] == before + ['<'] + inner;
    LastIndexIs(before, '<', inner);
    assert raw == before + "<" + name + (mid + tail);
    OverName(before + "<", name, mid + tail);
    Middle(before + "<", name, mid + tail);
  }

  /** The finder takes the last tag in front of the placeholder for a start tag, and names the text from
      there to an end tag of the same name if that follows. */
  lemma ElementRangeIs(before: string, name: string, mid: string, needle: string, after: string)
    requires IsName(name) && TagText(mid) && needle != ""
    ensures var front := before + ("<" + name + mid);
            RangeFor(ElementKind, front + needle + after, |front|, |needle|)
            == if "</" + name + ">" <= after then Some((|before|, |front + needle| + |name| + 3)) else None
  {
    hide AfterName, LastIndex, ElementRange, TagText, IsName;
    var front := before + ("<" + name + mid);
    var raw := front + needle + after;
    Regroup(front, needle, after);
    StartTagAt(before, name, mid, needle + after);
    assert raw[|front| + |needle|..] == after;
    ElementRangeAt(raw, |front|, |needle|, |before|, name);
  }

  // Placeholders that stay.

  /** No attribute ends here: the placeholder is not between equal quotes. */
  predicate QuotesApart(before: string, after: string) {
    before == "" || after == "" || !IsQuote(before[|before| - 1]) || after[0] != before[|before| - 1]
  }

  lemma ApartQuiet(before: string, needle: string, after: string)
    requires needle != "" && QuotesApart(before, after)
    ensures Unremovable(AttributeKind, before, needle, after)
  {
    hide BeforeSpace, BeforeName;
    var raw, at := before + needle + after, |before|;
    assert before != "" ==> raw[at - 1] == before[|before| - 1];
    assert after != "" ==> raw[at + |needle|] == after[0];
  }

  lemma GlyphEnds(p: Piece)
    requires PlainPiece(p)
    ensures var text := Glyphs(p);
            && text != "" && '<' !in text
            && (p.Hole? ==> text[0] == '{' && text[|text| - 1] == '}')
  {
    if p.Hole? {
      assert forall i :: 0 <= i < |p.key| ==> !Escape.IsMarkup(p.key[i]);
    }
  }

  lemma NoTagQuiet(before: string, needle: string, after: string)
    requires needle != "" && (before == "" || before[|before| - 1] != '>')
    ensures Unremovable(ElementKind, before, needle, after)
  {
    hide AfterName, LastIndex;
    var raw, at := before + needle + after, |before|;
    assert before != "" ==> raw[at - 1] == before[|before| - 1];
  }

  lemma NoEndTagQuiet(before: string, needle: string, after: string)
    requires needle != "" && !("</" <= after)
    ensures Unremovable(ElementKind, before, needle, after)
  {
    hide AfterName, LastIndex;
    assert (before + needle + after)[|before| + |needle|..] == after;
    forall name: string ensures !("</" + name + ">" <= after) {
      assert ("</" + name + ">")[0] == '<' && ("</" + name + ">")[1] == '/';
    }
  }

  /** The last tag in front of the placeholder is an end tag. */
  lemma EndTagQuiet(front: string, rest: string, needle: string, after: string)
    requires needle != "" && '<' !in rest && rest != ""
    ensures Unremovable(ElementKind, front + "</" + rest, needle, after)
  {
    hide AfterName, LastIndex;
    var before := front + "</" + rest;
    var raw, at := before + needle + after, |before|;
    var inner := "/" + rest[..|rest| - 1];
    assert raw[..at - 1] == front + ['<'] + inner;
    LastIndexIs(front, '<', inner);
    assert raw[|front| + 1] == '/';
  }

  // Attribute values.

  lemma AllPiecesOnes(ps: seq<Piece>, key: string)
    ensures Image(Ones(ps), key) == Spell(ps)
  {
    OnesPieces(ps, key);
  }

  lemma SpellTake(ps: seq<Piece>, i: nat)
    requires i < |ps|
    ensures Spell(ps[..i + 1]) == Spell(ps[..i]) + Glyphs(ps[i])
  {
    assert ps[..i + 1] == ps[..i] + [ps[i]];
    FlatMapSnoc(Glyphs, ps[..i], ps[i]);
  }

  lemma SpellFrom(ps: seq<Piece>, i: nat)
    requires i < |ps|
    ensures Spell(ps[i..]) == Glyphs(ps[i]) + Spell(ps[i + 1..])
  {
    SpellCons(ps[i..]);
  }

  /** A placeholder in an attribute value has no element range. */
  lemma ValueHole(before: string, a: Attribute, i: nat, key: string, after: string)
    requires WellFormedAttribute(a) && i < |a.value| && a.value[i] == Hole(key)
    ensures Unremovable(ElementKind, before, Needle(key), Spell(a.value[i + 1..]) + ([a.quote] + after))
  {
    hide Unremovable, Spell;
    var ps, back := a.value, Spell(a.value[i + 1..]) + ([a.quote] + after);
    if i == |ps| - 1 {
      assert ps[i + 1..] == [] && Spell([]) == "" by { NoSpell(); }
      assert back == [a.quote] + after;
    } else {
      SpellFrom(ps, i + 1);
      GlyphEnds(ps[i + 1]);
      Regroup(Glyphs(ps[i + 1]), Spell(ps[i + 2..]), [a.quote] + after);
      assert back[0] == Glyphs(ps[i + 1])[0];
    }
    assert back[0] != '<' && "</"[0] == '<';
    NoEndTagQuiet(before, Needle(key), back);
  }

  lemma NoSpell()
    ensures Spell([]) == ""
  {
  }

  lemma {:induction false} ValueFits(before: string, a: Attribute, i: nat, key: string, after: string)
    requires WellFormedAttribute(a) && i <= |a.value|
    ensures AllFit(ElementKind, before + Spell(a.value[..i]), Ones(a.value[i..]), key, [a.quote] + after)
    decreases |a.value| - i
  {
    if i < |a.value| {
      hide Unremovable, WellFormedAttribute, Spell, AllFit;
      var ps := a.value;
      var parts := Ones(ps[i..]);
      assert parts[0] == One(ps[i]) && parts[1..] == Ones(ps[i + 1..]);
      SpellTake(ps, i);
      Regroup(before, Spell(ps[..i]), Glyphs(ps[i]));
      ValueFits(before, a, i + 1, key, after);
      AllPiecesOnes(ps[i + 1..], key);
      SpellOne(ps[i]);
      if ps[i] == Hole(key) {
        ValueHole(before + Spell(ps[..i]), a, i, key, after);
      }
      FitHead(ElementKind, before + Spell(ps[..i]), parts, key, [a.quote] + after);
    }
  }

  lemma SpellOne(p: Piece)
    ensures Spell([p]) == Glyphs(p)
  {
    FlatMapOne(Glyphs, p);
  }

  lemma LiteralFits(kind: Kind, before: string, text: string, key: string, after: string)
    ensures AllFit(kind, before, [One(Lit(text))], key, after)
    ensures Image([One(Lit(text))], key) == text
  {
    assert [One(Lit(text))][1..] == [];
    OnePart(One(Lit(text)), key);
    FlatMapOne(Glyphs, Lit(text));
  }

  lemma OnePartFits(kind: Kind, before: string, part: Part, key: string, after: string)
    requires Fits(kind, before, part, key, after)
    ensures AllFit(kind, before, [part], key, after)
  {
    hide Fits;
    FitHead(kind, before, [part], key, after);
    assert [part][1..] == [];
    assert Image([], key) + after == after;
  }

  /** A literal, then parts, then a literal. */
  lemma FramedFits(kind: Kind, before: string, open: string, middle: seq<Part>, close: string, key: string,
                   after: string)
    requires AllFit(kind, before + open, middle, key, close + after)
    ensures AllFit(kind, before, [One(Lit(open))] + middle + [One(Lit(close))], key, after)
  {
    hide AllFit, Image;
    var first, last := [One(Lit(open))], [One(Lit(close))];
    LiteralFits(kind, before, open, key, Image(middle, key) + (close + after));
    FitConcat(kind, before, first, middle, key, close + after);
    LiteralFits(kind, before + Image(first + middle, key), close, key, after);
    FitConcat(kind, before, first + middle, last, key, after);
  }

  // Attributes.

  lemma {:induction false} OnesConcat(ps: seq<Piece>, qs: seq<Piece>)
    ensures Ones(ps + qs) == Ones(ps) + Ones(qs)
  {
    if ps == [] {
      assert ps + qs == qs;
    } else {
      OnesConcat(ps[1..], qs);
      var both := ps + qs;
      assert both[0] == ps[0] && both[1..] == ps[1..] + qs;
      Regroup([One(ps[0])], Ones(ps[1..]), Ones(qs));
    }
  }

  lemma OnesFramed(open: Piece, ps: seq<Piece>, close: Piece)
    ensures Ones([open] + ps + [close]) == [One(open)] + Ones(ps) + [One(close)]
  {
    OnesConcat([open] + ps, [close]);
    OnesConcat([open], ps);
    assert [open][1..] == [] && [close][1..] == [];
  }

  lemma AttributeSpelled(a: Attribute)
    ensures Spell(AttributePieces(a)) == Head(a) + Spell(a.value) + [a.quote]
  {
    FlatMapConcat(Glyphs, [Lit(Head(a))] + a.value, [Lit([a.quote])]);
    FlatMapConcat(Glyphs, [Lit(Head(a))], a.value);
    FlatMapOne(Glyphs, Lit(Head(a)));
    FlatMapOne(Glyphs, Lit([a.quote]));
  }

  lemma AttributeFits(before: string, a: Attribute, key: string, after: string)
    requires WellFormedAttribute(a)
    ensures AllFit(ElementKind, before, Ones(AttributePieces(a)), key, after)
  {
    hide AllFit, PlainPieces, AllSpace, IsName, Delimited;
    var front := before + Head(a);
    ValueFits(front, a, 0, key, after);
    assert a.value[..0] == [] && a.value[0..] == a.value && front + Spell([]) == front;
    OnesFramed(Lit(Head(a)), a.value, Lit([a.quote]));
    FramedFits(ElementKind, before, Head(a), Ones(a.value), [a.quote], key, after);
  }

  lemma EndsQuoted(before: string, a: Attribute)
    requires WellFormedAttribute(a)
    ensures var next := before + Spell(AttributePieces(a)); next != "" && !IsAsciiSpace(next[|next| - 1])
  {
    hide Head, Spell;
    AttributeSpelled(a);
    var next := before + (Head(a) + Spell(a.value) + [a.quote]);
    assert next[|next| - 1] == a.quote;
  }

  ghost predicate AllWellFormed(attributes: seq<Attribute>) {
    forall i :: 0 <= i < |attributes| ==> WellFormedAttribute(attributes[i])
  }

  lemma {:induction false} AttributesFit(before: string, attributes: seq<Attribute>, key: string, after: string)
    requires AllWellFormed(attributes)
    ensures AllFit(ElementKind, before, AttributesParts(attributes), key, after)
    decreases |attributes|
  {
    if attributes != [] {
      var own, rest := Ones(AttributePieces(attributes[0])), AttributesParts(attributes[1..]);
      assert WellFormedAttribute(attributes[0]) && AllWellFormed(attributes[1..]);
      assert AttributesParts(attributes) == own + rest;
      hide AllFit, AttributesParts, AttributePieces, Spell, WellFormedAttribute, AllWellFormed, Image, Ones;
      AttributeFits(before, attributes[0], key, Image(rest, key) + after);
      AllPiecesOnes(AttributePieces(attributes[0]), key);
      AttributesFit(before + Image(own, key), attributes[1..], key, after);
      FitConcat(ElementKind, before, own, rest, key, after);
    }
  }

  lemma OpenFits(before: string, e: Element, key: string, after: string)
    requires WellFormedElement(e)
    ensures AllFit(ElementKind, before, OpenParts(e), key, after)
  {
    hide AllFit;
    var open := "<" + e.name;
    AttributesFit(before + open, e.attributes, key, e.tail + after);
    FramedFits(ElementKind, before, open, AttributesParts(e.attributes), e.tail, key, after);
  }

  lemma {:induction false} PlainOpens(ps: seq<Piece>)
    requires PlainPieces(ps)
    ensures '<' !in Spell(ps)
  {
    if ps != [] {
      PlainOpens(ps[1..]);
      GlyphEnds(ps[0]);
    }
  }

  lemma AttributeOpens(a: Attribute)
    requires WellFormedAttribute(a)
    ensures var text := Spell(AttributePieces(a)); '<' !in text && text != "" && IsAsciiSpace(text[0])
  {
    AttributeSpelled(a);
    PlainOpens(a.value);
    NameBytes(a.name);
    assert Head(a)[0] == a.space[0];
  }

  lemma {:induction false} AttributesOpen(attributes: seq<Attribute>, tail: string)
    requires AllWellFormed(attributes) && AllSpace(tail)
    ensures var text := Spell(AttributesPieces(attributes)) + tail;
            '<' !in text && (text == "" || EndsName(text[0]))
    decreases |attributes|
  {
    if attributes != [] {
      var a, rest := attributes[0], attributes[1..];
      assert WellFormedAttribute(a);
      AttributeOpens(a);
      AttributesOpen(rest, tail);
      FlatMapConcat(Glyphs, AttributePieces(a), AttributesPieces(rest));
      Regroup(Spell(AttributePieces(a)), Spell(AttributesPieces(rest)), tail);
    }
  }

  lemma OpenSpelled(e: Element)
    ensures Spell(OpenPieces(e)) == "<" + e.name + (Spell(AttributesPieces(e.attributes)) + e.tail)
  {
    var open, pieces := "<" + e.name, AttributesPieces(e.attributes);
    FlatMapConcat(Glyphs, [Lit(open)] + pieces, [Lit(e.tail)]);
    FlatMapConcat(Glyphs, [Lit(open)], pieces);
    FlatMapOne(Glyphs, Lit(open));
    FlatMapOne(Glyphs, Lit(e.tail));
    Regroup(open, Spell(pieces), e.tail);
  }

  /** What follows the name in a start tag and the pieces behind it. */
  function AfterTagName(o: Element, ps: seq<Piece>): string {
    Spell(AttributesPieces(o.attributes)) + o.tail + TagClose(o) + Spell(ps)
  }

  lemma LureSpelled(o: Element, ps: seq<Piece>)
    ensures Spell(Lure(o, ps)) == "<" + o.name + AfterTagName(o, ps)
    ensures Spell(Lure(o, ps)) == Spell(OpenPieces(o)) + TagClose(o) + Spell(ps)
  {
    hide Spell;
    var end := [Lit(TagClose(o))];
    SpellConcat(OpenPieces(o), end + ps);
    SpellConcat(end, ps);
    SpellOne(Lit(TagClose(o)));
    OpenSpelled(o);
    Regroup(Spell(OpenPieces(o)), TagClose(o), Spell(ps));
    Regroup("<" + o.name, Spell(AttributesPieces(o.attributes)) + o.tail, TagClose(o) + Spell(ps));
    Regroup(Spell(AttributesPieces(o.attributes)) + o.tail, TagClose(o), Spell(ps));
  }

  lemma SpellConcat(ps: seq<Piece>, qs: seq<Piece>)
    ensures Spell(ps + qs) == Spell(ps) + Spell(qs)
  {
    FlatMapConcat(Glyphs, ps, qs);
  }

  lemma LureIsTag(o: Element, ps: seq<Piece>)
    requires AllWellFormed(o.attributes) && AllSpace(o.tail) && PlainPieces(ps) && TagEnd(ps)
    ensures TagText(AfterTagName(o, ps))
  {
    hide Spell;
    var open := Spell(AttributesPieces(o.attributes)) + o.tail;
    AttributesOpen(o.attributes, o.tail);
    PlainOpens(ps);
    var mid := open + TagClose(o) + Spell(ps);
    assert open != "" ==> mid[0] == open[0];
    if ps == [] {
      NoSpell();
      assert mid == open + TagClose(o);
    } else {
      var n := |ps| - 1;
      SpellTake(ps, n);
      assert ps[..n + 1] == ps;
      assert mid[|mid| - 1] == Spell(ps)[|Spell(ps)| - 1];
    }
  }

  lemma {:induction false} AttributesMention(attributes: seq<Attribute>, key: string)
    requires MentionsKey(attributes, key)
    ensures !Lacks(AttributesPieces(attributes), key)
  {
    var i :| 0 <= i < |attributes| && !Lacks(attributes[i].value, key);
    var first, rest := AttributePieces(attributes[0]), AttributesPieces(attributes[1..]);
    if i == 0 {
      var j :| 0 <= j < |attributes[0].value| && attributes[0].value[j] == Hole(key);
      assert first[j + 1] == Hole(key);
      assert (first + rest)[j + 1] == Hole(key);
    } else {
      assert attributes[1..][i - 1] == attributes[i];
      AttributesMention(attributes[1..], key);
      var j :| 0 <= j < |rest| && rest[j] == Hole(key);
      assert (first + rest)[|first| + j] == Hole(key);
    }
  }

  lemma HoleOccurs(ps: seq<Piece>, key: string, before: string, after: string) returns (i: nat)
    requires !Lacks(ps, key)
    ensures |before| <= i && i + |Needle(key)| <= |before + Spell(ps)|
    ensures OccursAt(before + Spell(ps) + after, Needle(key), i)
  {
    var j :| 0 <= j < |ps| && ps[j] == Hole(key);
    var front, back := Spell(ps[..j]), Spell(ps[j + 1..]);
    SpellAround(ps[..j], key, ps[j + 1..]);
    assert ps == ps[..j] + [Hole(key)] + ps[j + 1..];
    i := |before + front|;
    Regroup(front, Needle(key), back);
    Regroup(before, front, Needle(key) + back);
    Regroup(before + front, Needle(key) + back, after);
    Regroup(Needle(key), back, after);
    Regroup(before + front, Needle(key), back + after);
    Middle(before + front, Needle(key), back + after);
  }

  lemma OpenMentions(e: Element, key: string)
    requires MentionsKey(e.attributes, key)
    ensures !Lacks(OpenPieces(e), key)
  {
    AttributesMention(e.attributes, key);
    var ps := AttributesPieces(e.attributes);
    var j :| 0 <= j < |ps| && ps[j] == Hole(key);
    assert OpenPieces(e)[j + 1] == Hole(key);
  }

  lemma LureMentions(o: Element, ps: seq<Piece>, key: string)
    requires MentionsKey(o.attributes, key) || !Lacks(ps, key)
    ensures !Lacks(Lure(o, ps), key)
  {
    hide OpenPieces;
    var open := OpenPieces(o);
    if MentionsKey(o.attributes, key) {
      OpenMentions(o, key);
      var j :| 0 <= j < |open| && open[j] == Hole(key);
      assert Lure(o, ps)[j] == Hole(key);
    } else {
      var j :| 0 <= j < |ps| && ps[j] == Hole(key);
      assert Lure(o, ps)[|open| + 1 + j] == Hole(key);
    }
  }

  /** The range of a placeholder behind a tag that mentions it too begins before the search. */
  lemma PassedTag(front: string, o: Element, ps: seq<Piece>, key: string, after: string)
    requires IsName(o.name) && AllWellFormed(o.attributes) && AllSpace(o.tail) && PlainPieces(ps) && TagEnd(ps)
    requires MentionsKey(o.attributes, key) || !Lacks(ps, key)
    ensures Unremovable(ElementKind, front + Spell(Lure(o, ps)), Needle(key), after)
  {
    hide RangeFor, Spell, Lacks, TagText, AfterTagName, TagEnd, IsName, PlainPieces, AllSpace, MentionsKey, Lure;
    LureIsTag(o, ps);
    LureSpelled(o, ps);
    LureMentions(o, ps, key);
    ElementRangeIs(front, o.name, AfterTagName(o, ps), Needle(key), after);
    var i := HoleOccurs(Lure(o, ps), key, front, Needle(key) + after);
    Regroup(front + Spell(Lure(o, ps)), Needle(key), after);
  }

  /** The range of a placeholder behind another element's tag is none. */
  lemma OtherTag(front: string, o: Element, ps: seq<Piece>, key: string, name: string, after: string)
    requires IsName(o.name) && AllWellFormed(o.attributes) && AllSpace(o.tail) && PlainPieces(ps) && TagEnd(ps)
    requires IsName(name) && o.name != name
    ensures Unremovable(ElementKind, front + Spell(Lure(o, ps)), Needle(key), "</" + name + ">" + after)
  {
    hide RangeFor, Spell, TagText, AfterTagName, TagEnd, PlainPieces, AllSpace, Lure;
    LureIsTag(o, ps);
    LureSpelled(o, ps);
    EndTagsDiffer(o.name, name, after);
    ElementRangeIs(front, o.name, AfterTagName(o, ps), Needle(key), "</" + name + ">" + after);
  }

  lemma EndTagsDiffer(a: string, b: string, after: string)
    requires IsName(a) && IsName(b) && a != b
    ensures !("</" + a + ">" <= "</" + b + ">" + after)
  {
    var x, y := "</" + a + ">", "</" + b + ">" + after;
    if |a| < |b| {
      assert x[|a| + 2] == '>' && y[|a| + 2] == b[|a|];
    } else if |b| < |a| {
      assert x[|b| + 2] == a[|b|] && y[|b| + 2] == '>';
    } else {
      var i :| 0 <= i < |a| && a[i] != b[i];
      assert x[i + 2] == a[i] && y[i + 2] == b[i];
    }
  }
}
