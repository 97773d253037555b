/** The finder of attributes sees a printed template as it is marked: it finds every whole-value attribute,
    and what reads like one in text or in the value of another, and nothing else. */
module TemplateTrim {
  import opened Text
  import opened Template
  import opened TemplateText
  import opened TemplateTree
  import opened TemplateFit
  import opened TemplateItems

  // Text in front of a placeholder.

  /** No white space, name or equals sign runs over the end of this text. */
  predicate Barred(before: string) {
    before == "" || (var c := before[|before| - 1]; !IsAsciiSpace(c) && !IsNameByte(c) && c != '=')
  }

  lemma {:induction false} SpaceLocal(before: string, s: string, after: string, i: nat)
    requires Barred(before) && i <= |s|
    ensures BeforeSpace(before + s + after, |before| + i) == |before| + BeforeSpace(s, i)
  {
    var raw := before + s + after;
    if i > 0 {
      assert raw[|before| + i - 1] == s[i - 1];
      if IsAsciiSpace(s[i - 1]) {
        SpaceLocal(before, s, after, i - 1);
      }
    } else {
      assert before != "" ==> raw[|before| - 1] == before[|before| - 1];
    }
  }

  lemma {:induction false} NameLocal(before: string, s: string, after: string, i: nat)
    requires Barred(before) && i <= |s|
    ensures BeforeName(before + s + after, |before| + i) == |before| + BeforeName(s, i)
  {
    var raw := before + s + after;
    if i > 0 {
      assert raw[|before| + i - 1] == s[i - 1];
      if IsNameByte(s[i - 1]) {
        NameLocal(before, s, after, i - 1);
      }
    } else {
      assert before != "" ==> raw[|before| - 1] == before[|before| - 1];
    }
  }

  lemma CharLocal(before: string, s: string, after: string, i: nat)
    requires Barred(before) && i <= |s|
    ensures var raw := before + s + after;
            |before| + i > 0 && raw[|before| + i - 1] == '=' <==> i > 0 && s[i - 1] == '='
  {
    var raw := before + s + after;
    if i > 0 {
      assert raw[|before| + i - 1] == s[i - 1];
    } else {
      assert before != "" ==> raw[|before| - 1] == before[|before| - 1];
    }
  }

  /** Behind such text the finder needs no more than the text up to the placeholder. */
  lemma AssignedHere(before: string, held: string, needle: string, rest: string)
    requires Barred(before) && held != "" && IsQuote(held[|held| - 1])
    requires rest != "" && rest[0] == held[|held| - 1]
    ensures AttributeRange(before + held + (needle + rest), |before + held|, |needle|)
         == match Assigned(held)
            case None => None
            case Some(n) => Some((|before| + n, |before + held| + |needle| + 1))
  {
    hide BeforeSpace, BeforeName, IsNameByte, IsAsciiSpace;
    var after := needle + rest;
    var raw, at := before + held + after, |before + held|;
    assert raw[at - 1] == held[|held| - 1];
    assert raw[at + |needle|] == rest[0];
    SpaceLocal(before, held, after, |held| - 1);
    var equals := BeforeSpace(held, |held| - 1);
    CharLocal(before, held, after, equals);
    if equals > 0 {
      SpaceLocal(before, held, after, equals - 1);
      var nameEnd := BeforeSpace(held, equals - 1);
      NameLocal(before, held, after, nameEnd);
      SpaceLocal(before, held, after, BeforeName(held, nameEnd));
    }
  }

  lemma UnassignedStays(before: string, held: string, needle: string, rest: string)
    requires Barred(before) && held != "" && needle != ""
    requires Assigned(held) == None || rest == "" || rest[0] != held[|held| - 1]
    ensures Unremovable(AttributeKind, before + held, needle, rest)
  {
    hide AttributeRange, Assigned, Crossed, Barred;
    var front := before + held;
    assert front[|front| - 1] == held[|held| - 1];
    if QuotesApart(front, rest) {
      ApartQuiet(front, needle, rest);
    } else {
      Regroup(front, needle, rest);
      AssignedHere(before, held, needle, rest);
    }
  }

  /** A text with a quote at its end, but no equals sign in front of it, is no beginning of an attribute. */
  predicate Quiet(before: string) {
    before == "" || !IsQuote(before[|before| - 1])
    || (|before| > 1 && before[|before| - 2] == '}')
  }

  lemma QuietStays(before: string, needle: string, rest: string)
    requires Quiet(before) && needle != ""
    ensures Unremovable(AttributeKind, before, needle, rest)
  {
    hide BeforeName;
    if QuotesApart(before, rest) {
      ApartQuiet(before, needle, rest);
    } else {
      var raw, at := before + needle + rest, |before|;
      assert raw[at - 1] == before[at - 1] && raw[at - 2] == '}';
      assert BeforeSpace(raw, at - 1) == at - 1;
    }
  }

  // A run of texts and placeholders.

  function TrimmedParts(held: string, ps: seq<Piece>, key: string): seq<Part>
    decreases |ps|
  {
    if ps == [] then Ones(Literal(held))
    else if ps[0].Lit? then TrimmedParts(held + ps[0].text, ps[1..], key)
    else if ps[0].key == key && Mimics(held, ps[1..]) then
      Ones(Literal(held[..Assigned(held).value]))
      + ([Around([Lit(held[Assigned(held).value..])], [Lit(ps[1].text[..1])])]
         + TrimmedParts(ps[1].text[1..], ps[2..], key))
    else Ones(Literal(held)) + ([One(ps[0])] + TrimmedParts("", ps[1..], key))
  }

  lemma LiteralImage(held: string, key: string)
    ensures Image(Ones(Literal(held)), key) == held && Kept(Ones(Literal(held))) == Literal(held)
  {
    OnesPieces(Literal(held), key);
    SpellOne(Lit(held));
    NoSpell();
  }

  lemma ThreeParts(lead: seq<Part>, part: Part, rest: seq<Part>, key: string)
    ensures Image(lead + ([part] + rest), key)
         == Image(lead, key) + (Spell(Pieces(part, key)) + Image(rest, key))
    ensures Kept(lead + ([part] + rest)) == Kept(lead) + ((if part.One? then [part.piece] else []) + Kept(rest))
  {
    hide Image;
    ImageConcat(lead, [part] + rest, key);
    ImageCons([part] + rest, key);
    assert ([part] + rest)[1..] == rest;
    KeptConcat(lead, [part] + rest);
    KeptConcat([part], rest);
    OnePart(part, key);
  }

  lemma {:induction false} TrimmedPartsPieces(held: string, ps: seq<Piece>, key: string)
    ensures Image(TrimmedParts(held, ps, key), key) == held + Spell(ps)
    ensures Kept(TrimmedParts(held, ps, key)) == Trimmed(held, ps, key)
    decreases |ps|
  {
    hide Image, Kept, Spell, Assigned, Glyphs, Ones, Literal;
    NoSpell();
    if ps == [] {
      LiteralImage(held, key);
      assert held + "" == held;
    } else {
      SpellCons(ps);
      if ps[0].Lit? {
        TrimmedPartsPieces(held + ps[0].text, ps[1..], key);
        LitGlyphs(ps[0]);
        Regroup(held, ps[0].text, Spell(ps[1..]));
      } else if ps[0].key == key && Mimics(held, ps[1..]) {
        CutPieces(held, ps, key);
      } else {
        TrimmedPartsPieces("", ps[1..], key);
        LiteralImage(held, key);
        ThreeParts(Ones(Literal(held)), One(ps[0]), TrimmedParts("", ps[1..], key), key);
        SpellOne(ps[0]);
        assert "" + Spell(ps[1..]) == Spell(ps[1..]);
        assert Pieces(One(ps[0]), key) == [ps[0]];
      }
    }
  }

  lemma LitGlyphs(p: Piece)
    requires p.Lit?
    ensures Glyphs(p) == p.text
  {
  }

  /** The text around a cut. */
  lemma CutText(held: string, ps: seq<Piece>, key: string)
    requires ps != [] && ps[0] == Hole(key) && Mimics(held, ps[1..])
    ensures var n := Assigned(held).value;
            && ps[1] == Lit(ps[1].text) && ps[1..][0] == ps[1] && ps[1].text == ps[1].text[..1] + ps[1].text[1..]
            && held == held[..n] + held[n..] && ps[1].text[..1] == [held[|held| - 1]]
            && Spell(ps) == Needle(key) + (ps[1].text[..1] + (ps[1].text[1..] + Spell(ps[2..])))
  {
    hide Assigned, Spell;
    SpellCons(ps);
    SpellCons(ps[1..]);
    assert ps[1..][1..] == ps[2..];
    Regroup(ps[1].text[..1], ps[1].text[1..], Spell(ps[2..]));
  }

  lemma CutPieces(held: string, ps: seq<Piece>, key: string)
    requires ps != [] && ps[0] == Hole(key) && Mimics(held, ps[1..])
    ensures Image(TrimmedParts(held, ps, key), key) == held + Spell(ps)
    ensures Kept(TrimmedParts(held, ps, key)) == Trimmed(held, ps, key)
    decreases |ps|, 0
  {
    hide Image, Kept, Spell, Assigned, Glyphs, Ones, Literal;
    CutText(held, ps, key);
    var n := Assigned(held).value;
    var close, rest := ps[1].text[..1], ps[1].text[1..];
    var part, tail := Around([Lit(held[n..])], [Lit(close)]), TrimmedParts(rest, ps[2..], key);
    TrimmedPartsPieces(rest, ps[2..], key);
    LiteralImage(held[..n], key);
    ThreeParts(Ones(Literal(held[..n])), part, tail, key);
    SpellAround([Lit(held[n..])], key, [Lit(close)]);
    SpellOne(Lit(held[n..]));
    SpellOne(Lit(close));
    LitGlyphs(Lit(held[n..]));
    LitGlyphs(Lit(close));
    var back := rest + Spell(ps[2..]);
    Regroup(held[n..] + Needle(key), close, back);
    Regroup(held[n..], Needle(key), close + back);
    Regroup(held[..n], held[n..], Needle(key) + (close + back));
  }

  /** What follows does not begin with a character of the run. */
  predicate Closed(held: string, ps: seq<Piece>, after: string) {
    after != "" ==> after[0] !in held && Delimited(ps, after[0])
  }

  /** A placeholder at the beginning of the run has no range. */
  ghost predicate FirstStays(before: string, held: string, ps: seq<Piece>, key: string, after: string) {
    held == "" && ps != [] && ps[0] == Hole(key) ==>
      Unremovable(AttributeKind, before, Needle(key), Spell(ps[1..]) + after)
  }

  lemma LiteralPartsFit(before: string, held: string, key: string, after: string)
    ensures AllFit(AttributeKind, before, Ones(Literal(held)), key, after)
    ensures before + Image(Ones(Literal(held)), key) == before + held
  {
    LiteralImage(held, key);
    if held != "" {
      LiteralFits(AttributeKind, before, held, key, after);
      assert [Lit(held)][1..] == [];
    }
  }

  /** The literal in front, one part, and the rest. */
  lemma ThreeFit(before: string, lead: string, part: Part, rest: seq<Part>, key: string, after: string)
    requires Fits(AttributeKind, before + lead, part, key, Image(rest, key) + after)
    requires AllFit(AttributeKind, before + lead + Spell(Pieces(part, key)), rest, key, after)
    ensures AllFit(AttributeKind, before, Ones(Literal(lead)) + ([part] + rest), key, after)
  {
    hide AllFit, Fits, Image, Ones, Literal;
    var back := [part] + rest;
    assert back[0] == part && back[1..] == rest;
    FitHead(AttributeKind, before + lead, back, key, after);
    LiteralPartsFit(before, lead, key, Image(back, key) + after);
    FitConcat(AttributeKind, before, Ones(Literal(lead)), back, key, after);
  }

  lemma {:induction false} TrimmedFits(before: string, held: string, ps: seq<Piece>, key: string, after: string)
    requires PlainPieces(ps) && Barred(before) && Closed(held, ps, after) && FirstStays(before, held, ps, key, after)
    ensures AllFit(AttributeKind, before, TrimmedParts(held, ps, key), key, after)
    decreases |ps|
  {
    hide AllFit, Assigned, Barred, Unremovable, Spell, Ones, Literal;
    if ps == [] {
      LiteralPartsFit(before, held, key, after);
    } else {
      assert PlainPiece(ps[0]);
      RestPlain(ps, after);
      if ps[0].Lit? {
        TrimmedFits(before, held + ps[0].text, ps[1..], key, after);
      } else if ps[0].key == key && Mimics(held, ps[1..]) {
        CutFits(before, held, ps, key, after);
      } else {
        HoleFits(before, held, ps, key, after);
      }
    }
  }

  lemma RestPlain(ps: seq<Piece>, after: string)
    requires PlainPieces(ps) && ps != []
    ensures PlainPieces(ps[1..])
    ensures after != "" && Delimited(ps, after[0]) ==> Delimited(ps[1..], after[0])
    ensures after != "" && Delimited(ps, after[0]) && ps[0].Lit? ==> after[0] !in ps[0].text
  {
    hide PlainPiece;
  }

  /** The first character behind a placeholder. */
  lemma BehindHole(held: string, ps: seq<Piece>, after: string)
    requires PlainPieces(ps) && held != "" && Closed(held, ps, after) && !Mimics(held, ps)
    ensures var rest := Spell(ps) + after; Assigned(held) == None || rest == "" || rest[0] != held[|held| - 1]
  {
    hide Spell, Assigned;
    if ps == [] {
      NoSpell();
      assert Spell(ps) + after == after;
    } else {
      assert PlainPiece(ps[0]);
      GlyphEnds(ps[0]);
      SpellCons(ps);
      var rest := Spell(ps) + after;
      assert rest[0] == Glyphs(ps[0])[0];
      QuotedEnd(held);
    }
  }

  lemma QuotedEnd(held: string)
    ensures Assigned(held).Some? ==> IsQuote(held[|held| - 1])
  {
  }

  lemma HoleFits(before: string, held: string, ps: seq<Piece>, key: string, after: string)
    requires PlainPieces(ps) && Barred(before) && Closed(held, ps, after) && FirstStays(before, held, ps, key, after)
    requires ps != [] && ps[0].Hole? && !(ps[0].key == key && Mimics(held, ps[1..]))
    ensures AllFit(AttributeKind, before, TrimmedParts(held, ps, key), key, after)
    decreases |ps|, 0
  {
    hide AllFit, Assigned, Unremovable, Spell, Ones, Literal, Mimics;
    var next := before + held + Needle(ps[0].key);
    assert PlainPiece(ps[0]);
    RestPlain(ps, after);
    assert next[|next| - 1] == '}';
    NextStays(next, ps[1..], key, after);
    TrimmedFits(next, "", ps[1..], key, after);
    TrimmedPartsPieces("", ps[1..], key);
    assert "" + Spell(ps[1..]) == Spell(ps[1..]);
    if ps[0] == Hole(key) {
      if held == "" {
        assert before + held == before;
      } else {
        BehindHole(held, ps[1..], after);
        UnassignedStays(before, held, Needle(key), Spell(ps[1..]) + after);
      }
    }
    SpellOne(ps[0]);
    assert Pieces(One(ps[0]), key) == [ps[0]];
    ThreeFit(before, held, One(ps[0]), TrimmedParts("", ps[1..], key), key, after);
  }

  lemma NextStays(next: string, ps: seq<Piece>, key: string, after: string)
    requires Quiet(next)
    ensures FirstStays(next, "", ps, key, after)
  {
    hide Unremovable, Spell;
    if ps != [] && ps[0] == Hole(key) {
      QuietStays(next, Needle(key), Spell(ps[1..]) + after);
    }
  }

  lemma CutFits(before: string, held: string, ps: seq<Piece>, key: string, after: string)
    requires PlainPieces(ps) && Barred(before) && Closed(held, ps, after)
    requires ps != [] && ps[0] == Hole(key) && Mimics(held, ps[1..])
    ensures AllFit(AttributeKind, before, TrimmedParts(held, ps, key), key, after)
    decreases |ps|, 0
  {
    hide AllFit, Assigned, Unremovable, Spell, Ones, Literal, Barred;
    CutText(held, ps, key);
    QuotedEnd(held);
    var n := Assigned(held).value;
    var close, rest := ps[1].text[..1], ps[1].text[1..];
    var part, tail := Around([Lit(held[n..])], [Lit(close)]), TrimmedParts(rest, ps[2..], key);
    var next := before + held[..n] + (held[n..] + Needle(key) + close);
    SpellAround([Lit(held[n..])], key, [Lit(close)]);
    SpellOne(Lit(held[n..]));
    SpellOne(Lit(close));
    TrimmedPartsPieces(rest, ps[2..], key);
    CutRange(before, held, key, close, rest + Spell(ps[2..]) + after);
    Regroup(close, rest + Spell(ps[2..]), after);
    CutRest(ps, after);
    assert next[|next| - 1] == close[0] && next[|next| - 2] == '}';
    QuoteBars(next);
    if rest == "" {
      NextStays(next, ps[2..], key, after);
    }
    TrimmedFits(next, rest, ps[2..], key, after);
    ThreeFit(before, held[..n], part, tail, key, after);
  }

  lemma QuoteBars(s: string)
    requires s != "" && IsQuote(s[|s| - 1])
    ensures Barred(s)
  {
  }

  lemma CutRest(ps: seq<Piece>, after: string)
    requires PlainPieces(ps) && |ps| > 1 && ps[1].Lit? && (after != "" ==> Delimited(ps, after[0]))
    ensures PlainPieces(ps[2..]) && ps[1].text != "" && Closed(ps[1].text[1..], ps[2..], after)
  {
    assert PlainPiece(ps[1]);
    assert ps[1].text == ps[1].text[..1] + ps[1].text[1..];
  }

  lemma CutRange(before: string, held: string, key: string, close: string, rest: string)
    requires Barred(before) && Assigned(held).Some? && close == [held[|held| - 1]]
    ensures var n := Assigned(held).value;
            RangeIs(AttributeKind, before + held[..n], held[n..], Needle(key), close, rest)
  {
    hide Assigned, AttributeRange, Barred;
    var n, needle := Assigned(held).value, Needle(key);
    QuotedEnd(held);
    AssignedHere(before, held, needle, close + rest);
    assert held == held[..n] + held[n..];
    Regroup(before, held[..n], held[n..]);
    var raw := before + held[..n] + held[n..] + needle + close + rest;
    Regroup(before + held + needle, close, rest);
    Regroup(before + held, needle, close + rest);
  }

  // Attributes.

  predicate IsWhole(a: Attribute, key: string) { a.value == [Hole(key)] }

  function AttributeParts(a: Attribute, key: string): seq<Part> {
    if IsWhole(a, key) then [Around([Lit(Head(a))], [Lit([a.quote])])]
    else [One(Lit(Head(a)))] + TrimmedParts("", a.value, key) + [One(Lit([a.quote]))]
  }

  function AttributeLeft(a: Attribute, key: string): seq<Attribute> {
    if IsWhole(a, key) then [] else [TrimmedAttribute(a, key)]
  }

  function AttributesTrimmed(attributes: seq<Attribute>, key: string): seq<Part> {
    if attributes == [] then [] else AttributeParts(attributes[0], key) + AttributesTrimmed(attributes[1..], key)
  }

  lemma FramedImage(open: string, middle: seq<Part>, close: string, key: string)
    ensures var parts := [One(Lit(open))] + middle + [One(Lit(close))];
            && Image(parts, key) == open + Image(middle, key) + close
            && Kept(parts) == [Lit(open)] + Kept(middle) + [Lit(close)]
  {
    hide Spell;
    Framed(One(Lit(open)), middle, One(Lit(close)), key);
    SpellConcat([Lit(open)] + AllPieces(middle, key), [Lit(close)]);
    SpellConcat([Lit(open)], AllPieces(middle, key));
    SpellOne(Lit(open));
    SpellOne(Lit(close));
  }

  lemma AttributePartsPieces(a: Attribute, key: string)
    ensures Image(AttributeParts(a, key), key) == Spell(AttributePieces(a))
    ensures Kept(AttributeParts(a, key)) == AttributesPieces(AttributeLeft(a, key))
  {
    hide Image, Spell, Head, Kept;
    AttributeSpelled(a);
    if IsWhole(a, key) {
      WholeImage(a, key);
    } else {
      TrimmedPartsPieces("", a.value, key);
      assert "" + Spell(a.value) == Spell(a.value);
      FramedImage(Head(a), TrimmedParts("", a.value, key), [a.quote], key);
      OneLeft(TrimmedAttribute(a, key));
      SameHead(a, key);
    }
  }

  lemma SameHead(a: Attribute, key: string)
    ensures Head(TrimmedAttribute(a, key)) == Head(a)
  {
  }

  lemma OneLeft(a: Attribute)
    ensures AttributesPieces([a]) == AttributePieces(a)
  {
    hide AttributePieces;
    assert [a][1..] == [];
  }

  lemma WholeImage(a: Attribute, key: string)
    requires IsWhole(a, key)
    ensures Image(AttributeParts(a, key), key) == Spell(AttributePieces(a)) && Kept(AttributeParts(a, key)) == []
  {
    hide Spell, Head;
    OnePart(AttributeParts(a, key)[0], key);
  }

  lemma {:induction false} AttributesTrimmedPieces(attributes: seq<Attribute>, key: string)
    ensures Image(AttributesTrimmed(attributes, key), key) == Spell(AttributesPieces(attributes))
    ensures Kept(AttributesTrimmed(attributes, key)) == AttributesPieces(TrimmedAttributes(attributes, key))
  {
    if attributes == [] {
      NoSpell();
    } else {
      hide Image, AttributeParts, AttributePieces, Spell, AttributeLeft, Kept;
      var own, rest := AttributeParts(attributes[0], key), AttributesTrimmed(attributes[1..], key);
      AttributePartsPieces(attributes[0], key);
      AttributesTrimmedPieces(attributes[1..], key);
      ImageConcat(own, rest, key);
      KeptConcat(own, rest);
      SpellConcat(AttributePieces(attributes[0]), AttributesPieces(attributes[1..]));
      LeftCons(attributes, key);
      AttributesPiecesConcat(AttributeLeft(attributes[0], key), TrimmedAttributes(attributes[1..], key));
    }
  }

  lemma LeftCons(attributes: seq<Attribute>, key: string)
    requires attributes != []
    ensures TrimmedAttributes(attributes, key)
         == AttributeLeft(attributes[0], key) + TrimmedAttributes(attributes[1..], key)
  {
    hide TrimmedAttribute;
  }

  lemma AttributePartsFit(before: string, a: Attribute, key: string, after: string)
    requires WellFormedAttribute(a) && before != "" && !IsAsciiSpace(before[|before| - 1])
    ensures AllFit(AttributeKind, before, AttributeParts(a, key), key, after)
  {
    hide RangeFor, AllFit, PlainPieces, AllSpace, IsName, Delimited, TrimmedParts;
    if IsWhole(a, key) {
      AttributeRangeIs(before, a, Needle(key), after);
      FlatMapOne(Glyphs, Lit(Head(a)));
      FlatMapOne(Glyphs, Lit([a.quote]));
      OnePartFits(AttributeKind, before, AttributeParts(a, key)[0], key, after);
    } else {
      var front := before + Head(a);
      assert front[|front| - 1] == a.quote;
      QuoteBars(front);
      ValueFirstStays(front, a, key, after);
      assert Closed("", a.value, [a.quote] + after);
      TrimmedFits(front, "", a.value, key, [a.quote] + after);
      FramedFits(AttributeKind, before, Head(a), TrimmedParts("", a.value, key), [a.quote], key, after);
    }
  }

  /** A placeholder at the beginning of a value that holds more. */
  lemma ValueFirstStays(front: string, a: Attribute, key: string, after: string)
    requires WellFormedAttribute(a) && !IsWhole(a, key) && front != "" && front[|front| - 1] == a.quote
    ensures FirstStays(front, "", a.value, key, [a.quote] + after)
  {
    hide Spell, Unremovable;
    var ps := a.value;
    if ps != [] && ps[0] == Hole(key) {
      var rest := Spell(ps[1..]) + ([a.quote] + after);
      assert ps[1..] != [] by { assert ps[1..] == [] ==> ps == [Hole(key)]; }
      SpellCons(ps[1..]);
      assert PlainPiece(ps[1]);
      GlyphEnds(ps[1]);
      assert rest[0] == Glyphs(ps[1])[0] && Glyphs(ps[1])[0] != a.quote;
      ApartQuiet(front, Needle(key), rest);
    }
  }

  lemma {:induction false} AttributesTrimmedFit(before: string, attributes: seq<Attribute>, key: string, after: string)
    requires AllWellFormed(attributes) && before != "" && !IsAsciiSpace(before[|before| - 1])
    ensures AllFit(AttributeKind, before, AttributesTrimmed(attributes, key), key, after)
    decreases |attributes|
  {
    if attributes != [] {
      var own, rest := AttributeParts(attributes[0], key), AttributesTrimmed(attributes[1..], key);
      assert WellFormedAttribute(attributes[0]) && AllWellFormed(attributes[1..]);
      assert AttributesTrimmed(attributes, key) == own + rest;
      hide AllFit, AttributesTrimmed, AttributeParts, AttributePieces, Spell, WellFormedAttribute, AllWellFormed, Image,
        IsAsciiSpace;
      AttributePartsFit(before, attributes[0], key, Image(rest, key) + after);
      AttributePartsPieces(attributes[0], key);
      EndsQuoted(before, attributes[0]);
      AttributesTrimmedFit(before + Image(own, key), attributes[1..], key, after);
      FitConcat(AttributeKind, before, own, rest, key, after);
    }
  }

  // Elements and items.

  function OpenTrimmed(e: Element, key: string): seq<Part> {
    [One(Lit("<" + e.name))] + AttributesTrimmed(e.attributes, key) + [One(Lit(e.tail))]
  }

  function ElementTrimmed(e: Element, key: string): seq<Part>
    decreases e, 1
  {
    OpenTrimmed(e, key) + BodyTrimmed(e, key)
  }

  function BodyTrimmed(e: Element, key: string): seq<Part>
    decreases e, 0
  {
    if e.closed then [One(Lit("/>"))]
    else [One(Lit(">"))] + ItemsTrimmed([], e.items, key) + [One(Lit(CloseTag(e)))]
  }

  function ItemTrimmed(item: Item, key: string): seq<Part> {
    match item case Words(piece) => [One(piece)] case Child(e) => ElementTrimmed(e, key)
  }

  function ItemsTrimmed(run: seq<Piece>, items: seq<Item>, key: string): seq<Part>
    decreases items
  {
    if items == [] then TrimmedParts("", run, key)
    else
      match items[0]
      case Words(piece) => ItemsTrimmed(run + [piece], items[1..], key)
      case Child(_) => TrimmedParts("", run, key) + (ItemTrimmed(items[0], key) + ItemsTrimmed([], items[1..], key))
  }

  lemma OpenTrimmedPieces(e: Element, key: string)
    ensures Image(OpenTrimmed(e, key), key) == Spell(OpenPieces(e))
    ensures Kept(OpenTrimmed(e, key)) == OpenPieces(TrimmedElement(e, key))
  {
    hide Spell, AttributesTrimmed, TrimmedAttributes, TrimmedItems;
    AttributesTrimmedPieces(e.attributes, key);
    FramedImage("<" + e.name, AttributesTrimmed(e.attributes, key), e.tail, key);
    OpenSpelled(e);
    Regroup("<" + e.name, Spell(AttributesPieces(e.attributes)), e.tail);
  }

  /** The pieces of a list behind a run. */
  lemma RunCons(run: seq<Piece>, piece: Piece, items: seq<Item>)
    ensures Spell(run + [piece]) + Print(items) == Spell(run) + Print([Words(piece)] + items)
  {
    hide Spell;
    SpellConcat(run, [piece]);
    assert ([Words(piece)] + items)[1..] == items;
    assert ItemsPieces([Words(piece)] + items) == [piece] + ItemsPieces(items);
    SpellConcat([piece], ItemsPieces(items));
    Regroup(Spell(run), Spell([piece]), Print(items));
  }

  lemma {:induction false} ItemsTrimmedPieces(run: seq<Piece>, items: seq<Item>, key: string)
    ensures Image(ItemsTrimmed(run, items, key), key) == Spell(run) + Print(items)
    ensures Kept(ItemsTrimmed(run, items, key)) == ItemsPieces(TrimmedItems(run, items, key))
    decreases items, 0
  {
    hide Image, Spell, TrimmedParts, Trimmed, ItemTrimmed, ItemPieces, TrimmedIn, Print, Kept;
    NoPrint();
    NoSpell();
    TrimmedPartsPieces("", run, key);
    WordsOfPieces(Trimmed("", run, key));
    assert "" + Spell(run) == Spell(run);
    if items == [] {
      assert Spell(run) + Print(items) == Spell(run);
    } else {
      assert items == [items[0]] + items[1..];
      match items[0]
      case Words(piece) =>
        ItemsTrimmedPieces(run + [piece], items[1..], key);
        RunCons(run, piece, items[1..]);
      case Child(e) => ChildTrimmedPieces(run, items, key);
    }
  }

  lemma PrintCons(items: seq<Item>)
    requires items != []
    ensures Print(items) == Spell(ItemPieces(items[0])) + Print(items[1..])
  {
    hide ItemPieces;
    SpellConcat(ItemPieces(items[0]), ItemsPieces(items[1..]));
  }

  lemma ChildTrimmedPieces(run: seq<Piece>, items: seq<Item>, key: string)
    requires items != [] && items[0].Child?
    ensures Image(ItemsTrimmed(run, items, key), key) == Spell(run) + Print(items)
    ensures Kept(ItemsTrimmed(run, items, key)) == ItemsPieces(TrimmedItems(run, items, key))
    decreases items, 0, 0
  {
    hide Image, Spell, TrimmedParts, Trimmed, ItemTrimmed, ItemPieces, TrimmedIn, Print, Kept, ItemsPieces;
    NoPrint();
    NoSpell();
    var lead, own, rest := TrimmedParts("", run, key), ItemTrimmed(items[0], key), ItemsTrimmed([], items[1..], key);
    TrimmedPartsPieces("", run, key);
    WordsOfPieces(Trimmed("", run, key));
    assert "" + Spell(run) == Spell(run) && "" + Print(items[1..]) == Print(items[1..]);
    ItemTrimmedPieces(items[0], key);
    ItemsTrimmedPieces([], items[1..], key);
    ImageConcat(lead, own + rest, key);
    ImageConcat(own, rest, key);
    KeptConcat(lead, own + rest);
    KeptConcat(own, rest);
    PrintCons(items);
    var left, tail := [TrimmedIn(items[0], key)], TrimmedItems([], items[1..], key);
    ItemsPiecesConcat(WordsOf(Trimmed("", run, key)), left + tail);
    ItemsPiecesConcat(left, tail);
    OneItem(left[0]);
  }

  lemma ItemTrimmedPieces(item: Item, key: string)
    requires item.Child?
    ensures Image(ItemTrimmed(item, key), key) == Spell(ItemPieces(item))
    ensures Kept(ItemTrimmed(item, key)) == ItemPieces(TrimmedIn(item, key))
    decreases item, 1
  {
    hide Image, Spell, OpenTrimmed, BodyTrimmed, OpenPieces, TrimmedElement, Kept;
    var e := item.element;
    OpenTrimmedPieces(e, key);
    BodyTrimmedPieces(e, key);
    ImageConcat(OpenTrimmed(e, key), BodyTrimmed(e, key), key);
    KeptConcat(OpenTrimmed(e, key), BodyTrimmed(e, key));
    ElementSpelled(e);
    SameBody(e, key);
  }

  function BodyText(e: Element): string { if e.closed then "/>" else ">" + Print(e.items) + CloseTag(e) }

  lemma ElementSpelled(e: Element)
    ensures Spell(ElementPieces(e)) == Spell(OpenPieces(e)) + BodyText(e)
  {
    hide Spell, OpenPieces, ItemsPieces;
    if e.closed {
      SpellConcat(OpenPieces(e), [Lit("/>")]);
      SpellOne(Lit("/>"));
    } else {
      var body := [Lit(">")] + ItemsPieces(e.items);
      SpellConcat(OpenPieces(e), body + [Lit(CloseTag(e))]);
      SpellConcat(body, [Lit(CloseTag(e))]);
      SpellConcat([Lit(">")], ItemsPieces(e.items));
      SpellOne(Lit(">"));
      SpellOne(Lit(CloseTag(e)));
    }
  }

  lemma SameBody(e: Element, key: string)
    ensures var t := TrimmedElement(e, key);
            && t.name == e.name && t.closed == e.closed && CloseTag(t) == CloseTag(e) && t.tail == e.tail
            && t.items == TrimmedItems([], e.items, key) && t.attributes == TrimmedAttributes(e.attributes, key)
  {
  }

  lemma BodyTrimmedPieces(e: Element, key: string)
    ensures Image(BodyTrimmed(e, key), key) == BodyText(e)
    ensures Kept(BodyTrimmed(e, key))
         == if e.closed then [Lit("/>")]
            else [Lit(">")] + ItemsPieces(TrimmedElement(e, key).items) + [Lit(CloseTag(e))]
    decreases e, 0
  {
    hide Image, ItemsPieces, Print, TrimmedItems, CloseTag, Kept;
    if e.closed {
      LiteralPart("/>", key);
    } else {
      ItemsTrimmedPieces([], e.items, key);
      NoSpell();
      assert "" + Print(e.items) == Print(e.items);
      FramedImage(">", ItemsTrimmed([], e.items, key), CloseTag(e), key);
    }
  }

  lemma LiteralPart(text: string, key: string)
    ensures Image([One(Lit(text))], key) == text && Kept([One(Lit(text))]) == [Lit(text)]
  {
    OnePart(One(Lit(text)), key);
    SpellOne(Lit(text));
  }

  // Items fit.

  /** The text ends a tag, or is empty. */
  predicate AtTag(before: string) { before == "" || before[|before| - 1] == '>' }

  /** The text begins a tag, or is empty. */
  predicate TagNext(after: string) { after == "" || after[0] == '<' }

  lemma RunFits(before: string, run: seq<Piece>, key: string, after: string)
    requires PlainPieces(run) && AtTag(before) && TagNext(after)
    ensures AllFit(AttributeKind, before, TrimmedParts("", run, key), key, after)
  {
    hide AllFit, Unremovable, TrimmedParts;
    assert Barred(before);
    NextStays(before, run, key, after);
    if after != "" {
      forall i | 0 <= i < |run| && run[i].Lit? ensures '<' !in run[i].text {
        assert PlainPiece(run[i]);
      }
    }
    TrimmedFits(before, "", run, key, after);
  }

  lemma {:induction false} ItemsTrimmedFit(before: string, run: seq<Piece>, items: seq<Item>, key: string,
                                           after: string)
    requires WellFormedItems(items) && PlainPieces(run) && AtTag(before) && TagNext(after)
    ensures AllFit(AttributeKind, before, ItemsTrimmed(run, items, key), key, after)
    decreases items, 0
  {
    hide AllFit, WellFormedItem, TrimmedParts, ItemTrimmed;
    if items == [] {
      RunFits(before, run, key, after);
    } else {
      assert WellFormedItem(items[0]);
      match items[0]
      case Words(piece) =>
        PlainSnoc(run, piece);
        ItemsTrimmedFit(before, run + [piece], items[1..], key, after);
      case Child(e) => ChildTrimmedFits(before, run, items, key, after);
    }
  }

  lemma PlainSnoc(run: seq<Piece>, piece: Piece)
    requires PlainPieces(run) && WellFormedItem(Words(piece))
    ensures PlainPieces(run + [piece])
  {
    hide PlainPiece;
  }

  lemma ChildTrimmedFits(before: string, run: seq<Piece>, items: seq<Item>, key: string, after: string)
    requires WellFormedItems(items) && PlainPieces(run) && AtTag(before) && TagNext(after)
    requires items != [] && items[0].Child?
    ensures AllFit(AttributeKind, before, ItemsTrimmed(run, items, key), key, after)
    decreases items, 0, 0
  {
    hide AllFit, WellFormedItem, TrimmedParts, ItemTrimmed, Image, Spell, ItemPieces, Print, ItemsTrimmed;
    var lead, own, rest := TrimmedParts("", run, key), ItemTrimmed(items[0], key), ItemsTrimmed([], items[1..], key);
    assert WellFormedItem(items[0]);
    ItemTrimmedPieces(items[0], key);
    ItemEnds(items[0]);
    var text := Spell(ItemPieces(items[0]));
    var back := Image(rest, key) + after;
    ImageConcat(own, rest, key);
    Regroup(text, Image(rest, key), after);
    assert (text + back)[0] == text[0];
    RunFits(before, run, key, Image(own + rest, key) + after);
    var next := before + Image(lead, key);
    ItemTrimmedFits(next, items[0], key, back);
    var past := next + Image(own, key);
    assert past[|past| - 1] == text[|text| - 1];
    ItemsTrimmedFit(past, [], items[1..], key, after);
    FitConcat(AttributeKind, next, own, rest, key, after);
    FitConcat(AttributeKind, before, lead, own + rest, key, after);
    assert ItemsTrimmed(run, items, key) == lead + (own + rest) by { TrimmedCons(run, items, key); }
  }

  lemma TrimmedCons(run: seq<Piece>, items: seq<Item>, key: string)
    requires items != [] && items[0].Child?
    ensures ItemsTrimmed(run, items, key)
         == TrimmedParts("", run, key) + (ItemTrimmed(items[0], key) + ItemsTrimmed([], items[1..], key))
  {
    hide TrimmedParts, ItemTrimmed;
  }

  lemma ItemTrimmedFits(before: string, item: Item, key: string, after: string)
    requires WellFormedItem(item) && item.Child?
    ensures AllFit(AttributeKind, before, ItemTrimmed(item, key), key, after)
    decreases item, 1
  {
    hide AllFit, OpenTrimmed, BodyTrimmed, Image, Spell, OpenPieces;
    var e := item.element;
    OpenTrimmedFits(before, e, key, Image(BodyTrimmed(e, key), key) + after);
    OpenTrimmedPieces(e, key);
    BodyTrimmedFits(before + Spell(OpenPieces(e)), e, key, after);
    FitConcat(AttributeKind, before, OpenTrimmed(e, key), BodyTrimmed(e, key), key, after);
  }

  lemma OpenTrimmedFits(before: string, e: Element, key: string, after: string)
    requires WellFormedElement(e)
    ensures AllFit(AttributeKind, before, OpenTrimmed(e, key), key, after)
  {
    hide AllFit, AttributesTrimmed, WellFormedItems;
    var open := "<" + e.name;
    NameBytes(e.name);
    assert (before + open)[|before + open| - 1] == e.name[|e.name| - 1];
    AttributesTrimmedFit(before + open, e.attributes, key, e.tail + after);
    FramedFits(AttributeKind, before, open, AttributesTrimmed(e.attributes, key), e.tail, key, after);
  }

  lemma BodyTrimmedFits(before: string, e: Element, key: string, after: string)
    requires WellFormedElement(e)
    ensures AllFit(AttributeKind, before, BodyTrimmed(e, key), key, after)
    decreases e, 0
  {
    hide AllFit, ItemsTrimmed, WellFormedItems;
    if e.closed {
      LiteralFits(AttributeKind, before, "/>", key, after);
    } else {
      var front := before + ">";
      assert front[|front| - 1] == '>' && (CloseTag(e) + after)[0] == '<';
      ItemsTrimmedFit(front, [], e.items, key, CloseTag(e) + after);
      FramedFits(AttributeKind, before, ">", ItemsTrimmed([], e.items, key), CloseTag(e), key, after);
    }
  }
}
