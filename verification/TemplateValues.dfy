/** What values do to a template: filling with present values is one substitution as long as no value
    spells a later placeholder, and what it is otherwise. */
module TemplateValues {
  import opened Text
  import opened Template
  import opened TemplateText
  import opened TemplateTree
  import opened TemplateFit
  import opened TemplateRender
  import Escape

  // Present values.

  /** The text for a placeholder: the value of its first entry. */
  function Lookup(tags: seq<Replacement>, key: string): Option<string> {
    if tags == [] then None else if tags[0].0 == key then tags[0].1 else Lookup(tags[1..], key)
  }

  function SubstitutedPiece(p: Piece, tags: seq<Replacement>): seq<Piece> {
    if p.Lit? then [p]
    else
      match Lookup(tags, p.key)
      case Some(v) => FilledPiece(p, p.key, Escape.XmlEscape(v))
      case None => [p]
  }

  /** Every placeholder replaced by its own value, all at once. */
  function Substituted(ps: seq<Piece>, tags: seq<Replacement>): seq<Piece> {
    if ps == [] then [] else SubstitutedPiece(ps[0], tags) + Substituted(ps[1..], tags)
  }

  /** No value spells, or ends with a beginning of, a placeholder that comes after it. */
  ghost predicate Apart(tags: seq<Replacement>) {
    forall i, j :: 0 <= i < j < |tags| && tags[i].1.Some? ==>
      Inert(Escape.XmlEscape(tags[i].1.value), Needle(tags[j].0))
  }

  ghost predicate AllKeys(tags: seq<Replacement>) { forall i :: 0 <= i < |tags| ==> Unbraced(tags[i].0) }

  ghost predicate PassiveToAll(ps: seq<Piece>, tags: seq<Replacement>) {
    forall i :: 0 <= i < |tags| ==> AllPassive(ps, tags[i].0)
  }

  lemma {:induction false} FilledPassive(ps: seq<Piece>, key: string, text: string, other: string)
    requires AllPassive(ps, other) && Inert(text, Needle(other))
    ensures AllPassive(Filled(ps, key, text), other)
  {
    if ps != [] {
      hide Inert;
      FilledPassive(ps[1..], key, text, other);
      assert Passive(ps[0], other);
    }
  }

  lemma SubstitutedTwice(p: Piece, tags: seq<Replacement>)
    requires tags != [] && tags[0].1.Some?
    ensures Substituted(FilledPiece(p, tags[0].0, Escape.XmlEscape(tags[0].1.value)), tags[1..])
         == SubstitutedPiece(p, tags)
  {
    hide Escape.XmlEscape;
    var filled := FilledPiece(p, tags[0].0, Escape.XmlEscape(tags[0].1.value));
    if filled != [] {
      assert filled == [filled[0]] && filled[1..] == [];
    }
  }

  lemma {:induction false} SubstitutedConcat(ps: seq<Piece>, qs: seq<Piece>, tags: seq<Replacement>)
    ensures Substituted(ps + qs, tags) == Substituted(ps, tags) + Substituted(qs, tags)
  {
    if ps == [] {
      assert ps + qs == qs;
    } else {
      hide SubstitutedPiece;
      SubstitutedConcat(ps[1..], qs, tags);
      var both := ps + qs;
      assert both[0] == ps[0] && both[1..] == ps[1..] + qs;
      Regroup(SubstitutedPiece(ps[0], tags), Substituted(ps[1..], tags), Substituted(qs, tags));
    }
  }

  lemma {:induction false} SubstitutedStep(ps: seq<Piece>, tags: seq<Replacement>)
    requires tags != [] && tags[0].1.Some?
    ensures Substituted(Filled(ps, tags[0].0, Escape.XmlEscape(tags[0].1.value)), tags[1..]) == Substituted(ps, tags)
  {
    if ps != [] {
      hide Escape.XmlEscape, FilledPiece, SubstitutedPiece;
      var text := Escape.XmlEscape(tags[0].1.value);
      SubstitutedStep(ps[1..], tags);
      SubstitutedTwice(ps[0], tags);
      SubstitutedConcat(FilledPiece(ps[0], tags[0].0, text), Filled(ps[1..], tags[0].0, text), tags[1..]);
    }
  }

  lemma {:induction false} NothingSubstituted(ps: seq<Piece>)
    ensures Substituted(ps, []) == ps
  {
    if ps != [] {
      NothingSubstituted(ps[1..]);
      assert [ps[0]] + ps[1..] == ps;
    }
  }

  /** Filling present values one after the other puts each value in its place at once, in any template
      text, when no value spells a placeholder that comes after it. A lone brace in a value is harmless. */
  lemma {:induction false} PresentTagsFill(ps: seq<Piece>, tags: seq<Replacement>)
    requires AllPresent(tags) && AllKeys(tags) && Apart(tags) && PassiveToAll(ps, tags)
    ensures TagsReplaced(Spell(ps), tags) == Spell(Substituted(ps, tags))
    decreases |tags|
  {
    if tags == [] {
      NothingSubstituted(ps);
    } else {
      hide Escape.XmlEscape, ReplaceAll, Passive, Inert, Substituted, Filled, Spell;
      var (key, value) := tags[0];
      var text := Escape.XmlEscape(value.value);
      ReplacesInPieces(ps, key, text);
      forall i | 0 <= i < |tags[1..]| ensures AllPassive(Filled(ps, key, text), tags[1..][i].0) {
        assert tags[1..][i] == tags[i + 1] && AllPassive(ps, tags[i + 1].0);
        FilledPassive(ps, key, text, tags[i + 1].0);
      }
      ApartRest(tags);
      PresentTagsFill(Filled(ps, key, text), tags[1..]);
      SubstitutedStep(ps, tags);
    }
  }

  lemma ApartRest(tags: seq<Replacement>)
    requires tags != [] && Apart(tags)
    ensures Apart(tags[1..])
  {
    hide Inert, Escape.XmlEscape;
    var rest := tags[1..];
    forall i, j | 0 <= i < j < |rest| && rest[i].1.Some?
      ensures Inert(Escape.XmlEscape(rest[i].1.value), Needle(rest[j].0))
    {
      assert rest[i] == tags[i + 1] && rest[j] == tags[j + 1];
    }
  }

  predicate NoneEscaped(s: string) { Escape.NoMarkup(s) && '&' !in s }

  lemma {:induction false} EscapedNothing(s: string)
    requires NoneEscaped(s)
    ensures Escape.Escaped(s, "&apos;") == s
  {
    if s != "" {
      EscapedNothing(s[1..]);
      assert [s[0]] + s[1..] == s;
    }
  }

  lemma EscapesNothing(s: string)
    requires NoneEscaped(s)
    ensures Escape.XmlEscape(s) == s
  {
    hide Escape.XmlEscape;
    Escape.EscapesAreMaps(s);
    EscapedNothing(s);
  }

  lemma EscapesAround(x: string, middle: string, y: string)
    requires NoneEscaped(middle)
    ensures Escape.XmlEscape(x + middle + y) == Escape.XmlEscape(x) + middle + Escape.XmlEscape(y)
  {
    hide Escape.XmlEscape;
    Escape.XmlEscapeConcat(x + middle, y);
    Escape.XmlEscapeConcat(x, middle);
    EscapesNothing(middle);
  }

  // A value that spells a later placeholder.

  function RespelledPiece(p: Piece, first: string, x: string, second: string, y: string): seq<Piece> {
    if p == Hole(first) then [Lit(x), Hole(second), Lit(y)] else [p]
  }

  /** The pieces with the first placeholder giving way to the second, between two texts. */
  function Respelled(ps: seq<Piece>, first: string, x: string, second: string, y: string): seq<Piece> {
    if ps == [] then [] else RespelledPiece(ps[0], first, x, second, y) + Respelled(ps[1..], first, x, second, y)
  }

  lemma ThreeSpelled(x: string, second: string, y: string)
    ensures Spell([Lit(x), Hole(second), Lit(y)]) == x + Needle(second) + y
  {
    hide Spell;
    SpellAround([Lit(x)], second, [Lit(y)]);
    assert [Lit(x)] + [Hole(second)] + [Lit(y)] == [Lit(x), Hole(second), Lit(y)];
    SpellOne(Lit(x));
    SpellOne(Lit(y));
  }

  lemma {:induction false} RespelledReads(ps: seq<Piece>, first: string, x: string, second: string, y: string)
    ensures Spell(Respelled(ps, first, x, second, y)) == Spell(Filled(ps, first, x + Needle(second) + y))
  {
    if ps != [] {
      hide Spell;
      var text := x + Needle(second) + y;
      RespelledReads(ps[1..], first, x, second, y);
      SpellConcat(RespelledPiece(ps[0], first, x, second, y), Respelled(ps[1..], first, x, second, y));
      SpellConcat(FilledPiece(ps[0], first, text), Filled(ps[1..], first, text));
      ThreeSpelled(x, second, y);
      SpellFilledPiece(ps[0], first, text);
      SpellOne(ps[0]);
    }
  }

  lemma {:induction false} RespelledPassive(ps: seq<Piece>, first: string, x: string, second: string, y: string,
                                            key: string)
    requires AllPassive(ps, key) && Unbraced(second) && '{' !in x && '{' !in y
    ensures AllPassive(Respelled(ps, first, x, second, y), key)
  {
    if ps != [] {
      hide Inert;
      RespelledPassive(ps[1..], first, x, second, y, key);
      BracelessInert(x, key);
      BracelessInert(y, key);
      assert Passive(ps[0], key);
    }
  }

  /** In any template: where a value spells a later placeholder, that one's value comes in its place. */
  lemma ValueIsFilledAgain(ps: seq<Piece>, tags: seq<Replacement>, x: string, second: string, y: string)
    requires AllPresent(tags) && AllKeys(tags) && tags != [] && Apart(tags[1..]) && PassiveToAll(ps, tags)
    requires tags[0].1 == Some(x + Needle(second) + y) && '{' !in x && '{' !in y
    requires Unbraced(second) && NoneEscaped(second)
    ensures TagsReplaced(Spell(ps), tags)
         == Spell(Substituted(Respelled(ps, tags[0].0, Escape.XmlEscape(x), second, Escape.XmlEscape(y)), tags[1..]))
  {
    hide Escape.XmlEscape, ReplaceAll, Passive, Inert, Substituted, Spell, Respelled;
    var first, value := tags[0].0, tags[0].1.value;
    var ex, ey := Escape.XmlEscape(x), Escape.XmlEscape(y);
    EscapesAround(x, Needle(second), y);
    EscapedIsFilling(x);
    EscapedIsFilling(y);
    ReplacesInPieces(ps, first, Escape.XmlEscape(value));
    RespelledReads(ps, first, ex, second, ey);
    forall i | 0 <= i < |tags[1..]| ensures AllPassive(Respelled(ps, first, ex, second, ey), tags[1..][i].0) {
      assert tags[1..][i] == tags[i + 1] && AllPassive(ps, tags[i + 1].0);
      RespelledPassive(ps, first, ex, second, ey, tags[i + 1].0);
    }
    PresentTagsFill(Respelled(ps, first, ex, second, ey), tags[1..]);
    assert TagsReplaced(Spell(ps), tags) == TagsReplaced(TagReplaced(Spell(ps), first, Some(value)), tags[1..]);
  }

  /** What a piece becomes with all values put in at once, and with the first value read again. */
  function Once(p: Piece, tags: seq<Replacement>): string { Spell(SubstitutedPiece(p, tags)) }

  function Again(p: Piece, tags: seq<Replacement>, x: string, second: string, y: string): string
    requires tags != []
  {
    Spell(Substituted(RespelledPiece(p, tags[0].0, x, second, y), tags[1..]))
  }

  lemma SubstitutedOne(p: Piece, tags: seq<Replacement>)
    ensures Substituted([p], tags) == SubstitutedPiece(p, tags)
  {
    assert [p][1..] == [];
  }

  lemma PieceAgain(p: Piece, tags: seq<Replacement>, x: string, second: string, y: string, value: string)
    requires tags != [] && tags[0].1.Some? && Lookup(tags[1..], second) == Some(value)
    requires Escape.XmlEscape(tags[0].1.value) == x + Needle(second) + y
    ensures p != Hole(tags[0].0) ==> Again(p, tags, x, second, y) == Once(p, tags)
    ensures p == Hole(tags[0].0) ==>
      Once(p, tags) == x + Needle(second) + y && Again(p, tags, x, second, y) == x + Escape.XmlEscape(value) + y
  {
    hide Escape.XmlEscape, Spell, Substituted;
    SubstitutedOne(p, tags[1..]);
    if p == Hole(tags[0].0) {
      var parts := [Lit(x), Hole(second), Lit(y)];
      assert parts == [Lit(x)] + [Hole(second)] + [Lit(y)];
      SubstitutedConcat([Lit(x)] + [Hole(second)], [Lit(y)], tags[1..]);
      SubstitutedConcat([Lit(x)], [Hole(second)], tags[1..]);
      SubstitutedOne(Lit(x), tags[1..]);
      SubstitutedOne(Lit(y), tags[1..]);
      SubstitutedOne(Hole(second), tags[1..]);
      var middle := FilledPiece(Hole(second), second, Escape.XmlEscape(value));
      SpellConcat([Lit(x)] + middle, [Lit(y)]);
      SpellConcat([Lit(x)], middle);
      SpellOne(Lit(x));
      SpellOne(Lit(y));
      SpellFilledPiece(Hole(second), second, Escape.XmlEscape(value));
      SpellFilledPiece(p, tags[0].0, Escape.XmlEscape(tags[0].1.value));
    }
  }

  lemma StepsApart(ps: seq<Piece>, tags: seq<Replacement>, x: string, second: string, y: string)
    requires tags != [] && ps != []
    ensures Spell(Substituted(ps, tags)) == Once(ps[0], tags) + Spell(Substituted(ps[1..], tags))
    ensures Spell(Substituted(Respelled(ps, tags[0].0, x, second, y), tags[1..]))
         == Again(ps[0], tags, x, second, y)
          + Spell(Substituted(Respelled(ps[1..], tags[0].0, x, second, y), tags[1..]))
  {
    hide Spell, SubstitutedPiece, RespelledPiece;
    SpellConcat(SubstitutedPiece(ps[0], tags), Substituted(ps[1..], tags));
    var own, rest := RespelledPiece(ps[0], tags[0].0, x, second, y), Respelled(ps[1..], tags[0].0, x, second, y);
    SubstitutedConcat(own, rest, tags[1..]);
    SpellConcat(Substituted(own, tags[1..]), Substituted(rest, tags[1..]));
  }

  /** Reading the value again changes nothing if and only if it puts in what it spells. */
  lemma {:induction false} AgainDiffers(ps: seq<Piece>, tags: seq<Replacement>, x: string, second: string, y: string,
                                        value: string)
    requires tags != [] && tags[0].1.Some? && Lookup(tags[1..], second) == Some(value)
    requires Escape.XmlEscape(tags[0].1.value) == x + Needle(second) + y
    ensures var once := Spell(Substituted(ps, tags));
            var again := Spell(Substituted(Respelled(ps, tags[0].0, x, second, y), tags[1..]));
            var long, short := |Escape.XmlEscape(value)|, |Needle(second)|;
            && (long >= short ==> |again| >= |once|) && (long <= short ==> |again| <= |once|)
            && (long != short && |again| == |once| ==> Lacks(ps, tags[0].0))
            && (again == once <==> Lacks(ps, tags[0].0) || Escape.XmlEscape(value) == Needle(second))
  {
    if ps == [] {
      assert Respelled(ps, tags[0].0, x, second, y) == [];
    } else {
      hide Escape.XmlEscape, Spell, Substituted, Respelled, Once, Again, Lookup;
      AgainDiffers(ps[1..], tags, x, second, y, value);
      PieceAgain(ps[0], tags, x, second, y, value);
      StepsApart(ps, tags, x, second, y);
      LacksRest(ps, tags[0].0);
      if ps[0] == Hole(tags[0].0) {
        SameAround(x, Needle(second), Escape.XmlEscape(value), y);
      }
      SamePrefix(Once(ps[0], tags), Spell(Substituted(ps[1..], tags)), Again(ps[0], tags, x, second, y),
                 Spell(Substituted(Respelled(ps[1..], tags[0].0, x, second, y), tags[1..])));
    }
  }

  lemma LacksRest(ps: seq<Piece>, key: string)
    requires ps != []
    ensures Lacks(ps, key) <==> ps[0] != Hole(key) && Lacks(ps[1..], key)
  {
    assert forall i :: 0 < i < |ps| ==> ps[i] == ps[1..][i - 1];
  }

  lemma SameAround(x: string, a: string, b: string, y: string)
    ensures x + a + y == x + b + y <==> a == b
  {
    if x + a + y == x + b + y {
      assert |a| == |b|;
      assert a == (x + a + y)[|x|..|x| + |a|];
      assert b == (x + b + y)[|x|..|x| + |b|];
    }
  }

  lemma SamePrefix(a: string, b: string, c: string, d: string)
    ensures |a| == |c| ==> (a + b == c + d <==> a == c && b == d)
  {
    if |a| == |c| && a + b == c + d {
      assert a == (a + b)[..|a|] && c == (c + d)[..|c|];
      assert b == (a + b)[|a|..] && d == (c + d)[|c|..];
    }
  }

  /** In any template that holds the first placeholder, a first value that spells a later one is not put in as it
      stands, unless that one's own value spells it as well. */
  lemma SpelledValueIsLost(ps: seq<Piece>, tags: seq<Replacement>, x: string, second: string, y: string, value: string)
    requires AllPresent(tags) && AllKeys(tags) && tags != [] && Apart(tags[1..]) && PassiveToAll(ps, tags)
    requires tags[0].1 == Some(x + Needle(second) + y) && '{' !in x && '{' !in y
    requires Unbraced(second) && NoneEscaped(second) && Lookup(tags[1..], second) == Some(value)
    requires !Lacks(ps, tags[0].0)
    ensures TagsReplaced(Spell(ps), tags) == Spell(Substituted(ps, tags)) <==> Escape.XmlEscape(value) == Needle(second)
  {
    hide Escape.XmlEscape, Spell, Substituted, Respelled, Lookup, Passive, Inert, TagsReplaced;
    var ex, ey := Escape.XmlEscape(x), Escape.XmlEscape(y);
    EscapesAround(x, Needle(second), y);
    ValueIsFilledAgain(ps, tags, x, second, y);
    AgainDiffers(ps, tags, ex, second, ey, value);
  }
}
