/** After filling, no listed placeholder is left, in any template text: deleting by search cuts only between
    placeholders, so that it never makes a new one. */
module TemplateRemains {
  import opened Text
  import opened Template
  import opened TemplateText
  import opened TemplateTree
  import opened TemplateRender
  import Escape

  predicate TemplatePiece(p: Piece) { if p.Lit? then '{' !in p.text else IsKey(p.key) }

  /** Literals without an opening brace, and placeholders with names free of braces and markup. */
  ghost predicate IsTemplate(ps: seq<Piece>) { forall i :: 0 <= i < |ps| ==> TemplatePiece(ps[i]) }

  ghost predicate HolesWithin(qs: seq<Piece>, ps: seq<Piece>) {
    forall i :: 0 <= i < |qs| && qs[i].Hole? ==> qs[i] in ps
  }

  // Positions that are not inside a placeholder.

  predicate Cut(ps: seq<Piece>, n: nat) {
    n == 0 ||
    (ps != [] && (var g := |Glyphs(ps[0])|; if n < g then ps[0].Lit? else Cut(ps[1..], n - g)))
  }

  function Take(ps: seq<Piece>, n: nat): seq<Piece>
    requires Cut(ps, n)
  {
    if n == 0 then []
    else
      var g := |Glyphs(ps[0])|;
      if n < g then [Lit(ps[0].text[..n])] else [ps[0]] + Take(ps[1..], n - g)
  }

  function Drop(ps: seq<Piece>, n: nat): seq<Piece>
    requires Cut(ps, n)
  {
    if n == 0 then ps
    else
      var g := |Glyphs(ps[0])|;
      if n < g then [Lit(ps[0].text[n..])] + ps[1..] else Drop(ps[1..], n - g)
  }

  lemma {:induction false} SpellsTaken(ps: seq<Piece>, n: nat)
    requires Cut(ps, n)
    ensures n <= |Spell(ps)| && Spell(Take(ps, n)) == Spell(ps)[..n]
  {
    hide FlatMap;
    if n == 0 {
      NoneSpelled();
    } else {
      var first, rest := Glyphs(ps[0]), Spell(ps[1..]);
      SpellCons(ps);
      if n < |first| {
        FlatMapOne(Glyphs, Lit(ps[0].text[..n]));
        assert (first + rest)[..n] == first[..n];
      } else {
        SpellsTaken(ps[1..], n - |first|);
        FlatMapConcat(Glyphs, [ps[0]], Take(ps[1..], n - |first|));
        FlatMapOne(Glyphs, ps[0]);
        assert (first + rest)[..n] == first + rest[..n - |first|];
      }
    }
  }

  lemma NoneSpelled()
    ensures Spell([]) == ""
  {
  }

  lemma {:induction false} SpellsDropped(ps: seq<Piece>, n: nat)
    requires Cut(ps, n)
    ensures n <= |Spell(ps)| && Spell(Drop(ps, n)) == Spell(ps)[n..]
  {
    hide FlatMap;
    if n > 0 {
      var first, rest := Glyphs(ps[0]), Spell(ps[1..]);
      SpellCons(ps);
      if n < |first| {
        FlatMapConcat(Glyphs, [Lit(ps[0].text[n..])], ps[1..]);
        FlatMapOne(Glyphs, Lit(ps[0].text[n..]));
        assert (first + rest)[n..] == first[n..] + rest;
      } else {
        SpellsDropped(ps[1..], n - |first|);
        assert (first + rest)[n..] == rest[n - |first|..];
      }
    }
  }

  lemma {:induction false} TakenTemplate(ps: seq<Piece>, n: nat)
    requires Cut(ps, n) && IsTemplate(ps)
    ensures IsTemplate(Take(ps, n)) && HolesWithin(Take(ps, n), ps)
  {
    if n > 0 {
      hide IsKey;
      assert TemplatePiece(ps[0]);
      if n >= |Glyphs(ps[0])| {
        TakenTemplate(ps[1..], n - |Glyphs(ps[0])|);
      }
    }
  }

  lemma {:induction false} DroppedTemplate(ps: seq<Piece>, n: nat)
    requires Cut(ps, n) && IsTemplate(ps)
    ensures IsTemplate(Drop(ps, n)) && HolesWithin(Drop(ps, n), ps)
  {
    if n > 0 {
      hide IsKey;
      assert TemplatePiece(ps[0]);
      if n >= |Glyphs(ps[0])| {
        DroppedTemplate(ps[1..], n - |Glyphs(ps[0])|);
      }
    }
  }

  lemma {:induction false} CutsLater(ps: seq<Piece>, n: nat, m: nat)
    requires Cut(ps, n) && Cut(ps, m) && n <= m
    ensures Cut(Drop(ps, n), m - n)
  {
    if n > 0 {
      var g := |Glyphs(ps[0])|;
      if n < g {
        var left := [Lit(ps[0].text[n..])] + ps[1..];
        assert left[0] == Lit(ps[0].text[n..]) && left[1..] == ps[1..];
      } else {
        CutsLater(ps[1..], n - g, m - g);
      }
    }
  }

  // Where the ranges begin and end.

  lemma HoleUnmarked(key: string, n: nat)
    requires IsKey(key) && n < |Needle(key)|
    ensures !Escape.IsMarkup(Needle(key)[n])
  {
    assert 0 < n < |key| + 1 ==> Needle(key)[n] == key[n - 1];
  }

  lemma {:induction false} CutsAtMarkup(ps: seq<Piece>, n: nat)
    requires IsTemplate(ps) && n < |Spell(ps)| && Escape.IsMarkup(Spell(ps)[n])
    ensures Cut(ps, n) && Cut(ps, n + 1)
  {
    hide FlatMap;
    NoneSpelled();
    SpellCons(ps);
    var first := Glyphs(ps[0]);
    assert TemplatePiece(ps[0]);
    if n < |first| {
      assert Spell(ps)[n] == first[n];
      if ps[0].Hole? {
        HoleUnmarked(ps[0].key, n);
        assert false;
      }
    } else {
      assert Spell(ps)[n] == Spell(ps[1..])[n - |first|];
      CutsAtMarkup(ps[1..], n - |first|);
    }
  }

  lemma HoleCloses(ps: seq<Piece>, n: nat, m: nat)
    requires ps != [] && ps[0].Hole? && m < |Glyphs(ps[0])| <= n <= |Spell(ps)|
    ensures '}' in Spell(ps)[m..n]
  {
    SpellCons(ps);
    var g := |Glyphs(ps[0])|;
    assert Spell(ps)[m..n][g - 1 - m] == '}';
  }

  lemma {:induction false} CutsBefore(ps: seq<Piece>, n: nat, m: nat)
    requires Cut(ps, n) && m <= n <= |Spell(ps)| && '}' !in Spell(ps)[m..n]
    ensures Cut(ps, m)
  {
    if 0 < m {
      hide FlatMap;
      SpellCons(ps);
      var first, all := Glyphs(ps[0]), Spell(ps);
      if m < |first| {
        if ps[0].Hole? {
          HoleCloses(ps, n, m);
          assert false;
        }
      } else {
        assert all[m..n] == Spell(ps[1..])[m - |first|..n - |first|];
        CutsBefore(ps[1..], n - |first|, m - |first|);
      }
    }
  }

  lemma {:induction false} CutsAtMatch(ps: seq<Piece>, n: nat, key: string)
    requires IsTemplate(ps) && Unbraced(key) && OccursAt(Spell(ps), Needle(key), n)
    ensures Cut(ps, n) && Cut(ps, n + |Needle(key)|)
  {
    hide FlatMap;
    var needle, all := Needle(key), Spell(ps);
    assert all[n] == all[n..n + |needle|][0] == '{';
    NoneSpelled();
    SpellCons(ps);
    var first, rest := Glyphs(ps[0]), Spell(ps[1..]);
    assert TemplatePiece(ps[0]);
    if n < |first| {
      assert first[n] == '{';
      assert n == 0 && ps[0].Hole?;
      if ps[0] != Hole(key) {
        NeedlesDiffer(key, ps[0].key, rest);
      }
      assert needle <= first + rest;
      assert Cut(ps[1..], 0);
    } else {
      assert all[n..n + |needle|] == rest[n - |first|..n - |first| + |needle|];
      CutsAtMatch(ps[1..], n - |first|, key);
    }
  }

  lemma {:induction false} SpacesBefore(raw: string, i: nat)
    requires i <= |raw|
    ensures '}' !in raw[BeforeSpace(raw, i)..i]
  {
    if i > 0 && IsAsciiSpace(raw[i - 1]) {
      SpacesBefore(raw, i - 1);
      assert raw[BeforeSpace(raw, i)..i] == raw[BeforeSpace(raw, i)..i - 1] + [raw[i - 1]];
    }
  }

  lemma {:induction false} NameBefore(raw: string, i: nat)
    requires i <= |raw|
    ensures '}' !in raw[BeforeName(raw, i)..i]
  {
    if i > 0 && IsNameByte(raw[i - 1]) {
      NameBefore(raw, i - 1);
      assert raw[BeforeName(raw, i)..i] == raw[BeforeName(raw, i)..i - 1] + [raw[i - 1]];
    }
  }

  lemma AttributeHeadUnbraced(raw: string, at: nat, length: nat)
    requires at + length <= |raw| && AttributeRange(raw, at, length).Some?
    ensures var start := AttributeRange(raw, at, length).value.0; '}' !in raw[start..at - 1]
  {
    hide BeforeSpace, BeforeName;
    var equals := BeforeSpace(raw, at - 1);
    var nameEnd := BeforeSpace(raw, equals - 1);
    var nameStart := BeforeName(raw, nameEnd);
    var start := BeforeSpace(raw, nameStart);
    SpacesBefore(raw, at - 1);
    SpacesBefore(raw, equals - 1);
    NameBefore(raw, nameEnd);
    SpacesBefore(raw, nameStart);
    UnbracedJoin(raw, start, nameStart, nameEnd);
    UnbracedJoin(raw, start, nameEnd, equals - 1);
    assert raw[equals - 1..equals] == [raw[equals - 1]];
    UnbracedJoin(raw, start, equals - 1, equals);
    UnbracedJoin(raw, start, equals, at - 1);
  }

  lemma UnbracedJoin(raw: string, i: nat, j: nat, k: nat)
    requires i <= j <= k <= |raw| && '}' !in raw[i..j] && '}' !in raw[j..k]
    ensures '}' !in raw[i..k]
  {
    assert raw[i..k] == raw[i..j] + raw[j..k];
  }

  lemma RangeCuts(kind: Kind, ps: seq<Piece>, at: nat, length: nat)
    requires IsTemplate(ps) && at + length <= |Spell(ps)| && RangeFor(kind, Spell(ps), at, length).Some?
    ensures var (start, end) := RangeFor(kind, Spell(ps), at, length).value; Cut(ps, start) && Cut(ps, end)
  {
    hide Spell, BeforeSpace, BeforeName, AfterName, LastIndex, Cut;
    var raw := Spell(ps);
    var (start, end) := RangeFor(kind, raw, at, length).value;
    match kind
    case AttributeKind =>
      CutsAtMarkup(ps, at + length);
      CutsAtMarkup(ps, at - 1);
      AttributeHeadUnbraced(raw, at, length);
      CutsBefore(ps, at - 1, start);
    case ElementKind =>
      CutsAtMarkup(ps, start);
      var close := "</" + raw[start + 1..AfterName(raw, start + 1)] + ">";
      assert raw[at + length..][|close| - 1] == close[|close| - 1] == '>';
      assert raw[end - 1] == '>';
      CutsAtMarkup(ps, end - 1);
  }

  lemma MatchFound(raw: string, needle: string, cursor: nat)
    requires needle != "" && cursor <= |raw| && Find(raw[cursor..], needle).Some?
    ensures OccursAt(raw, needle, cursor + Find(raw[cursor..], needle).value)
  {
    hide Find;
    var i := Find(raw[cursor..], needle).value;
    FindsNeedle(raw[cursor..], needle);
    assert raw[cursor + i..cursor + i + |needle|] == raw[cursor..][i..i + |needle|];
  }

  /** Deleting ranges of a template leaves a template with no other placeholders. */
  lemma {:induction false} RangesLeaveTemplate(kind: Kind, ps: seq<Piece>, key: string, cursor: nat)
    returns (qs: seq<Piece>)
    requires IsTemplate(ps) && Unbraced(key) && Cut(ps, cursor) && cursor <= |Spell(ps)|
    ensures WithoutRanges(kind, Spell(ps), Needle(key), cursor) == Spell(qs)
    ensures IsTemplate(qs) && HolesWithin(qs, ps)
    decreases |Spell(ps)| - cursor
  {
    hide Spell, RangeFor, Find, Cut, IsTemplate, HolesWithin, Unbraced, OccursAt;
    var raw, needle := Spell(ps), Needle(key);
    if Find(raw[cursor..], needle).None? {
      SpellsDropped(ps, cursor);
      DroppedTemplate(ps, cursor);
      qs := Drop(ps, cursor);
    } else {
      var at := cursor + Find(raw[cursor..], needle).value;
      MatchFound(raw, needle, cursor);
      var range := RangeFor(kind, raw, at, |needle|);
      if range.Some? && range.value.0 >= cursor {
        RangeCuts(kind, ps, at, |needle|);
        var rest := RangesLeaveTemplate(kind, ps, key, range.value.1);
        qs := Piecewise(ps, cursor, range.value.0, rest);
      } else {
        CutsAtMatch(ps, at, key);
        var rest := RangesLeaveTemplate(kind, ps, key, at + |needle|);
        qs := Piecewise(ps, cursor, at + |needle|, rest);
      }
    }
  }

  lemma Piecewise(ps: seq<Piece>, n: nat, m: nat, rest: seq<Piece>) returns (qs: seq<Piece>)
    requires IsTemplate(ps) && Cut(ps, n) && Cut(ps, m) && n <= m <= |Spell(ps)|
    requires IsTemplate(rest) && HolesWithin(rest, ps)
    ensures Spell(qs) == Spell(ps)[n..m] + Spell(rest) && IsTemplate(qs) && HolesWithin(qs, ps)
  {
    hide Spell, Cut, TemplatePiece, Take, Drop;
    var back := Drop(ps, n);
    SpellsDropped(ps, n);
    DroppedTemplate(ps, n);
    CutsLater(ps, n, m);
    SpellsTaken(back, m - n);
    TakenTemplate(back, m - n);
    var middle := Take(back, m - n);
    qs := middle + rest;
    SpellsBoth(middle, rest);
    assert Spell(ps)[n..][..m - n] == Spell(ps)[n..m];
  }

  lemma SpellsBoth(ps: seq<Piece>, qs: seq<Piece>)
    ensures Spell(ps + qs) == Spell(ps) + Spell(qs)
  {
    FlatMapConcat(Glyphs, ps, qs);
  }

  // The result.

  lemma TemplateSpellable(ps: seq<Piece>)
    requires IsTemplate(ps)
    ensures AllSpellable(ps)
  {
    forall i | 0 <= i < |ps| ensures Spellable(ps[i]) {
      assert TemplatePiece(ps[i]);
    }
  }

  lemma {:induction false} FilledTemplate(ps: seq<Piece>, key: string, text: string)
    requires IsTemplate(ps) && '{' !in text
    ensures IsTemplate(Filled(ps, key, text)) && HolesWithin(Filled(ps, key, text), ps)
    ensures Lacks(Filled(ps, key, text), key)
  {
    if ps != [] {
      hide IsKey;
      FilledTemplate(ps[1..], key, text);
      assert TemplatePiece(ps[0]);
    }
  }

  lemma FillsTemplate(ps: seq<Piece>, key: string, text: string) returns (qs: seq<Piece>)
    requires IsTemplate(ps) && '{' !in text && Unbraced(key)
    ensures ReplaceAll(Spell(ps), Needle(key), text) == Spell(qs)
    ensures IsTemplate(qs) && HolesWithin(qs, ps) && Lacks(qs, key)
  {
    hide ReplaceAll, IsTemplate, Spell;
    TemplateSpellable(ps);
    SpellablePassive(ps, key);
    ReplacesInPieces(ps, key, text);
    FilledTemplate(ps, key, text);
    qs := Filled(ps, key, text);
  }

  lemma WithinTrans(a: seq<Piece>, b: seq<Piece>, c: seq<Piece>)
    requires HolesWithin(a, b) && HolesWithin(b, c)
    ensures HolesWithin(a, c)
  {
  }

  lemma TagLeavesTemplate(ps: seq<Piece>, key: string, value: Option<string>) returns (qs: seq<Piece>)
    requires IsTemplate(ps) && Unbraced(key) && Braceless(value)
    ensures TagReplaced(Spell(ps), key, value) == Spell(qs)
    ensures IsTemplate(qs) && HolesWithin(qs, ps) && Lacks(qs, key)
  {
    hide ReplaceAll, WithoutRanges, IsTemplate, HolesWithin, Spell, Lacks, Cut;
    match value
    case Some(v) =>
      EscapedIsFilling(v);
      qs := FillsTemplate(ps, key, Escape.XmlEscape(v));
    case None =>
      CutStart(ps);
      var bare := RangesLeaveTemplate(AttributeKind, ps, key, 0);
      CutStart(bare);
      var left := RangesLeaveTemplate(ElementKind, bare, key, 0);
      qs := FillsTemplate(left, key, "");
      WithinTrans(left, bare, ps);
      WithinTrans(qs, left, ps);
  }

  lemma CutStart(ps: seq<Piece>)
    ensures Cut(ps, 0)
  {
  }

  ghost predicate LacksAll(ps: seq<Piece>, tags: seq<Replacement>) {
    forall i :: 0 <= i < |tags| ==> Lacks(ps, tags[i].0)
  }

  ghost predicate PlainValues(tags: seq<Replacement>) {
    forall i :: 0 <= i < |tags| ==> Unbraced(tags[i].0) && Braceless(tags[i].1)
  }

  lemma LacksWithin(qs: seq<Piece>, ps: seq<Piece>, key: string)
    requires HolesWithin(qs, ps) && Lacks(ps, key)
    ensures Lacks(qs, key)
  {
  }

  lemma {:induction false} TagsLeaveTemplate(ps: seq<Piece>, tags: seq<Replacement>) returns (qs: seq<Piece>)
    requires IsTemplate(ps) && PlainValues(tags)
    ensures TagsReplaced(Spell(ps), tags) == Spell(qs)
    ensures IsTemplate(qs) && HolesWithin(qs, ps) && LacksAll(qs, tags)
    decreases |tags|
  {
    if tags == [] {
      qs := ps;
    } else {
      hide IsTemplate, HolesWithin, Spell, Lacks, LacksAll, TagReplaced, Unbraced, Braceless;
      var first := TagLeavesTemplate(ps, tags[0].0, tags[0].1);
      qs := TagsLeaveTemplate(first, tags[1..]);
      WithinTrans(qs, first, ps);
      LacksWithin(qs, first, tags[0].0);
      LacksCons(qs, tags);
    }
  }

  lemma LacksCons(ps: seq<Piece>, tags: seq<Replacement>)
    requires tags != [] && Lacks(ps, tags[0].0) && LacksAll(ps, tags[1..])
    ensures LacksAll(ps, tags)
  {
    hide Lacks;
    forall i | 0 <= i < |tags| ensures Lacks(ps, tags[i].0) {
      if i > 0 {
        assert tags[1..][i - 1] == tags[i];
      }
    }
  }

  /** No listed placeholder is left in the output. */
  lemma NoPlaceholderRemains(ps: seq<Piece>, tags: seq<Replacement>, i: nat)
    requires IsTemplate(ps) && PlainValues(tags) && i < |tags|
    ensures Find(TagsReplaced(Spell(ps), tags), Needle(tags[i].0)) == None
  {
    hide TagsReplaced, Find, IsTemplate, Spell, Lacks;
    var qs := TagsLeaveTemplate(ps, tags);
    TemplateSpellable(qs);
    SpellablePassive(qs, tags[i].0);
    FindsNothing(qs, tags[i].0);
  }
}
