/** Templates as literal text and placeholders, with the removable ranges marked: what the byte
    search of the template module does to such a text. */
module TemplateText {
  import opened Text
  import opened Template

  datatype Piece = Lit(text: string) | Hole(key: string)

  predicate Unbraced(s: string) { forall i :: 0 <= i < |s| ==> s[i] != '{' && s[i] != '}' }

  /** A literal without an opening brace, or a placeholder with a name free of braces. */
  predicate Spellable(p: Piece) { if p.Lit? then '{' !in p.text else Unbraced(p.key) }

  ghost predicate AllSpellable(ps: seq<Piece>) { forall i :: 0 <= i < |ps| ==> Spellable(ps[i]) }

  /** Neither does the text hold the needle, nor does it end with a beginning of it. */
  predicate Inert(text: string, needle: string) {
    forall i :: 0 <= i < |text| ==> !(needle <= text[i..]) && !(text[i..] <= needle)
  }

  /** A piece that has no part in a match of the placeholder, unless it is that placeholder. */
  predicate Passive(p: Piece, key: string) {
    match p
    case Lit(text) => Inert(text, Needle(key))
    case Hole(other) => Unbraced(other)
  }

  ghost predicate AllPassive(ps: seq<Piece>, key: string) { forall i :: 0 <= i < |ps| ==> Passive(ps[i], key) }

  predicate Lacks(ps: seq<Piece>, key: string) { forall i :: 0 <= i < |ps| ==> ps[i] != Hole(key) }

  function Glyphs(p: Piece): string { if p.Lit? then p.text else Needle(p.key) }

  function Spell(ps: seq<Piece>): string { FlatMap(Glyphs, ps) }

  lemma SpellCons(ps: seq<Piece>)
    requires ps != []
    ensures Spell(ps) == Glyphs(ps[0]) + Spell(ps[1..])
  {
  }

  // Searching.

  function Shift(n: nat, r: Option<nat>): Option<nat> {
    match r case Some(i) => Some(n + i) case None => None
  }

  lemma PrefixesMeet(a: string, b: string, s: string)
    ensures a <= b + s ==> a <= b || b <= a
  {
    var all := b + s;
    if a <= all && |a| <= |b| {
      assert b[..|a|] == all[..|a|];
    } else if a <= all {
      assert a[..|b|] == all[..|b|];
    }
  }

  lemma {:induction false} SkipsInert(t: string, s: string, needle: string)
    requires needle != "" && Inert(t, needle)
    ensures Find(t + s, needle) == Shift(|t|, Find(s, needle))
  {
    if t == "" {
      assert t + s == s;
    } else {
      assert t[0..] == t;
      forall i | 0 <= i < |t[1..]| ensures !(needle <= t[1..][i..]) && !(t[1..][i..] <= needle) {
        assert t[1..][i..] == t[i + 1..];
      }
      SkipsInert(t[1..], s, needle);
      var all := t + s;
      assert all[1..] == t[1..] + s;
      PrefixesMeet(needle, t, s);
    }
  }

  lemma BracelessInert(text: string, key: string)
    requires '{' !in text
    ensures Inert(text, Needle(key))
  {
    forall i | 0 <= i < |text| ensures !(Needle(key) <= text[i..]) && !(text[i..] <= Needle(key)) {
      assert text[i..][0] == text[i] && Needle(key)[0] == '{';
    }
  }

  lemma SpellablePassive(ps: seq<Piece>, key: string)
    requires AllSpellable(ps)
    ensures AllPassive(ps, key)
  {
    hide Inert;
    forall i | 0 <= i < |ps| ensures Passive(ps[i], key) {
      assert Spellable(ps[i]);
      if ps[i].Lit? {
        BracelessInert(ps[i].text, key);
      }
    }
  }

  /** Two names spelled in braces are not prefixes of each other, whatever follows. */
  lemma NeedlesDiffer(key: string, other: string, s: string)
    requires Unbraced(key) && Unbraced(other) && key != other
    ensures !(Needle(key) <= Needle(other) + s)
  {
    var needle, text := Needle(key), Needle(other) + s;
    if |key| < |other| {
      assert needle[|key| + 1] == '}' && text[|key| + 1] == other[|key|];
    } else if |other| < |key| {
      assert needle[|other| + 1] == key[|other|] && text[|other| + 1] == '}';
    } else {
      var i :| 0 <= i < |key| && key[i] != other[i];
      assert needle[i + 1] == key[i] && text[i + 1] == other[i];
    }
  }

  lemma SkipsPiece(p: Piece, s: string, key: string)
    requires Unbraced(key) && Passive(p, key) && p != Hole(key)
    ensures Find(Glyphs(p) + s, Needle(key)) == Shift(|Glyphs(p)|, Find(s, Needle(key)))
  {
    hide Inert;
    match p
    case Lit(text) =>
      SkipsInert(text, s, Needle(key));
    case Hole(other) =>
      NeedlesDiffer(key, other, s);
      var rest := other + "}";
      assert (Needle(other) + s)[1..] == rest + s;
      BracelessInert(rest, key);
      SkipsInert(rest, s, Needle(key));
  }

  lemma {:induction false} SkipsPieces(ps: seq<Piece>, s: string, key: string)
    requires Unbraced(key) && AllPassive(ps, key) && Lacks(ps, key)
    ensures Find(Spell(ps) + s, Needle(key)) == Shift(|Spell(ps)|, Find(s, Needle(key)))
  {
    if ps == [] {
      assert Spell(ps) + s == s;
    } else {
      hide Find, Unbraced, Glyphs, Needle, Spell;
      SpellCons(ps);
      SkipsPieces(ps[1..], s, key);
      SkipsPiece(ps[0], Spell(ps[1..]) + s, key);
      Regroup(Glyphs(ps[0]), Spell(ps[1..]), s);
    }
  }

  /** The first match in such a text is its first placeholder of that name. */
  lemma FindsHole(ps: seq<Piece>, key: string, after: string)
    requires Unbraced(key) && AllPassive(ps, key) && Lacks(ps, key)
    ensures Find(Spell(ps) + (Needle(key) + after), Needle(key)) == Some(|Spell(ps)|)
  {
    SkipsPieces(ps, Needle(key) + after, key);
  }

  lemma FindsNothing(ps: seq<Piece>, key: string)
    requires Unbraced(key) && AllPassive(ps, key) && Lacks(ps, key)
    ensures Find(Spell(ps), Needle(key)) == None
  {
    SkipsPieces(ps, "", key);
    assert Spell(ps) + "" == Spell(ps);
  }

  // Replacing.

  function FilledPiece(p: Piece, key: string, text: string): seq<Piece> {
    if p != Hole(key) then [p] else if text == "" then [] else [Lit(text)]
  }

  function Filled(ps: seq<Piece>, key: string, text: string): seq<Piece> {
    if ps == [] then [] else FilledPiece(ps[0], key, text) + Filled(ps[1..], key, text)
  }

  lemma {:induction false} FilledConcat(ps: seq<Piece>, qs: seq<Piece>, key: string, text: string)
    ensures Filled(ps + qs, key, text) == Filled(ps, key, text) + Filled(qs, key, text)
  {
    if ps == [] {
      assert ps + qs == qs;
    } else {
      FilledConcat(ps[1..], qs, key, text);
      assert (ps + qs)[0] == ps[0] && (ps + qs)[1..] == ps[1..] + qs;
      Regroup(FilledPiece(ps[0], key, text), Filled(ps[1..], key, text), Filled(qs, key, text));
    }
  }

  lemma SpellFilledPiece(p: Piece, key: string, text: string)
    ensures Spell(FilledPiece(p, key, text)) == if p == Hole(key) then text else Glyphs(p)
  {
    FlatMapOne(Glyphs, p);
    FlatMapOne(Glyphs, Lit(text));
  }

  /** Replacing text by search fills exactly the placeholders of that name. */
  lemma {:induction false} ReplaceFills(done: seq<Piece>, ps: seq<Piece>, key: string, text: string)
    requires Unbraced(key) && AllPassive(done, key) && AllPassive(ps, key) && Lacks(done, key)
    ensures ReplaceAll(Spell(done) + Spell(ps), Needle(key), text) == Spell(done) + Spell(Filled(ps, key, text))
    decreases |ps|
  {
    if ps == [] {
      FindsNothing(done, key);
      assert Spell(done) + Spell(ps) == Spell(done);
    } else {
      var rest := Filled(ps[1..], key, text);
      FlatMapConcat(Glyphs, FilledPiece(ps[0], key, text), rest);
      SpellFilledPiece(ps[0], key, text);
      if ps[0] == Hole(key) {
        ReplaceAtHole(done, ps, key, text);
        ReplaceFills([], ps[1..], key, text);
        assert Spell([]) + Spell(ps[1..]) == Spell(ps[1..]);
        assert Spell([]) + Spell(rest) == Spell(rest);
        Regroup(Spell(done), text, Spell(rest));
      } else {
        hide ReplaceAll;
        ReplaceFills(done + [ps[0]], ps[1..], key, text);
        FlatMapSnoc(Glyphs, done, ps[0]);
        Regroup(Spell(done), Glyphs(ps[0]), Spell(ps[1..]));
        Regroup(Spell(done), Glyphs(ps[0]), Spell(rest));
      }
    }
  }

  lemma ReplaceAtHole(done: seq<Piece>, ps: seq<Piece>, key: string, text: string)
    requires Unbraced(key) && AllPassive(done, key) && Lacks(done, key) && ps != [] && ps[0] == Hole(key)
    ensures ReplaceAll(Spell(done) + Spell(ps), Needle(key), text)
         == Spell(done) + text + ReplaceAll(Spell(ps[1..]), Needle(key), text)
  {
    hide Find, Spell, Unbraced;
    var front, back := Spell(done), Spell(ps[1..]);
    FindsHole(done, key, back);
    SpellCons(ps);
    assert (front + (Needle(key) + back))[|front| + |Needle(key)|..] == back;
    assert (front + (Needle(key) + back))[..|front|] == front;
  }

  // Removing.

  /** A piece, or the pieces of a removable range around one placeholder. */
  datatype Part = One(piece: Piece) | Around(before: seq<Piece>, after: seq<Piece>)

  function Pieces(part: Part, key: string): seq<Piece> {
    match part
    case One(piece) => [piece]
    case Around(before, after) => before + [Hole(key)] + after
  }

  function AllPieces(parts: seq<Part>, key: string): seq<Piece> {
    if parts == [] then [] else Pieces(parts[0], key) + AllPieces(parts[1..], key)
  }

  function Image(parts: seq<Part>, key: string): string { Spell(AllPieces(parts, key)) }

  function Kept(parts: seq<Part>): seq<Piece> {
    if parts == [] then [] else (if parts[0].One? then [parts[0].piece] else []) + Kept(parts[1..])
  }

  ghost predicate PartPassive(part: Part, key: string) {
    match part
    case One(piece) => Passive(piece, key)
    case Around(before, after) =>
      AllPassive(before, key) && AllPassive(after, key) && Lacks(before, key) && Lacks(after, key)
  }

  ghost predicate PartsPassive(parts: seq<Part>, key: string) {
    forall i :: 0 <= i < |parts| ==> PartPassive(parts[i], key)
  }

  predicate OccursAt(raw: string, needle: string, i: nat) {
    i + |needle| <= |raw| && raw[i..i + |needle|] == needle
  }

  /** Another match lies between `start` and `at`. */
  ghost predicate Crossed(raw: string, needle: string, start: nat, at: nat) {
    exists i: nat :: start <= i && i + |needle| <= at && OccursAt(raw, needle, i)
  }

  /** The range found for a placeholder that is not in a marked range cannot be removed. */
  ghost predicate Unremovable(kind: Kind, before: string, needle: string, after: string) {
    var range := RangeFor(kind, before + needle + after, |before|, |needle|);
    range.Some? ==> Crossed(before + needle + after, needle, range.value.0, |before|)
  }

  ghost predicate RangeIs(kind: Kind, before: string, pre: string, needle: string, post: string, after: string) {
    RangeFor(kind, before + pre + needle + post + after, |before + pre|, |needle|)
    == Some((|before|, |before + pre + needle + post|))
  }

  /** The range finder sees this part as it is marked. */
  ghost predicate Fits(kind: Kind, before: string, part: Part, key: string, after: string) {
    match part
    case One(piece) => piece == Hole(key) ==> Unremovable(kind, before, Needle(key), after)
    case Around(pre, post) => RangeIs(kind, before, Spell(pre), Needle(key), Spell(post), after)
  }

  ghost predicate AllFit(kind: Kind, before: string, parts: seq<Part>, key: string, after: string)
    decreases |parts|
  {
    parts == [] ||
    (&& Fits(kind, before, parts[0], key, Image(parts[1..], key) + after)
     && AllFit(kind, before + Spell(Pieces(parts[0], key)), parts[1..], key, after))
  }

  lemma KeepStep(kind: Kind, raw: string, needle: string, cursor: nat, at: nat)
    requires needle != "" && cursor <= at && at + |needle| <= |raw|
    requires Find(raw[cursor..], needle) == Some(at - cursor)
    requires var range := RangeFor(kind, raw, at, |needle|); range.Some? ==> range.value.0 < cursor
    ensures WithoutRanges(kind, raw, needle, cursor)
         == raw[cursor..at + |needle|] + WithoutRanges(kind, raw, needle, at + |needle|)
  {
    hide Find, RangeFor;
  }

  lemma DropStep(kind: Kind, raw: string, needle: string, cursor: nat, at: nat, start: nat, end: nat)
    requires needle != "" && cursor <= at && at + |needle| <= |raw|
    requires Find(raw[cursor..], needle) == Some(at - cursor)
    requires RangeFor(kind, raw, at, |needle|) == Some((start, end)) && cursor <= start
    ensures start < at && end <= |raw|
    ensures WithoutRanges(kind, raw, needle, cursor) == raw[cursor..start] + WithoutRanges(kind, raw, needle, end)
  {
    hide Find, RangeFor;
  }

  lemma Middle(a: string, b: string, c: string)
    ensures (a + b + c)[|a|..] == b + c
    ensures (a + b + c)[|a|..|a + b|] == b
  {
  }

  /** No match lies in text without placeholders of that name. */
  lemma NotCrossed(raw: string, before: string, done: seq<Piece>, after: string, key: string, start: nat)
    requires Unbraced(key) && AllPassive(done, key) && Lacks(done, key)
    requires raw == before + Spell(done) + after
    requires |before| <= start
    ensures !Crossed(raw, Needle(key), start, |before + Spell(done)|)
  {
    hide Find, Unbraced, Spell;
    var text, needle := Spell(done), Needle(key);
    FindsNothing(done, key);
    forall i: nat | start <= i && i + |needle| <= |before + text|
      ensures !OccursAt(raw, needle, i)
    {
      NoneMeansAbsent(text, needle, i - |before|);
      assert raw[i..i + |needle|] == text[i - |before|..i - |before| + |needle|];
    }
  }

  /** One step over a placeholder that stays. */
  lemma PassesHole(kind: Kind, key: string, before: string, done: seq<Piece>, after: string)
    requires Unbraced(key) && AllPassive(done, key) && Lacks(done, key)
    requires Unremovable(kind, before + Spell(done), Needle(key), after)
    ensures var raw := before + Spell(done) + Needle(key) + after;
            WithoutRanges(kind, raw, Needle(key), |before|)
            == Spell(done) + Needle(key)
             + WithoutRanges(kind, raw, Needle(key), |before + Spell(done) + Needle(key)|)
  {
    hide RangeFor, Find, Spell, WithoutRanges, Crossed, Unbraced;
    var needle, text := Needle(key), Spell(done);
    var raw, at := before + text + needle + after, |before + text|;
    FindsHole(done, key, after);
    Regroup(before + text, needle, after);
    Middle(before, text, needle + after);
    var range := RangeFor(kind, raw, at, |needle|);
    if range.Some? && range.value.0 >= |before| {
      NotCrossed(raw, before, done, needle + after, key, range.value.0);
      assert false;
    }
    KeepStep(kind, raw, needle, |before|, at);
    Regroup(before, text, needle);
    Middle(before, text + needle, after);
  }

  /** One step over a marked range, which goes. */
  lemma DropsRange(kind: Kind, key: string, before: string, done: seq<Piece>, pre: seq<Piece>, post: string,
                   after: string)
    requires Unbraced(key) && AllPassive(done, key) && Lacks(done, key) && AllPassive(pre, key) && Lacks(pre, key)
    requires RangeIs(kind, before + Spell(done), Spell(pre), Needle(key), post, after)
    ensures var raw := before + Spell(done) + Spell(pre) + Needle(key) + post + after;
            WithoutRanges(kind, raw, Needle(key), |before|)
            == Spell(done) + WithoutRanges(kind, raw, Needle(key),
                                           |before + Spell(done) + Spell(pre) + Needle(key) + post|)
  {
    hide RangeFor, Find, WithoutRanges, Unbraced, FlatMap;
    var needle, text, open := Needle(key), Spell(done), Spell(pre);
    var raw := before + text + open + needle + post + after;
    FlatMapConcat(Glyphs, done, pre);
    FindsHole(done + pre, key, post + after);
    Slices(before, text, open, needle, post, after);
    DropStep(kind, raw, needle, |before|, |before + text + open|, |before + text|,
             |before + text + open + needle + post|);
  }

  lemma Slices(before: string, text: string, open: string, needle: string, post: string, after: string)
    ensures var raw := before + text + open + needle + post + after;
            raw[|before|..] == text + open + (needle + (post + after)) && raw[|before|..|before + text|] == text
  {
    var raw := before + text + open + needle + post + after;
    Regroup(before + text + open + needle, post, after);
    Regroup(before + text + open, needle, post + after);
    Regroup(before, text, open);
    Middle(before, text + open, needle + (post + after));
    Regroup(before + text, open, needle + (post + after));
    Middle(before, text, open + (needle + (post + after)));
  }

  /** Deleting ranges by search deletes exactly the marked ranges. */
  lemma {:induction false} RemovesRanges(kind: Kind, key: string, before: string, done: seq<Piece>, parts: seq<Part>)
    requires Unbraced(key) && AllPassive(done, key) && Lacks(done, key) && PartsPassive(parts, key)
    requires AllFit(kind, before + Spell(done), parts, key, "")
    ensures WithoutRanges(kind, before + Spell(done) + Image(parts, key), Needle(key), |before|)
         == Spell(done) + Spell(Kept(parts))
    decreases |parts|
  {
    hide RangeFor, Find, Unbraced;
    var text, rest := Spell(done), Image(parts[if parts == [] then 0 else 1..], key);
    if parts == [] {
      FindsNothing(done, key);
      assert before + text + Image(parts, key) == before + text;
      assert (before + text)[|before|..] == text;
    } else {
      var first := Spell(Pieces(parts[0], key));
      ImageCons(parts, key);
      Regroup(before + text, first, rest);
      assert rest + "" == rest;
      match parts[0]
      case One(piece) =>
        FlatMapOne(Glyphs, piece);
        RemovesAfterPiece(kind, key, before, done, piece, parts);
      case Around(pre, post) => RemovesAfterRange(kind, key, before, done, pre, post, parts);
    }
  }

  lemma RemovesAfterPiece(kind: Kind, key: string, before: string, done: seq<Piece>, piece: Piece, parts: seq<Part>)
    requires parts != [] && parts[0] == One(piece)
    requires Unbraced(key) && AllPassive(done, key) && Lacks(done, key) && PartsPassive(parts, key)
    requires AllFit(kind, before + Spell(done), parts, key, "")
    ensures WithoutRanges(kind, before + Spell(done) + Glyphs(piece) + Image(parts[1..], key), Needle(key), |before|)
         == Spell(done) + Spell(Kept(parts))
    decreases |parts|, 0
  {
    hide RangeFor, Find, Unbraced, WithoutRanges;
    var text, rest := Spell(done), Image(parts[1..], key);
    FlatMapOne(Glyphs, piece);
    FlatMapConcat(Glyphs, [piece], Kept(parts[1..]));
    assert Passive(piece, key) by { assert PartPassive(parts[0], key); }
    Regroup(text, Glyphs(piece), Spell(Kept(parts[1..])));
    if piece == Hole(key) {
      assert rest + "" == rest;
      PassesHole(kind, key, before, done, rest);
      var next := before + text + Glyphs(piece);
      assert next + Spell([]) == next;
      RemovesRanges(kind, key, next, [], parts[1..]);
      assert Spell([]) + Spell(Kept(parts[1..])) == Spell(Kept(parts[1..]));
    } else {
      FlatMapSnoc(Glyphs, done, piece);
      Regroup(before, text, Glyphs(piece));
      RemovesRanges(kind, key, before, done + [piece], parts[1..]);
    }
  }

  lemma RemovesAfterRange(kind: Kind, key: string, before: string, done: seq<Piece>,
                          pre: seq<Piece>, post: seq<Piece>, parts: seq<Part>)
    requires parts != [] && parts[0] == Around(pre, post)
    requires Unbraced(key) && AllPassive(done, key) && Lacks(done, key) && PartsPassive(parts, key)
    requires AllFit(kind, before + Spell(done), parts, key, "")
    ensures WithoutRanges(kind, before + Spell(done) + Spell(Pieces(parts[0], key)) + Image(parts[1..], key),
                          Needle(key), |before|)
         == Spell(done) + Spell(Kept(parts))
    decreases |parts|, 0
  {
    hide RangeFor, Find, Unbraced, WithoutRanges;
    var text, rest := Spell(done), Image(parts[1..], key);
    assert PartPassive(parts[0], key);
    assert rest + "" == rest;
    SpellAround(pre, key, post);
    DropsRange(kind, key, before, done, pre, Spell(post), rest);
    var first := Spell(pre) + Needle(key) + Spell(post);
    var next := before + text + first;
    assert before + text + Spell(pre) + Needle(key) + Spell(post) == next;
    assert next + Spell([]) == next;
    RemovesRanges(kind, key, next, [], parts[1..]);
    assert Kept(parts) == Kept(parts[1..]);
    assert Spell([]) + Spell(Kept(parts[1..])) == Spell(Kept(parts[1..]));
  }

  lemma SpellAround(pre: seq<Piece>, key: string, post: seq<Piece>)
    ensures Spell(pre + [Hole(key)] + post) == Spell(pre) + Needle(key) + Spell(post)
  {
    FlatMapConcat(Glyphs, pre + [Hole(key)], post);
    FlatMapSnoc(Glyphs, pre, Hole(key));
  }

  // Joining texts.

  lemma {:induction false} AllPiecesConcat(a: seq<Part>, b: seq<Part>, key: string)
    ensures AllPieces(a + b, key) == AllPieces(a, key) + AllPieces(b, key)
  {
    if a == [] {
      assert a + b == b;
    } else {
      AllPiecesConcat(a[1..], b, key);
      assert (a + b)[0] == a[0] && (a + b)[1..] == a[1..] + b;
      Regroup(Pieces(a[0], key), AllPieces(a[1..], key), AllPieces(b, key));
    }
  }

  lemma ImageConcat(a: seq<Part>, b: seq<Part>, key: string)
    ensures Image(a + b, key) == Image(a, key) + Image(b, key)
  {
    AllPiecesConcat(a, b, key);
    FlatMapConcat(Glyphs, AllPieces(a, key), AllPieces(b, key));
  }

  lemma {:induction false} KeptConcat(a: seq<Part>, b: seq<Part>)
    ensures Kept(a + b) == Kept(a) + Kept(b)
  {
    if a == [] {
      assert a + b == b;
    } else {
      KeptConcat(a[1..], b);
      assert (a + b)[0] == a[0] && (a + b)[1..] == a[1..] + b;
      Regroup(if a[0].One? then [a[0].piece] else [], Kept(a[1..]), Kept(b));
    }
  }

  lemma ImageCons(parts: seq<Part>, key: string)
    requires parts != []
    ensures Image(parts, key) == Spell(Pieces(parts[0], key)) + Image(parts[1..], key)
  {
    FlatMapConcat(Glyphs, Pieces(parts[0], key), AllPieces(parts[1..], key));
  }

  lemma FitHead(kind: Kind, before: string, parts: seq<Part>, key: string, after: string)
    requires parts != []
    ensures AllFit(kind, before, parts, key, after)
       <==> (&& Fits(kind, before, parts[0], key, Image(parts[1..], key) + after)
             && AllFit(kind, before + Spell(Pieces(parts[0], key)), parts[1..], key, after))
  {
    hide Fits, Image, Spell, Pieces;
  }

  lemma {:induction false} FitConcat(kind: Kind, before: string, a: seq<Part>, b: seq<Part>, key: string, after: string)
    requires AllFit(kind, before, a, key, Image(b, key) + after)
    requires AllFit(kind, before + Image(a, key), b, key, after)
    ensures AllFit(kind, before, a + b, key, after)
    decreases |a|
  {
    if a == [] {
      assert a + b == b;
      assert before + Image(a, key) == before;
    } else {
      FitConsConcat(kind, before, a, b, key, after);
    }
  }

  lemma FitConsConcat(kind: Kind, before: string, a: seq<Part>, b: seq<Part>, key: string, after: string)
    requires a != []
    requires AllFit(kind, before, a, key, Image(b, key) + after)
    requires AllFit(kind, before + Image(a, key), b, key, after)
    ensures AllFit(kind, before, a + b, key, after)
    decreases |a|, 0
  {
    hide Fits, Image, Spell, Pieces, AllFit;
    var first, back := Spell(Pieces(a[0], key)), Image(b, key);
    ImageCons(a, key);
    FitHead(kind, before, a, key, back + after);
    Regroup(before, first, Image(a[1..], key));
    FitConcat(kind, before + first, a[1..], b, key, after);
    ImageConcat(a[1..], b, key);
    Regroup(Image(a[1..], key), back, after);
    var both := a + b;
    assert both[0] == a[0] && both[1..] == a[1..] + b;
    FitHead(kind, before, both, key, after);
  }
}
