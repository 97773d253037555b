/** Counting tags and text in the text of a template, character for character as XML is read. */
module TemplateTally {
  import opened Text
  import opened Template
  import opened TemplateText
  import opened TemplateTree
  import opened TemplateFit
  import Escape

  /** Where a reader of the text is. */
  datatype Mode = InText | Opened | InTag(slash: bool) | InQuotes(quote: char)

  /** Start tags less end tags and self-closing tags, and the characters outside tags. */
  datatype Tally = Tally(mode: Mode, balance: int, text: nat)

  function Step(c: char, mode: Mode): Tally {
    match mode
    case InText => if c == '<' then Tally(Opened, 0, 0) else Tally(InText, 0, 1)
    case Opened => Tally(InTag(false), if c == '/' then -1 else 1, 0)
    case InTag(slash) =>
      if c == '>' then Tally(InText, if slash then -1 else 0, 0)
      else if IsQuote(c) then Tally(InQuotes(c), 0, 0)
      else Tally(InTag(c == '/'), 0, 0)
    case InQuotes(quote) => Tally(if c == quote then InTag(false) else mode, 0, 0)
  }

  function Then(t: Tally, u: Tally): Tally { Tally(u.mode, t.balance + u.balance, t.text + u.text) }

  function Scan(s: string, mode: Mode): Tally {
    if s == "" then Tally(mode, 0, 0)
    else
      var t := Step(s[0], mode);
      Then(t, Scan(s[1..], t.mode))
  }

  lemma {:induction false} ScanConcat(a: string, b: string, mode: Mode)
    ensures Scan(a + b, mode) == Then(Scan(a, mode), Scan(b, Scan(a, mode).mode))
  {
    if a == "" {
      assert a + b == b;
    } else {
      hide Step;
      var both := a + b;
      assert both[0] == a[0] && both[1..] == a[1..] + b;
      ScanConcat(a[1..], b, Step(a[0], mode).mode);
    }
  }

  lemma ScanNothing(mode: Mode)
    ensures Scan("", mode) == Tally(mode, 0, 0)
  {
  }

  lemma ScanOne(c: char, mode: Mode)
    ensures Scan([c], mode) == Step(c, mode)
  {
    assert [c][1..] == "";
  }

  lemma {:induction false} ScanText(s: string)
    requires '<' !in s
    ensures Scan(s, InText) == Tally(InText, 0, |s|)
  {
    if s != "" {
      ScanText(s[1..]);
    }
  }

  lemma {:induction false} ScanQuoted(s: string, quote: char)
    requires quote !in s
    ensures Scan(s, InQuotes(quote)) == Tally(InQuotes(quote), 0, 0)
  {
    if s != "" {
      ScanQuoted(s[1..], quote);
    }
  }

  predicate TagByte(c: char) { IsNameByte(c) || IsAsciiSpace(c) || c == '=' }

  lemma TagByteStep(c: char)
    requires TagByte(c)
    ensures Step(c, InTag(false)) == Tally(InTag(false), 0, 0)
  {
  }

  lemma {:induction false} ScanTag(s: string)
    requires forall i :: 0 <= i < |s| ==> TagByte(s[i])
    ensures Scan(s, InTag(false)) == Tally(InTag(false), 0, 0)
  {
    if s != "" {
      hide TagByte, Step;
      TagByteStep(s[0]);
      ScanTag(s[1..]);
    }
  }

  // Start tags.

  lemma {:induction false} ValueUnquoted(ps: seq<Piece>, quote: char)
    requires PlainPieces(ps) && Delimited(ps, quote) && IsQuote(quote)
    ensures quote !in Spell(ps)
  {
    if ps != [] {
      ValueUnquoted(ps[1..], quote);
      SpellCons(ps);
      assert PlainPiece(ps[0]);
      if ps[0].Hole? {
        KeyUnquoted(ps[0].key, quote);
      }
    }
  }

  lemma KeyUnquoted(key: string, quote: char)
    requires IsKey(key) && IsQuote(quote)
    ensures quote !in Needle(key)
  {
    forall i | 0 <= i < |key| ensures key[i] != quote {
      assert !Escape.IsMarkup(key[i]);
    }
  }

  lemma HeadBytes(a: Attribute)
    requires WellFormedAttribute(a)
    ensures var head := a.space + a.name + a.before + "=" + a.after;
            Head(a) == head + [a.quote] && forall i :: 0 <= i < |head| ==> TagByte(head[i])
  {
    SpaceBytes(a.space);
    NameHolds(a.name);
    SpaceBytes(a.before);
    SpaceBytes(a.after);
    hide IsNameByte, IsAsciiSpace, PlainPieces, Delimited, AllSpace, IsName;
    assert forall i :: 0 <= i < |a.space| ==> TagByte(a.space[i]);
    assert forall i :: 0 <= i < |a.name| ==> TagByte(a.name[i]);
    assert forall i :: 0 <= i < |a.before| ==> TagByte(a.before[i]);
    assert forall i :: 0 <= i < |a.after| ==> TagByte(a.after[i]);
  }

  /** Two texts that leave the tally as it is, one after the other. */
  lemma ScanJoin(a: string, b: string, from: Mode, middle: Mode, to: Mode)
    requires Scan(a, from) == Tally(middle, 0, 0) && Scan(b, middle) == Tally(to, 0, 0)
    ensures Scan(a + b, from) == Tally(to, 0, 0)
  {
    hide Scan;
    ScanConcat(a, b, from);
  }

  lemma QuoteStep(quote: char)
    requires IsQuote(quote)
    ensures Step(quote, InTag(false)) == Tally(InQuotes(quote), 0, 0)
    ensures Step(quote, InQuotes(quote)) == Tally(InTag(false), 0, 0)
  {
  }

  lemma ScanQuotes(quote: char)
    requires IsQuote(quote)
    ensures Scan([quote], InTag(false)) == Tally(InQuotes(quote), 0, 0)
    ensures Scan([quote], InQuotes(quote)) == Tally(InTag(false), 0, 0)
  {
    hide Scan, Step, IsQuote;
    QuoteStep(quote);
    ScanOne(quote, InTag(false));
    ScanOne(quote, InQuotes(quote));
  }

  lemma ScanValue(head: string, quote: char, value: string)
    requires (forall i :: 0 <= i < |head| ==> TagByte(head[i])) && IsQuote(quote) && quote !in value
    ensures Scan(head + [quote] + value + [quote], InTag(false)) == Tally(InTag(false), 0, 0)
  {
    hide Scan, TagByte, IsQuote;
    ScanTag(head);
    ScanQuoted(value, quote);
    ScanQuotes(quote);
    ScanJoin(head, [quote], InTag(false), InTag(false), InQuotes(quote));
    ScanJoin(head + [quote], value, InTag(false), InQuotes(quote), InQuotes(quote));
    ScanJoin(head + [quote] + value, [quote], InTag(false), InQuotes(quote), InTag(false));
  }

  lemma ScanAttribute(a: Attribute)
    requires WellFormedAttribute(a)
    ensures Scan(Spell(AttributePieces(a)), InTag(false)) == Tally(InTag(false), 0, 0)
  {
    hide Spell, TagByte, PlainPieces, Delimited, Head, Scan, AllSpace, IsName, AttributePieces;
    HeadBytes(a);
    AttributeSpelled(a);
    ValueUnquoted(a.value, a.quote);
    ScanValue(a.space + a.name + a.before + "=" + a.after, a.quote, Spell(a.value));
  }

  lemma {:induction false} ScanAttributes(attributes: seq<Attribute>)
    requires AllWellFormed(attributes)
    ensures Scan(Spell(AttributesPieces(attributes)), InTag(false)) == Tally(InTag(false), 0, 0)
    decreases |attributes|
  {
    hide Spell, AttributePieces, WellFormedAttribute, Scan;
    if attributes == [] {
      NoSpell();
      ScanNothing(InTag(false));
    } else {
      var own, rest := AttributePieces(attributes[0]), AttributesPieces(attributes[1..]);
      assert AttributesPieces(attributes) == own + rest;
      hide AttributesPieces;
      ScanAttribute(attributes[0]);
      ScanAttributes(attributes[1..]);
      SpellConcat(own, rest);
      ScanJoin(Spell(own), Spell(rest), InTag(false), InTag(false), InTag(false));
    }
  }

  lemma ScanName(name: string)
    requires IsName(name)
    ensures Scan("<" + name, InText) == Tally(InTag(false), 1, 0)
    ensures Scan("</" + name + ">", InText) == Tally(InText, -1, 0)
  {
    hide Scan, IsName;
    ScanNamed("<", name);
    ScanNamed("</", name);
    ScanConcat("</" + name, ">", InText);
    ScanOne('>', InTag(false));
  }

  lemma ScanSign(open: string)
    requires open == "<" || open == "</"
    ensures Scan(open, InText) == Tally(if open == "<" then Opened else InTag(false), if open == "<" then 0 else -1, 0)
  {
    hide Scan;
    ScanOne('<', InText);
    ScanOne('/', Opened);
    ScanConcat("<", "/", InText);
    assert "<" + "/" == "</";
  }

  lemma ScanNewName(name: string)
    requires IsName(name)
    ensures Scan(name, Opened) == Tally(InTag(false), 1, 0)
  {
    hide TagByte, Scan;
    assert forall i :: 0 <= i < |name| ==> TagByte(name[i]) by { NameTagBytes(name); }
    ScanTag(name[1..]);
    NameBytes(name);
    ScanOne(name[0], Opened);
    ScanConcat([name[0]], name[1..], Opened);
    assert [name[0]] + name[1..] == name;
  }

  lemma NameTagBytes(name: string)
    requires IsName(name)
    ensures forall i :: 0 <= i < |name| ==> TagByte(name[i])
  {
  }

  lemma ScanNamed(open: string, name: string)
    requires IsName(name) && (open == "<" || open == "</")
    ensures Scan(open + name, InText) == Tally(InTag(false), if open == "<" then 1 else -1, 0)
  {
    hide Scan, TagByte, IsName;
    ScanSign(open);
    ScanConcat(open, name, InText);
    NameTagBytes(name);
    ScanTag(name);
    ScanNewName(name);
  }

  lemma SpaceTagBytes(s: string)
    requires AllSpace(s)
    ensures forall i :: 0 <= i < |s| ==> TagByte(s[i])
  {
  }

  lemma ScanOpen(e: Element)
    requires IsName(e.name) && AllWellFormed(e.attributes) && AllSpace(e.tail)
    ensures Scan(Spell(OpenPieces(e)), InText) == Tally(InTag(false), 1, 0)
  {
    hide Spell, IsName, Scan, TagByte, AllSpace, AllWellFormed;
    SpaceTagBytes(e.tail);
    var attributes := Spell(AttributesPieces(e.attributes));
    OpenSpelled(e);
    ScanName(e.name);
    ScanAttributes(e.attributes);
    ScanTag(e.tail);
    ScanConcat(attributes, e.tail, InTag(false));
    ScanConcat("<" + e.name, attributes + e.tail, InText);
  }

  lemma ScanTagClose(e: Element)
    ensures Scan(TagClose(e), InTag(false)) == Tally(InText, if e.closed then -1 else 0, 0)
  {
    hide Scan;
    ScanOne('/', InTag(false));
    ScanOne('>', InTag(true));
    ScanOne('>', InTag(false));
    assert "/>" == "/" + ">";
    ScanConcat("/", ">", InTag(false));
  }

  lemma ScanStart(e: Element)
    requires IsName(e.name) && AllWellFormed(e.attributes) && AllSpace(e.tail)
    ensures Scan(Spell(OpenPieces(e) + [Lit(TagClose(e))]), InText) == Tally(InText, if e.closed then 0 else 1, 0)
  {
    hide Spell, OpenPieces, Scan, IsName, AllSpace, AllWellFormed;
    ScanOpen(e);
    ScanTagClose(e);
    SpellConcat(OpenPieces(e), [Lit(TagClose(e))]);
    SpellOne(Lit(TagClose(e)));
    ScanConcat(Spell(OpenPieces(e)), TagClose(e), InText);
  }

  // Trees.

  /** The pieces, read from outside any tag. */
  function Read(ps: seq<Piece>): Tally { Scan(Spell(ps), InText) }

  lemma ReadConcat(ps: seq<Piece>, qs: seq<Piece>)
    requires Read(ps).mode == InText
    ensures Read(ps + qs) == Then(Read(ps), Read(qs))
  {
    hide Spell;
    SpellConcat(ps, qs);
    ScanConcat(Spell(ps), Spell(qs), InText);
  }

  lemma ReadNothing()
    ensures Read([]) == Tally(InText, 0, 0)
  {
  }

  lemma ReadPiece(p: Piece)
    requires PlainPiece(p)
    ensures Read([p]) == Tally(InText, 0, |Glyphs(p)|)
  {
    SpellOne(p);
    GlyphEnds(p);
    ScanText(Glyphs(p));
  }

  lemma ReadCloseTag(e: Element)
    requires IsName(e.name)
    ensures Read([Lit(CloseTag(e))]) == Tally(InText, -1, 0)
  {
    SpellOne(Lit(CloseTag(e)));
    ScanName(e.name);
  }

  /** A well-formed tree's text has as many end tags as it needs. */
  lemma {:induction false} TreeBalanced(items: seq<Item>)
    requires WellFormedItems(items)
    ensures Read(ItemsPieces(items)).mode == InText && Read(ItemsPieces(items)).balance == 0
    decreases items, 0
  {
    ReadNothing();
    if items != [] {
      hide ItemPieces, Read, WellFormedItem;
      assert WellFormedItem(items[0]);
      ItemBalanced(items[0]);
      TreeBalanced(items[1..]);
      ReadConcat(ItemPieces(items[0]), ItemsPieces(items[1..]));
    }
  }

  lemma ItemBalanced(item: Item)
    requires WellFormedItem(item)
    ensures Read(ItemPieces(item)).mode == InText && Read(ItemPieces(item)).balance == 0
    ensures item.Child? && !item.element.closed ==>
              Read(ItemPieces(item)).text == Read(ItemsPieces(item.element.items)).text
    decreases item, 1
  {
    hide Read, OpenPieces, PlainPiece;
    match item
    case Words(piece) => ReadPiece(piece);
    case Child(e) =>
      WellFormedTag(e);
      ScanStartRead(e);
      if !e.closed {
        TreeBalanced(e.items);
        ReadCloseTag(e);
        ReadElement(e);
      } else {
        assert ElementPieces(e) == OpenPieces(e) + [Lit(TagClose(e))];
      }
  }

  lemma WellFormedTag(e: Element)
    requires WellFormedElement(e)
    ensures IsName(e.name) && AllWellFormed(e.attributes) && AllSpace(e.tail)
  {
  }

  lemma ScanStartRead(e: Element)
    requires IsName(e.name) && AllWellFormed(e.attributes) && AllSpace(e.tail)
    ensures Read(OpenPieces(e) + [Lit(TagClose(e))]) == Tally(InText, if e.closed then 0 else 1, 0)
  {
    ScanStart(e);
  }

  lemma ReadElement(e: Element)
    requires !e.closed && IsName(e.name)
    requires Read(OpenPieces(e) + [Lit(TagClose(e))]).mode == InText && Read(ItemsPieces(e.items)).mode == InText
    ensures Read(ElementPieces(e))
         == Then(Then(Read(OpenPieces(e) + [Lit(TagClose(e))]), Read(ItemsPieces(e.items))), Read([Lit(CloseTag(e))]))
  {
    hide Read, OpenPieces, ItemsPieces;
    var start := OpenPieces(e) + [Lit(TagClose(e))];
    Regroup(OpenPieces(e), [Lit(">")], ItemsPieces(e.items));
    Regroup(OpenPieces(e), [Lit(">")] + ItemsPieces(e.items), [Lit(CloseTag(e))]);
    ReadConcat(start, ItemsPieces(e.items));
    ReadConcat(start + ItemsPieces(e.items), [Lit(CloseTag(e))]);
  }
}
