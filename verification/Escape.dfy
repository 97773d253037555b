/** Escaping for XML and HTML as chains of single-character replacements. */
module Escape {
  import opened Text

  /** `str::replace` of one character. */
  function ReplaceChar(s: string, c: char, r: string): string {
    if s == "" then "" else (if s[0] == c then r else [s[0]]) + ReplaceChar(s[1..], c, r)
  }

  /** `xml_escape`: five replacements, one after the other. */
  function XmlEscape(s: string): string {
    var s1 := ReplaceChar(s, '&', "&amp;");
    var s2 := ReplaceChar(s1, '\"', "&quot;");
    var s3 := ReplaceChar(s2, '\'', "&apos;");
    var s4 := ReplaceChar(s3, '<', "&lt;");
    ReplaceChar(s4, '>', "&gt;")
  }

  /** `html_escape`. */
  function HtmlEscape(s: string): string {
    var s1 := ReplaceChar(s, '&', "&amp;");
    var s2 := ReplaceChar(s1, '<', "&lt;");
    var s3 := ReplaceChar(s2, '>', "&gt;");
    var s4 := ReplaceChar(s3, '\"', "&quot;");
    ReplaceChar(s4, '\'', "&#39;")
  }

  /** One character escaped, `apostrophe` being how the two escapes differ. */
  function EscapedChar(c: char, apostrophe: string): string {
    if c == '&' then "&amp;"
    else if c == '\"' then "&quot;"
    else if c == '\'' then apostrophe
    else if c == '<' then "&lt;"
    else if c == '>' then "&gt;"
    else [c]
  }

  function Escaped(s: string, apostrophe: string): string {
    if s == "" then "" else EscapedChar(s[0], apostrophe) + Escaped(s[1..], apostrophe)
  }

  lemma {:induction false} ReplaceConcat(s: string, t: string, c: char, r: string)
    ensures ReplaceChar(s + t, c, r) == ReplaceChar(s, c, r) + ReplaceChar(t, c, r)
  {
    if s == "" {
      assert s + t == t;
    } else {
      ReplaceConcat(s[1..], t, c, r);
      var both := s + t;
      assert both[0] == s[0] && both[1..] == s[1..] + t;
      Regroup(if s[0] == c then r else [s[0]], ReplaceChar(s[1..], c, r), ReplaceChar(t, c, r));
    }
  }

  lemma {:induction false} ReplaceAbsent(s: string, c: char, r: string)
    requires c !in s
    ensures ReplaceChar(s, c, r) == s
  {
    if s != "" {
      ReplaceAbsent(s[1..], c, r);
      assert [s[0]] + s[1..] == s;
    }
  }

  lemma ReplaceOne(x: char, c: char, r: string)
    ensures ReplaceChar([x], c, r) == if x == c then r else [x]
  {
    assert [x][1..] == "";
  }

  predicate IsMarkup(c: char) { c == '<' || c == '>' || c == '\"' || c == '\'' }

  predicate NoMarkup(s: string) { forall i :: 0 <= i < |s| ==> !IsMarkup(s[i]) }

  lemma EntitiesPlain()
    ensures NoMarkup("&amp;") && NoMarkup("&quot;") && NoMarkup("&apos;") && NoMarkup("&#39;")
    ensures NoMarkup("&lt;") && NoMarkup("&gt;")
  {
  }

  /** A replacement acts on its own character and leaves the entity an earlier one put in. */
  lemma ReplaceStage(e: string, c: char, r: string)
    requires |e| == 1 || NoMarkup(e)
    requires IsMarkup(c)
    ensures ReplaceChar(e, c, r) == if e == [c] then r else e
  {
    if |e| == 1 {
      ReplaceOne(e[0], c, r);
      assert e == [e[0]];
    } else {
      ReplaceAbsent(e, c, r);
    }
  }

  lemma XmlEscapeOne(x: char)
    ensures XmlEscape([x]) == EscapedChar(x, "&apos;")
  {
    hide ReplaceChar, NoMarkup;
    EntitiesPlain();
    ReplaceOne(x, '&', "&amp;");
    var s1 := if x == '&' then "&amp;" else [x];
    ReplaceStage(s1, '\"', "&quot;");
    var s2 := if x == '\"' then "&quot;" else s1;
    ReplaceStage(s2, '\'', "&apos;");
    var s3 := if x == '\'' then "&apos;" else s2;
    ReplaceStage(s3, '<', "&lt;");
    var s4 := if x == '<' then "&lt;" else s3;
    ReplaceStage(s4, '>', "&gt;");
  }

  lemma HtmlEscapeOne(x: char)
    ensures HtmlEscape([x]) == EscapedChar(x, "&#39;")
  {
    hide ReplaceChar, NoMarkup;
    EntitiesPlain();
    ReplaceOne(x, '&', "&amp;");
    var s1 := if x == '&' then "&amp;" else [x];
    ReplaceStage(s1, '<', "&lt;");
    var s2 := if x == '<' then "&lt;" else s1;
    ReplaceStage(s2, '>', "&gt;");
    var s3 := if x == '>' then "&gt;" else s2;
    ReplaceStage(s3, '\"', "&quot;");
    var s4 := if x == '\"' then "&quot;" else s3;
    ReplaceStage(s4, '\'', "&#39;");
  }

  lemma XmlEscapeConcat(s: string, t: string)
    ensures XmlEscape(s + t) == XmlEscape(s) + XmlEscape(t)
  {
    ReplaceConcat(s, t, '&', "&amp;");
    var s1, t1 := ReplaceChar(s, '&', "&amp;"), ReplaceChar(t, '&', "&amp;");
    ReplaceConcat(s1, t1, '\"', "&quot;");
    var s2, t2 := ReplaceChar(s1, '\"', "&quot;"), ReplaceChar(t1, '\"', "&quot;");
    ReplaceConcat(s2, t2, '\'', "&apos;");
    var s3, t3 := ReplaceChar(s2, '\'', "&apos;"), ReplaceChar(t2, '\'', "&apos;");
    ReplaceConcat(s3, t3, '<', "&lt;");
    ReplaceConcat(ReplaceChar(s3, '<', "&lt;"), ReplaceChar(t3, '<', "&lt;"), '>', "&gt;");
  }

  lemma HtmlEscapeConcat(s: string, t: string)
    ensures HtmlEscape(s + t) == HtmlEscape(s) + HtmlEscape(t)
  {
    ReplaceConcat(s, t, '&', "&amp;");
    var s1, t1 := ReplaceChar(s, '&', "&amp;"), ReplaceChar(t, '&', "&amp;");
    ReplaceConcat(s1, t1, '<', "&lt;");
    var s2, t2 := ReplaceChar(s1, '<', "&lt;"), ReplaceChar(t1, '<', "&lt;");
    ReplaceConcat(s2, t2, '>', "&gt;");
    var s3, t3 := ReplaceChar(s2, '>', "&gt;"), ReplaceChar(t2, '>', "&gt;");
    ReplaceConcat(s3, t3, '\"', "&quot;");
    ReplaceConcat(ReplaceChar(s3, '\"', "&quot;"), ReplaceChar(t3, '\"', "&quot;"), '\'', "&#39;");
  }

  /** The chains are one character-wise map each. */
  lemma {:induction false} EscapesAreMaps(s: string)
    ensures XmlEscape(s) == Escaped(s, "&apos;") && HtmlEscape(s) == Escaped(s, "&#39;")
  {
    if s != "" {
      EscapesAreMaps(s[1..]);
      XmlEscapeConcat([s[0]], s[1..]);
      HtmlEscapeConcat([s[0]], s[1..]);
      XmlEscapeOne(s[0]);
      HtmlEscapeOne(s[0]);
      hide XmlEscape, HtmlEscape, EscapedChar;
      assert [s[0]] + s[1..] == s;
    }
  }

  /** The character at the front of an escaped text, and how many characters spell it. */
  function Front(s: string, apostrophe: string): (r: (char, nat))
    requires s != "" && |apostrophe| > 0
    ensures 0 < r.1 <= |s|
  {
    if "&amp;" <= s then ('&', 5)
    else if "&quot;" <= s then ('\"', 6)
    else if apostrophe <= s then ('\'', |apostrophe|)
    else if "&lt;" <= s then ('<', 4)
    else if "&gt;" <= s then ('>', 4)
    else (s[0], 1)
  }

  /** Resolves the five entities, from the front. */
  function Unescaped(s: string, apostrophe: string): string
    requires |apostrophe| > 0
  {
    if s == "" then ""
    else
      var (c, n) := Front(s, apostrophe);
      [c] + Unescaped(s[n..], apostrophe)
  }

  lemma FrontOfEscaped(c: char, rest: string, apostrophe: string)
    requires apostrophe == "&apos;" || apostrophe == "&#39;"
    ensures Front(EscapedChar(c, apostrophe) + rest, apostrophe) == (c, |EscapedChar(c, apostrophe)|)
  {
    var entity := EscapedChar(c, apostrophe);
    var s := entity + rest;
    assert s[0] == entity[0];
    if entity[0] == '&' {
      assert s[1] == entity[1] && s[2] == entity[2];
      assert entity <= s;
    }
  }

  lemma UnescapeOne(c: char, rest: string, apostrophe: string)
    requires apostrophe == "&apos;" || apostrophe == "&#39;"
    ensures Unescaped(EscapedChar(c, apostrophe) + rest, apostrophe) == [c] + Unescaped(rest, apostrophe)
  {
    hide Front;
    FrontOfEscaped(c, rest, apostrophe);
    var entity := EscapedChar(c, apostrophe);
    assert (entity + rest)[|entity|..] == rest;
  }

  /** Resolving the entities gives back what was escaped, for every text. */
  lemma {:induction false} UnescapeInverts(s: string, apostrophe: string)
    requires apostrophe == "&apos;" || apostrophe == "&#39;"
    ensures Unescaped(Escaped(s, apostrophe), apostrophe) == s
  {
    if s != "" {
      UnescapeInverts(s[1..], apostrophe);
      UnescapeOne(s[0], Escaped(s[1..], apostrophe), apostrophe);
      assert [s[0]] + s[1..] == s;
    }
  }

  /** The markup characters of a text, in order. */
  function Markup(s: string): string {
    if s == "" then "" else (if IsMarkup(s[0]) then [s[0]] else "") + Markup(s[1..])
  }

  lemma {:induction false} MarkupConcat(s: string, t: string)
    ensures Markup(s + t) == Markup(s) + Markup(t)
  {
    if s == "" {
      assert s + t == t;
    } else {
      MarkupConcat(s[1..], t);
      var both := s + t;
      assert both[0] == s[0] && both[1..] == s[1..] + t;
      Regroup(if IsMarkup(s[0]) then [s[0]] else "", Markup(s[1..]), Markup(t));
    }
  }

  lemma MarkupOne(c: char)
    ensures Markup([c]) == if c == '<' || c == '>' || c == '\"' || c == '\'' then [c] else ""
  {
    assert [c][1..] == "";
  }

  lemma {:induction false} MarkupNone(s: string)
    requires NoMarkup(s)
    ensures Markup(s) == ""
  {
    if s != "" {
      MarkupNone(s[1..]);
    }
  }

  lemma {:induction false} EscapedHasNoMarkup(s: string)
    ensures NoMarkup(Escaped(s, "&apos;"))
  {
    if s != "" {
      EscapedHasNoMarkup(s[1..]);
    }
  }
}
