/** Filling message templates by text search: replacing placeholders, and deleting the whole
    attribute or element around a placeholder that has no value. */
module Template {
  import opened Text
  import Escape

  datatype Kind = AttributeKind | ElementKind

  type Range = (nat, nat)

  /** A placeholder's name and its value, absent when there is none. */
  type Replacement = (string, Option<string>)

  function ReplaceAll(raw: string, needle: string, replacement: string): string
    requires needle != ""
    decreases |raw|
  {
    match Find(raw, needle)
    case None => raw
    case Some(at) => raw[..at] + replacement + ReplaceAll(raw[at + |needle|..], needle, replacement)
  }

  /** `replace_all`. */
  method ReplaceEach(raw: string, needle: string, replacement: string) returns (result: string)
    requires needle != ""
    ensures result == ReplaceAll(raw, needle, replacement)
  {
    hide Find;
    result := "";
    var rest := raw;
    while Find(rest, needle).Some?
      invariant ReplaceAll(raw, needle, replacement) == result + ReplaceAll(rest, needle, replacement)
      decreases |rest|
    {
      var at := Find(rest, needle).value;
      ghost var tail := ReplaceAll(rest[at + |needle|..], needle, replacement);
      Regroup(result, rest[..at] + replacement, tail);
      Regroup(result, rest[..at], replacement);
      result := result + rest[..at];
      result := result + replacement;
      rest := rest[at + |needle|..];
    }
    result := result + rest;
  }

  predicate IsNameByte(c: char) {
    IsAsciiAlphanumeric(c) || c == ':' || c == '_' || c == '-' || c == '.'
  }

  /** Start of the white space that ends at `i`. */
  function BeforeSpace(raw: string, i: nat): (r: nat)
    requires i <= |raw|
    ensures r <= i
  {
    if i > 0 && IsAsciiSpace(raw[i - 1]) then BeforeSpace(raw, i - 1) else i
  }

  /** Start of the name that ends at `i`. */
  function BeforeName(raw: string, i: nat): (r: nat)
    requires i <= |raw|
    ensures r <= i
  {
    if i > 0 && IsNameByte(raw[i - 1]) then BeforeName(raw, i - 1) else i
  }

  /** End of the tag name that starts at `i`. */
  function AfterName(raw: string, i: nat): (r: nat)
    requires i <= |raw|
    ensures i <= r <= |raw|
    decreases |raw| - i
  {
    if i < |raw| && !IsAsciiSpace(raw[i]) && raw[i] != '/' && raw[i] != '>' then AfterName(raw, i + 1) else i
  }

  predicate IsQuote(c: char) { c == '\"' || c == '\'' }

  /** The attribute whose complete value is the match. */
  function AttributeRange(raw: string, at: nat, length: nat): (r: Option<Range>)
    requires at + length <= |raw|
    ensures r.Some? ==> r.value.0 < at && at + length < r.value.1 <= |raw|
  {
    var end := at + length;
    if at == 0 || end >= |raw| || !IsQuote(raw[at - 1]) || raw[end] != raw[at - 1] then None
    else
      var equals := BeforeSpace(raw, at - 1);
      if equals == 0 || raw[equals - 1] != '=' then None
      else
        var nameEnd := BeforeSpace(raw, equals - 1);
        var nameStart := BeforeName(raw, nameEnd);
        if nameStart == nameEnd then None else Some((BeforeSpace(raw, nameStart), end + 1))
  }

  /** `optional_attribute_range`. */
  method OptionalAttributeRange(raw: string, at: nat, length: nat) returns (r: Option<Range>)
    requires at + length <= |raw|
    ensures r == AttributeRange(raw, at, length)
  {
    var end := at + length;
    if at == 0 || end >= |raw| {
      return None;
    }
    var quote := raw[at - 1];
    if !IsQuote(quote) || raw[end] != quote {
      return None;
    }
    var cursor := at - 1;
    while cursor > 0 && IsAsciiSpace(raw[cursor - 1])
      invariant 0 <= cursor < at && BeforeSpace(raw, at - 1) == BeforeSpace(raw, cursor)
    {
      cursor := cursor - 1;
    }
    if cursor == 0 || raw[cursor - 1] != '=' {
      return None;
    }
    var nameEnd := cursor - 1;
    while nameEnd > 0 && IsAsciiSpace(raw[nameEnd - 1])
      invariant 0 <= nameEnd < cursor && BeforeSpace(raw, cursor - 1) == BeforeSpace(raw, nameEnd)
    {
      nameEnd := nameEnd - 1;
    }
    var nameStart := nameEnd;
    while nameStart > 0 && IsNameByte(raw[nameStart - 1])
      invariant 0 <= nameStart <= nameEnd && BeforeName(raw, nameEnd) == BeforeName(raw, nameStart)
    {
      nameStart := nameStart - 1;
    }
    if nameStart == nameEnd {
      return None;
    }
    var removeStart := nameStart;
    while removeStart > 0 && IsAsciiSpace(raw[removeStart - 1])
      invariant 0 <= removeStart <= nameStart && BeforeSpace(raw, nameStart) == BeforeSpace(raw, removeStart)
    {
      removeStart := removeStart - 1;
    }
    r := Some((removeStart, end + 1));
  }

  /** The element whose complete body is the match. */
  function ElementRange(raw: string, at: nat, length: nat): (r: Option<Range>)
    requires at + length <= |raw|
    ensures r.Some? ==> r.value.0 < at && at + length < r.value.1 <= |raw|
  {
    var end := at + length;
    if at == 0 || end >= |raw| || raw[at - 1] != '>' || raw[end] != '<' then None
    else
      match LastIndex(raw[..at - 1], '<')
      case None => None
      case Some(open) =>
        var first := raw[open + 1];
        if first == '/' || first == '!' || first == '?' then None
        else
          var nameEnd := AfterName(raw, open + 1);
          var close := "</" + raw[open + 1..nameEnd] + ">";
          if nameEnd == open + 1 || !(close <= raw[end..]) then None else Some((open, end + |close|))
  }

  /** `optional_element_range`. */
  method OptionalElementRange(raw: string, at: nat, length: nat) returns (r: Option<Range>)
    requires at + length <= |raw|
    ensures r == ElementRange(raw, at, length)
  {
    var end := at + length;
    if at == 0 || end >= |raw| || raw[at - 1] != '>' || raw[end] != '<' {
      return None;
    }
    var open := LastIndex(raw[..at - 1], '<');
    if open.None? {
      return None;
    }
    var nameStart := open.value + 1;
    var first := raw[nameStart];
    if first == '/' || first == '!' || first == '?' {
      return None;
    }
    var nameEnd := nameStart;
    while nameEnd < |raw| && !IsAsciiSpace(raw[nameEnd]) && raw[nameEnd] != '/' && raw[nameEnd] != '>'
      invariant nameStart <= nameEnd <= |raw| && AfterName(raw, nameStart) == AfterName(raw, nameEnd)
    {
      nameEnd := nameEnd + 1;
    }
    if nameStart == nameEnd {
      return None;
    }
    var close := "</" + raw[nameStart..nameEnd] + ">";
    r := if close <= raw[end..] then Some((open.value, end + |close|)) else None;
  }

  /** A comment, a declaration, a processing instruction, an end tag or a tag without a name in front is never taken for
      a start tag. */
  lemma NoStartTag(front: string, c: char, rest: string, needle: string, tail: string)
    requires c == '!' || c == '?' || c == '/' || c == ' ' || c == '\t' || c == '\n' || c == '\r' || c == '>'
    requires '<' !in rest
    ensures var before := front + ("<" + [c] + rest) + ">";
            ElementRange(before + needle + tail, |before|, |needle|) == None
  {
    var inside := "<" + [c] + rest;
    var before := front + inside + ">";
    var raw, at := before + needle + tail, |before|;
    var head := raw[..at - 1];
    assert head == front + inside;
    assert head[|front|] == '<' && forall i :: |front| < i < |head| ==> head[i] == inside[i - |front|] != '<';
    assert LastIndex(head, '<') == Some(|front|);
    assert raw[|front| + 1] == c;
  }

  function RangeFor(kind: Kind, raw: string, at: nat, length: nat): (r: Option<Range>)
    requires at + length <= |raw|
    ensures r.Some? ==> r.value.0 < at && at + length < r.value.1 <= |raw|
  {
    match kind
    case AttributeKind => AttributeRange(raw, at, length)
    case ElementKind => ElementRange(raw, at, length)
  }

  /** The text from `cursor` on, without the ranges around matches. A range that begins before the
      cursor is not removed. */
  function WithoutRanges(kind: Kind, raw: string, needle: string, cursor: nat): string
    requires needle != "" && cursor <= |raw|
    decreases |raw| - cursor
  {
    match Find(raw[cursor..], needle)
    case None => raw[cursor..]
    case Some(i) =>
      var at := cursor + i;
      var range := RangeFor(kind, raw, at, |needle|);
      if range.Some? && range.value.0 >= cursor then
        raw[cursor..range.value.0] + WithoutRanges(kind, raw, needle, range.value.1)
      else
        raw[cursor..at + |needle|] + WithoutRanges(kind, raw, needle, at + |needle|)
  }

  /** The dispatch to the range finder. */
  method FindRange(kind: Kind, raw: string, at: nat, length: nat) returns (r: Option<Range>)
    requires at + length <= |raw|
    ensures r == RangeFor(kind, raw, at, length)
  {
    hide AttributeRange, ElementRange;
    match kind {
      case AttributeKind => r := OptionalAttributeRange(raw, at, length);
      case ElementKind => r := OptionalElementRange(raw, at, length);
    }
  }

  /** `remove_optional_ranges`. */
  method RemoveOptionalRanges(kind: Kind, raw: string, needle: string) returns (result: string)
    requires needle != ""
    ensures result == WithoutRanges(kind, raw, needle, 0)
  {
    hide Find, RangeFor;
    result := "";
    var cursor := 0;
    while Find(raw[cursor..], needle).Some?
      invariant 0 <= cursor <= |raw|
      invariant WithoutRanges(kind, raw, needle, 0) == result + WithoutRanges(kind, raw, needle, cursor)
      decreases |raw| - cursor
    {
      var at := cursor + Find(raw[cursor..], needle).value;
      var range := FindRange(kind, raw, at, |needle|);
      var stop, next := at + |needle|, at + |needle|;
      if range.Some? && range.value.0 >= cursor {
        stop, next := range.value.0, range.value.1;
      }
      ghost var tail := WithoutRanges(kind, raw, needle, next);
      assert WithoutRanges(kind, raw, needle, cursor) == raw[cursor..stop] + tail;
      Regroup(result, raw[cursor..stop], tail);
      result := result + raw[cursor..stop];
      cursor := next;
    }
    result := result + raw[cursor..];
  }

  function Needle(key: string): string { "{" + key + "}" }

  function TagReplaced(raw: string, key: string, value: Option<string>): string {
    match value
    case Some(v) => ReplaceAll(raw, Needle(key), Escape.XmlEscape(v))
    case None =>
      var xml := WithoutRanges(AttributeKind, raw, Needle(key), 0);
      ReplaceAll(WithoutRanges(ElementKind, xml, Needle(key), 0), Needle(key), "")
  }

  /** `replace_tag`. */
  method ReplaceTag(raw: string, key: string, value: Option<string>) returns (xml: string)
    ensures xml == TagReplaced(raw, key, value)
  {
    match value {
      case Some(v) =>
        xml := ReplaceEach(raw, Needle(key), Escape.XmlEscape(v));
      case None =>
        xml := RemoveOptionalRanges(AttributeKind, raw, Needle(key));
        xml := RemoveOptionalRanges(ElementKind, xml, Needle(key));
        xml := ReplaceEach(xml, Needle(key), "");
    }
  }

  function TagsReplaced(raw: string, tags: seq<Replacement>): string
    decreases |tags|
  {
    if tags == [] then raw else TagsReplaced(TagReplaced(raw, tags[0].0, tags[0].1), tags[1..])
  }

  /** `replace_tags_by_optional_value`; `replace_tags_by_value` is the case where every value is present. */
  method ReplaceTagsByOptionalValue(raw: string, tags: seq<Replacement>) returns (xml: string)
    ensures xml == TagsReplaced(raw, tags)
  {
    xml := raw;
    for i := 0 to |tags|
      invariant TagsReplaced(raw, tags) == TagsReplaced(xml, tags[i..])
    {
      xml := ReplaceTag(xml, tags[i].0, tags[i].1);
      assert tags[i..][1..] == tags[i + 1..];
    }
  }

  // Values never add or remove markup.

  lemma {:induction false} ReplaceKeepsMarkup(raw: string, needle: string, replacement: string)
    requires needle != "" && Escape.NoMarkup(needle) && Escape.NoMarkup(replacement)
    ensures Escape.Markup(ReplaceAll(raw, needle, replacement)) == Escape.Markup(raw)
    decreases |raw|
  {
    var found := Find(raw, needle);
    if found.Some? {
      var front, back := raw[..found.value], raw[found.value + |needle|..];
      FindsNeedle(raw, needle);
      ReplaceKeepsMarkup(back, needle, replacement);
      Escape.MarkupNone(needle);
      Escape.MarkupNone(replacement);
      Escape.MarkupConcat(front + needle, back);
      Escape.MarkupConcat(front, needle);
      Escape.MarkupConcat(front + replacement, ReplaceAll(back, needle, replacement));
      Escape.MarkupConcat(front, replacement);
    }
  }

  ghost predicate AllPresent(tags: seq<Replacement>) {
    forall i :: 0 <= i < |tags| ==> tags[i].1.Some?
  }

  ghost predicate PlainKeys(tags: seq<Replacement>) {
    forall i :: 0 <= i < |tags| ==> Escape.NoMarkup(tags[i].0)
  }

  /** Whatever the values are, the markup characters of the output are those of the template, in order. */
  lemma {:induction false} ValuesAddNoMarkup(raw: string, tags: seq<Replacement>)
    requires AllPresent(tags) && PlainKeys(tags)
    ensures Escape.Markup(TagsReplaced(raw, tags)) == Escape.Markup(raw)
    decreases |tags|
  {
    if tags != [] {
      var (key, value) := tags[0];
      ValuesAddNoMarkup(TagReplaced(raw, key, value), tags[1..]);
      Escape.EscapesAreMaps(value.value);
      Escape.EscapedHasNoMarkup(value.value);
      ReplaceKeepsMarkup(raw, Needle(key), Escape.XmlEscape(value.value));
    }
  }
}
