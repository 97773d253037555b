/** `application/x-www-form-urlencoded` text (section 5 of the URL Standard), as queries are
    written and read: strict on the way out, lenient on the way in. */
module FormUrl {
  import opened Text
  import opened Percent
  import Utf8

  predicate KeptByte(b: Byte) {
    IsAsciiAlphanumeric(b) || b == '*' || b == '-' || b == '.' || b == '_'
  }

  function SerializeByte(b: Byte): Bytes {
    if KeptByte(b) then [b]
    else if b == ' ' then ['+']
    else ['%', HexDigit(b as int / 16), HexDigit(b as int % 16)]
  }

  /** `byte_serialize`. */
  function Serialized(value: Bytes): Bytes { FlatMap<Byte, Byte>(SerializeByte, value) }

  /** Letters, digits and four signs stand for themselves, a space is a plus, every other byte is escaped. */
  lemma SerializeIs(b: Byte)
    ensures var plain := 'A' <= b <= 'Z' || 'a' <= b <= 'z' || '0' <= b <= '9'
                         || b == '*' || b == '-' || b == '.' || b == '_';
            SerializeByte(b)
            == if plain then [b] else if b == ' ' then ['+']
               else ['%', "0123456789ABCDEF"[b as int / 16], "0123456789ABCDEF"[b as int % 16]]
  {
    hide HexDigit;
    HexDigits(b, b as int / 16);
    HexDigits(b, b as int % 16);
  }

  function SpaceForPlus(b: Byte): Byte { if b == '+' then ' ' else b }

  function PlusReplaced(s: Bytes): Bytes {
    if s == [] then [] else [SpaceForPlus(s[0])] + PlusReplaced(s[1..])
  }

  predicate EscapeAt(s: Bytes) {
    |s| >= 3 && s[0] == '%' && HexValue(s[1]).Some? && HexValue(s[2]).Some?
  }

  /** Resolves the escapes; a `%` without two hexadecimal digits stands for itself. */
  function PercentDecoded(s: Bytes): Bytes
    decreases |s|
  {
    if s == [] then []
    else if EscapeAt(s) then
      HexRange(s[1]);
      HexRange(s[2]);
      [ByteOf(HexValue(s[1]).value * 16 + HexValue(s[2]).value)] + PercentDecoded(s[3..])
    else [s[0]] + PercentDecoded(s[1..])
  }

  /** What a name or value stands for, before it is made UTF-8. */
  function DecodedBytes(s: Bytes): Bytes { PercentDecoded(PlusReplaced(s)) }

  /** `String::from_utf8_lossy`: UTF-8 is left alone. */
  ghost predicate Lossy(lossy: Bytes -> Bytes) {
    forall b: Bytes {:trigger lossy(b)} :: Utf8.IsUtf8(b) ==> lossy(b) == b
  }

  lemma {:induction false} PlusReplacedConcat(s: Bytes, t: Bytes)
    ensures PlusReplaced(s + t) == PlusReplaced(s) + PlusReplaced(t)
  {
    if s == [] {
      assert s + t == t;
    } else {
      PlusReplacedConcat(s[1..], t);
      assert (s + t)[0] == s[0] && (s + t)[1..] == s[1..] + t;
    }
  }

  lemma HexIsNotPlus(n: nat)
    requires n < 16
    ensures HexDigit(n) != '+' && HexDigit(n) != '%' && KeptByte(HexDigit(n))
  {
  }

  /** One serialized byte in front of any text decodes to itself. */
  lemma DecodesByte(b: Byte, rest: Bytes)
    ensures PercentDecoded(PlusReplaced(SerializeByte(b)) + rest) == [b] + PercentDecoded(rest)
  {
    var text := SerializeByte(b);
    if KeptByte(b) || b == ' ' {
      assert text[1..] == [];
      assert PlusReplaced(text) == [b];
      assert ([b] + rest)[1..] == rest;
    } else {
      var high, low := b as int / 16, b as int % 16;
      HexIsNotPlus(high);
      HexIsNotPlus(low);
      HexRoundTrip(high);
      HexRoundTrip(low);
      ReplacesNothing(text);
      var all := text + rest;
      assert all[0] == '%' && all[1] == HexDigit(high) && all[2] == HexDigit(low) && all[3..] == rest;
      assert ByteOf(high * 16 + low) == b;
    }
  }

  lemma {:induction false} ReplacesNothing(s: Bytes)
    requires '+' !in s
    ensures PlusReplaced(s) == s
  {
    if s != [] {
      ReplacesNothing(s[1..]);
      assert [s[0]] + s[1..] == s;
    }
  }

  /** Reading what was written gives the value back. */
  lemma {:induction false} DecodesSerialized(value: Bytes)
    ensures DecodedBytes(Serialized(value)) == value
  {
    if value != [] {
      DecodesSerialized(value[1..]);
      PlusReplacedConcat(SerializeByte(value[0]), Serialized(value[1..]));
      DecodesByte(value[0], PlusReplaced(Serialized(value[1..])));
      assert [value[0]] + value[1..] == value;
    }
  }

  lemma {:induction false} SerializedBytes(value: Bytes, i: nat)
    requires i < |Serialized(value)|
    ensures var b := Serialized(value)[i]; KeptByte(b) || b == '+' || b == '%'
  {
    var first := SerializeByte(value[0]);
    if i >= |first| {
      SerializedBytes(value[1..], i - |first|);
    } else if |first| == 3 {
      HexIsNotPlus(value[0] as int / 16);
      HexIsNotPlus(value[0] as int % 16);
    }
  }

  /** A serialized value holds no separator. */
  lemma SerializedIsSafe(value: Bytes)
    ensures '&' !in Serialized(value) && '=' !in Serialized(value)
    ensures '?' !in Serialized(value) && '#' !in Serialized(value)
  {
    forall i | 0 <= i < |Serialized(value)|
      ensures Serialized(value)[i] != '&' && Serialized(value)[i] != '=' && Serialized(value)[i] != '?' &&
          Serialized(value)[i] != '#'
    {
      SerializedBytes(value, i);
    }
  }

  // Parameters.

  /** A segment of a query, before decoding. */
  datatype Param = Param(name: Bytes, value: Bytes)

  function IndexOf(s: Bytes, c: Byte): (r: Option<nat>)
    ensures r.Some? ==> r.value < |s| && s[r.value] == c
    ensures r.Some? ==> c !in s[..r.value]
    ensures r.None? ==> c !in s
  {
    if s == [] then None
    else if s[0] == c then Some(0)
    else
      match IndexOf(s[1..], c)
      case None => None
      case Some(i) => Some(i + 1)
  }

  function ParamOf(segment: Bytes): Param {
    match IndexOf(segment, '=')
    case Some(i) => Param(segment[..i], segment[i + 1..])
    case None => Param(segment, [])
  }

  function ParamsOf(segments: seq<Bytes>): seq<Param> {
    if segments == [] then []
    else (if segments[0] == [] then [] else [ParamOf(segments[0])]) + ParamsOf(segments[1..])
  }

  /** `raw_query_params`, and the segments of `form_urlencoded::parse`. */
  function RawParams(query: Bytes): seq<Param> { ParamsOf(Split<Byte>(query, '&')) }

  type Pair = (Bytes, Bytes)

  function DecodedPair(p: Param, lossy: Bytes -> Bytes): Pair {
    (lossy(DecodedBytes(p.name)), lossy(DecodedBytes(p.value)))
  }

  function DecodedPairs(params: seq<Param>, lossy: Bytes -> Bytes): seq<Pair> {
    if params == [] then [] else [DecodedPair(params[0], lossy)] + DecodedPairs(params[1..], lossy)
  }

  /** `form_urlencoded::parse`. */
  function FormPairs(query: Bytes, lossy: Bytes -> Bytes): seq<Pair> { DecodedPairs(RawParams(query), lossy) }

  lemma {:induction false} ParamsOfConcat(a: seq<Bytes>, b: seq<Bytes>)
    ensures ParamsOf(a + b) == ParamsOf(a) + ParamsOf(b)
  {
    if a == [] {
      assert a + b == b;
    } else {
      hide ParamOf;
      ParamsOfConcat(a[1..], b);
      assert (a + b)[0] == a[0] && (a + b)[1..] == a[1..] + b;
      Regroup(if a[0] == [] then [] else [ParamOf(a[0])], ParamsOf(a[1..]), ParamsOf(b));
    }
  }

  lemma SplitHead(c: Byte, s: Bytes)
    ensures var rest := Split<Byte>(s, '&');
            Split<Byte>([c] + s, '&') == if c == '&' then [[]] + rest else [[c] + rest[0]] + rest[1..]
  {
    assert ([c] + s)[1..] == s;
  }

  /** Splitting a text at a separator splits its two sides. */
  lemma {:induction false} SplitConcat(s: Bytes, t: Bytes)
    ensures Split<Byte>(s + ['&'] + t, '&') == Split<Byte>(s, '&') + Split<Byte>(t, '&')
    decreases |s|
  {
    hide Split;
    if s == [] {
      assert s + ['&'] + t == ['&'] + t;
      SplitHead('&', t);
      assert Split<Byte>(s, '&') == [[]] by { SplitPlain<Byte>(s, '&'); }
    } else {
      var c, s1 := s[0], s[1..];
      SplitConcat(s1, t);
      assert [c] + s1 == s;
      assert s + ['&'] + t == [c] + (s1 + ['&'] + t);
      SplitHead(c, s1);
      SplitHead(c, s1 + ['&'] + t);
      var front, back := Split<Byte>(s1, '&'), Split<Byte>(t, '&');
      if c == '&' {
        Regroup([[]], front, back);
      } else {
        assert (front + back)[0] == front[0] && (front + back)[1..] == front[1..] + back;
        Regroup([[c] + front[0]], front[1..], back);
      }
    }
  }

  /** The parameters of two queries joined by `&` are the parameters of each. */
  lemma RawParamsConcat(s: Bytes, t: Bytes)
    ensures RawParams(s + ['&'] + t) == RawParams(s) + RawParams(t)
  {
    SplitConcat(s, t);
    ParamsOfConcat(Split<Byte>(s, '&'), Split<Byte>(t, '&'));
  }

  lemma {:induction false} IndexAfter(front: Bytes, c: Byte, back: Bytes)
    requires c !in front
    ensures IndexOf(front + [c] + back, c) == Some(|front|)
  {
    if front == [] {
      assert (front + [c] + back)[0] == c;
    } else {
      IndexAfter(front[1..], c, back);
      var all := front + [c] + back;
      assert all[0] == front[0] && all[1..] == front[1..] + [c] + back;
    }
  }

  lemma {:induction false} IndexKept(front: Bytes, c: Byte, back: Bytes)
    requires c in front
    ensures IndexOf(front + back, c) == IndexOf(front, c)
  {
    if front[0] != c {
      IndexKept(front[1..], c, back);
      assert (front + back)[1..] == front[1..] + back;
    }
  }

  lemma OneSegment(segment: Bytes)
    requires '&' !in segment && segment != []
    ensures RawParams(segment) == [ParamOf(segment)]
  {
    hide ParamOf;
    SplitPlain<Byte>(segment, '&');
    var one: seq<Bytes> := [segment];
    assert one[0] == segment && one[1..] == [];
    assert ParamsOf(one) == [ParamOf(one[0])] + ParamsOf(one[1..]);
    assert ParamsOf(one[1..]) == [];
  }

  /** A segment whose name and value hold no separators reads back as they are. */
  lemma RawParam(name: Bytes, value: Bytes)
    requires '&' !in name && '=' !in name && '&' !in value
    ensures RawParams(name + ['='] + value) == [Param(name, value)]
  {
    hide RawParams, IndexOf;
    var segment: Bytes := name + ['='] + value;
    OneSegment(segment);
    IndexAfter(name, '=', value);
    assert IndexOf(segment, '=') == Some(|name|);
    assert segment[..|name|] == name && segment[|name| + 1..] == value;
    assert ParamOf(segment) == Param(name, value);
    assert RawParams(segment) == [Param(name, value)];
  }

  lemma {:induction false} SplitParts(s: Bytes, i: nat)
    requires i < |Split<Byte>(s, '&')|
    ensures '&' !in Split<Byte>(s, '&')[i]
  {
    if s != [] {
      var rest := Split<Byte>(s[1..], '&');
      SplitParts(s[1..], 0);
      if i > 0 {
        SplitParts(s[1..], if s[0] == '&' then i - 1 else i);
      }
    }
  }
}
