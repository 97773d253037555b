/** The three spellings of a list of identifiers that the discovery cookie decoder accepts. */
module DiscoveryForms {
  import opened Text
  import opened Discovery
  import Base64
  import Percent
  import Utf8

  /** What the decoder asks of an entry: some UTF-8 text. */
  ghost predicate Listable(ids: seq<Bytes>) {
    forall i :: 0 <= i < |ids| ==> ids[i] != [] && Utf8.IsUtf8(ids[i])
  }

  /** Percent-encoded entries with a `+` between two, as a form encoder writes the list. */
  function FormList(ids: seq<Bytes>): Bytes { Join<Byte>(FormTokens(ids), ['+']) }

  function FormTokens(ids: seq<Bytes>): seq<Bytes> {
    seq(|ids|, i requires 0 <= i < |ids| => Percent.Encoded(Token(ids[i])))
  }

  lemma TokenIsText(id: Bytes)
    ensures Base64.IsText(Token(id)) && (id != [] ==> Token(id) != [])
  {
    Base64.EncodedIsText(id);
    Base64.EncodedLength(id);
  }

  lemma {:induction false} JoinAscii(parts: seq<Bytes>, sep: Byte)
    requires forall i :: 0 <= i < |parts| ==> Base64.IsText(parts[i])
    ensures IsJoinedText(Join<Byte>(parts, [sep]), sep)
  {
    if |parts| == 1 {
      assert Base64.IsText(parts[0]);
    } else if |parts| > 1 {
      JoinAscii(parts[1..], sep);
      assert Base64.IsText(parts[0]);
    }
  }

  predicate IsJoinedText(s: Bytes, sep: Byte) {
    forall i :: 0 <= i < |s| ==> s[i] == sep || Base64.IsTextByte(s[i])
  }

  /** Joined tokens are ASCII without percent signs, and without spaces unless joined by them. */
  lemma TokensJoined(ids: seq<Bytes>, sep: Byte)
    requires sep == ' ' || sep == '+'
    ensures var joined := JoinedTokens(ids, sep);
            forall i :: 0 <= i < |joined| ==>
              joined[i] as int < 0x80 && joined[i] != '%' && (joined[i] == ' ' ==> sep == ' ')
  {
    forall i | 0 <= i < |ids| ensures Base64.IsText(Tokens(ids)[i]) {
      TokenIsText(ids[i]);
    }
    JoinAscii(Tokens(ids), sep);
  }

  lemma IdOfToken(id: Bytes)
    requires id != [] && Utf8.IsUtf8(id)
    ensures IdFromToken(Token(id)) == Ok(id)
  {
    Base64.DecodeEncode(id);
    TokenIsText(id);
  }

  lemma {:induction false} IdsOfTokens(ids: seq<Bytes>)
    requires Listable(ids)
    ensures IdsFromTokens(Tokens(ids)) == Ok(ids)
  {
    hide IdFromToken, Token, Utf8.IsUtf8;
    if ids != [] {
      IdsOfTokens(ids[1..]);
      IdOfToken(ids[0]);
      assert Tokens(ids)[1..] == Tokens(ids[1..]);
      assert [ids[0]] + ids[1..] == ids;
    }
  }

  /** The space-joined list reads back, with nothing escaped. */
  lemma RawListDecodes(ids: seq<Bytes>)
    requires Listable(ids)
    ensures IdsFromDecoded(RawList(ids)) == Ok(ids)
    ensures RawList(ids) == [] <==> ids == []
  {
    if ids != [] {
      forall i | 0 <= i < |ids| ensures ' ' !in Tokens(ids)[i] {
        TokenIsText(ids[i]);
      }
      SplitJoin<Byte>(Tokens(ids), ' ');
      IdsOfTokens(ids);
      TokenIsText(ids[0]);
      if |ids| > 1 {
        FormListTail(ids, ' ');
      }
    }
  }

  lemma RawListIsUtf8(ids: seq<Bytes>)
    ensures Utf8.IsUtf8(RawList(ids))
  {
    TokensJoined(ids, ' ');
    Utf8.AsciiIsUtf8(RawList(ids));
  }

  /** The written cookie value decodes to the list it was written from. */
  lemma CookieValueDecodes(ids: seq<Bytes>)
    requires Listable(ids) && |CookieValue(ids)| <= 8192
    ensures IdsFromExisting(Some(CookieValue(ids))) == Ok(ids)
  {
    RawListIsUtf8(ids);
    Percent.DecodeEncoded(RawList(ids), Percent.Keep);
    RawListDecodes(ids);
  }

  /** So does the list with real spaces and nothing escaped. */
  lemma RawListExistingDecodes(ids: seq<Bytes>)
    requires Listable(ids) && |RawList(ids)| <= 8192
    ensures IdsFromExisting(Some(RawList(ids))) == Ok(ids)
  {
    TokensJoined(ids, ' ');
    Percent.UnescapePlain(RawList(ids));
    RawListIsUtf8(ids);
    RawListDecodes(ids);
  }

  /** The form encoding of the list, with `+` kept or read as a space. */
  lemma {:induction false} FormListUnescaped(ids: seq<Bytes>, plus: Percent.PlusSign)
    ensures Percent.Unescaped(FormList(ids), plus)
         == Ok(JoinedTokens(ids, if plus == Percent.Space then ' ' else '+'))
  {
    var sep: Byte := if plus == Percent.Space then ' ' else '+';
    if |ids| == 1 {
      Percent.UnescapeEncoded(Token(ids[0]), [], plus);
      assert Percent.Encoded(Token(ids[0])) + [] == FormList(ids);
      assert Token(ids[0]) + [] == Token(ids[0]);
    } else if |ids| > 1 {
      FormListUnescaped(ids[1..], plus);
      FormListTail(ids, sep);
      var rest: Bytes := ['+'] + FormList(ids[1..]);
      Percent.UnescapeEncoded(Token(ids[0]), rest, plus);
      assert rest[1..] == FormList(ids[1..]);
      assert Percent.Unescaped(rest, plus) == Ok([sep] + JoinedTokens(ids[1..], sep));
    }
  }

  lemma FormListTail(ids: seq<Bytes>, sep: Byte)
    requires |ids| > 1
    ensures FormList(ids) == Percent.Encoded(Token(ids[0])) + (['+'] + FormList(ids[1..]))
    ensures JoinedTokens(ids, sep) == Token(ids[0]) + ([sep] + JoinedTokens(ids[1..], sep))
  {
    assert FormTokens(ids)[1..] == FormTokens(ids[1..]);
    assert Tokens(ids)[1..] == Tokens(ids[1..]);
  }

  /** Base64 followed by more text: the decoding goes on after the last full group. */
  lemma {:induction false} DecodeAfterToken(id: Bytes, rest: Bytes)
    requires rest != []
    ensures var r := Base64.Decode(Token(id) + rest);
            r.Some? ==> Base64.Decode(rest).Some? && r.value == id + Base64.Decode(rest).value
    decreases |id|
  {
    if id == [] {
      assert Token(id) + rest == rest;
      if Base64.Decode(rest).Some? {
        assert id + Base64.Decode(rest).value == Base64.Decode(rest).value;
      }
    } else if |id| <= 2 {
      PaddingInside(Token(id), rest);
    } else {
      DecodeAfterToken(id[3..], rest);
      Base64.DecodeEncodedGroup(id[0], id[1], id[2]);
      var group := Base64.EncodeGroup(id[0], id[1], id[2]);
      var tail := Token(id[3..]) + rest;
      assert Token(id) + rest == group + tail;
      Base64.DecodeAppend(group, tail);
      PrependGroup(id, Base64.Decode(group + tail), Base64.Decode(tail), Base64.Decode(rest));
    }
  }

  lemma PrependGroup(id: Bytes, outer: Option<Bytes>, inner: Option<Bytes>, after: Option<Bytes>)
    requires |id| >= 3
    requires outer == if inner.Some? then Some([id[0], id[1], id[2]] + inner.value) else None
    requires inner.Some? ==> after.Some? && inner.value == id[3..] + after.value
    ensures outer.Some? ==> after.Some? && outer.value == id + after.value
  {
    if inner.Some? {
      assert [id[0], id[1], id[2]] + (id[3..] + after.value) == id + after.value;
    }
  }

  lemma PaddingInside(group: Bytes, rest: Bytes)
    requires |group| == 4 && group[3] == '=' && rest != []
    ensures Base64.Decode(group + rest) == None
  {
    var all := group + rest;
    assert all[3] == '=';
    assert Base64.DecodeFour(all) == None;
  }

  lemma DecodedPlus(rest: Bytes)
    requires rest != [] && rest[0] == '+' && Base64.Decode(rest).Some?
    ensures var r := Base64.Decode(rest).value; r != [] && r[0] as int >= 0xF8
  {
    assert Base64.ValueOf(rest[0]) == Some(62);
  }

  /** Two or more tokens joined by `+` are never one readable entry: the `+` falls on a group
      boundary and would decode to a byte that UTF-8 does not have. */
  lemma PlusJoinedRejected(ids: seq<Bytes>)
    requires Listable(ids) && |ids| >= 2
    ensures IdsFromDecoded(JoinedTokens(ids, '+')).Err?
  {
    var joined := JoinedTokens(ids, '+');
    TokensJoined(ids, '+');
    TokenIsText(ids[0]);
    assert ' ' !in joined;
    SplitPlain<Byte>(joined, ' ');
    FormListTail(ids, '+');
    var rest: Bytes := ['+'] + JoinedTokens(ids[1..], '+');
    DecodeAfterToken(ids[0], rest);
    if Base64.Decode(joined).Some? {
      DecodedPlus(rest);
      var r := Base64.Decode(joined).value;
      assert r[|ids[0]|] as int >= 0xF8;
      if Utf8.IsUtf8(r) {
        Utf8.NoHighByte(r, |ids[0]|);
      }
    }
    assert IdFromToken(joined).Err?;
  }

  /** The form-encoded list decodes too, however many separators it has. */
  lemma FormListDecodes(ids: seq<Bytes>)
    requires Listable(ids) && |FormList(ids)| <= 8192
    ensures IdsFromExisting(Some(FormList(ids))) == Ok(ids)
  {
    hide Base64.Decode, Base64.Encode, IdsFromTokens, Percent.Unescaped, Utf8.IsUtf8;
    FormListUnescaped(ids, Percent.Keep);
    FormListUnescaped(ids, Percent.Space);
    RawListIsUtf8(ids);
    RawListDecodes(ids);
    var joined := JoinedTokens(ids, '+');
    TokensJoined(ids, '+');
    Utf8.AsciiIsUtf8(joined);
    if |ids| <= 1 {
      assert joined == RawList(ids);
    } else {
      PlusJoinedRejected(ids);
      FormListTail(ids, '+');
      assert FormList(ids)[|Percent.Encoded(Token(ids[0]))|] == '+';
    }
  }
}
