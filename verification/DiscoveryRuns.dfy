/** What the discovery cookie holds after any run of remembered providers, and why it always fits. */
module DiscoveryRuns {
  import opened Text
  import opened Discovery
  import opened DiscoveryForms
  import Base64
  import Percent
  import Utf8

  // Sizes.

  /** Cookie bytes an entry takes, with the escaped space beside it. */
  function EntrySize(id: Bytes): nat { |Percent.Encoded(Token(id))| + 3 }

  function ListSize(ids: seq<Bytes>): nat { Sum(EntrySize, ids) }

  lemma CookieLengthCons(ids: seq<Bytes>)
    requires |ids| > 1
    ensures |CookieValue(ids)| == EntrySize(ids[0]) + |CookieValue(ids[1..])|
  {
    FormListTail(ids, ' ');
    var head, tail := Token(ids[0]), RawList(ids[1..]);
    FlatMapConcat<Byte, Byte>(Percent.EscapeByte, head, [' '] + tail);
    FlatMapConcat<Byte, Byte>(Percent.EscapeByte, [' '], tail);
    FlatMapOne<Byte, Byte>(Percent.EscapeByte, ' ');
    assert |Percent.EscapeByte(' ')| == 3;
  }

  lemma {:induction false} CookieLength(ids: seq<Bytes>)
    requires ids != []
    ensures |CookieValue(ids)| + 3 == ListSize(ids)
  {
    if |ids| == 1 {
      assert RawList(ids) == Token(ids[0]);
      assert ListSize(ids[1..]) == 0;
    } else {
      CookieLength(ids[1..]);
      CookieLengthCons(ids);
    }
  }

  // The order of last use.

  /** The providers of a history, each once, by the time of last use. */
  function LastUseOrder(history: seq<Bytes>): seq<Bytes> {
    if history == [] then []
    else if history[0] in history[1..] then LastUseOrder(history[1..])
    else [history[0]] + LastUseOrder(history[1..])
  }

  lemma {:induction false} LastUseMembers(history: seq<Bytes>)
    ensures forall x :: x in LastUseOrder(history) <==> x in history
    ensures Distinct(LastUseOrder(history))
  {
    if history != [] {
      LastUseMembers(history[1..]);
    }
  }

  lemma {:induction false} WithoutAbsent(ids: seq<Bytes>, id: Bytes)
    requires id !in ids
    ensures Without(ids, id) == ids
  {
    if ids != [] {
      WithoutAbsent(ids[1..], id);
      assert [ids[0]] + ids[1..] == ids;
    }
  }

  /** Using a provider once more moves it, and nothing else, in the order of last use. */
  lemma {:induction false} LastUseSnoc(history: seq<Bytes>, id: Bytes)
    ensures LastUseOrder(history + [id]) == MovedLast(LastUseOrder(history), id)
  {
    var all := history + [id];
    if history == [] {
      assert all[1..] == [];
    } else {
      LastUseSnoc(history[1..], id);
      assert all[1..] == history[1..] + [id];
      LastUseMembers(history[1..]);
      var first, rest := history[0], LastUseOrder(history[1..]);
      if first in history[1..] {
      } else if first == id {
        WithoutAbsent(rest, id);
        assert Without([id] + rest, id) == Without(rest, id) by {
          assert ([id] + rest)[1..] == rest;
        }
      } else {
        assert ([first] + rest)[1..] == rest;
        assert Without([first] + rest, id) == [first] + Without(rest, id);
      }
    }
  }

  lemma {:induction false} WithoutSize(ids: seq<Bytes>, id: Bytes)
    requires Distinct(ids)
    ensures ListSize(Without(ids, id)) + (if id in ids then EntrySize(id) else 0) == ListSize(ids)
  {
    if ids != [] {
      if ids[0] == id {
        WithoutAbsent(ids[1..], id);
        assert [] + ids[1..] == ids[1..];
      } else {
        assert id in ids <==> id in ids[1..];
        WithoutSize(ids[1..], id);
        var rest := Without(ids[1..], id);
        assert ([ids[0]] + rest)[1..] == rest;
        assert Without(ids, id) == [ids[0]] + rest;
      }
    }
  }

  /** Moving an entry to the end never makes the list smaller. */
  lemma MovedLastSize(ids: seq<Bytes>, id: Bytes)
    requires Distinct(ids)
    ensures ListSize(MovedLast(ids, id)) >= ListSize(ids)
  {
    WithoutSize(ids, id);
    SumConcat(EntrySize, Without(ids, id), [id]);
    SumOne(EntrySize, id);
  }

  lemma NewestDropsFirst(ids: seq<Bytes>, id: Bytes)
    requires |ids| > 1 && Distinct(ids) && !Fits(ids) && ids[0] != id
    ensures Newest(MovedLast(ids, id)) == Newest(MovedLast(ids[1..], id))
  {
    var moved := MovedLast(ids, id);
    assert moved == [ids[0]] + MovedLast(ids[1..], id);
    assert moved[1..] == MovedLast(ids[1..], id);
    MovedLastSize(ids, id);
    CookieLength(ids);
    CookieLength(moved);
  }

  /** Dropping entries before a move loses nothing against dropping them after it. */
  lemma {:induction false} NewestOfMove(ids: seq<Bytes>, id: Bytes)
    requires ids != [] && Distinct(ids)
    ensures Newest(MovedLast(Newest(ids), id)) == Newest(MovedLast(ids, id))
  {
    if |ids| > 1 && !Fits(ids) {
      NewestOfMove(ids[1..], id);
      if ids[0] == id {
        WithoutAbsent(ids[1..], id);
        assert MovedLast(ids, id) == MovedLast(ids[1..], id);
      } else {
        NewestDropsFirst(ids, id);
      }
    }
  }

  // The bound.

  lemma GraphicSextets(x: Byte, y: Byte, z: Byte)
    requires IsAsciiGraphic(x) && IsAsciiGraphic(y) && IsAsciiGraphic(z)
    ensures Base64.Sextet0(x) < 62
    ensures Base64.Sextet1(x, y as int) < 62 && Base64.Sextet1(x, 0) < 62
    ensures Base64.Sextet2(y, z as int) < 62 && Base64.Sextet2(y, 0) < 62
  {
  }

  lemma EscapedSymbol(n: Base64.Sextet)
    ensures |Percent.EscapeByte(Base64.Symbol(n))| == if n < 62 then 1 else 3
  {
  }

  lemma EncodedFour(a: Byte, b: Byte, c: Byte, d: Byte)
    ensures |Percent.Encoded([a, b, c, d])| == |Percent.EscapeByte(a)| + |Percent.EscapeByte(b)|
                                            + |Percent.EscapeByte(c)| + |Percent.EscapeByte(d)|
  {
    var f := Percent.EscapeByte;
    FlatMapSnoc<Byte, Byte>(f, [a, b, c], d);
    FlatMapSnoc<Byte, Byte>(f, [a, b], c);
    FlatMapSnoc<Byte, Byte>(f, [a], b);
    FlatMapOne<Byte, Byte>(f, a);
    assert [a, b, c] + [d] == [a, b, c, d] && [a, b] + [c] == [a, b, c] && [a] + [b] == [a, b];
  }

  lemma EscapedGroup(x: Byte, y: Byte, z: Byte)
    requires IsAsciiGraphic(x) && IsAsciiGraphic(y) && IsAsciiGraphic(z)
    ensures |Percent.Encoded(Base64.EncodeGroup(x, y, z))| <= 6
  {
    GraphicSextets(x, y, z);
    var a, b, c, d := Base64.Sextet0(x), Base64.Sextet1(x, y as int), Base64.Sextet2(y, z as int), Base64.Sextet3(z);
    EncodedFour(Base64.Symbol(a), Base64.Symbol(b), Base64.Symbol(c), Base64.Symbol(d));
    EscapedSymbol(a);
    EscapedSymbol(b);
    EscapedSymbol(c);
    EscapedSymbol(d);
  }

  lemma EscapedTail(id: Bytes)
    requires |id| == 1 || |id| == 2
    requires forall i :: 0 <= i < |id| ==> IsAsciiGraphic(id[i])
    ensures |Percent.Encoded(Token(id))| == if |id| == 1 then 8 else 6
  {
    var a := Base64.Sextet0(id[0]);
    EscapedSymbol(a);
    if |id| == 1 {
      GraphicSextets(id[0], id[0], id[0]);
      var b := Base64.Sextet1(id[0], 0);
      EscapedSymbol(b);
      EncodedFour(Base64.Symbol(a), Base64.Symbol(b), '=', '=');
    } else {
      GraphicSextets(id[0], id[1], id[1]);
      var b, c := Base64.Sextet1(id[0], id[1] as int), Base64.Sextet2(id[1], 0);
      EscapedSymbol(b);
      EscapedSymbol(c);
      EncodedFour(Base64.Symbol(a), Base64.Symbol(b), Base64.Symbol(c), '=');
    }
  }

  /** Room for an identifier of `n` visible characters: one escape in each full group, and the padding. */
  function TokenRoom(n: nat): (room: nat)
    ensures room <= 2 * n + 6
  {
    if n == 0 then 0 else if n == 1 then 8 else if n == 2 then 6 else 6 + TokenRoom(n - 3)
  }

  /** A visible-ASCII identifier escapes at most one character in each full base64 group. */
  lemma {:induction false} GraphicTokenSize(id: Bytes)
    requires forall i :: 0 <= i < |id| ==> IsAsciiGraphic(id[i])
    ensures |Percent.Encoded(Token(id))| <= TokenRoom(|id|)
    decreases |id|
  {
    if 0 < |id| <= 2 {
      EscapedTail(id);
    } else if |id| > 2 {
      GraphicTokenSize(id[3..]);
      EscapedGroup(id[0], id[1], id[2]);
      FlatMapConcat<Byte, Byte>(Percent.EscapeByte, Base64.EncodeGroup(id[0], id[1], id[2]), Token(id[3..]));
    }
  }

  /** One valid identifier always fits, so the second exit of the drop loop keeps the bound. */
  lemma OneEntryFits(id: Bytes)
    requires ValidIdentifier(id)
    ensures Fits([id])
  {
    GraphicTokenSize(id);
    CookieLength([id]);
    assert [id][1..] == [];
  }

  /** The name and value never take more than 4096 bytes, whatever cookie the browser sent. */
  lemma CookieFits(id: Bytes, existing: Option<Bytes>)
    requires Remembered(id, existing).Ok?
    ensures |"_saml_idp"| + |Remembered(id, existing).value| <= 4096
  {
    var all := MovedLast(IdsFromExisting(existing).value, id);
    NewestIsLongestFit(all);
  }

  function LastEntries(all: seq<Bytes>, k: nat): seq<Bytes>
    requires k <= |all|
  {
    all[|all| - k..]
  }

  /** `rest` is the longest end of `all` that fits. */
  ghost predicate IsLongestFit(all: seq<Bytes>, rest: seq<Bytes>) {
    && |rest| <= |all| && rest == LastEntries(all, |rest|)
    && |"_saml_idp"| + |CookieValue(rest)| <= 4096
    && forall k :: |rest| < k <= |all| ==> |"_saml_idp"| + |CookieValue(LastEntries(all, k))| > 4096
  }

  lemma {:induction false} NewestIsLongestFit(all: seq<Bytes>)
    requires all != [] && ValidIdentifier(all[|all| - 1])
    ensures IsLongestFit(all, Newest(all))
  {
    hide ValidIdentifier, CookieValue;
    assert LastEntries(all, |all|) == all;
    if |all| == 1 {
      OneEntryFits(all[0]);
      assert all == [all[0]];
    } else if !Fits(all) {
      NewestIsLongestFit(all[1..]);
      forall k | 0 <= k < |all| ensures LastEntries(all, k) == LastEntries(all[1..], k) {
      }
    }
  }

  // Runs.

  /** The cookie after remembering each provider of `history` in turn, starting without one. */
  function CookieAfter(history: seq<Bytes>): Result<Option<Bytes>, CookieError> {
    if history == [] then Ok(None)
    else
      var last := |history| - 1;
      match CookieAfter(history[..last])
      case Err(e) => Err(e)
      case Ok(existing) =>
        match Remembered(history[last], existing)
        case Err(e) => Err(e)
        case Ok(value) => Ok(Some(value))
  }

  lemma ValidIsListable(id: Bytes)
    requires ValidIdentifier(id)
    ensures id != [] && Utf8.IsUtf8(id)
  {
    Utf8.AsciiIsUtf8(id);
  }

  /** The kept entries come from the list. */
  lemma {:induction false} NewestMembers(ids: seq<Bytes>)
    requires ids != []
    ensures forall x :: x in Newest(ids) ==> x in ids
  {
    if !(|ids| == 1 || Fits(ids)) {
      NewestMembers(ids[1..]);
    }
  }

  /** The cookie after `history` was written from `kept`, and reads back as `kept`. */
  ghost predicate CookieHolds(history: seq<Bytes>, kept: seq<Bytes>) {
    && CookieAfter(history) == Ok(Some(CookieValue(kept)))
    && IdsFromExisting(Some(CookieValue(kept))) == Ok(kept)
  }

  /** After any run of valid providers the cookie exists, fits, and decodes to exactly the longest
      end of the full last-use order that fits: dropping at each step loses nothing. */
  lemma {:induction false} CookieHoldsLastUsed(history: seq<Bytes>)
    requires history != [] && forall i :: 0 <= i < |history| ==> ValidIdentifier(history[i])
    ensures LastUseOrder(history) != []
    ensures CookieHolds(history, Newest(LastUseOrder(history)))
    ensures IsLongestFit(LastUseOrder(history), Newest(LastUseOrder(history)))
  {
    var last := |history| - 1;
    var before, id := history[..last], history[last];
    assert before + [id] == history;
    LastUseSnoc(before, id);
    var all := LastUseOrder(history);
    assert all[|all| - 1] == id;
    NewestIsLongestFit(all);
    if before != [] {
      CookieHoldsLastUsed(before);
    }
    CookieAfterOneMore(before, id);
    KeptIsListable(history);
    CookieValueDecodes(Newest(all));
  }

  lemma CookieAfterOneMore(before: seq<Bytes>, id: Bytes)
    requires ValidIdentifier(id)
    requires before != [] ==> LastUseOrder(before) != [] && CookieHolds(before, Newest(LastUseOrder(before)))
    ensures CookieAfter(before + [id]) == Ok(Some(CookieValue(Newest(MovedLast(LastUseOrder(before), id)))))
  {
    assert (before + [id])[..|before|] == before;
    if before != [] {
      LastUseMembers(before);
      NewestOfMove(LastUseOrder(before), id);
    }
  }

  lemma KeptIsListable(history: seq<Bytes>)
    requires forall i :: 0 <= i < |history| ==> ValidIdentifier(history[i])
    requires LastUseOrder(history) != []
    ensures Listable(Newest(LastUseOrder(history)))
  {
    var kept := Newest(LastUseOrder(history));
    LastUseMembers(history);
    NewestMembers(LastUseOrder(history));
    forall i | 0 <= i < |kept| ensures kept[i] != [] && Utf8.IsUtf8(kept[i]) {
      assert kept[i] in history;
      ValidIsListable(kept[i]);
    }
  }
}
