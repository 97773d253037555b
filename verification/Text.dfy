/** Byte strings and the small vocabulary the other modules share.

    A Rust `str` is modelled by its UTF-8 bytes, one Dafny `char` for each byte,
    so ASCII literals can be written as they appear in the source. */
module Text {
  datatype Option<+T> = None | Some(value: T)

  datatype Result<+T, +E> = Ok(value: T) | Err(error: E)

  /** One byte. */
  type Byte = c: char | (c as int) < 256 witness 'x'

  type Bytes = seq<Byte>

  function ByteOf(n: nat): (b: Byte)
    requires n < 256
    ensures b as int == n
  {
    n as char
  }

  /** ASCII space, tab, line feed, form feed and carriage return. */
  predicate IsAsciiSpace(c: char) {
    c == ' ' || c == '\t' || c == '\n' || c as int == 12 || c == '\r'
  }

  /** `char::is_whitespace`, for a Unicode scalar value. */
  predicate IsWhitespace(c: char) {
    var n := c as int;
    || 9 <= n <= 13 || n == 0x20 || n == 0x85 || n == 0xA0 || n == 0x1680 || 0x2000 <= n <= 0x200A
    || n == 0x2028 || n == 0x2029 || n == 0x202F || n == 0x205F || n == 0x3000
  }

  /** `str::trim`. */
  function Trim(s: string): string {
    if s != "" && IsWhitespace(s[0]) then Trim(s[1..])
    else if s != "" && IsWhitespace(s[|s| - 1]) then Trim(s[..|s| - 1])
    else s
  }

  ghost predicate AllWhitespace(s: string) { forall i :: 0 <= i < |s| ==> IsWhitespace(s[i]) }

  /** Trimming takes all white space from both ends, and nothing else. */
  lemma {:induction false} Trims(s: string) returns (before: string, after: string)
    ensures s == before + Trim(s) + after && AllWhitespace(before) && AllWhitespace(after)
    ensures Trim(s) != "" ==> !IsWhitespace(Trim(s)[0]) && !IsWhitespace(Trim(s)[|Trim(s)| - 1])
  {
    hide IsWhitespace;
    if s != "" && IsWhitespace(s[0]) {
      var rest := s[1..];
      before, after := Trims(rest);
      hide Trim;
      assert s == [s[0]] + rest;
      Regroup([s[0]], before, Trim(rest));
      Regroup([s[0]], before + Trim(rest), after);
      before := [s[0]] + before;
    } else if s != "" && IsWhitespace(s[|s| - 1]) {
      var rest, last := s[..|s| - 1], s[|s| - 1];
      before, after := Trims(rest);
      hide Trim;
      assert s == rest + [last];
      Regroup(before + Trim(rest), after, [last]);
      after := after + [last];
    } else {
      before, after := "", "";
    }
  }

  predicate IsAsciiGraphic(c: char) {
    '!' <= c <= '~'
  }

  predicate IsAsciiAlphanumeric(c: char) {
    'A' <= c <= 'Z' || 'a' <= c <= 'z' || '0' <= c <= '9'
  }

  /** Position of the last occurrence of `c`, as `rfind` and `rposition` find it. */
  function LastIndex(s: string, c: char): (r: Option<nat>)
    ensures r.Some? ==> r.value < |s| && s[r.value] == c && forall i :: r.value < i < |s| ==> s[i] != c
    ensures r.None? ==> c !in s
  {
    if s == "" then None
    else if s[|s| - 1] == c then Some(|s| - 1)
    else LastIndex(s[..|s| - 1], c)
  }

  /** `str::find`: position of the first occurrence. */
  function Find(s: string, needle: string): (r: Option<nat>)
    requires needle != ""
    ensures r.Some? ==> r.value + |needle| <= |s|
  {
    if needle <= s then Some(0)
    else if s == "" then None
    else
      match Find(s[1..], needle)
      case Some(i) => Some(i + 1)
      case None => None
  }

  lemma {:induction false} FindsNeedle(s: string, needle: string)
    requires needle != "" && Find(s, needle).Some?
    ensures var i := Find(s, needle).value; s == s[..i] + needle + s[i + |needle|..]
  {
    if !(needle <= s) {
      FindsNeedle(s[1..], needle);
    }
  }

  lemma {:induction false} NoneMeansAbsent(s: string, needle: string, i: nat)
    requires needle != "" && Find(s, needle) == None && i + |needle| <= |s|
    ensures s[i..i + |needle|] != needle
  {
    if i == 0 {
    } else {
      NoneMeansAbsent(s[1..], needle, i - 1);
      assert s[1..][i - 1..i - 1 + |needle|] == s[i..i + |needle|];
    }
  }

  /** No element is given twice. */
  ghost predicate Distinct<T>(s: seq<T>) {
    forall i, j :: 0 <= i < j < |s| ==> s[i] != s[j]
  }

  lemma Regroup<T>(a: seq<T>, b: seq<T>, c: seq<T>)
    ensures a + b + c == a + (b + c)
  {
  }

  /** `f` of each element, in order, run together. */
  function FlatMap<A, B>(f: A -> seq<B>, s: seq<A>): seq<B> {
    if s == [] then [] else f(s[0]) + FlatMap(f, s[1..])
  }

  lemma {:induction false} FlatMapConcat<A, B>(f: A -> seq<B>, s: seq<A>, t: seq<A>)
    ensures FlatMap(f, s + t) == FlatMap(f, s) + FlatMap(f, t)
  {
    if s == [] {
      assert s + t == t;
    } else {
      FlatMapConcat(f, s[1..], t);
      var both := s + t;
      assert both[0] == s[0] && both[1..] == s[1..] + t;
      Regroup(f(s[0]), FlatMap(f, s[1..]), FlatMap(f, t));
    }
  }

  lemma FlatMapOne<A, B>(f: A -> seq<B>, x: A)
    ensures FlatMap(f, [x]) == f(x)
  {
    assert FlatMap(f, [x]) == f(x) + FlatMap(f, [x][1..]);
  }

  lemma FlatMapSnoc<A, B>(f: A -> seq<B>, s: seq<A>, x: A)
    ensures FlatMap(f, s + [x]) == FlatMap(f, s) + f(x)
  {
    FlatMapConcat(f, s, [x]);
    FlatMapOne(f, x);
  }

  function Sum<A>(f: A -> nat, s: seq<A>): nat {
    if s == [] then 0 else f(s[0]) + Sum(f, s[1..])
  }

  lemma {:induction false} SumConcat<A>(f: A -> nat, s: seq<A>, t: seq<A>)
    ensures Sum(f, s + t) == Sum(f, s) + Sum(f, t)
  {
    if s == [] {
      assert s + t == t;
    } else {
      SumConcat(f, s[1..], t);
      assert (s + t)[1..] == s[1..] + t && (s + t)[0] == s[0];
    }
  }

  lemma SumOne<A>(f: A -> nat, x: A)
    ensures Sum(f, [x]) == f(x)
  {
    assert Sum(f, [x]) == f(x) + Sum(f, [x][1..]);
  }

  /** The parts, each two separated by `sep`. */
  function Join<T>(parts: seq<seq<T>>, sep: seq<T>): seq<T> {
    if |parts| == 0 then []
    else if |parts| == 1 then parts[0]
    else parts[0] + sep + Join(parts[1..], sep)
  }

  /** `str::split` on one character: never empty, and the empty text splits to one empty part. */
  function Split<T(==)>(s: seq<T>, sep: T): (parts: seq<seq<T>>)
    ensures |parts| >= 1
  {
    if s == [] then [[]]
    else
      var rest := Split(s[1..], sep);
      if s[0] == sep then [[]] + rest
      else [[s[0]] + rest[0]] + rest[1..]
  }

  lemma {:induction false} SplitPlain<T>(s: seq<T>, sep: T)
    requires sep !in s
    ensures Split(s, sep) == [s]
  {
    if s != [] {
      SplitPlain(s[1..], sep);
      assert [s[0]] + s[1..] == s;
    }
  }

  lemma {:induction false} SplitCons<T>(s: seq<T>, sep: T, t: seq<T>)
    requires sep !in s
    ensures Split(s + [sep] + t, sep) == [s] + Split(t, sep)
  {
    if s == [] {
      assert s + [sep] + t == [sep] + t;
    } else {
      SplitCons(s[1..], sep, t);
      var all := s + [sep] + t;
      assert all[0] == s[0] && all[1..] == s[1..] + [sep] + t;
      assert [s[0]] + s[1..] == s;
    }
  }

  /** Joining parts that do not hold the separator and splitting again is the identity. */
  lemma {:induction false} SplitJoin<T>(parts: seq<seq<T>>, sep: T)
    requires |parts| >= 1
    requires forall i :: 0 <= i < |parts| ==> sep !in parts[i]
    ensures Split(Join(parts, [sep]), sep) == parts
  {
    if |parts| == 1 {
      SplitPlain(parts[0], sep);
    } else {
      SplitJoin(parts[1..], sep);
      assert [parts[0]] + parts[1..] == parts;
      SplitCons(parts[0], sep, Join(parts[1..], [sep]));
    }
  }
}
