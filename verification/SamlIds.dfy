/** The guard against documents that give an identifier twice, and what it is for: a signed
    reference by identifier then names one element. */
module SamlIds {
  import opened Text
  import opened Dom

  predicate IsIdName(name: string) { name == "ID" || name == "AssertionID" }

  function OwnIds(attributes: seq<(string, string)>): seq<string> {
    if attributes == [] then []
    else
      (if IsIdName(attributes[0].0) && attributes[0].1 != "" then [attributes[0].1] else []) + OwnIds(attributes[1..])
  }

  /** Each attribute named ID or AssertionID with a value counts, at its place; no other does. */
  lemma {:induction false} OwnIdsAround(a: seq<(string, string)>, name: string, value: string, b: seq<(string, string)>)
    ensures OwnIds(a + [(name, value)] + b)
         == OwnIds(a) + (if (name == "ID" || name == "AssertionID") && value != "" then [value] else []) + OwnIds(b)
  {
    var own := if (name == "ID" || name == "AssertionID") && value != "" then [value] else [];
    var all := a + [(name, value)] + b;
    if a == [] {
      assert all[0] == (name, value) && all[1..] == b;
    } else {
      var first := if IsIdName(a[0].0) && a[0].1 != "" then [a[0].1] else [];
      assert all[0] == a[0] && all[1..] == a[1..] + [(name, value)] + b;
      OwnIdsAround(a[1..], name, value, b);
      Regroup(first, OwnIds(a[1..]), own);
      Regroup(first, OwnIds(a[1..]) + own, OwnIds(b));
    }
  }

  /** The identifiers of the elements at and below `n`, in document order. */
  function Ids(n: Node): seq<string> { OwnIds(n.attributes) + AllIds(n.children) }

  function AllIds(ns: seq<Node>): seq<string> {
    if ns == [] then [] else Ids(ns[0]) + AllIds(ns[1..])
  }

  /** The first value that was seen before, and what was seen up to it. */
  function Repeat(ids: seq<string>, seen: set<string>): Option<string> {
    if ids == [] then None
    else if ids[0] in seen then Some(ids[0])
    else Repeat(ids[1..], seen + {ids[0]})
  }

  function SeenAfter(ids: seq<string>, seen: set<string>): set<string> {
    if ids == [] || ids[0] in seen then seen else SeenAfter(ids[1..], seen + {ids[0]})
  }

  lemma {:induction false} RepeatConcat(a: seq<string>, b: seq<string>, seen: set<string>)
    ensures Repeat(a + b, seen) == if Repeat(a, seen).Some? then Repeat(a, seen) else Repeat(b, SeenAfter(a, seen))
    ensures SeenAfter(a + b, seen)
         == if Repeat(a, seen).Some? then SeenAfter(a, seen) else SeenAfter(b, SeenAfter(a, seen))
    decreases |a|
  {
    if a == [] {
      assert a + b == b;
    } else {
      var both := a + b;
      assert both[0] == a[0] && both[1..] == a[1..] + b;
      if a[0] !in seen {
        RepeatConcat(a[1..], b, seen + {a[0]});
      }
    }
  }

  lemma OneId(id: string, seen: set<string>)
    ensures Repeat([id], seen) == if id in seen then Some(id) else None
    ensures SeenAfter([id], seen) == seen + {id}
  {
    assert [id][1..] == [];
  }

  /** The identifiers a document scan has met. */
  class IdScan {
    var seen: set<string>

    constructor ()
      ensures seen == {}
    {
      seen := {};
    }

    /** The attributes of one element. */
    method VisitAttributes(attributes: seq<(string, string)>) returns (duplicate: Option<string>)
      modifies this
      ensures duplicate == Repeat(OwnIds(attributes), old(seen))
      ensures seen == SeenAfter(OwnIds(attributes), old(seen))
    {
      for i := 0 to |attributes|
        invariant Repeat(OwnIds(attributes), old(seen)) == Repeat(OwnIds(attributes[i..]), seen)
        invariant SeenAfter(OwnIds(attributes), old(seen)) == SeenAfter(OwnIds(attributes[i..]), seen)
      {
        var (name, value) := attributes[i];
        ghost var rest := OwnIds(attributes[i..][1..]);
        assert attributes[i..][1..] == attributes[i + 1..];
        if IsIdName(name) && value != "" {
          RepeatConcat([value], rest, seen);
          OneId(value, seen);
          if value in seen {
            return Some(value);
          }
          seen := seen + {value};
        } else {
          assert OwnIds(attributes[i..]) == rest;
        }
      }
      duplicate := None;
    }

    /** `duplicate_saml_id`. */
    method Visit(n: Node) returns (duplicate: Option<string>)
      modifies this
      ensures duplicate == Repeat(Ids(n), old(seen))
      ensures seen == SeenAfter(Ids(n), old(seen))
      decreases n
    {
      RepeatConcat(OwnIds(n.attributes), AllIds(n.children), seen);
      duplicate := VisitAttributes(n.attributes);
      if duplicate.Some? {
        return;
      }
      for i := 0 to |n.children|
        invariant Repeat(Ids(n), old(seen)) == Repeat(AllIds(n.children[i..]), seen)
        invariant SeenAfter(Ids(n), old(seen)) == SeenAfter(AllIds(n.children[i..]), seen)
      {
        assert n.children[i..][1..] == n.children[i + 1..];
        RepeatConcat(Ids(n.children[i]), AllIds(n.children[i + 1..]), seen);
        duplicate := Visit(n.children[i]);
        if duplicate.Some? {
          return;
        }
      }
      duplicate := None;
    }
  }

  ghost predicate Unseen(ids: seq<string>, seen: set<string>) {
    forall i :: 0 <= i < |ids| ==> ids[i] !in seen
  }

  lemma {:induction false} RepeatsExactlyWhen(ids: seq<string>, seen: set<string>)
    ensures Repeat(ids, seen) == None <==> Distinct(ids) && Unseen(ids, seen)
  {
    if ids != [] {
      var id, rest := ids[0], ids[1..];
      RepeatsExactlyWhen(rest, seen + {id});
      if Distinct(ids) && Unseen(ids, seen) {
        forall i | 0 <= i < |rest| ensures rest[i] !in seen + {id} {
          assert rest[i] == ids[i + 1] && ids[0] != ids[i + 1];
        }
        forall i, j | 0 <= i < j < |rest| ensures rest[i] != rest[j] {
          assert ids[i + 1] != ids[j + 1];
        }
      }
      if Repeat(ids, seen) == None {
        forall i, j | 0 <= i < j < |ids| ensures ids[i] != ids[j] {
          if i == 0 {
            assert ids[j] == rest[j - 1];
          } else {
            assert ids[i] == rest[i - 1] && ids[j] == rest[j - 1];
          }
        }
        forall i | 0 <= i < |ids| ensures ids[i] !in seen {
          if i > 0 {
            assert ids[i] == rest[i - 1];
          }
        }
      }
    }
  }

  /** The guard passes a document exactly when no identifier is given twice. */
  lemma PassesExactlyDistinct(root: Node)
    ensures Repeat(Ids(root), {}) == None <==> Distinct(Ids(root))
  {
    RepeatsExactlyWhen(Ids(root), {});
  }

  // Signed references.

  datatype Target = WholeDocument | Id(id: string)

  datatype ReferenceError = External | Unsupported | Unresolved | BadDigest | NoReference

  predicate EndsWith(s: string, suffix: string) { |suffix| <= |s| && s[|s| - |suffix|..] == suffix }

  const XPOINTER_ID := "xpointer(id('"

  /** `verified_target_from_uri`: the identifier in a same-document reference is never empty. */
  function TargetOf(uri: string): (r: Result<Target, ReferenceError>)
    ensures r.Ok? && r.value.Id? ==> r.value.id != ""
  {
    if uri == "" || uri == "#xpointer(/)" then Ok(WholeDocument)
    else if uri[0] != '#' then Err(External)
    else
      var fragment := uri[1..];
      if fragment == "" then Err(Unsupported)
      else if XPOINTER_ID <= fragment && EndsWith(fragment[|XPOINTER_ID|..], "'))") then
        var id := fragment[|XPOINTER_ID|..|fragment| - 3];
        if id == "" then Err(Unsupported) else Ok(Id(id))
      else if "xpointer(" <= fragment then Err(Unsupported)
      else Ok(Id(fragment))
  }

  /** The URI spells the identifier, as a bare fragment or in an XPointer. */
  ghost predicate Spells(uri: string, id: string) {
    id != "" && (uri == "#xpointer(id('" + id + "'))" || (uri == "#" + id && !("xpointer(" <= id)))
  }

  lemma FragmentTarget(id: string)
    requires id != "" && !("xpointer(" <= id)
    ensures TargetOf("#" + id) == Ok(Id(id))
  {
    var uri := "#" + id;
    assert uri[1..] == id;
    assert "#xpointer(/)"[1..] == "xpointer(/)" && "xpointer(" <= "xpointer(/)";
    assert "xpointer(" <= XPOINTER_ID;
  }

  lemma XPointerParts(id: string)
    ensures var fragment := XPOINTER_ID + id + "'))";
            && XPOINTER_ID <= fragment && EndsWith(fragment[|XPOINTER_ID|..], "'))")
            && fragment[|XPOINTER_ID|..|fragment| - 3] == id
  {
    var fragment := XPOINTER_ID + id + "'))";
    assert fragment[|XPOINTER_ID|..] == id + "'))";
  }

  lemma XPointerTarget(id: string)
    requires id != ""
    ensures TargetOf("#xpointer(id('" + id + "'))") == Ok(Id(id))
  {
    var uri, fragment := "#xpointer(id('" + id + "'))", XPOINTER_ID + id + "'))";
    assert "#xpointer(id('" == "#" + XPOINTER_ID;
    assert uri == "#" + fragment && uri[1..] == fragment;
    assert "#xpointer(/)"[10] == '/' && uri[10] == 'i';
    hide EndsWith;
    XPointerParts(id);
  }

  lemma Framed(t: string, head: string, tail: string)
    requires head <= t && EndsWith(t[|head|..], tail)
    ensures t == head + t[|head|..|t| - |tail|] + tail
  {
    var rest := t[|head|..];
    assert rest == rest[..|rest| - |tail|] + tail;
    assert rest[..|rest| - |tail|] == t[|head|..|t| - |tail|];
  }

  lemma AfterHash(middle: string)
    ensures "#" + (XPOINTER_ID + middle + "'))") == "#xpointer(id('" + middle + "'))"
  {
    var head := XPOINTER_ID;
    assert "#" + (head + middle + "'))") == ("#" + head) + middle + "'))";
    assert "#" + head == "#xpointer(id('";
  }

  lemma SpelledTarget(uri: string)
    requires TargetOf(uri).Ok? && TargetOf(uri).value.Id?
    ensures Spells(uri, TargetOf(uri).value.id)
  {
    hide EndsWith;
    var fragment := uri[1..];
    assert uri == "#" + fragment;
    if XPOINTER_ID <= fragment && EndsWith(fragment[|XPOINTER_ID|..], "'))") {
      Framed(fragment, XPOINTER_ID, "'))");
      AfterHash(fragment[|XPOINTER_ID|..|fragment| - 3]);
    }
  }

  /** What a reference refers to, by its URI: the whole document under two URIs, and an identifier exactly under
      its two spellings. Any other URI is an error, an external one if it does not begin with `#`. */
  lemma UrisAndTargets(uri: string, id: string)
    ensures TargetOf(uri) == Ok(WholeDocument) <==> uri == "" || uri == "#xpointer(/)"
    ensures TargetOf(uri) == Ok(Id(id)) <==> Spells(uri, id)
    ensures TargetOf(uri).Err? <==> uri != "" && uri != "#xpointer(/)" && forall name :: !Spells(uri, name)
    ensures TargetOf(uri).Err? ==> TargetOf(uri).error == if uri[0] != '#' then External else Unsupported
  {
    if Spells(uri, id) {
      if uri == "#xpointer(id('" + id + "'))" {
        XPointerTarget(id);
      } else {
        FragmentTarget(id);
      }
    }
    if TargetOf(uri).Ok? && TargetOf(uri).value.Id? {
      SpelledTarget(uri);
    }
    forall name | Spells(uri, name) ensures TargetOf(uri) == Ok(Id(name)) {
      if uri == "#xpointer(id('" + name + "'))" {
        XPointerTarget(name);
      } else {
        FragmentTarget(name);
      }
    }
  }

  /** `node_saml_id`. */
  function SamlId(n: Node): Option<string> {
    if Attr(n, "ID").Some? then Attr(n, "ID") else Attr(n, "AssertionID")
  }

  lemma {:induction false} AttributeIsOwn(attributes: seq<(string, string)>, name: string)
    requires IsIdName(name) && FirstNamed(attributes, name).Some? && FirstNamed(attributes, name).value != ""
    ensures FirstNamed(attributes, name).value in OwnIds(attributes)
  {
    if attributes[0].0 != name {
      AttributeIsOwn(attributes[1..], name);
    }
  }

  lemma {:induction false} IdsOfNodes(n: Node)
    ensures Ids(n) == FlatMap((m: Node) => OwnIds(m.attributes), Nodes(n))
    decreases n, 1
  {
    var f := (m: Node) => OwnIds(m.attributes);
    IdsOfAllNodes(n.children);
    FlatMapConcat(f, [n], AllNodes(n.children));
    FlatMapOne(f, n);
  }

  lemma {:induction false} IdsOfAllNodes(ns: seq<Node>)
    ensures AllIds(ns) == FlatMap((m: Node) => OwnIds(m.attributes), AllNodes(ns))
    decreases ns, 0
  {
    if ns != [] {
      var f := (m: Node) => OwnIds(m.attributes);
      IdsOfNodes(ns[0]);
      IdsOfAllNodes(ns[1..]);
      FlatMapConcat(f, Nodes(ns[0]), AllNodes(ns[1..]));
    }
  }

  lemma {:induction false} InFlatMap<A>(f: A -> seq<string>, s: seq<A>, i: nat, x: string)
    requires i < |s| && x in f(s[i])
    ensures x in FlatMap(f, s)
  {
    if i > 0 {
      InFlatMap(f, s[1..], i - 1, x);
    }
  }

  lemma TwiceIsRepeated<A>(f: A -> seq<string>, s: seq<A>, i: nat, j: nat, x: string)
    requires i < j < |s| && x in f(s[i]) && x in f(s[j])
    ensures !Distinct(FlatMap(f, s))
  {
    var front, back := FlatMap(f, s[..j]), FlatMap(f, s[j..]);
    FlatMapConcat(f, s[..j], s[j..]);
    assert s[..j] + s[j..] == s;
    InFlatMap(f, s[..j], i, x);
    InFlatMap(f, s[j..], 0, x);
    var k :| 0 <= k < |front| && front[k] == x;
    var l :| 0 <= l < |back| && back[l] == x;
    assert (front + back)[k] == x && (front + back)[|front| + l] == x;
  }

  /** In a document the guard passes, an identifier names at most one element. */
  lemma IdNamesOneElement(root: Node, id: string, i: nat, j: nat)
    requires Repeat(Ids(root), {}) == None && id != ""
    requires i < |Nodes(root)| && j < |Nodes(root)|
    requires SamlId(Nodes(root)[i]) == Some(id) && SamlId(Nodes(root)[j]) == Some(id)
    ensures i == j
  {
    PassesExactlyDistinct(root);
    IdsOfNodes(root);
    var f := (m: Node) => OwnIds(m.attributes);
    forall k | 0 <= k < |Nodes(root)| && SamlId(Nodes(root)[k]) == Some(id) ensures id in f(Nodes(root)[k]) {
      var n := Nodes(root)[k];
      AttributeIsOwn(n.attributes, if Attr(n, "ID").Some? then "ID" else "AssertionID");
    }
    if i < j {
      TwiceIsRepeated(f, Nodes(root), i, j, id);
    } else if j < i {
      TwiceIsRepeated(f, Nodes(root), j, i, id);
    }
  }
}
