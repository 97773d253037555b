/** What splicing an element into a list of children changes, and what it leaves. */
module PipelineShapes {
  import opened Text
  import opened Dom
  import opened SamlIds
  import opened Pipeline

  lemma {:induction false} InAllNodes(ns: seq<Node>, m: Node)
    ensures m in AllNodes(ns) <==> exists i :: 0 <= i < |ns| && m in Nodes(ns[i])
  {
    if ns != [] {
      InAllNodes(ns[1..], m);
      if m in AllNodes(ns[1..]) {
        var i :| 0 <= i < |ns[1..]| && m in Nodes(ns[1..][i]);
        assert ns[i + 1] == ns[1..][i];
      }
      if exists i :: 0 <= i < |ns| && m in Nodes(ns[i]) {
        var i :| 0 <= i < |ns| && m in Nodes(ns[i]);
        if i > 0 {
          assert ns[1..][i - 1] == ns[i];
        }
      }
    }
  }

  lemma InNodes(n: Node, m: Node)
    ensures m in Nodes(n) <==> m == n || exists i :: 0 <= i < |n.children| && m in Nodes(n.children[i])
  {
    InAllNodes(n.children, m);
  }

  lemma {:induction false} FirstIsNamed(ns: seq<Node>, name: string)
    ensures FirstChild(ns, name).None? <==> Named(ns, name) == []
    ensures FirstChild(ns, name).Some? ==> FirstChild(ns, name).value == Named(ns, name)[0]
    ensures FirstChild(ns, name).Some? ==> FirstChild(ns, name).value in ns && FirstChild(ns, name).value.local == name
  {
    if ns != [] && ns[0].local != name {
      FirstIsNamed(ns[1..], name);
      assert Named(ns, name) == Named(ns[1..], name);
    }
  }

  // Replacing the only child of a name.

  lemma {:induction false} SplicedNamed(ns: seq<Node>, name: string, x: Node, other: string)
    requires |Named(ns, name)| == 1
    ensures other != name && x.local != other ==> Named(Spliced(ns, name, x), other) == Named(ns, other)
    ensures other == name ==> Named(Spliced(ns, name, x), other) == if x.local == name then [x] else []
    ensures other != name && x.local == other && Named(ns, other) == [] ==> Named(Spliced(ns, name, x), other) == [x]
  {
    if ns[0].local == name {
      var rest := ns[1..];
      assert Named(ns, name) == [ns[0]] + Named(rest, name);
      assert Named(rest, name) == [];
      assert ([x] + rest)[1..] == rest;
    } else {
      var rest := Spliced(ns[1..], name, x);
      assert Named(ns, name) == Named(ns[1..], name);
      SplicedNamed(ns[1..], name, x, other);
      assert ([ns[0]] + rest)[1..] == rest;
    }
  }

  lemma {:induction false} InSpliced(ns: seq<Node>, name: string, x: Node, n: Node)
    requires |Named(ns, name)| == 1 && n in Spliced(ns, name, x)
    ensures n == x || (n in ns && n.local != name)
  {
    if ns[0].local == name {
      assert Named(ns, name) == [ns[0]] + Named(ns[1..], name);
      if n in ns[1..] && n.local == name {
        NamedHas(ns[1..], name, n);
      }
    } else if n != ns[0] {
      assert Named(ns, name) == Named(ns[1..], name);
      InSpliced(ns[1..], name, x, n);
    }
  }

  lemma {:induction false} HasSpliced(ns: seq<Node>, name: string, x: Node)
    requires |Named(ns, name)| == 1
    ensures x in Spliced(ns, name, x)
  {
    if ns[0].local != name {
      assert Named(ns, name) == Named(ns[1..], name);
      HasSpliced(ns[1..], name, x);
      assert Spliced(ns, name, x) == [ns[0]] + Spliced(ns[1..], name, x);
    } else {
      assert ([x] + ns[1..])[0] == x;
    }
  }

  lemma {:induction false} SplicedBack(ns: seq<Node>, x: Node, y: Node, name: string, other: string)
    requires |Named(ns, name)| == 1 && x.local == other && Named(ns, other) == [] && name != other
    ensures Spliced(Spliced(ns, name, x), other, y) == Spliced(ns, name, y)
  {
    if ns[0].local == name {
      assert ([x] + ns[1..])[1..] == ns[1..];
    } else {
      var rest := Spliced(ns[1..], name, x);
      assert Named(ns, name) == Named(ns[1..], name) && Named(ns, other) == Named(ns[1..], other);
      SplicedBack(ns[1..], x, y, name, other);
      assert ([ns[0]] + rest)[1..] == rest;
    }
  }

  lemma {:induction false} SplicedSelf(ns: seq<Node>, name: string)
    requires |Named(ns, name)| >= 1
    ensures Spliced(ns, name, Named(ns, name)[0]) == ns
  {
    if ns[0].local == name {
      assert [ns[0]] + ns[1..] == ns;
    } else {
      assert Named(ns, name) == Named(ns[1..], name);
      SplicedSelf(ns[1..], name);
      assert [ns[0]] + ns[1..] == ns;
    }
  }

  /** Splicing into the same place twice is splicing the second time. */
  lemma {:induction false} SplicedTwice(ns: seq<Node>, name: string, x: Node, y: Node)
    requires x.local == name
    ensures Spliced(Spliced(ns, name, x), name, y) == Spliced(ns, name, y)
  {
    if ns != [] {
      if ns[0].local == name {
        assert ([x] + ns[1..])[1..] == ns[1..];
      } else {
        SplicedTwice(ns[1..], name, x, y);
        assert ([ns[0]] + Spliced(ns[1..], name, x))[1..] == Spliced(ns[1..], name, x);
      }
    }
  }

  lemma AllIdsCons(n: Node, ns: seq<Node>)
    ensures AllIds([n] + ns) == Ids(n) + AllIds(ns)
  {
    assert ([n] + ns)[1..] == ns;
  }

  lemma {:induction false} SplicedSameIds(ns: seq<Node>, name: string, x: Node)
    requires |Named(ns, name)| >= 1 && Ids(x) == Ids(Named(ns, name)[0])
    ensures AllIds(Spliced(ns, name, x)) == AllIds(ns)
  {
    if ns[0].local == name {
      AllIdsCons(x, ns[1..]);
    } else {
      assert Named(ns, name) == Named(ns[1..], name);
      SplicedSameIds(ns[1..], name, x);
      AllIdsCons(ns[0], Spliced(ns[1..], name, x));
    }
  }

  lemma DistinctParts(a: seq<string>, b: seq<string>)
    requires Distinct(a + b)
    ensures Distinct(a) && Distinct(b)
  {
    forall i, j | 0 <= i < j < |a| ensures a[i] != a[j] {
      assert (a + b)[i] != (a + b)[j];
    }
    forall i, j | 0 <= i < j < |b| ensures b[i] != b[j] {
      assert (a + b)[|a| + i] != (a + b)[|a| + j];
    }
  }

  lemma DistinctJoined(a: seq<string>, b: seq<string>)
    requires Distinct(a) && Distinct(b) && forall i, j :: 0 <= i < |a| && 0 <= j < |b| ==> a[i] != b[j]
    ensures Distinct(a + b)
  {
  }

  ghost predicate Among(a: seq<string>, b: seq<string>) { forall x :: x in a ==> x in b }

  /** Replacing an element by one without identifiers leaves a document without repeated ones. */
  lemma {:induction false} SplicedDropsIds(ns: seq<Node>, name: string, x: Node)
    requires |Named(ns, name)| >= 1 && Ids(x) == [] && Distinct(AllIds(ns))
    ensures Distinct(AllIds(Spliced(ns, name, x))) && Among(AllIds(Spliced(ns, name, x)), AllIds(ns))
  {
    var own, rest := Ids(ns[0]), AllIds(ns[1..]);
    DistinctParts(own, rest);
    if ns[0].local == name {
      AllIdsCons(x, ns[1..]);
      assert [] + rest == rest;
    } else {
      assert Named(ns, name) == Named(ns[1..], name);
      SplicedDropsIds(ns[1..], name, x);
      var spliced := AllIds(Spliced(ns[1..], name, x));
      AllIdsCons(ns[0], Spliced(ns[1..], name, x));
      forall i, j | 0 <= i < |own| && 0 <= j < |spliced| ensures own[i] != spliced[j] {
        assert spliced[j] in rest;
        var k :| 0 <= k < |rest| && rest[k] == spliced[j];
        assert (own + rest)[i] != (own + rest)[|own| + k];
      }
      DistinctJoined(own, spliced);
    }
  }

  // Inserting after the issuer.

  lemma {:induction false} InAfterIssuer(ns: seq<Node>, s: Node, n: Node)
    requires FirstChild(ns, "Issuer").Some?
    ensures n in AfterIssuer(ns, s) <==> n == s || n in ns
  {
    if ns[0].local == "Issuer" {
      assert AfterIssuer(ns, s) == [ns[0], s] + ns[1..];
    } else {
      InAfterIssuer(ns[1..], s, n);
      assert AfterIssuer(ns, s) == [ns[0]] + AfterIssuer(ns[1..], s);
    }
  }

  /** The element stands behind the first Issuer, everything else as it was. */
  lemma {:induction false} StandsAfterIssuer(ns: seq<Node>, s: Node) returns (i: nat)
    requires FirstChild(ns, "Issuer").Some?
    ensures 0 < i <= |ns| && ns[i - 1].local == "Issuer" && AfterIssuer(ns, s) == ns[..i] + [s] + ns[i..]
    ensures forall k :: 0 <= k < i - 1 ==> ns[k].local != "Issuer"
  {
    if ns[0].local == "Issuer" {
      i := 1;
    } else {
      var rest := ns[1..];
      var j := StandsAfterIssuer(rest, s);
      i := j + 1;
      assert ns[..i] == [ns[0]] + rest[..j] && ns[i..] == rest[j..];
      Regroup([ns[0]], rest[..j], [s]);
      Regroup([ns[0]], rest[..j] + [s], rest[j..]);
    }
  }

  lemma {:induction false} AfterIssuerNamed(ns: seq<Node>, s: Node, name: string)
    requires FirstChild(ns, "Issuer").Some?
    ensures s.local != name ==> Named(AfterIssuer(ns, s), name) == Named(ns, name)
    ensures s.local == name && Named(ns, name) == [] ==> Named(AfterIssuer(ns, s), name) == [s]
  {
    if ns[0].local == "Issuer" {
      var all := [ns[0], s] + ns[1..];
      assert all[0] == ns[0] && all[1..] == [s] + ns[1..] && all[1..][1..] == ns[1..];
      assert Named(all, name) == (if ns[0].local == name then [ns[0]] else []) + Named(all[1..], name);
      assert Named(all[1..], name) == (if s.local == name then [s] else []) + Named(ns[1..], name);
    } else {
      AfterIssuerNamed(ns[1..], s, name);
      var all := [ns[0]] + AfterIssuer(ns[1..], s);
      assert all[1..] == AfterIssuer(ns[1..], s);
    }
  }

  lemma {:induction false} AfterIssuerIds(ns: seq<Node>, s: Node)
    requires Ids(s) == []
    ensures AllIds(AfterIssuer(ns, s)) == AllIds(ns)
  {
    if ns != [] {
      if ns[0].local == "Issuer" {
        assert AfterIssuer(ns, s) == [ns[0]] + ([s] + ns[1..]);
        AllIdsCons(ns[0], [s] + ns[1..]);
        AllIdsCons(s, ns[1..]);
        assert [] + AllIds(ns[1..]) == AllIds(ns[1..]);
      } else {
        AfterIssuerIds(ns[1..], s);
        AllIdsCons(ns[0], AfterIssuer(ns[1..], s));
      }
    }
  }

  /** Taking an inserted element out again. */
  lemma {:induction false} WithoutInserted(ns: seq<Node>, s: Node)
    requires FirstChild(ns, "Issuer").Some? && s.local != "Issuer" && s !in ns
    ensures Without(AfterIssuer(ns, s), s) == ns
  {
    if ns[0].local == "Issuer" {
      var all := [ns[0], s] + ns[1..];
      assert all[1..] == [s] + ns[1..] && all[1..][1..] == ns[1..];
      assert Without(all, s) == [ns[0]] + Without(all[1..], s);
      assert [ns[0]] + ns[1..] == ns;
    } else {
      WithoutInserted(ns[1..], s);
      var all := [ns[0]] + AfterIssuer(ns[1..], s);
      assert all[1..] == AfterIssuer(ns[1..], s);
      assert [ns[0]] + ns[1..] == ns;
    }
  }

  lemma {:induction false} SplicedKeepsIssuer(ns: seq<Node>, x: Node)
    requires FirstChild(ns, "Issuer").Some?
    ensures FirstChild(Spliced(ns, "Assertion", x), "Issuer").Some? || x.local == "Issuer"
  {
    if ns[0].local == "Assertion" {
      assert ([x] + ns[1..])[1..] == ns[1..];
    } else if ns[0].local != "Issuer" {
      SplicedKeepsIssuer(ns[1..], x);
      assert ([ns[0]] + Spliced(ns[1..], "Assertion", x))[1..] == Spliced(ns[1..], "Assertion", x);
    }
  }

  lemma SplicedCons(n: Node, ns: seq<Node>, name: string, x: Node)
    ensures Spliced([n] + ns, name, x) == if n.local == name then [x] + ns else [n] + Spliced(ns, name, x)
  {
    assert ([n] + ns)[1..] == ns;
  }

  lemma AfterIssuerCons(n: Node, ns: seq<Node>, s: Node)
    ensures AfterIssuer([n] + ns, s) == if n.local == "Issuer" then [n] + ([s] + ns) else [n] + AfterIssuer(ns, s)
  {
    assert ([n] + ns)[1..] == ns;
    assert [n, s] + ns == [n] + ([s] + ns);
  }

  /** Inserting and replacing commute. */
  lemma {:induction false} SplicedAfterIssuer(ns: seq<Node>, s: Node, name: string, x: Node)
    requires s.local != name && name != "Issuer" && x.local != "Issuer"
    ensures Spliced(AfterIssuer(ns, s), name, x) == AfterIssuer(Spliced(ns, name, x), s)
    decreases |ns|
  {
    if ns != [] {
      hide Spliced, AfterIssuer;
      var n, rest := ns[0], ns[1..];
      assert ns == [n] + rest;
      SplicedAfterIssuer(rest, s, name, x);
      AfterIssuerCons(n, rest, s);
      SplicedCons(n, rest, name, x);
      SplicedCons(n, [s] + rest, name, x);
      SplicedCons(s, rest, name, x);
      SplicedCons(n, AfterIssuer(rest, s), name, x);
      AfterIssuerCons(n, Spliced(rest, name, x), s);
      AfterIssuerCons(x, rest, s);
    }
  }
}
