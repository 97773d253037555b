/** Elements as the parsed document offers them: local names, attributes by local name, own text, child
    elements, and the place of each element in the source. */
module Dom {
  import opened Text

  datatype Node = Node(
    local: string, attributes: seq<(string, string)>, text: string, children: seq<Node>, start: nat, end: nat)

  function FirstNamed(attributes: seq<(string, string)>, name: string): Option<string> {
    if attributes == [] then None
    else if attributes[0].0 == name then Some(attributes[0].1)
    else FirstNamed(attributes[1..], name)
  }

  /** `Node::attr`. */
  function Attr(n: Node, name: string): Option<string> { FirstNamed(n.attributes, name) }

  function Named(nodes: seq<Node>, name: string): (r: seq<Node>)
    ensures |r| <= |nodes|
  {
    if nodes == [] then []
    else (if nodes[0].local == name then [nodes[0]] else []) + Named(nodes[1..], name)
  }

  /** `children_named`. */
  function ChildrenNamed(n: Node, name: string): seq<Node> { Named(n.children, name) }

  /** `str::contains`. */
  predicate Contains(s: string, part: string)
    requires part != ""
  {
    Find(s, part).Some?
  }

  lemma ContainsExactlyWhen(s: string, part: string)
    requires part != ""
    ensures Contains(s, part) <==> exists before, after :: s == before + part + after
  {
    if Contains(s, part) {
      FindsNeedle(s, part);
    }
    forall before, after | s == before + part + after ensures Contains(s, part) {
      assert s[|before|..|before| + |part|] == part;
      if Find(s, part) == None {
        NoneMeansAbsent(s, part, |before|);
      }
    }
  }

  /** The node and all below it, in document order. */
  function Nodes(n: Node): seq<Node> { [n] + AllNodes(n.children) }

  function AllNodes(ns: seq<Node>): seq<Node> {
    if ns == [] then [] else Nodes(ns[0]) + AllNodes(ns[1..])
  }

  lemma {:induction false} NamedAre(nodes: seq<Node>, name: string, i: nat)
    requires i < |Named(nodes, name)|
    ensures Named(nodes, name)[i].local == name && Named(nodes, name)[i] in nodes
  {
    var own := if nodes[0].local == name then [nodes[0]] else [];
    if i >= |own| {
      NamedAre(nodes[1..], name, i - |own|);
    }
  }

  lemma {:induction false} NamedHas(nodes: seq<Node>, name: string, n: Node)
    requires n in nodes && n.local == name
    ensures n in Named(nodes, name)
  {
    if nodes[0] != n {
      NamedHas(nodes[1..], name, n);
    }
  }

  /** The nodes of a name in their order: what comes before and after one of them. */
  lemma {:induction false} NamedAround(nodes: seq<Node>, name: string, k: nat) returns (i: nat)
    requires k < |Named(nodes, name)|
    ensures i < |nodes| && nodes[i] == Named(nodes, name)[k] && nodes[i].local == name
    ensures forall j :: 0 <= j < i && nodes[j].local == name ==>
              exists l :: 0 <= l < k && Named(nodes, name)[l] == nodes[j]
  {
    var own := if nodes[0].local == name then [nodes[0]] else [];
    if k < |own| {
      i := 0;
    } else {
      var rest := Named(nodes[1..], name);
      var h := NamedAround(nodes[1..], name, k - |own|);
      i := h + 1;
      forall j | 0 <= j < i && nodes[j].local == name
        ensures exists l :: 0 <= l < k && Named(nodes, name)[l] == nodes[j]
      {
        if j == 0 {
          assert Named(nodes, name)[0] == nodes[0];
        } else {
          assert nodes[1..][j - 1] == nodes[j];
          var l :| 0 <= l < k - |own| && rest[l] == nodes[j];
          assert Named(nodes, name)[l + |own|] == nodes[j];
        }
      }
    }
  }
}
