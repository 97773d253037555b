/** Encrypting and decrypting an assertion as text surgery: the child element is cut out of the
    document's text by position and other text is put in its place. */
module AssertionSplice {
  import opened Text
  import opened Xml

  /** Index of the first child element of that name. */
  function FirstElement(ns: seq<Node>, local: string): (r: Option<nat>)
    ensures r.Some? ==> r.value < |ns| && IsElement(ns[r.value]) && ns[r.value].tag.local == local
  {
    if ns == [] then None
    else if IsElement(ns[0]) && ns[0].tag.local == local then Some(0)
    else
      match FirstElement(ns[1..], local)
      case None => None
      case Some(i) => Some(i + 1)
  }

  predicate IsChild(n: Node, local: string) { IsElement(n) && n.tag.local == local }

  /** The first of that name, or that there is none. */
  lemma {:induction false} FirstElementIs(ns: seq<Node>, local: string)
    ensures match FirstElement(ns, local)
            case None => forall k :: 0 <= k < |ns| ==> !IsChild(ns[k], local)
            case Some(i) => IsChild(ns[i], local) && forall k :: 0 <= k < i ==> !IsChild(ns[k], local)
  {
    if ns != [] && !IsChild(ns[0], local) {
      FirstElementIs(ns[1..], local);
      assert forall k :: 0 < k < |ns| ==> ns[k] == ns[1..][k - 1];
    }
  }

  /** Where the root's child `i` begins in the text of the document. */
  function StartOf(d: Document, i: nat): nat
    requires d.root.Element? && i <= |d.root.children|
  {
    |PrintAll(d.before)| + |OpenText(d.root)| + |PrintAll(d.root.children[..i])|
  }

  function Replaced(d: Document, i: nat, n: Node): Document
    requires d.root.Element? && i < |d.root.children|
  {
    d.(root := d.root.(children := d.root.children[i := n]))
  }

  lemma {:induction false} PrintAllSplit(ns: seq<Node>, i: nat)
    requires i < |ns|
    ensures PrintAll(ns) == PrintAll(ns[..i]) + Print(ns[i]) + PrintAll(ns[i + 1..])
  {
    hide Print;
    if i > 0 {
      PrintAllSplit(ns[1..], i - 1);
      assert ns[..i][1..] == ns[1..][..i - 1] && ns[..i][0] == ns[0];
      assert ns[1..][i..] == ns[i + 1..];
      Regroup(Print(ns[0]), PrintAll(ns[1..][..i - 1]), Print(ns[i]));
      Regroup(Print(ns[0]), PrintAll(ns[1..][..i - 1]) + Print(ns[i]), PrintAll(ns[i + 1..]));
    }
  }

  /** The text in front of a child of the root, and the text behind it. */
  function Front(d: Document, i: nat): string
    requires d.root.Element? && i < |d.root.children|
  {
    PrintAll(d.before) + OpenText(d.root) + PrintAll(d.root.children[..i])
  }

  function Back(d: Document, i: nat): string
    requires d.root.Element? && i < |d.root.children|
  {
    PrintAll(d.root.children[i + 1..]) + CloseText(d.root) + PrintAll(d.after)
  }

  lemma Surrounds(a: string, b: string, c: string, x: string, e: string, f: string, g: string)
    ensures a + (b + (c + x + e) + f) + g == a + b + c + x + (e + f + g)
  {
    Regroup(b + c, x + e, f);
    Regroup(c, x, e);
    Regroup(b, c, x + e);
    Regroup(a, b + c, x + e + f);
    Regroup(a, b, c);
    Regroup(a + b + c, x + e + f, g);
    Regroup(x, e, f);
    Regroup(x, e + f, g);
    Regroup(a + b + c, x, e + f + g);
  }

  lemma DocumentAround(d: Document, i: nat)
    requires d.root.Element? && i < |d.root.children|
    ensures PrintDocument(d) == Front(d, i) + Print(d.root.children[i]) + Back(d, i)
  {
    var ns := d.root.children;
    PrintAllSplit(ns, i);
    Surrounds(PrintAll(d.before), OpenText(d.root), PrintAll(ns[..i]), Print(ns[i]), PrintAll(ns[i + 1..]),
              CloseText(d.root), PrintAll(d.after));
  }

  /** `xml[..start] + put + xml[end..]`. */
  function SplicedText(xml: string, start: nat, end: nat, put: string): string
    requires start <= end <= |xml|
  {
    xml[..start] + put + xml[end..]
  }

  /** Splicing over a child's text prints the tree with the child replaced. */
  lemma SpliceReplaces(d: Document, i: nat, n: Node)
    requires d.root.Element? && i < |d.root.children|
    ensures StartOf(d, i) + |Print(d.root.children[i])| <= |PrintDocument(d)|
    ensures SplicedText(PrintDocument(d), StartOf(d, i), StartOf(d, i) + |Print(d.root.children[i])|, Print(n))
         == PrintDocument(Replaced(d, i, n))
  {
    var front, own, back := Front(d, i), Print(d.root.children[i]), Back(d, i);
    var other := Replaced(d, i, n);
    DocumentAround(d, i);
    DocumentAround(other, i);
    assert other.root.children[..i] == d.root.children[..i] && other.root.children[i + 1..] == d.root.children[i + 1..];
    assert (front + own + back)[..|front|] == front;
    assert (front + own + back)[|front + own|..] == back;
  }

  datatype SpliceError = MissingAssertion | UndefinedEncryptedAssertion

  /** `encrypt_assertion` on the document's text, `wrapper` being what encryption made of the assertion. */
  function EncryptedText(d: Document, wrapper: string): Result<string, SpliceError>
    requires d.root.Element?
  {
    match FirstElement(d.root.children, "Assertion")
    case None => Err(MissingAssertion)
    case Some(i) =>
      SpliceReplaces(d, i, d.root.children[i]);
      Ok(SplicedText(PrintDocument(d), StartOf(d, i), StartOf(d, i) + |Print(d.root.children[i])|, wrapper))
  }

  function TrimmedStart(s: string): string {
    if s != "" && IsWhitespace(s[0]) then TrimmedStart(s[1..]) else s
  }

  /** `strip_xml_declaration`. */
  function WithoutDeclaration(xml: string): string {
    var trimmed := TrimmedStart(xml);
    if !("<?xml" <= trimmed) then trimmed
    else
      match Find(trimmed[5..], "?>")
      case Some(end) => TrimmedStart(trimmed[5 + end + 2..])
      case None => trimmed
  }

  /** `decrypt_assertion_with_limits` on the document's text, `decrypted` being what decryption returned. */
  function DecryptedText(d: Document, decrypted: string): Result<string, SpliceError>
    requires d.root.Element?
  {
    match FirstElement(d.root.children, "EncryptedAssertion")
    case None => Err(UndefinedEncryptedAssertion)
    case Some(i) =>
      SpliceReplaces(d, i, d.root.children[i]);
      Ok(SplicedText(PrintDocument(d), StartOf(d, i), StartOf(d, i) + |Print(d.root.children[i])|,
                     WithoutDeclaration(decrypted)))
  }

  /** Encrypting needs an assertion, and decrypting an encrypted one. */
  lemma MissingExactlyWhen(d: Document, put: string)
    requires d.root.Element?
    ensures EncryptedText(d, put) == Err(MissingAssertion) <==>
              forall k :: 0 <= k < |d.root.children| ==> !IsChild(d.root.children[k], "Assertion")
    ensures DecryptedText(d, put) == Err(UndefinedEncryptedAssertion) <==>
              forall k :: 0 <= k < |d.root.children| ==> !IsChild(d.root.children[k], "EncryptedAssertion")
  {
    hide SplicedText, WithoutDeclaration, PrintDocument, Print, StartOf;
    FirstElementIs(d.root.children, "Assertion");
    FirstElementIs(d.root.children, "EncryptedAssertion");
  }

  lemma {:induction false} TrimsSpace(space: string, text: string)
    requires forall i :: 0 <= i < |space| ==> IsWhitespace(space[i])
    requires text != "" && !IsWhitespace(text[0])
    ensures TrimmedStart(space + text) == text
  {
    if space == "" {
      assert space + text == text;
    } else {
      TrimsSpace(space[1..], text);
      assert (space + text)[1..] == space[1..] + text;
    }
  }

  /** A declaration and the white space around it. */
  datatype Prolog = Prolog(before: string, declaration: Option<string>, after: string)

  predicate AllWhite(s: string) { forall i :: 0 <= i < |s| ==> IsWhitespace(s[i]) }

  /** The declaration ends at its first `?>`. */
  predicate ValidProlog(p: Prolog) {
    && AllWhite(p.before) && AllWhite(p.after)
    && (p.declaration.Some? ==> Find(p.declaration.value + "?>", "?>") == Some(|p.declaration.value|))
  }

  function PrologText(p: Prolog): string {
    if p.declaration.Some? then p.before + ("<?xml" + p.declaration.value + "?>") + p.after else p.before + p.after
  }

  lemma {:induction false} FindInFront(s: string, needle: string, rest: string)
    requires needle != "" && Find(s, needle).Some?
    ensures Find(s + rest, needle) == Find(s, needle)
  {
    if needle <= s {
      assert needle <= s + rest;
    } else {
      FindInFront(s[1..], needle, rest);
      assert (s + rest)[1..] == s[1..] + rest;
      var k :| 0 <= k < |needle| && (k >= |s| || s[k] != needle[k]);
      FoundIsLong(s[1..], needle);
      assert (s + rest)[k] == s[k];
    }
  }

  lemma FoundIsLong(s: string, needle: string)
    requires needle != "" && Find(s, needle).Some?
    ensures |needle| <= |s|
  {
  }

  /** An element behind any prolog comes out as it is. */
  lemma StripsDeclaration(p: Prolog, element: string)
    requires ValidProlog(p) && element != "" && element[0] == '<' && !("<?xml" <= element)
    ensures WithoutDeclaration(PrologText(p) + element) == element
  {
    if p.declaration.Some? {
      var declaration := p.declaration.value;
      var rest := p.after + element;
      var tail := "<?xml" + (declaration + "?>" + rest);
      assert PrologText(p) + element == p.before + tail;
      TrimsSpace(p.before, tail);
      assert tail[5..] == declaration + "?>" + rest;
      FindInFront(declaration + "?>", "?>", rest);
      assert tail[5 + |declaration| + 2..] == rest;
      TrimsSpace(p.after, element);
    } else {
      assert PrologText(p) + element == (p.before + p.after) + element;
      TrimsSpace(p.before + p.after, element);
    }
  }

  /** No encrypted assertion stands in front of the first assertion. */
  predicate AssertionFirst(ns: seq<Node>) {
    FirstElement(ns, "Assertion").Some?
    && (FirstElement(ns, "EncryptedAssertion").Some? ==>
          FirstElement(ns, "Assertion").value < FirstElement(ns, "EncryptedAssertion").value)
  }

  lemma {:induction false} FirstAfterReplacing(ns: seq<Node>, i: nat, n: Node)
    requires AssertionFirst(ns) && FirstElement(ns, "Assertion") == Some(i)
    requires IsElement(n) && n.tag.local == "EncryptedAssertion"
    ensures FirstElement(ns[i := n], "EncryptedAssertion") == Some(i)
  {
    if i > 0 {
      assert ns[i := n][1..] == ns[1..][i - 1 := n];
      FirstAfterReplacing(ns[1..], i - 1, n);
    }
  }

  lemma {:induction false} FirstBeforeReplacing(ns: seq<Node>, i: nat, n: Node)
    requires FirstElement(ns, "Assertion") == Some(i)
    requires FirstElement(ns, "EncryptedAssertion").Some? && FirstElement(ns, "EncryptedAssertion").value < i
    ensures FirstElement(ns[i := n], "EncryptedAssertion") == FirstElement(ns, "EncryptedAssertion")
  {
    assert ns[i := n][0] == ns[0];
    if FirstElement(ns, "EncryptedAssertion").value > 0 {
      assert ns[i := n][1..] == ns[1..][i - 1 := n];
      FirstBeforeReplacing(ns[1..], i - 1, n);
    }
  }

  /** Decryption puts the element it was given, behind whatever declaration, in the place of the first encrypted
      assertion. */
  lemma DecryptionReplacesFirst(d: Document, n: Node, p: Prolog)
    requires d.root.Element? && FirstElement(d.root.children, "EncryptedAssertion").Some?
    requires IsElement(n) && ValidProlog(p) && (n.tag.source == "" || n.tag.source[0] != '?')
    ensures DecryptedText(d, PrologText(p) + Print(n))
         == Ok(PrintDocument(Replaced(d, FirstElement(d.root.children, "EncryptedAssertion").value, n)))
  {
    hide PrintDocument, WithoutDeclaration, PrologText, SplicedText, StartOf, Print, ValidProlog;
    ElementBegins(n);
    StripsDeclaration(p, Print(n));
    SpliceReplaces(d, FirstElement(d.root.children, "EncryptedAssertion").value, n);
  }

  /** Encrypting and decrypting restores the document byte for byte, whatever declaration the decrypted text begins
      with, when no encrypted assertion stands in front of the assertion; otherwise decryption replaces that one. */
  lemma DecryptingRestoresText(d: Document, wrapper: Node, p: Prolog)
    requires d.root.Element? && FirstElement(d.root.children, "Assertion").Some?
    requires IsElement(wrapper) && wrapper.tag.local == "EncryptedAssertion" && ValidProlog(p)
    requires var source := d.root.children[FirstElement(d.root.children, "Assertion").value].tag.source;
             source == "" || source[0] != '?'
    ensures var i, j := FirstElement(d.root.children, "Assertion").value,
        FirstElement(d.root.children, "EncryptedAssertion");
            var assertion, encrypted := d.root.children[i], Replaced(d, i, wrapper);
            && EncryptedText(d, Print(wrapper)) == Ok(PrintDocument(encrypted))
            && (AssertionFirst(d.root.children) ==>
                  DecryptedText(encrypted, PrologText(p) + Print(assertion)) == Ok(PrintDocument(d)))
            && (!AssertionFirst(d.root.children) ==>
                  DecryptedText(encrypted, PrologText(p) + Print(assertion))
                  == Ok(PrintDocument(Replaced(encrypted, j.value, assertion))))
  {
    hide PrintDocument, DecryptedText, PrologText, SplicedText, StartOf, Print, ValidProlog;
    var i, j := FirstElement(d.root.children, "Assertion").value, FirstElement(d.root.children, "EncryptedAssertion");
    var assertion := d.root.children[i];
    var encrypted := Replaced(d, i, wrapper);
    SpliceReplaces(d, i, wrapper);
    if AssertionFirst(d.root.children) {
      FirstAfterReplacing(d.root.children, i, wrapper);
      DecryptionReplacesFirst(encrypted, assertion, p);
      assert d.root.children[i := wrapper][i := assertion] == d.root.children;
      assert Replaced(encrypted, i, assertion) == d;
    } else {
      NotBoth(d.root.children);
      FirstBeforeReplacing(d.root.children, i, wrapper);
      DecryptionReplacesFirst(encrypted, assertion, p);
    }
  }

  lemma NotBoth(ns: seq<Node>)
    requires FirstElement(ns, "Assertion").Some? && FirstElement(ns, "EncryptedAssertion").Some?
    ensures FirstElement(ns, "Assertion").value != FirstElement(ns, "EncryptedAssertion").value
  {
  }

  lemma ElementBegins(n: Node)
    requires IsElement(n) && (n.tag.source == "" || n.tag.source[0] != '?')
    ensures Print(n) != "" && Print(n)[0] == '<' && !("<?xml" <= Print(n))
  {
    var declaration := "<?xml";
    assert declaration[1] == '?';
    assert |Print(n)| > 1 && Print(n)[0] == '<' && Print(n)[1] != '?';
  }
}
