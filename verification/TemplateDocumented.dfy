/** When rendering a placeholder without a value does what its documentation says, which deletes the attributes
    whose complete value it is, the elements whose complete body it is, and no more. */
module TemplateDocumented {
  import opened Text
  import opened Template
  import opened TemplateText
  import opened TemplateTree
  import opened TemplateTrim
  import opened TemplatePassive
  import opened TemplateRender
  import opened TemplateTally
  import opened TemplateFaults
  import opened TemplateLosses

  /** The output is the text of a well-formed tree if and only if no end tag is taken. */
  lemma StaysTreeExactlyWhen(items: seq<Item>, key: string)
    requires WellFormedItems(items) && Unbraced(key) && Settled(items, key)
    ensures (exists tree :: WellFormedItems(tree) && Print(tree) == TagReplaced(Print(items), key, None))
       <==> !Faulty(Cleared(items, key, true), key, TakesEndTag)
  {
    hide TagReplaced, WellFormedItems, Cleared, Faulty, CodedPieces, Filled, ItemsPieces, Unbraced, Rendered,
      Settled;
    var bare, output := Cleared(items, key, true), TagReplaced(Print(items), key, None);
    if Faulty(bare, key, TakesEndTag) {
      forall tree | WellFormedItems(tree) ensures Print(tree) != output {
        NoTree(items, key, tree);
      }
    } else {
      var tree := Rendered(items, key, None, true);
      assert AllPassive(ItemsPieces(items), key) by { SettledPassive(items, key); }
      TagRendersTree(items, key, None);
      RenderedWellFormed(items, key, None, true);
      assert WellFormedItems(tree) && Print(tree) == output;
    }
  }

  lemma SettledPassive(items: seq<Item>, key: string)
    requires Settled(items, key)
    ensures AllPassive(ItemsPieces(items), key)
  {
  }

  lemma NoTree(items: seq<Item>, key: string, tree: seq<Item>)
    requires WellFormedItems(items) && Unbraced(key) && Settled(items, key) && WellFormedItems(tree)
    requires Faulty(Cleared(items, key, true), key, TakesEndTag)
    ensures Print(tree) != TagReplaced(Print(items), key, None)
  {
    hide TagReplaced, WellFormedItems, Cleared, Faulty, CodedPieces, Filled, ItemsPieces, Unbraced, Scan, Settled;
    AbsentTagLeaves(items, key);
    ClearedWellFormed(items, key, true);
    CodeBalance(Cleared(items, key, true), key);
    TreeBalanced(tree);
  }

  /** No element is rendered in one of the ways in which the code parts from its documentation. */
  predicate Faultless(items: seq<Item>, key: string) {
    !Faulty(items, key, Stays) && !Faulty(items, key, TakesText) && !Faulty(items, key, TakesEndTag)
  }

  /** No text, and no attribute value of an element that is not deleted as a whole, reads like an attribute around
      the placeholder; and with the attributes gone that it was the whole value of, no element has it as its whole
      body and in its start tag, none ends with it behind text that ends with `>`, and none ends with it behind a
      self-closing child of its own name. */
  predicate Harmless(items: seq<Item>, key: string) {
    !TextCut([], items, key) && !ValueCut(items, key) && Faultless(Cleared(items, key, true), key)
  }

  /** For every template, an absent value renders as documented if and only if the template is harmless. */
  lemma DocumentedExactlyWhen(items: seq<Item>, key: string)
    requires WellFormedItems(items) && Unbraced(key) && Settled(items, key)
    ensures TagReplaced(Print(items), key, None) == Print(Rendered(items, key, None, false)) <==> Harmless(items, key)
  {
    hide TagReplaced, WellFormedItems, WithoutElements, WithoutAttributes, TrimmedItems, Unbraced, Faulty, Print, Scan,
      TextCut, ValueCut, FilledItems, Settled;
    var bare := Cleared(items, key, true);
    ClearedWellFormed(items, key, true);
    RenderedWellFormed(items, key, None, false);
    if Faulty(bare, key, TakesEndTag) {
      NoTree(items, key, Rendered(items, key, None, false));
    } else {
      assert AllPassive(ItemsPieces(items), key) by { SettledPassive(items, key); }
      TagRendersTree(items, key, None);
      ItemsCompared([], items, key);
      NoWords(DocumentedItems(items, key));
      KeepsText(bare, key);
      KeepsMoreOrText(bare, key);
      SameMeasures(WithoutElements(bare, key, true), DocumentedItems(items, key), key);
    }
  }

  lemma KeepsMoreOrText(items: seq<Item>, key: string)
    requires WellFormedItems(items)
    ensures !Faulty(items, key, TakesText) && Faulty(items, key, Stays) ==>
              Opens(WithoutElements(items, key, false), key) < Opens(WithoutElements(items, key, true), key)
    ensures !Faulty(items, key, TakesText) && !Faulty(items, key, Stays) ==>
              Blanks(WithoutElements(items, key, false), key) == Blanks(WithoutElements(items, key, true), key)
  {
    hide WellFormedItems, WithoutElements, Opens, Faulty, FilledItems;
    if !Faulty(items, key, TakesText) {
      KeepsMore(items, key);
    }
  }

  /** One text has one number of tags and one amount of text. */
  lemma SameMeasures(a: seq<Item>, b: seq<Item>, key: string)
    ensures Blanks(a, key) == Blanks(b, key) ==>
              TextOf(a, key) == TextOf(b, key) && Opens(a, key) == Opens(b, key)
    ensures Blanks(a, key) == Print(FilledItems(a, key, "")) && Blanks(b, key) == Print(FilledItems(b, key, ""))
  {
  }
}
