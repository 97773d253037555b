/** The default templates as trees: each is rendered as documented, whatever has a value. */
module TemplateDefaults {
  import opened Text
  import opened Template
  import opened TemplateText
  import opened TemplateTree
  import opened TemplateFit
  import opened TemplatePassive
  import opened TemplateDocumented
  import opened TemplateValues
  import opened TemplateMild
  import opened TemplateTidy

  const PROTOCOL := "urn:oasis:names:tc:SAML:2.0:protocol"
  const ASSERTION := "urn:oasis:names:tc:SAML:2.0:assertion"
  const XSI := "http://www.w3.org/2001/XMLSchema-instance"
  const XS := "http://www.w3.org/2001/XMLSchema"
  const BEARER := "urn:oasis:names:tc:SAML:2.0:cm:bearer"

  function Fixed(name: string, text: string): Attribute { Attribute(" ", name, "", "", '\"', [Lit(text)]) }

  function Slot(name: string, key: string): Attribute { Attribute(" ", name, "", "", '\"', [Hole(key)]) }

  function Tag(name: string, attributes: seq<Attribute>, items: seq<Item>): Item {
    Child(Element(name, attributes, "", false, items))
  }

  function Closed(name: string, attributes: seq<Attribute>): Item { Child(Element(name, attributes, "", true, [])) }

  function Placeholder(key: string): Item { Words(Hole(key)) }

  const ISSUER := Tag("saml:Issuer", [], [Placeholder("Issuer")])

  const STATUS := Tag("samlp:Status", [], [Closed("samlp:StatusCode", [Slot("Value", "StatusCode")])])

  const NAME_ID := Tag("saml:NameID", [Slot("Format", "NameIDFormat")], [Placeholder("NameID")])

  const SUBJECT_DATA :=
    Closed("saml:SubjectConfirmationData",
           [Slot("NotOnOrAfter", "SubjectConfirmationDataNotOnOrAfter"),
            Slot("Recipient", "SubjectRecipient"), Slot("InResponseTo", "InResponseTo")])

  const SUBJECT :=
    Tag("saml:Subject", [],
        [NAME_ID, Tag("saml:SubjectConfirmation", [Fixed("Method", BEARER)], [SUBJECT_DATA])])

  const CONDITIONS :=
    Tag("saml:Conditions", [Slot("NotBefore", "ConditionsNotBefore"), Slot("NotOnOrAfter", "ConditionsNotOnOrAfter")],
        [Tag("saml:AudienceRestriction", [], [Tag("saml:Audience", [], [Placeholder("Audience")])])])

  /** The two placeholders at its end follow a child element. */
  const ASSERTION_ELEMENT :=
    Tag("saml:Assertion",
        [Fixed("xmlns:xsi", XSI), Fixed("xmlns:xs", XS), Fixed("xmlns:saml", ASSERTION), Slot("ID", "AssertionID"),
         Fixed("Version", "2.0"), Slot("IssueInstant", "IssueInstant")],
        [ISSUER, SUBJECT, CONDITIONS, Placeholder("AuthnStatement"), Placeholder("AttributeStatement")])

  const LOGIN_RESPONSE: seq<Item> :=
    [Tag("samlp:Response",
         [Fixed("xmlns:samlp", PROTOCOL), Fixed("xmlns:saml", ASSERTION), Slot("ID", "ID"), Fixed("Version", "2.0"),
          Slot("IssueInstant", "IssueInstant"), Slot("Destination", "Destination"),
          Slot("InResponseTo", "InResponseTo")],
         [ISSUER, STATUS, ASSERTION_ELEMENT])]

  const POLICY := Closed("samlp:NameIDPolicy", [Slot("Format", "NameIDFormat"), Slot("AllowCreate", "AllowCreate")])

  const LOGIN_REQUEST: seq<Item> :=
    [Tag("samlp:AuthnRequest",
         [Fixed("xmlns:samlp", PROTOCOL), Fixed("xmlns:saml", ASSERTION), Slot("ID", "ID"), Fixed("Version", "2.0"),
          Slot("IssueInstant", "IssueInstant"), Slot("Destination", "Destination"), Slot("ForceAuthn", "ForceAuthn"),
          Slot("ProtocolBinding", "ProtocolBinding"),
          Slot("AssertionConsumerServiceURL", "AssertionConsumerServiceURL"),
          Slot("AssertionConsumerServiceIndex", "AssertionConsumerServiceIndex")],
         [ISSUER, POLICY])]

  const LOGOUT_REQUEST: seq<Item> :=
    [Tag("samlp:LogoutRequest",
         [Fixed("xmlns:samlp", PROTOCOL), Fixed("xmlns:saml", ASSERTION), Slot("ID", "ID"), Fixed("Version", "2.0"),
          Slot("IssueInstant", "IssueInstant"), Slot("Destination", "Destination")],
         [ISSUER, NAME_ID, Tag("samlp:SessionIndex", [], [Placeholder("SessionIndex")])])]

  const LOGOUT_RESPONSE: seq<Item> :=
    [Tag("samlp:LogoutResponse",
         [Fixed("xmlns:samlp", PROTOCOL), Fixed("xmlns:saml", ASSERTION), Slot("ID", "ID"), Fixed("Version", "2.0"),
          Slot("IssueInstant", "IssueInstant"), Slot("Destination", "Destination"),
          Slot("InResponseTo", "InResponseTo")],
         [ISSUER, STATUS])]

  /** Well-formed, tidy, and without braces in literals. */
  ghost predicate Fine(item: Item) { WellFormedItem(item) && TidyItem(item) && AllSpellable(ItemPieces(item)) }

  ghost predicate FineAttribute(a: Attribute) {
    WellFormedAttribute(a) && TidyValue(a.value) && AllSpellable(AttributePieces(a))
  }

  predicate FineText(s: string) {
    s != "" && forall i :: 0 <= i < |s| ==> IsNameByte(s[i]) || s[i] == '/'
  }

  predicate FineKey(s: string) { forall i :: 0 <= i < |s| ==> IsAsciiAlphanumeric(s[i]) }

  lemma FixedFine(name: string, text: string)
    requires IsName(name) && FineText(text)
    ensures FineAttribute(Fixed(name, text))
  {
    AttributeSpellable(Fixed(name, text));
  }

  lemma AttributeSpellable(a: Attribute)
    requires IsName(a.name) && a.space == " " && a.before == "" && a.after == "" && IsQuote(a.quote)
    requires AllSpellable(a.value)
    ensures AllSpellable(AttributePieces(a))
  {
    NameBytes(a.name);
    assert Spellable(Lit(Head(a))) && Spellable(Lit([a.quote]));
  }

  lemma KeyFine(key: string)
    requires FineKey(key)
    ensures IsKey(key)
  {
  }

  lemma SlotFine(name: string, key: string)
    requires IsName(name) && FineKey(key)
    ensures FineAttribute(Slot(name, key))
  {
    KeyFine(key);
    AttributeSpellable(Slot(name, key));
  }

  lemma PlaceholderFine(key: string)
    requires FineKey(key)
    ensures Fine(Placeholder(key))
  {
    KeyFine(key);
  }

  ghost predicate AllFine(items: seq<Item>) { forall i :: 0 <= i < |items| ==> Fine(items[i]) }

  ghost predicate AttributesFine(attributes: seq<Attribute>) {
    forall i :: 0 <= i < |attributes| ==> FineAttribute(attributes[i])
  }

  lemma SpellableBoth(ps: seq<Piece>, qs: seq<Piece>)
    requires AllSpellable(ps) && AllSpellable(qs)
    ensures AllSpellable(ps + qs)
  {
    hide Spellable;
  }

  lemma {:induction false} AttributesSpellable(attributes: seq<Attribute>)
    requires AttributesFine(attributes)
    ensures AllSpellable(AttributesPieces(attributes))
  {
    if attributes != [] {
      hide AttributePieces, WellFormedAttribute, TidyValue, AllSpellable;
      assert FineAttribute(attributes[0]);
      AttributesSpellable(attributes[1..]);
      SpellableBoth(AttributePieces(attributes[0]), AttributesPieces(attributes[1..]));
    }
  }

  lemma {:induction false} ItemsSpellable(items: seq<Item>)
    requires AllFine(items)
    ensures AllSpellable(ItemsPieces(items))
  {
    if items != [] {
      hide ItemPieces, WellFormedItem, TidyItem, AllSpellable;
      assert Fine(items[0]);
      ItemsSpellable(items[1..]);
      SpellableBoth(ItemPieces(items[0]), ItemsPieces(items[1..]));
    }
  }

  lemma FineParts(attributes: seq<Attribute>, items: seq<Item>)
    requires AttributesFine(attributes) && AllFine(items)
    ensures forall i :: 0 <= i < |attributes| ==> WellFormedAttribute(attributes[i])
    ensures TidyAttributes(attributes) && WellFormedItems(items) && Tidy(items)
  {
    hide WellFormedAttribute, TidyValue, WellFormedItem, TidyItem, AllSpellable;
    forall i | 0 <= i < |attributes| ensures WellFormedAttribute(attributes[i]) && TidyValue(attributes[i].value) {
      assert FineAttribute(attributes[i]);
    }
    forall i | 0 <= i < |items| ensures WellFormedItem(items[i]) && TidyItem(items[i]) {
      assert Fine(items[i]);
    }
  }

  lemma OpenSpellable(e: Element)
    requires IsName(e.name) && AttributesFine(e.attributes) && e.tail == ""
    ensures AllSpellable(OpenPieces(e))
  {
    hide AttributesFine;
    NameBytes(e.name);
    AttributesSpellable(e.attributes);
    assert Spellable(Lit("<" + e.name)) && Spellable(Lit(e.tail));
  }

  lemma ElementSpellable(e: Element)
    requires IsName(e.name) && AttributesFine(e.attributes) && AllFine(e.items) && e.tail == ""
    ensures AllSpellable(ElementPieces(e))
  {
    hide AttributesFine, AllFine, OpenPieces;
    NameBytes(e.name);
    OpenSpellable(e);
    ItemsSpellable(e.items);
    assert Spellable(Lit(">")) && Spellable(Lit("/>")) && Spellable(Lit(CloseTag(e)));
  }

  lemma TagFine(name: string, attributes: seq<Attribute>, items: seq<Item>)
    requires IsName(name) && AttributesFine(attributes) && AllFine(items) && NoTwin(items, name)
    ensures Fine(Tag(name, attributes, items))
  {
    hide IsName, WellFormedAttribute, AllSpellable, NoTwin, AttributesFine, AllFine;
    FineParts(attributes, items);
    var e := Tag(name, attributes, items).element;
    ElementSpellable(e);
    assert WellFormedElement(e);
    assert TidyItem(Child(e));
  }

  lemma ClosedFine(name: string, attributes: seq<Attribute>)
    requires IsName(name) && AttributesFine(attributes)
    ensures Fine(Closed(name, attributes))
  {
    hide IsName, WellFormedAttribute, AllSpellable, AttributesFine;
    FineParts(attributes, []);
    var e := Closed(name, attributes).element;
    ElementSpellable(e);
    assert WellFormedElement(e);
    assert TidyItem(Child(e));
  }

  lemma IssuerFine()
    ensures Fine(ISSUER)
  {
    hide Fine;
    PlaceholderFine("Issuer");
    TagFine("saml:Issuer", [], [Placeholder("Issuer")]);
  }

  lemma StatusFine()
    ensures Fine(STATUS)
  {
    hide Fine;
    SlotFine("Value", "StatusCode");
    ClosedFine("samlp:StatusCode", [Slot("Value", "StatusCode")]);
    TagFine("samlp:Status", [], [Closed("samlp:StatusCode", [Slot("Value", "StatusCode")])]);
  }

  lemma NameIdFine()
    ensures Fine(NAME_ID)
  {
    hide Fine, FineAttribute;
    SlotFine("Format", "NameIDFormat");
    PlaceholderFine("NameID");
    TagFine("saml:NameID", [Slot("Format", "NameIDFormat")], [Placeholder("NameID")]);
  }

  lemma DataFine()
    ensures Fine(SUBJECT_DATA)
  {
    hide Fine, FineAttribute, FineKey, IsName;
    DataNames();
    DataKeys();
    SlotFine("NotOnOrAfter", "SubjectConfirmationDataNotOnOrAfter");
    SlotFine("Recipient", "SubjectRecipient");
    SlotFine("InResponseTo", "InResponseTo");
    ClosedFine("saml:SubjectConfirmationData",
               [Slot("NotOnOrAfter", "SubjectConfirmationDataNotOnOrAfter"),
                Slot("Recipient", "SubjectRecipient"), Slot("InResponseTo", "InResponseTo")]);
  }

  lemma DataNames()
    ensures IsName("NotOnOrAfter") && IsName("Recipient") && IsName("InResponseTo")
    ensures IsName("saml:SubjectConfirmationData")
  {
  }

  lemma DataKeys()
    ensures FineKey("SubjectConfirmationDataNotOnOrAfter") && FineKey("SubjectRecipient") && FineKey("InResponseTo")
  {
  }

  lemma SubjectFine()
    ensures Fine(SUBJECT)
  {
    hide Fine, FineAttribute, FineText, IsName;
    SubjectNames();
    BearerText();
    NameIdFine();
    DataFine();
    FixedFine("Method", BEARER);
    var confirmation := Tag("saml:SubjectConfirmation", [Fixed("Method", BEARER)], [SUBJECT_DATA]);
    TagFine("saml:SubjectConfirmation", [Fixed("Method", BEARER)], [SUBJECT_DATA]);
    TagFine("saml:Subject", [], [NAME_ID, confirmation]);
  }

  lemma SubjectNames()
    ensures IsName("Method") && IsName("saml:SubjectConfirmation") && IsName("saml:Subject")
  {
  }

  lemma BearerText()
    ensures FineText(BEARER)
  {
  }

  lemma ConditionsFine()
    ensures Fine(CONDITIONS)
  {
    hide Fine, FineAttribute, FineKey, IsName;
    ConditionsNames();
    ConditionsKeys();
    PlaceholderFine("Audience");
    var audience := Tag("saml:Audience", [], [Placeholder("Audience")]);
    TagFine("saml:Audience", [], [Placeholder("Audience")]);
    TagFine("saml:AudienceRestriction", [], [audience]);
    SlotFine("NotBefore", "ConditionsNotBefore");
    SlotFine("NotOnOrAfter", "ConditionsNotOnOrAfter");
    TagFine("saml:Conditions", [Slot("NotBefore", "ConditionsNotBefore"),
                                Slot("NotOnOrAfter", "ConditionsNotOnOrAfter")],
            [Tag("saml:AudienceRestriction", [], [audience])]);
  }

  lemma ConditionsNames()
    ensures IsName("saml:Audience") && IsName("saml:AudienceRestriction") && IsName("saml:Conditions")
    ensures IsName("NotBefore") && IsName("NotOnOrAfter")
  {
  }

  lemma ConditionsKeys()
    ensures FineKey("Audience") && FineKey("ConditionsNotBefore") && FineKey("ConditionsNotOnOrAfter")
  {
  }

  lemma NamespacesFine()
    ensures FineAttribute(Fixed("xmlns:xsi", XSI)) && FineAttribute(Fixed("xmlns:xs", XS))
    ensures FineAttribute(Fixed("xmlns:saml", ASSERTION)) && FineAttribute(Fixed("xmlns:samlp", PROTOCOL))
    ensures FineAttribute(Fixed("Version", "2.0"))
  {
    hide FineAttribute, FineText, IsName;
    NamespaceNames();
    SchemaText();
    SchemaInstanceText();
    ProtocolText();
    AssertionText();
    VersionText();
    FixedFine("xmlns:xsi", XSI);
    FixedFine("xmlns:xs", XS);
    FixedFine("xmlns:saml", ASSERTION);
    FixedFine("xmlns:samlp", PROTOCOL);
    FixedFine("Version", "2.0");
  }

  lemma NamespaceNames()
    ensures IsName("xmlns:xsi") && IsName("xmlns:xs") && IsName("xmlns:saml") && IsName("xmlns:samlp") &&
        IsName("Version")
  {
  }

  lemma SchemaText()
    ensures FineText(XS)
  {
  }

  lemma SchemaInstanceText()
    ensures FineText(XSI)
  {
  }

  lemma ProtocolText()
    ensures FineText(PROTOCOL)
  {
  }

  lemma AssertionText()
    ensures FineText(ASSERTION)
  {
  }

  lemma VersionText()
    ensures FineText("2.0")
  {
  }

  lemma CommonNames()
    ensures IsName("ID") && IsName("IssueInstant") && IsName("Destination") && IsName("InResponseTo")
  {
  }

  lemma CommonKeys()
    ensures FineKey("ID") && FineKey("AssertionID") && FineKey("IssueInstant") && FineKey("Destination")
    ensures FineKey("InResponseTo")
  {
  }

  lemma CommonSlotsFine()
    ensures FineAttribute(Slot("ID", "ID")) && FineAttribute(Slot("ID", "AssertionID"))
    ensures FineAttribute(Slot("IssueInstant", "IssueInstant")) && FineAttribute(Slot("Destination", "Destination"))
    ensures FineAttribute(Slot("InResponseTo", "InResponseTo"))
  {
    hide FineAttribute, IsName, FineKey;
    CommonNames();
    CommonKeys();
    SlotFine("ID", "ID");
    SlotFine("ID", "AssertionID");
    SlotFine("IssueInstant", "IssueInstant");
    SlotFine("Destination", "Destination");
    SlotFine("InResponseTo", "InResponseTo");
  }

  lemma AssertionFine()
    ensures Fine(ASSERTION_ELEMENT)
  {
    hide Fine, FineAttribute, IsName, FineKey, Fixed, Slot;
    NamespacesFine();
    CommonSlotsFine();
    IssuerFine();
    SubjectFine();
    ConditionsFine();
    AssertionNames();
    PlaceholderFine("AuthnStatement");
    PlaceholderFine("AttributeStatement");
    TagFine("saml:Assertion",
            [Fixed("xmlns:xsi", XSI), Fixed("xmlns:xs", XS), Fixed("xmlns:saml", ASSERTION), Slot("ID", "AssertionID"),
             Fixed("Version", "2.0"), Slot("IssueInstant", "IssueInstant")],
            [ISSUER, SUBJECT, CONDITIONS, Placeholder("AuthnStatement"), Placeholder("AttributeStatement")]);
  }

  lemma AssertionNames()
    ensures IsName("saml:Assertion") && IsName("samlp:Response")
    ensures FineKey("AuthnStatement") && FineKey("AttributeStatement")
  {
  }

  lemma ResponseFine()
    ensures Fine(LOGIN_RESPONSE[0])
  {
    hide Fine, FineAttribute, IsName, FineKey, Fixed, Slot;
    NamespacesFine();
    CommonSlotsFine();
    IssuerFine();
    StatusFine();
    AssertionFine();
    AssertionNames();
    TagFine("samlp:Response",
            [Fixed("xmlns:samlp", PROTOCOL), Fixed("xmlns:saml", ASSERTION), Slot("ID", "ID"), Fixed("Version", "2.0"),
             Slot("IssueInstant", "IssueInstant"), Slot("Destination", "Destination"),
             Slot("InResponseTo", "InResponseTo")],
            [ISSUER, STATUS, ASSERTION_ELEMENT]);
  }

  // The other templates.

  lemma PolicyNames()
    ensures IsName("Format") && IsName("AllowCreate") && IsName("samlp:NameIDPolicy")
    ensures FineKey("NameIDFormat") && FineKey("AllowCreate")
  {
  }

  lemma PolicyFine()
    ensures Fine(POLICY)
  {
    hide Fine, FineAttribute, IsName, FineKey;
    PolicyNames();
    SlotFine("Format", "NameIDFormat");
    SlotFine("AllowCreate", "AllowCreate");
    ClosedFine("samlp:NameIDPolicy", [Slot("Format", "NameIDFormat"), Slot("AllowCreate", "AllowCreate")]);
  }

  lemma BindingNames()
    ensures IsName("ForceAuthn") && IsName("ProtocolBinding") && IsName("samlp:AuthnRequest")
  {
  }

  lemma RequestNames()
    ensures IsName("AssertionConsumerServiceURL") && IsName("AssertionConsumerServiceIndex")
  {
  }

  lemma RequestKeys()
    ensures FineKey("ForceAuthn") && FineKey("ProtocolBinding") && FineKey("AssertionConsumerServiceURL")
    ensures FineKey("AssertionConsumerServiceIndex")
  {
  }

  lemma RequestSlotsFine()
    ensures FineAttribute(Slot("ForceAuthn", "ForceAuthn")) && FineAttribute(Slot("ProtocolBinding", "ProtocolBinding"))
    ensures FineAttribute(Slot("AssertionConsumerServiceURL", "AssertionConsumerServiceURL"))
    ensures FineAttribute(Slot("AssertionConsumerServiceIndex", "AssertionConsumerServiceIndex"))
  {
    hide FineAttribute, IsName, FineKey;
    BindingNames();
    RequestNames();
    RequestKeys();
    SlotFine("ForceAuthn", "ForceAuthn");
    SlotFine("ProtocolBinding", "ProtocolBinding");
    SlotFine("AssertionConsumerServiceURL", "AssertionConsumerServiceURL");
    SlotFine("AssertionConsumerServiceIndex", "AssertionConsumerServiceIndex");
  }

  lemma LoginRequestFine()
    ensures Fine(LOGIN_REQUEST[0])
  {
    hide Fine, FineAttribute, IsName, FineKey, Fixed, Slot;
    NamespacesFine();
    CommonSlotsFine();
    RequestSlotsFine();
    IssuerFine();
    PolicyFine();
    BindingNames();
    TagFine("samlp:AuthnRequest",
            [Fixed("xmlns:samlp", PROTOCOL), Fixed("xmlns:saml", ASSERTION), Slot("ID", "ID"), Fixed("Version", "2.0"),
             Slot("IssueInstant", "IssueInstant"), Slot("Destination", "Destination"), Slot("ForceAuthn", "ForceAuthn"),
             Slot("ProtocolBinding", "ProtocolBinding"),
             Slot("AssertionConsumerServiceURL", "AssertionConsumerServiceURL"),
             Slot("AssertionConsumerServiceIndex", "AssertionConsumerServiceIndex")],
            [ISSUER, POLICY]);
  }

  lemma LogoutNames()
    ensures IsName("samlp:SessionIndex") && IsName("samlp:LogoutRequest") && IsName("samlp:LogoutResponse")
    ensures FineKey("SessionIndex")
  {
  }

  lemma LogoutRequestFine()
    ensures Fine(LOGOUT_REQUEST[0])
  {
    hide Fine, FineAttribute, IsName, FineKey, Fixed, Slot;
    NamespacesFine();
    CommonSlotsFine();
    IssuerFine();
    NameIdFine();
    LogoutNames();
    PlaceholderFine("SessionIndex");
    var index := Tag("samlp:SessionIndex", [], [Placeholder("SessionIndex")]);
    TagFine("samlp:SessionIndex", [], [Placeholder("SessionIndex")]);
    TagFine("samlp:LogoutRequest",
            [Fixed("xmlns:samlp", PROTOCOL), Fixed("xmlns:saml", ASSERTION), Slot("ID", "ID"), Fixed("Version", "2.0"),
             Slot("IssueInstant", "IssueInstant"), Slot("Destination", "Destination")],
            [ISSUER, NAME_ID, index]);
  }

  lemma LogoutResponseFine()
    ensures Fine(LOGOUT_RESPONSE[0])
  {
    hide Fine, FineAttribute, IsName, FineKey, Fixed, Slot;
    NamespacesFine();
    CommonSlotsFine();
    IssuerFine();
    StatusFine();
    LogoutNames();
    TagFine("samlp:LogoutResponse",
            [Fixed("xmlns:samlp", PROTOCOL), Fixed("xmlns:saml", ASSERTION), Slot("ID", "ID"), Fixed("Version", "2.0"),
             Slot("IssueInstant", "IssueInstant"), Slot("Destination", "Destination"),
             Slot("InResponseTo", "InResponseTo")],
            [ISSUER, STATUS]);
  }

  // The results.

  /** The template is harmless for every placeholder, and filling it with these values renders it as documented. */
  ghost predicate AsDocumented(items: seq<Item>, tags: seq<Replacement>) {
    && WellFormedItems(items) && (forall key :: Harmless(items, key))
    && TagsReplaced(Print(items), tags) == Print(DocumentedAll(items, tags))
  }

  lemma OneFineRenders(items: seq<Item>, tags: seq<Replacement>)
    requires |items| == 1 && Fine(items[0]) && AllKeys(tags) && Apart(tags)
    ensures AsDocumented(items, tags)
  {
    hide WellFormedItem, TidyItem, TagsReplaced, DocumentedAll, Print, ItemsPieces, AllSpellable, AllPassive, Harmless,
      Apart;
    assert AllFine(items);
    FineParts([], items);
    ItemsSpellable(items);
    forall i | 0 <= i < |tags| ensures AllPassive(ItemsPieces(items), tags[i].0) {
      SpellablePassive(ItemsPieces(items), tags[i].0);
    }
    forall key ensures Harmless(items, key) {
      TidyIsHarmless(items, key);
    }
    TidyRendersAsDocumented(items, tags);
  }

  /** The default templates render as documented with any values, present and absent mixed, of which none spells
      a placeholder that comes after it. */
  lemma DefaultsRenderAsDocumented(tags: seq<Replacement>)
    requires AllKeys(tags) && Apart(tags)
    ensures AsDocumented(LOGIN_REQUEST, tags) && AsDocumented(LOGIN_RESPONSE, tags)
    ensures AsDocumented(LOGOUT_REQUEST, tags) && AsDocumented(LOGOUT_RESPONSE, tags)
  {
    hide Fine, AllKeys, Apart, AsDocumented, Tag;
    LoginRequestFine();
    ResponseFine();
    LogoutRequestFine();
    LogoutResponseFine();
    OneFineRenders(LOGIN_REQUEST, tags);
    OneFineRenders(LOGIN_RESPONSE, tags);
    OneFineRenders(LOGOUT_REQUEST, tags);
    OneFineRenders(LOGOUT_RESPONSE, tags);
  }
}
