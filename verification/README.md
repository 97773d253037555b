# A model of a SAML 2.0 library, and what it keeps

This project models the parts of the library where text, trees, codecs and stored state have to agree
with each other, and proves that they do. `dafny verify dfyconfig.toml` checks all of it.

A Rust `str` is a sequence of bytes (`Text.Bytes`, one character for each byte of its UTF-8 form) where
bytes matter, and a `string` where they do not. XML is a tree with resolved names, the text the tree is
printed as, and the event stream of that text with positions (`Xml`), or the smaller tree of local names
and attributes that signature checks look at (`Dom`). Code that changes variables in loops is a method
with loop invariants, proved equal to a specification function; code that changes an object is a method
of a class. The specification functions are what the lemmas are about. What a specification function decides by
names, limits or flags is also stated without it, with the names and numbers of the standards written out.

Six groups of modules:

- **Text rewriting that keeps document structure.** `RedirectSignature` finds the byte spans of the
  protocol signature and cuts them out, `RedirectTree` proves that this is the deletion of the root's
  direct signature children (section 3.4.4.1 of SAML Bindings 2.0). `Escape` and `Template` model placeholder
  filling and the deletion of attributes and elements by byte search. `TemplateText`, `TemplateTree`,
  `TemplateFit`, `TemplateItems`, `TemplateTrim`, `TemplatePassive` and `TemplateRender` prove what that search does on
  element trees, exactly, also where it leaves no tree; `TemplateValues`, `TemplateMild` and `TemplateRemains` what
  values do to it; `TemplateTally`, `TemplateFaults`, `TemplateLosses`, `TemplateDocumented`, `TemplateCases`,
  `TemplateTidy` and `TemplateDefaults` when it is what its documentation says.
  `AssertionSplice` does the same for the splice that replaces an assertion by its encryption and back.
- **The discovery cookie** (section 4.3 of SAML Profiles 2.0). `Base64` (section 4 of RFC 4648),
  `Base64Limit`, `Percent` (section 2.1 of RFC 3986), `Utf8`, `Discovery`, `DiscoveryForms`, `DiscoveryRuns`.
- **Signed redirects.** `FormUrl`, `RedirectQuery`, `RedirectCorrelation`, `DetachedSignature`.
- **Artifact resolution** (section 3.5 of SAML Core 2.0). `Sha1` and `Sha1Answers` (FIPS 180-4), `ArtifactCodec`,
  `ArtifactStore`, `ArtifactRuns`.
- **XML signatures and the response pipeline.** `Dom`, `SamlIds`, `Coverage`, `SignatureVerdict`,
  `SignatureOrder`, `SignatureReferences`, `SignatureProfile` and `SignatureGuards` model verification against a
  list of pinned certificates; `Pipeline`, `PipelineShapes`, `PipelineEvidence`, `PipelineDocuments`, `PipelineTemplate`,
  `PipelineRoundTrip`, `PipelineDecrypting`, `PipelinePreparing`, `PipelineVerifier`, `PipelineMessages`,
  `PipelineSafety` and `PipelineOrder` join it to the identity provider's signing and encrypting.
- **Scanners and acceptance.** `Conditions`, `Soap`, `SoapTree`, `Acceptance`.

Where the proofs found that code and promise differ, or that more holds than is promised:

- Template deletion: the attributes and elements whose complete value or body is a placeholder without a value are
  documented to go, and no more. `TemplateDocumented.DocumentedExactlyWhen` proves when the code does that: unless
  text, or the value of another attribute, reads like an attribute around the placeholder (it goes), or an element
  has the placeholder as its whole body and in its own start tag (it stays), ends with it behind text that ends with
  `>` (the text goes too), or ends with it behind a self-closing child of its own name (the child and the end tag
  go). Only the last leaves something that is not the text of a tree (`TemplateDocumented.StaysTreeExactlyWhen`).
  `TemplateCases` gives each as a family with its output. The default templates have none of these
  (`TemplateDefaults.DefaultsRenderAsDocumented`).
- Values are inserted one placeholder after the other, so a value that spells a later placeholder is filled again
  (`TemplateValues.ValueIsFilledAgain`) and lost as it was given (`TemplateValues.SpelledValueIsLost`); a value that
  does not is inserted as it is (`TemplateValues.PresentTagsFill`), with lone braces in it.
- A base URL with a fragment hides the whole Redirect message from the receiver
  (`RedirectCorrelation.ReceiverRebuildsSignedOctet`).
- An encrypted response that a service provider without a decryption key gets is accepted on its message signature,
  and handed on whole in the assertion's stead; a plain one that a decrypting service provider gets is refused
  (`PipelinePreparing.PreparedExactlyWhenDemandsAreMet`).
- A pinned certificate that cannot be loaded lets a message pass that holds it as its own certificate
  (`SignatureGuards.UnloadableNeverHurts`).
- Limited base64 decoding agrees with full decoding for ASCII white space; a vertical tab in front makes
  the early length test refuse a message that fits (`Base64Limit.VerticalTabRejected`).
- The form-encoded cookie value decodes for every number of separators: where the base64 decoder would
  swallow the `+`, the result is never UTF-8 (`DiscoveryForms.PlusJoinedRejected`).
- SHA-1 padding is injective on all inputs, not only where the length field does not wrap.
- A signed redirect query is accepted up to the certificates exactly when it carries one signed message
  and spells no field name with escapes (`RedirectCorrelation.AcceptedExactlyWhen`).

## Model

| member | source | states |
|---|---|---|
| RedirectSignature.ProtocolSignatureSpans | src/binding/redirect.rs:101-162 | one pass over the events gives the spans, or the error, of the step-by-step specification: counting, depth, limits, open signature |
| RedirectSignature.SpansNeedEndTags | src/binding/redirect.rs:101-162 | whatever the events, spans are given only when there are as many end tags as start tags |
| RedirectSignature.LostTagIsRefused | src/binding/redirect.rs:101-162 | a signature of the root whose start tag is not found in the text is an error |
| RedirectSignature.RemoveSpans | src/binding/redirect.rs:237-246 | the result is the text with the ordered spans left out |
| RedirectTree.SpansOfDocument | src/binding/redirect.rs:101-162 | for every well-formed document the scan succeeds exactly within its limits and without a document type, and then finds exactly the byte ranges of the root's direct `ds:Signature` children in order |
| RedirectTree.CutDocument | src/binding/redirect.rs:230-246 | those ranges are disjoint and in bounds, and cutting them out prints the tree without those children; nested signatures stay |
| RedirectTree.DropAround | src/binding/redirect.rs:230-246 | every other child stays, as often as it was there and in its order |
| RedirectTree.SecondScanFindsNone | src/binding/redirect.rs:101-162 | the rewritten text is accepted again and has no span |
| RedirectTree.RedirectMessageXml | src/binding/redirect.rs:87-99 | with detaching the message is the document without its protocol signatures; without detaching it is an error exactly when a child of the root is a `Signature` in the XML Signature namespace |
| Escape.EscapesAreMaps | src/binding/escape.rs:4-21 | each chain of five replacements equals one character-wise map |
| Escape.UnescapeInverts | src/binding/escape.rs:4-21 | resolving the entities gives back every text, for both escapes |
| Escape.EscapedHasNoMarkup | src/binding/escape.rs:4-11 | an escaped text has no markup character |
| Template.ReplaceEach | src/template.rs:105-115 | the loop is the replacement of every match, front to back |
| Template.OptionalAttributeRange | src/template.rs:149-192 | the backward steps find the range of the specification, or none |
| Template.OptionalElementRange | src/template.rs:198-236 | the same for the element around a match |
| Template.NoStartTag | src/template.rs:198-236 | a comment, a declaration, a processing instruction, an end tag or a tag without a name is never taken for a start tag |
| Template.RemoveOptionalRanges | src/template.rs:125-147 | the cursor loop removes the ranges of the specification, none that begins before the cursor |
| Template.ReplaceTagsByOptionalValue | src/template.rs:71-103 | placeholders are handled one after the other, with a value by replacement and without one by both deletions and an empty replacement |
| Template.ValuesAddNoMarkup | src/template.rs:71-115 | for every template and all values, with names free of markup, the markup characters of the output are those of the template in order |
| TemplateText.ReplaceFills | src/template.rs:105-115 | on text whose literals take no part in a match, replacing by search fills exactly the placeholders of that name |
| TemplateText.RemovesRanges | src/template.rs:125-147 | on such text with the removable ranges marked, deleting by search deletes exactly the marked ranges |
| TemplateFit.AttributeRangeIs | src/template.rs:149-192 | the finder names exactly a whole-value attribute with the white space in front of it |
| TemplateFit.ElementRangeIs | src/template.rs:198-236 | whatever ends with `>` in front of a placeholder is taken for a start tag, and the range goes from there to an end tag of the same name if that follows |
| TemplateTrim.ItemsTrimmedFit | src/template.rs:149-192 | in every printed template exactly these attribute ranges are found, each at its place: the whole-value attributes, and what reads like one in text or in the value of another; every other placeholder has none that can be removed |
| TemplateItems.ItemsFit | src/template.rs:198-236 | in every printed template exactly the element ranges that the tree operations delete are found, each at its place; every other placeholder has none that can be removed |
| TemplateRender.RemovesAttributes | src/template.rs:117-147 | deleting attribute ranges in the printed template leaves the text of a tree: without its whole-value attributes and what reads like one |
| TemplateRender.RemovesElements | src/template.rs:117-147 | deleting element ranges in the printed template deletes elements of the tree and what the code takes with them |
| TemplateRender.AbsentTagLeaves | src/template.rs:93-103 | what is left of a template for a placeholder without a value, for every tree, also where text that reads like an attribute or an end tag goes |
| TemplateRender.TagRendersTree | src/template.rs:93-103 | rendering one placeholder in the text renders it in the tree: for every template with a value, and without one whenever no end tag is taken |
| TemplateRender.TagsRenderTree | src/template.rs:85-91 | so does rendering any list of placeholders, present and absent mixed, as long as every step leaves a tree in which no literal has part in a spelling of the next placeholder |
| TemplateMild.MildRenderable | src/template.rs:85-91 | every step does, for all values without opening braces, in a template where no element has a self-closing child of its own name |
| TemplateValues.PresentTagsFill | src/template.rs:71-77 | in any template text, filling present values one after the other is one substitution, if no value spells, or ends with a beginning of, a later placeholder |
| TemplateValues.ValueIsFilledAgain | src/template.rs:71-77 | in any template, where a value spells a later placeholder between other text, that one's value comes in its place |
| TemplateValues.SpelledValueIsLost | src/template.rs:71-77 | in any template that holds the first placeholder, the output then is the substitution of all values if and only if the later value spells its own placeholder |
| TemplateTidy.TidyIsHarmless | src/template.rs:79-103 | a template whose attribute values are a placeholder or hold none, whose texts hold no markup and without a self-closing child of its parent's name is rendered as documented for every placeholder |
| TemplateTidy.TidyRendersAsDocumented | src/template.rs:79-103 | filling such a template with any list of values, present and absent mixed, renders it as documented at every step, if no value spells, or ends with a beginning of, a later placeholder |
| TemplateDefaults.DefaultsRenderAsDocumented | src/template.rs:14-33 | the four default message templates are such templates, the login response with its placeholders behind child elements |
| TemplateRemains.NoPlaceholderRemains | src/template.rs:85-147 | in any template text, whatever is deleted, no listed placeholder is left in the output when values hold no opening brace |
| TemplateDocumented.DocumentedExactlyWhen | src/template.rs:79-103 | for every template, an absent value renders as documented if and only if no text, and no attribute value of an element that stays, reads like an attribute around the placeholder, and with the attributes gone no element has the placeholder as its whole body and in its start tag, ends with it behind text that ends with `>`, or ends with it behind a self-closing child of its own name |
| TemplateDocumented.StaysTreeExactlyWhen | src/template.rs:198-236 | for every template, the output is the text of a well-formed tree if and only if no element ends with the placeholder behind such a child |
| TemplateCases.StartTagKeepsElement | src/template.rs:125-147 | an element documented to go that stays, with the exact output, whatever its other attributes |
| TemplateCases.SelfClosingSiblingTakesEndTag | src/template.rs:198-236 | behind a self-closing child of its own name only the start tag is left of the element |
| TemplateCases.GreaterThanTakesElement | src/template.rs:198-236 | with text that ends with `>` in front of the placeholder nothing is left of the element |
| TemplateCases.QuotedTextIsLost | src/template.rs:149-192 | text that reads like an attribute around the placeholder goes, which the documentation keeps |
| AssertionSplice.SpliceReplaces | src/crypto/enc.rs:96-101 | splicing over a child's byte range prints the tree with that child replaced |
| AssertionSplice.MissingExactlyWhen | src/crypto/enc.rs:64-153 | encrypting fails for want of an assertion, and decrypting of an encrypted one, exactly when the root has no such child |
| AssertionSplice.StripsDeclaration | src/crypto/enc.rs:155-165 | an element behind any declaration and white space comes out as it is |
| AssertionSplice.DecryptingRestoresText | src/crypto/enc.rs:64-153 | encrypting and decrypting restores the document byte for byte if no encrypted assertion stands in front of the assertion, and otherwise replaces that one |
| Base64.DecodeEncode | src/binding/encoding.rs:11-19 | decoding inverts encoding on all bytes |
| Base64.EncodeDecode | src/binding/encoding.rs:11-19 | only canonical text decodes: encoding inverts decoding |
| Base64.GroupIsNumber | src/binding/encoding.rs:11-19 | the four symbols of three bytes are the digits to base 64 of the number the bytes are |
| Base64.Capitals | src/binding/encoding.rs:11-19 | the first 26 digits are the capital letters in order; `SmallLetters` and `DigitsAndSigns` give the others |
| Base64.LastGroup | src/binding/encoding.rs:11-19 | one or two bytes at the end are a group filled with zeros, of which padding takes the rest |
| Base64Limit.LimitedDecodeExact | src/binding/encoding.rs:15-43 | limited decoding gives a result exactly when full decoding gives it within the limit and the other white space leaves room |
| Base64Limit.ExceededExactlyWhen | src/binding/encoding.rs:23-43 | the limit is reported as exceeded exactly when the input is too long for it before decoding or its decoding is after |
| Base64Limit.LimitedDecodeAgrees | src/binding/encoding.rs:15-43 | with ASCII white space only, for every machine-word limit, limited decoding gives a result exactly when full decoding gives it within the limit |
| Base64Limit.VerticalTabRejected | src/binding/encoding.rs:23-43 | a family of messages that fit and are refused |
| Percent.EncodePercent | src/discovery.rs:293-309 | the loop is the byte-wise escape map |
| Percent.DecodePercent | src/discovery.rs:316-348 | the loop is the recursive decoder, with its three errors and the two meanings of `+` |
| Percent.EscapeIs | src/discovery.rs:293-309 | the unreserved characters stand for themselves, every other byte is a percent sign and two capital hexadecimal digits |
| Percent.HexDigits | src/discovery.rs:350-357 | a digit is read in both cases of its letter, and nothing else is |
| Percent.DecodedExactlyWhen | src/discovery.rs:316-348 | what is decoded is UTF-8; other bytes are refused |
| Utf8.Utf8ExactlyWhen | src/discovery.rs:346-347 | bytes are accepted as text exactly when they are the encodings of a sequence of characters |
| Percent.DecodeEncoded | src/discovery.rs:293-348 | decoding inverts encoding on every UTF-8 text, whatever `+` means |
| Discovery.EncodeCookieValue | src/discovery.rs:282-291 | the value is the escaped, space-separated list of base64 identifiers |
| Discovery.RememberIdentityProvider | src/discovery.rs:137-161 | moves the provider to the end and drops oldest entries until the rest fits or one is left; the identifier is refused unless it is a scheme, a colon and a visible rest, with at most 1024 characters |
| Discovery.IdentifierExactlyWhen | src/discovery.rs:163-191 | an identifier is valid exactly when it has at most 1024 characters and is a letter and further letters, digits, `+`, `-` and `.`, then the first colon, then a visible rest that is not empty |
| Discovery.TokensRead | src/discovery.rs:264-280 | entries read as identifiers exactly when each is the base64 of UTF-8 and not empty; otherwise the first that is not is blamed, for what is wrong with it |
| Discovery.TooLargeExactlyWhen | src/discovery.rs:244-253 | an existing cookie is refused for its size exactly above 8192 bytes |
| DiscoveryForms.CookieValueDecodes | src/discovery.rs:244-291 | a written value within 8192 bytes decodes to its list |
| DiscoveryForms.RawListExistingDecodes | src/discovery.rs:244-280 | so does the unescaped, space-separated form |
| DiscoveryForms.FormListDecodes | src/discovery.rs:244-280 | so does the form-encoded `+` form, for any number of separators |
| DiscoveryForms.PlusJoinedRejected | src/discovery.rs:264-280 | two or more tokens joined by `+` are never read as one entry |
| DiscoveryRuns.OneEntryFits | src/discovery.rs:147-175 | a single valid identifier always fits, so the loop's second exit never breaks the bound |
| DiscoveryRuns.CookieFits | src/discovery.rs:137-161 | cookie name and value never take more than 4096 bytes, whatever cookie existed |
| DiscoveryRuns.NewestIsLongestFit | src/discovery.rs:147-155 | what is kept is the longest end of the list that fits |
| DiscoveryRuns.NewestOfMove | src/discovery.rs:140-155 | dropping before a further move loses nothing against dropping once at the end |
| DiscoveryRuns.CookieHoldsLastUsed | src/discovery.rs:137-161 | after any run of valid providers the cookie decodes to exactly the longest end of the whole last-use order that fits |
| FormUrl.DecodesSerialized | src/binding/redirect.rs:16-18 | form decoding inverts byte serialization on all bytes |
| FormUrl.SerializeIs | src/binding/redirect.rs:16-18 | letters, digits and `*-._` stand for themselves, a space is a plus, every other byte is escaped |
| FormUrl.RawParamsConcat | src/browser/input.rs:277-291 | the parameters of two queries joined by `&` are those of each |
| RedirectCorrelation.BuildRedirectOctet | src/binding/redirect.rs:76-84 | what is appended in place reads back as two or three parameters, in the order of section 3.4.4.1 of SAML Bindings 2.0, that decode to the values given and the bytes that were deflated, and holds nothing that ends a query |
| RedirectCorrelation.OctetFields | src/flow.rs:339-343 | an octet string reads back as exactly its two or three fields and no signature |
| RedirectQuery.AgreesExactlyWhen | src/flow.rs:384-421 | whatever octet string is handed in, its fields agree with the query exactly when it has no signature, the same one message and algorithm, and the same relay state or none |
| RedirectQuery.MismatchReported | src/flow.rs:384-421 | a different relay state is reported as such, any other difference as a signature that does not fit |
| RedirectQuery.TakenExactlyWhen | src/flow.rs:775-802 | the fields are taken exactly when the query has one signature and one algorithm and there is an octet string that agrees with it |
| RedirectQuery.SeparatorExactlyWhen | src/binding/redirect.rs:249-255 | the fields are put behind an ampersand exactly when something stands behind a question mark already, and else behind a question mark |
| RedirectCorrelation.AcceptedExactlyWhen | src/browser/input.rs:233-356 | for any raw query the receiver gets to the certificates if and only if the query carries one signed message and spells no field name with escapes |
| RedirectCorrelation.UnsignedExactlyWhen | src/browser/input.rs:329-356 | a query with one message and without algorithm and signature is an unsigned one, with one of the two it is incomplete |
| RedirectCorrelation.RefusedExactlyWhen | src/browser/input.rs:293-356 | a field given twice, the other message, and no message are each reported exactly when that is so |
| RedirectCorrelation.AcceptedFieldsAreSigned | src/flow.rs:384-421 | acceptance means the consumed message, relay state and algorithm are the decoded signed ones |
| RedirectCorrelation.ReceiverRebuildsSignedOctet | src/binding/redirect.rs:249-255 | for every message, relay state, algorithm and base URL without own parameters named like a field, the receiver rebuilds the signed octet string, accepts it and reads the fields that were sent if and only if the base URL has no fragment; behind one the message is missing |
| DetachedSignature.TryCertificates | src/flow.rs:804-821 | the loop returns success at the first accepting certificate, and otherwise the first provider failure only if no certificate rejected |
| DetachedSignature.ProviderErrorExactlyWhen | src/flow.rs:804-821 | the first provider failure is reported exactly when no certificate accepts or rejects |
| DetachedSignature.CertificateOrderDoesNotMatter | src/flow.rs:804-821 | order and repetition of certificates, and certificates that do not accept, do not change acceptance |
| DetachedSignature.VerifyRedirect | src/flow.rs:775-822 | success exactly when the fields agree and some certificate verifies the signature over the rebuilt octet string; then what is consumed is what was signed |
| DetachedSignature.SignedDocumentArrives | src/binding/redirect.rs:70-99 | a document signed and sent over any such URL is verified if and only if the base URL has no fragment, and then decodes to the document without its protocol signature |
| Sha1.Sha1 | src/artifact.rs:929-992 | the in-place computation equals the recursive digest of section 6.1 of FIPS 180-4 for every input |
| Sha1Answers.AbcDigest | src/artifact.rs:998-1002 | the digest of "abc", byte by byte |
| Sha1Answers.TwoBlockDigest | src/artifact.rs:1010-1014 | the digest of a message of two blocks, byte by byte |
| Sha1Answers.LaterWords | src/artifact.rs:955-959 | each later word of the schedule is the exclusive or of four earlier ones with its top bit moved to the bottom |
| Sha1.Pad | src/artifact.rs:937-944 | the padding loop terminates with the padding of section 5.1.1 of FIPS 180-4 |
| Sha1.PaddedLength | src/artifact.rs:937-944 | padding adds 9 to 72 bytes and reaches a multiple of 64 |
| Sha1.ZeroCountSmallest | src/artifact.rs:937-944 | the number of zero bytes is the least that leaves room for the length |
| Sha1.PaddedInjective | src/artifact.rs:937-944 | different inputs have different padded data |
| Sha1.RoundFunction | src/artifact.rs:963-968 | the code's choice and majority forms are Ch, Parity and Maj with their constants |
| ArtifactCodec.SpellingsRead | src/artifact.rs:50-80 | both spellings of 44 bytes of the type read as the same artifact, kept padded |
| ArtifactCodec.OnlySpellingsRead | src/artifact.rs:50-80 | a string reads as an artifact exactly when it is one of those spellings |
| ArtifactCodec.ReadErrors | src/artifact.rs:50-80 | white space, text that is no base64, a wrong length and a wrong type are each reported exactly when that is so |
| ArtifactCodec.ReadEncoded | src/artifact.rs:682-694 | an encoded artifact reads back with its index and source |
| ArtifactCodec.KeptSpelling | src/artifact.rs:50-80 | reading is idempotent on the kept spelling |
| ArtifactStore.IssuedArtifacts.Issue | src/artifact.rs:443-471 | the result and new store of an issue; a refused one changes nothing |
| ArtifactStore.IssuesExactlyWhen | src/artifact.rs:443-471 | an artifact is issued exactly when the provider has an identifier and a SOAP service of that index and the artifact is not outstanding; it names both, and is new |
| ArtifactStore.IssuedArtifacts.Remove | src/artifact.rs:225-227 | forgets exactly one artifact and says whether it was outstanding |
| ArtifactStore.IssuedArtifacts.Answer | src/artifact.rs:514-585 | the result and new store of an answer; only a returned message removes its entry; what is released follows from the fields of request, entry, service and channel |
| ArtifactStore.AnswerReleases | src/artifact.rs:514-585 | the message is returned exactly when the version is 2.0, the artifact is outstanding with this provider and its index a SOAP service, the destination is absent or that service, the channel gives what the entry needs, and the issuer is the presenter and the provider it was issued to; otherwise the first of these that fails is the reason |
| ArtifactStore.ArtifactUses.Record | src/artifact.rs:260-267 | with single use, an artifact is recorded once and then refused |
| ArtifactStore.ArtifactUses.Resolve | src/artifact.rs:473-512 | a refused artifact, or one whose request cannot be built, is not recorded; success names the SOAP service of the artifact's index |
| ArtifactRuns.Perform | src/artifact.rs:443-585 | every call of a run does to the store object what the run's specification says |
| ArtifactRuns.OutstandingIsConserved | src/artifact.rs:443-585 | at every point of every run, for every artifact, outstanding is issued less returned less removed |
| ArtifactRuns.ReleaseIsAuthorised | src/artifact.rs:514-585 | every release gives the message of the last issue to the provider it was issued to, over a channel that entry allows |
| ArtifactRuns.ReleasedOnce | src/artifact.rs:514-585 | between two releases of an artifact it was issued again |
| ArtifactRuns.OnlyReleaseChanges | src/artifact.rs:514-585 | an answer changes the store exactly when it returns the message, and then by one entry |
| ArtifactRuns.SpellingDoesNotMatter | src/artifact.rs:50-80 | padded and bare spellings reach the same entry |
| SamlIds.IdScan.Visit | src/crypto/verify.rs:69-78 | the scan with its mutable set returns the first repeated identifier in document order, and the set it leaves |
| SamlIds.PassesExactlyDistinct | src/crypto/verify.rs:69-78 | started from nothing it returns nothing exactly when all non-empty identifiers are distinct |
| SamlIds.OwnIdsAround | src/crypto/verify.rs:65-78 | each attribute named ID or AssertionID that is not empty counts, at its place, and no other |
| SamlIds.IdNamesOneElement | src/crypto/verify.rs:152-168 | then an identifier names at most one element |
| SamlIds.UrisAndTargets | src/crypto/verify.rs:90-120 | a reference names the whole document under two URIs, and an identifier exactly under its two spellings; any other URI is an error, an external one if it does not begin with `#` |
| Coverage.ReturnedContentIsCovered | src/crypto/verify.rs:256-316 | what is returned is the root or a direct assertion, it or the root is designated by a verified reference, and no assertion beside it is uncovered |
| Coverage.ChosenIsFirst | src/crypto/verify.rs:285-290 | the assertion chosen is the first bearer assertion, and the first of all when there is none |
| SignatureVerdict.VerifiedTargets | src/crypto/verify.rs:122-150 | the loop collects the targets of all references or the first error |
| SignatureVerdict.TargetsAreSound | src/crypto/verify.rs:122-150 | every target comes from a reference whose digest matched and, if by identifier, resolved; no identifier is empty |
| SignatureVerdict.ReferenceErrors | src/crypto/verify.rs:122-150 | a reference that leaves the document, one with a wrong digest, one of no known form and one that resolves to nothing are each reported exactly when that is so, in this order |
| SignatureVerdict.TryCertificates | src/crypto/verify.rs:857-963 | the two nested loops give the verdict of the step-by-step specification, each signature element being examined once with its references |
| SignatureOrder.CertificateOrderDoesNotMatter | src/crypto/verify.rs:857-963 | verdict, content, coverage and the sorted evidence do not depend on order or repetition of certificates, nor on those that cannot be loaded, if what a signature refers to does not depend on the certificate |
| SignatureOrder.UnloadableIsIgnored | src/crypto/verify.rs:868-875 | an unloadable certificate anywhere in the list never changes a result |
| SignatureOrder.VerifiedMeansFirstVerified | src/crypto/verify.rs:934-952 | verified is returned exactly when the first signature verified under some certificate |
| SignatureOrder.VerdictEvidence | src/crypto/verify.rs:890-952 | the evidence of a verified result is that of each signature element that verified and is evidence of something, once, in document order |
| SignatureOrder.NotVerifiedExactly | src/crypto/verify.rs:857-963 | otherwise, if no certificate could be loaded the first reason is given, if some could not verify and no signature was found invalid the last one, and else it is no error |
| SignatureProfile.EvidenceMeansCoverage | src/crypto/verify.rs:454-497 | a signature is evidence for a response exactly when its targets match the root, and for the assertion when they name every direct one |
| SignatureProfile.EvidenceExactlyWhen | src/crypto/verify.rs:454-497 | which references make a signature evidence for the response and for its assertion, and when it is no evidence |
| SignatureProfile.HeldExactlyWhen | src/crypto/verify.rs:890-925 | the strict profile holds a signature back exactly when it is evidence, names a direct assertion, or covers what would be returned |
| SignatureProfile.StrictSignaturesMeetProfile | src/crypto/verify.rs:890-925 | with the strict profile, every verified signature with a target that names the root, or a direct assertion of a response, meets the profile |
| SignatureProfile.CoveringSignatureMeetsProfile | src/crypto/verify.rs:317-348 | so does, for every kind of message, a signature whose own targets cover what would be returned |
| SignatureReferences.VerifiedIsExplained | src/crypto/verify.rs:256-384 | of every verified result, told by elements and by the URIs of verified references: when response and assertion are covered, which element is returned, and that nothing is returned that no reference names |
| SignatureReferences.RefusedExactlyWhen | src/crypto/verify.rs:268-316 | content is refused exactly when what would be returned is not named, and as wrapping exactly when several assertions are there |
| SignatureGuards.VerifySignatures | src/crypto/verify.rs:813-963 | guards, candidates, reference preflight, inline certificate and verdict in their order: an Assertion or Signature anywhere below the confirmation data, or a repeated identifier, is a wrapping attack; verified means that the first signature verified under a pinned certificate, an inline certificate is a pinned one, and coverage and content are those that the URIs of verified references name |
| SignatureGuards.WrappingExactlyWhen | src/crypto/verify.rs:43-64 | the guard finds every Assertion and Signature below Assertion, Subject, SubjectConfirmation and SubjectConfirmationData, however deep |
| SignatureGuards.CandidateExactlyWhen | src/crypto/verify.rs:35-41 | the signatures looked at are those of the document element and of its direct assertions |
| SignatureGuards.BadUriNone | src/crypto/verify.rs:511-520 | the preflight passes exactly when every reference of those signatures names the whole document or an identifier |
| SignatureGuards.FirstCertificateIs | src/crypto/verify.rs:651-664 | the inline certificate is that of the first X509Certificate with text, in document order |
| SignatureGuards.CheckInline | src/crypto/verify.rs:843-853 | the loop says whether the message holds a certificate that is none of the pinned ones |
| SignatureGuards.UnloadableNeverHurts | src/crypto/verify.rs:843-875 | a pinned certificate that cannot be loaded never changes a result; without it there can only be a mismatch with the inline certificate |
| SignatureGuards.StrictContentMeetsProfile | src/crypto/verify.rs:813-963 | the whole verification with the strict profile lets no signature pass that authenticates the message and does not meet the profile |
| SignatureGuards.VerifiedContentIsDesignated | src/crypto/verify.rs:813-963 | content of a verified result was designated by references of verified signatures in a document without repeated identifiers |
| SignatureGuards.WholeVerdictIgnoresOrder | src/crypto/verify.rs:813-963 | the whole result depends on the certificates only through the set of their outcomes |
| PipelineDecrypting.FinalizeLoginResponse | src/idp.rs:481-578 | of a response with one assertion it makes that response with the assertion, signed and encrypted as asked, in its place and signed around it: its root has a signature exactly when the binding is POST and a message signature is wanted or an assertion signature is not, its assertion exactly when that is wanted, and for POST one of them always has; an error response is only signed, and only for POST |
| PipelineDecrypting.SignsExactlyWhen | src/crypto/sign.rs:89-165 | an element can be signed exactly when it has an identifier and an issuer; the signature stands right behind the first issuer, names the identifier, and is over the element |
| PipelineDecrypting.ConstructsExactlyWhen | src/crypto/sign.rs:89-165 | a message, or an assertion by itself, is signed at its root; of a response only its first assertion is |
| PipelineTemplate.ARawResponse | src/template.rs:30 | the response of the default template is one the pipeline results are about, for all values that give response and assertion different identifiers a reference can name |
| PipelineDecrypting.FinalizedIs | src/idp.rs:523-578 | finalizing puts the assertion, signed and encrypted as asked, in its place and signs around it |
| PipelineRoundTrip.DocEvidence | src/crypto/verify.rs:813-963 | a finalized document whose signatures are not found wanting is verified, with its assertion or itself as content and the coverage that was signed |
| PipelineDecrypting.DecryptsTo | src/crypto/enc.rs:117-153 | decrypting a finalized document gives the assertion back and puts it in its place |
| PipelinePreparing.PreparedExactlyWhenDemandsAreMet | src/flow.rs:620-749 | for every mix of settings on both sides, preparing a finalized response recovers the assertion as it was sent if and only if both agree on encryption, the decrypted document is accepted, some signature is made and none is demanded that is not made; and what the two disagreements come to |
| PipelinePreparing.DetachedRecoversExactlyWhen | src/flow.rs:992-1030 | for the bindings with a detached signature it is recovered if and only if the assertion's own signature is demanded, made, both sides agree on encryption and the decrypted document is accepted, or it is not demanded and the assertion is not encrypted |
| PipelineVerifier.VerifierPreparesExactlyWhen | src/crypto/verify.rs:890-925 | both hold of the examination that the verifier makes of each document, without the strict profile, and with it when the signatures that are made meet it |
| PipelineVerifier.StrictVerifiesExactlyWhen | src/crypto/verify.rs:890-925 | the strict verification of a signed document succeeds exactly when the signatures that were made in it meet the profile |
| PipelineVerifier.StrictNeedsProfile | src/flow.rs:620-749 | with the strict profile nothing is handed on of a finalized response unless every signature in it meets the profile |
| PipelineSafety.PreparedExactlyWhen | src/flow.rs:620-749 | for every document, whoever made it, and all settings: a message is prepared in one of three ways and no other - verified and handed on, verified and decrypted, or decrypted and then verified - and where a signature of the response is demanded, one was verified and covers it |
| PipelineSafety.DetachedExactlyWhen | src/flow.rs:992-1030 | for a detached signature: a response comes authenticated with its first usable assertion, or by the way of its embedded signatures if the assertion's own is demanded; any other message as it is |
| PipelineSafety.DemandedExactlyWhen | src/flow.rs:570-611 | a signature of the response is demanded always, never, or exactly when some encrypted assertion in it uses CBC |
| PipelineSafety.SignatureFaults | src/flow.rs:620-749 | a missing signature is reported only for a document without one, an invalid one only for a document with one |
| PipelineMessages.MessagePreparedExactlyWhen | src/flow.rs:620-749 | a signed request or logout message is handed on as it was signed, authenticated, unless an assertion signature is demanded, or a response signature of a request |
| PipelineMessages.UnsignedMessageIsRefused | src/flow.rs:620-749 | without its signature such a message is refused |
| PipelineOrder.SigningBeforeEncryptingIsRefused | src/idp.rs:538-570 | with the message signed before encryption a required response signature is never accepted |
| Conditions.UnrecognizedConditionName | src/assertion_acceptance.rs:331-393 | the loop with its stack is the step-by-step specification |
| Conditions.ScanFindsFirst | src/assertion_acceptance.rs:331-421 | for every document the scan returns the first child of Response/Assertion/Conditions that is not understood, in document order |
| Conditions.ScanReportsNoneIff | src/assertion_acceptance.rs:331-421 | it reports nothing exactly when no Response in the tree has an Assertion with Conditions with a child other than AudienceRestriction, OneTimeUse and ProxyRestriction, names and namespaces written out |
| Soap.SoapBodyNamespace | src/soap.rs:303-345 | the scan with its depth and flags is the step-by-step specification |
| Soap.EnvelopeBody | src/soap.rs:262-288 | the loop over the children is the step-by-step walk |
| Soap.BodyAmongIs | src/soap.rs:262-288 | that Body is the only one, all children are Header or Body, and every error says what is wrong with them |
| SoapTree.ReadsExactlySoapMessages | src/soap.rs:222-445 | for every document the body is read exactly when the message is a SOAP 1.1 envelope with only Header and Body children, one Body with one element and no header block that must be understood; scan and walk name the same child |
| SoapTree.ReadSoapBody | src/soap.rs:222-237 | so does the method, which gives the element of that Body with its namespace |
| Soap.ReadingAgrees | src/soap.rs:222-237 | even on a tree and events that do not belong together, what is read has the name and namespace that the scan found |
| Acceptance.AcceptResponseAssertions | src/assertion_acceptance.rs:44-93 | success exactly when all conditions are understood, some assertion is bearer, every bearer assertion has a bearer confirmation in time with the expected recipient and request, names the audience, and lies in its conditions and sessions with the drift, and several assertions share one issuer and principal; otherwise the first assertion that is not in order is blamed for what is wrong with it |
| Acceptance.RejectUnsolicited | src/assertion_acceptance.rs:101-134 | an unsolicited response is rejected with the first request that a bearer confirmation of any assertion names, and passes if none does |
| Acceptance.NoneNamedExactlyWhen | src/assertion_acceptance.rs:101-134 | that is the case exactly when no bearer confirmation of any assertion holds a non-empty request |
| Acceptance.ValidateSubjectConfirmation | src/assertion_acceptance.rs:527-599 | one bearer confirmation with a readable bound still ahead, the expected recipient and the expected request is enough; otherwise the reason is that of the last confirmation, the first condition it fails |
| Acceptance.ValidateAudience | src/assertion_acceptance.rs:501-513 | every restriction must name the audience; absence counts only if it is required |
| Acceptance.ValidateAssertionTime | src/assertion_acceptance.rs:601-625 | every session is open and the conditions window holds; comparing the earliest bound is comparing all |
| Acceptance.OrderDoesNotMatter | src/assertion_acceptance.rs:44-93 | acceptance does not depend on the order of assertions |
| Acceptance.LatestBearerNotOnOrAfter | src/assertion_acceptance.rs:211-244 | the loop records the latest readable bearer bound, otherwise the last unreadable one |
| Acceptance.RecordedIsABound | src/assertion_acceptance.rs:211-244 | what is recorded is the bound of some bearer confirmation |
| Acceptance.RecordedBoundCoversAccepted | src/assertion_acceptance.rs:211-244 | the recorded bound is readable and no earlier than that of any accepted confirmation |
| Acceptance.RecordedExactly | src/assertion_acceptance.rs:211-244 | what is recorded is the first of the latest bounds that can be read, the last bearer bound if none can, and nothing exactly when no bearer confirmation has a bound |

## Left out

- Real cryptography, key loading and provider start-up: signing, encrypting and verifying are parameters; a signature value is a function of the signed element, a ciphertext decrypts to what was encrypted.
- DEFLATE, message handles, UUIDs and clocks are parameters; DEFLATE is assumed to be inverted on the message that is sent. Instants are integers, and their overflow checks are not modelled.
- XML tokenising, namespace resolution, entity and attribute limits: the models begin with a tree of resolved names and its event stream.
- The checks of common domain and lifetime, and the Set-Cookie text of the discovery cookie, HTML forms, metadata, policies and configuration: mostly field copying.
- The SimpleSign octet string, and POST form fields.
- RedirectCorrelation.BuildRedirectOctet: begins with the deflated message; the cut before it is RedirectTree.RedirectMessageXml.
- TemplateTree.WellFormedItems: names are ASCII, literals hold no `<`, names of placeholders hold neither markup nor braces; comments, processing instructions and CDATA sections are not modelled.
- TemplatePassive.Settled: literals do not spell or half spell the placeholder, and hold no opening brace where something is cut out of them, since text that comes together there could spell it.
- PipelineDecrypting.FinalizeLoginResponse: a signature configuration that places the signature elsewhere is not modelled; text content is carried in an attribute, and source positions are not kept, which AssertionSplice does instead.
- PipelinePreparing.PreparedExactlyWhenDemandsAreMet: the signer's certificate is the only pinned one and no other stands in the message; whether a decrypted document is well formed and of the expected kind is a parameter.
- PipelineMessages.MessagePreparedExactlyWhen: the message holds no Assertion or EncryptedAssertion child.
- PipelineSafety.PreparedExactlyWhen: whether a decrypted document is well formed and of the expected kind is a parameter, and the signer's certificate is the only pinned one.
- PipelineVerifier.VerifierPreparesExactlyWhen: what the verifier reads in a signature element, the algorithm and the checks of the profile, is a parameter for each document.
- SignatureVerdict.TryCertificates: what one certificate makes of the document is a parameter.
- SignatureProfile.StrictSignaturesMeetProfile: the algorithm and the checks read inside one signature element are parameters, and local names tell elements apart as namespaces do.
- SignatureGuards.VerifySignatures: the normal form of a certificate's text is a parameter.
- SignatureOrder.CertificateOrderDoesNotMatter: which of several errors is reported can depend on the order; that there is one cannot.
- ArtifactStore.IssuedArtifacts.Answer: the request is given as its parsed fields, and whether the response can be wrapped in an envelope is an argument; `annotate` and `status_codes` are not modelled.
- Acceptance.AcceptResponseAssertions: assertions are given as their extracted fields; extraction errors and a clock that cannot be read are not modelled.
- Discovery.RememberIdentityProvider: what is wrong with the common domain or the lifetime is an argument.
- DetachedSignature.VerifyRedirect: the conversion of bytes that are not UTF-8 is a parameter that leaves UTF-8 alone.
