/** A login response on its way from identity provider to service provider: signing, encrypting and
    signing again, and undoing that. Cryptography is symbolic: a signature value and a ciphertext
    are strings made from the element they are for, and are carried in an attribute. */
module Pipeline {
  import opened Text
  import opened Dom
  import opened SamlIds
  import opened Coverage
  import opened SignatureVerdict
  import opened SignatureGuards

  datatype Crypto = Crypto(sign: Node -> string, encrypt: Node -> string, decrypt: string -> Option<Node>)

  datatype PipelineError =
    | MissingAssertion
    | NoId
    | NoIssuer
    | UndefinedEncryptedAssertion
    | BadCiphertext
    | NotAccepted
    | SignatureMissing
    | SignatureInvalid
    | AssertionSignatureRequired
    | ReferenceMismatch
    | BadSignatures(verdict: VerdictError)

  /** An element made by the pipeline; where it stands in a source does not matter here. */
  function Made(local: string, attributes: seq<(string, string)>, children: seq<Node>): Node {
    Node(local, attributes, "", children, 0, 0)
  }

  function FirstChild(ns: seq<Node>, name: string): Option<Node> {
    if ns == [] then None else if ns[0].local == name then Some(ns[0]) else FirstChild(ns[1..], name)
  }

  /** The children with the first of that name replaced. */
  function Spliced(ns: seq<Node>, name: string, put: Node): seq<Node> {
    if ns == [] then []
    else if ns[0].local == name then [put] + ns[1..]
    else [ns[0]] + Spliced(ns[1..], name, put)
  }

  /** The children with `added` after the first Issuer. */
  function AfterIssuer(ns: seq<Node>, added: Node): seq<Node> {
    if ns == [] then []
    else if ns[0].local == "Issuer" then [ns[0], added] + ns[1..]
    else [ns[0]] + AfterIssuer(ns[1..], added)
  }

  // Signing.

  function SignatureFor(c: Crypto, target: Node, id: string): Node {
    Made("Signature", [],
         [Made("SignedInfo", [], [Made("Reference", [("URI", "#" + id)], [])]),
          Made("SignatureValue", [("Value", c.sign(target))], [])])
  }

  function SignedNode(c: Crypto, target: Node): Node
    requires SamlId(target).Some?
  {
    target.(children := AfterIssuer(target.children, SignatureFor(c, target, SamlId(target).value)))
  }

  function SignTarget(c: Crypto, target: Node): Result<Node, PipelineError> {
    if SamlId(target).None? then Err(NoId)
    else if FirstChild(target.children, "Issuer").None? then Err(NoIssuer)
    else Ok(SignedNode(c, target))
  }

  /** `construct_saml_signature` without a signature configuration. */
  function ConstructSignature(c: Crypto, root: Node, signMessage: bool): Result<Node, PipelineError> {
    if signMessage || root.local == "Assertion" then SignTarget(c, root)
    else
      match FirstChild(root.children, "Assertion")
      case None => Err(MissingAssertion)
      case Some(assertion) =>
        match SignTarget(c, assertion)
        case Err(e) => Err(e)
        case Ok(signed) => Ok(root.(children := Spliced(root.children, "Assertion", signed)))
  }

  // Encrypting.

  function Encrypted(c: Crypto, assertion: Node, algorithm: string): Node {
    Made("EncryptedAssertion", [],
         [Made("EncryptedData", [],
               [Made("EncryptionMethod", [("Algorithm", algorithm)], []),
                Made("CipherData", [("Value", c.encrypt(assertion))], [])])])
  }

  /** `encrypt_assertion`. */
  function EncryptAssertion(c: Crypto, root: Node, algorithm: string): Result<Node, PipelineError> {
    match FirstChild(root.children, "Assertion")
    case None => Err(MissingAssertion)
    case Some(assertion) =>
      Ok(root.(children := Spliced(root.children, "Assertion", Encrypted(c, assertion, algorithm))))
  }

  function CipherOf(data: Node): Option<string> {
    match FirstChild(data.children, "CipherData")
    case None => None
    case Some(cipher) => Attr(cipher, "Value")
  }

  /** `decrypt_assertion_with_limits`, within the limits: the document with the assertion put back, and the
      assertion. */
  function DecryptAssertion(c: Crypto, root: Node): Result<(Node, Node), PipelineError> {
    match FirstChild(root.children, "EncryptedAssertion")
    case None => Err(UndefinedEncryptedAssertion)
    case Some(encrypted) =>
      match FirstChild(encrypted.children, "EncryptedData")
      case None => Err(UndefinedEncryptedAssertion)
      case Some(data) =>
        match CipherOf(data)
        case None => Err(BadCiphertext)
        case Some(cipher) =>
          match c.decrypt(cipher)
          case None => Err(BadCiphertext)
          case Some(assertion) =>
            Ok((root.(children := Spliced(root.children, "EncryptedAssertion", assertion)), assertion))
  }

  // The identity provider.

  datatype IdpSettings = IdpSettings(
    post: bool, wantAssertionsSigned: bool, wantMessageSigned: bool, encrypted: bool, algorithm: string)

  predicate SignsMessage(s: IdpSettings) { s.post && (s.wantMessageSigned || !s.wantAssertionsSigned) }

  function Then(r: Result<Node, PipelineError>, f: Node -> Result<Node, PipelineError>): Result<Node, PipelineError> {
    match r case Err(e) => Err(e) case Ok(n) => f(n)
  }

  /** The steps of finalizing a response with an assertion, in their order. */
  function Finalized(c: Crypto, s: IdpSettings, raw: Node): Result<Node, PipelineError> {
    var signed := if s.wantAssertionsSigned then ConstructSignature(c, raw, false) else Ok(raw);
    var encrypted := if s.encrypted then Then(signed, n => EncryptAssertion(c, n, s.algorithm)) else signed;
    if SignsMessage(s) then Then(encrypted, n => ConstructSignature(c, n, true)) else encrypted
  }

  // What a certificate makes of a document.

  function FirstWithId(ns: seq<Node>, id: string): Option<Node> {
    if ns == [] then None else if SamlId(ns[0]) == Some(id) then Some(ns[0]) else FirstWithId(ns[1..], id)
  }

  /** The position of the first element with that identifier. */
  function PlaceOf(ns: seq<Node>, id: string): nat {
    if ns == [] || SamlId(ns[0]) == Some(id) then 0 else 1 + PlaceOf(ns[1..], id)
  }

  /** The children without the first that is `gone`: the enveloped-signature transform. */
  function Without(ns: seq<Node>, gone: Node): seq<Node> {
    if ns == [] then [] else if ns[0] == gone then ns[1..] else [ns[0]] + Without(ns[1..], gone)
  }

  function ReferenceUri(signature: Node): Option<string> {
    match FirstChild(signature.children, "SignedInfo")
    case None => None
    case Some(info) =>
      match FirstChild(info.children, "Reference")
      case None => None
      case Some(reference) => Attr(reference, "URI")
  }

  function SignatureValue(signature: Node): Option<string> {
    match FirstChild(signature.children, "SignatureValue")
    case None => None
    case Some(value) => Attr(value, "Value")
  }

  /** A signature is valid if its value is that of the element it names, without the signature. */
  function Judged(c: Crypto, root: Node, signature: Node, position: nat): SignatureResult {
    match ReferenceUri(signature)
    case None => Invalid
    case Some(uri) =>
      if uri == "" || uri[0] != '#' then Invalid
      else
        match FirstWithId(Nodes(root), uri[1..])
        case None => Invalid
        case Some(target) =>
          var bare := target.(children := Without(target.children, signature));
          if SignatureValue(signature) == Some(c.sign(bare)) then
            Valid(position, [Reference(uri, true, Some(PlaceOf(Nodes(root), uri[1..])))])
          else Invalid
  }

  function JudgedAmong(c: Crypto, root: Node, ns: seq<Node>, position: nat): seq<SignatureResult>
    decreases |ns|
  {
    if ns == [] then []
    else
      (if ns[0].local == "Signature" then [Judged(c, root, ns[0], position)] else [])
      + JudgedAmong(c, root, ns[1..], position + 1)
  }

  /** The signatures of a document in document order, as the signer's certificate judges them. */
  function JudgedAll(c: Crypto, root: Node): seq<SignatureResult> { JudgedAmong(c, root, Nodes(root), 0) }

  /** `verify_embedded_signature`, with the signer's certificate pinned. */
  function EmbeddedEvidence(c: Crypto, root: Node, examine: Examination): Result<Verification, VerdictError> {
    Verified(root, false, [Results(JudgedAll(c, root))], examine)
  }

  // The service provider.

  datatype AssertionSignature = Compatible | Direct

  datatype ResponseSignature = Optional | RequiredForEncryptedCbc | Required

  datatype SpSettings = SpSettings(assertion: AssertionSignature, response: ResponseSignature, decrypts: bool)

  datatype ParserType = SamlRequest | SamlResponse | LogoutRequest | LogoutResponse

  /** What the service provider makes of a document besides its own settings: which encryption algorithms work in
      CBC mode, whether a decrypted document is well formed and a message of the expected kind, and what it finds
      out about the verified signatures of each document it verifies. */
  datatype Checks = Checks(
    isCbc: string -> bool, accepts: (Node, ParserType) -> bool, examine: Node -> Examination)

  datatype Prepared = Prepared(content: Node, assertion: Option<Node>, authenticated: bool, evidence: seq<Evidence>)

  function AlgorithmOf(encrypted: Node): Option<string> {
    match FirstChild(encrypted.children, "EncryptedData")
    case None => None
    case Some(data) =>
      match FirstChild(data.children, "EncryptionMethod")
      case None => None
      case Some(methodNode) => Attr(methodNode, "Algorithm")
  }

  predicate AnyUses(ns: seq<Node>, isCbc: string -> bool) {
    ns != [] && ((AlgorithmOf(ns[0]).Some? && isCbc(AlgorithmOf(ns[0]).value)) || AnyUses(ns[1..], isCbc))
  }

  /** `response_signature_is_required`. */
  predicate ResponseDemanded(requirement: ResponseSignature, root: Node, isCbc: string -> bool) {
    match requirement
    case Optional => false
    case Required => true
    case RequiredForEncryptedCbc => AnyUses(ChildrenNamed(root, "EncryptedAssertion"), isCbc)
  }

  function NotVerified(root: Node): PipelineError {
    if Candidates(root) == [] then SignatureMissing else SignatureInvalid
  }

  /** A verified message whose signature was made over ciphertext. */
  function DecryptedAfter(c: Crypto, node: Node, evidence: Verification, demand: AssertionSignature, k: Checks)
    : Result<Prepared, PipelineError>
  {
    match DecryptAssertion(c, node)
    case Err(e) => Err(e)
    case Ok((content, assertion)) =>
      if !k.accepts(content, SamlResponse) then Err(NotAccepted)
      else if demand == Compatible then
        Ok(Prepared(content, Some(assertion), evidence.responseCovered, evidence.evidence))
      else
        match EmbeddedEvidence(c, assertion, k.examine(assertion))
        case Err(e) => Err(BadSignatures(e))
        case Ok(inner) =>
          if !inner.verified then Err(NotVerified(assertion))
          else if !inner.assertionCovered then Err(AssertionSignatureRequired)
          else Ok(Prepared(content, Some(assertion), evidence.responseCovered, evidence.evidence + inner.evidence))
  }

  /** An unverified message: decrypted first, then verified. */
  function DecryptedBefore(c: Crypto, root: Node, parser: ParserType, demand: AssertionSignature, k: Checks)
    : Result<Prepared, PipelineError>
  {
    match DecryptAssertion(c, root)
    case Err(e) => Err(e)
    case Ok((content, assertion)) =>
      var verification := if demand == Direct then assertion else content;
      if !k.accepts(content, parser) then Err(NotAccepted)
      else
        match EmbeddedEvidence(c, verification, k.examine(verification))
        case Err(e) => Err(BadSignatures(e))
        case Ok(inner) =>
          if !inner.verified then Err(NotVerified(verification))
          else if demand == Direct && !inner.assertionCovered then Err(AssertionSignatureRequired)
          else
            Ok(Prepared(content, if demand == Direct then Some(assertion) else inner.content, false, inner.evidence))
  }

  /** A verified message that is not encrypted. */
  function PreparedPlain(root: Node, parser: ParserType, evidence: Verification, demand: AssertionSignature)
    : Result<Prepared, PipelineError>
  {
    if demand == Direct && !evidence.assertionCovered then Err(AssertionSignatureRequired)
    else if parser != SamlResponse then
      match evidence.content
      case None => Err(ReferenceMismatch)
      case Some(content) => Ok(Prepared(content, None, true, evidence.evidence))
    else Ok(Prepared(root, evidence.content, evidence.responseCovered, evidence.evidence))
  }

  /** `verify_and_prepare`. */
  function Prepare(c: Crypto, root: Node, parser: ParserType, s: SpSettings, k: Checks)
    : Result<Prepared, PipelineError>
  {
    match EmbeddedEvidence(c, root, k.examine(root))
    case Err(e) => Err(BadSignatures(e))
    case Ok(evidence) =>
      var demanded := ResponseDemanded(s.response, root, k.isCbc);
      if demanded && !evidence.verified then Err(NotVerified(root))
      else if demanded && !evidence.responseCovered then Err(ReferenceMismatch)
      else if s.decrypts && evidence.verified && parser == SamlResponse && evidence.content.Some? then
        DecryptedAfter(c, evidence.content.value, evidence, s.assertion, k)
      else if s.decrypts && !evidence.verified then DecryptedBefore(c, root, parser, s.assertion, k)
      else if evidence.verified then PreparedPlain(root, parser, evidence, s.assertion)
      else Err(NotVerified(root))
  }

  /** `first_login_assertion_xml`. */
  function LoginAssertion(root: Node): Option<Node> {
    if Assertions(root) == [] then None else Some(Chosen(Assertions(root)))
  }

  /** What is prepared of a message whose detached signature was verified. */
  function PreparedDetached(c: Crypto, root: Node, parser: ParserType, s: SpSettings, k: Checks)
    : Result<Prepared, PipelineError>
  {
    if parser == SamlResponse && s.assertion == Direct then
      match Prepare(c, root, parser, s.(response := Optional), k)
      case Err(e) => Err(e)
      case Ok(prepared) => Ok(prepared.(authenticated := true))
    else Ok(Prepared(root, if parser == SamlResponse then LoginAssertion(root) else None, true, []))
  }
}
