/** Certificates, signing requests and enrollment tokens of daemon/ca, over an unknown signature scheme. */
module Certificates {
  import opened Wrappers

  datatype Subject = Subject(commonName: string, organization: string, unit: string)

  datatype Extensions = Extensions(nodeID: string, role: string, ca: bool, pathLen: int, keyUsage: string)

  datatype Cert = Cert(
    version: int, serial: string, subject: Subject, issuer: Subject, notBefore: int, notAfter: int,
    publicKey: string, extensions: Extensions, signature: string)

  datatype Csr = Csr(subject: Subject, publicKey: string, extensions: Extensions, signature: string)

  datatype Token = Token(tokenID: string, networkID: string, issuedAt: int, expiresAt: int, signature: string)

  // What is signed: the record without its signature.
  datatype Message =
    | CertMessage(version: int, serial: string, subject: Subject, issuer: Subject, notBefore: int, notAfter: int,
                  publicKey: string, extensions: Extensions)
    | CsrMessage(subject: Subject, publicKey: string, extensions: Extensions)
    | TokenMessage(tokenID: string, networkID: string, issuedAt: int, expiresAt: int)

  type PrivateKey = nat
  type PublicKey = nat

  // The scheme: ML-DSA with the base64 text of keys and signatures, and the calendar.
  datatype Scheme = Scheme(
    public: PrivateKey -> PublicKey,
    sign: (PrivateKey, Message) -> string,
    verify: (PublicKey, Message, string) -> bool,
    encode: PublicKey -> string,
    decode: string -> Option<PublicKey>,
    addYears: (int, nat) -> int)

  // All that is assumed of it. Nothing is said of signatures made without the key.
  ghost predicate Correct(s: Scheme) {
    && (forall k: PrivateKey, m: Message :: s.verify(s.public(k), m, s.sign(k, m)))
    && (forall k: PublicKey :: s.decode(s.encode(k)) == Some(k))
  }

  function CertTbs(c: Cert): Message {
    CertMessage(c.version, c.serial, c.subject, c.issuer, c.notBefore, c.notAfter, c.publicKey, c.extensions)
  }

  function SignCert(s: Scheme, c: Cert, key: PrivateKey): Cert {
    c.(signature := s.sign(key, CertTbs(c)))
  }

  datatype Error =
    | BadSignature | NotYetValid | Expired | BadKey | NotSelfSigned
    | NoRootCert | NoIssuer | NoPrivateKey | BadCsr | TokenUsed

  // The outcome of a check that returns an error or nil.
  datatype Outcome = Pass | Fail(error: Error)

  function VerifyCertWith(s: Scheme, c: Cert, issuer: PublicKey, now: int): Outcome {
    if !s.verify(issuer, CertTbs(c), c.signature) then Fail(BadSignature)
    else if now < c.notBefore then Fail(NotYetValid)
    else if now > c.notAfter then Fail(Expired)
    else Pass
  }

  function VerifyCsr(s: Scheme, c: Csr): Outcome {
    match s.decode(c.publicKey)
    case None => Fail(BadKey)
    case Some(key) =>
      if s.verify(key, CsrMessage(c.subject, c.publicKey, c.extensions), c.signature) then Pass
      else Fail(BadSignature)
  }

  function VerifySelfSigned(s: Scheme, c: Cert, now: int): Outcome {
    if c.subject.commonName != c.issuer.commonName then Fail(NotSelfSigned)
    else
      match s.decode(c.publicKey)
      case None => Fail(BadKey)
      case Some(key) => VerifyCertWith(s, c, key, now)
  }

  // RootCA and IntermediateCA: a key that may be missing, and the certificate of the authority.
  datatype Authority = Authority(key: Option<PrivateKey>, cert: Cert)

  function SignIntermediateCsr(s: Scheme, root: Authority, csr: Option<Csr>, serial: string, now: int)
    : Result<Cert, Error>
  {
    match (root.key, csr)
    case (None, _) => Err(NoPrivateKey)
    case (_, None) => Err(BadCsr)
    case (Some(key), Some(c)) =>
      match VerifyCsr(s, c)
      case Fail(e) => Err(e)
      case Pass =>
        Ok(SignCert(s, Cert(1, serial, c.subject, root.cert.subject, now, s.addYears(now, 3), c.publicKey,
                            Extensions(c.extensions.nodeID, "Bootstrap Intermediate CA", true, 1,
                                       "cert_sign,crl_sign"), ""), key))
  }

  // The certificate that SignComputeNodeCSR issues once the token is burned.
  function NodeCert(s: Scheme, issuer: Authority, key: PrivateKey, c: Csr, serial: string, now: int): Cert {
    SignCert(s, Cert(1, serial, c.subject, issuer.cert.subject, now, s.addYears(now, 1), c.publicKey,
                     Extensions(c.extensions.nodeID, "Compute Node", false, 0, "digital_signature"), ""), key)
  }

  // ---------- What the signatures cover, and what is issued ----------

  ghost predicate CertSigned(s: Scheme, c: Cert, issuer: PublicKey) {
    s.verify(issuer, CertMessage(c.version, c.serial, c.subject, c.issuer, c.notBefore, c.notAfter, c.publicKey,
                                 c.extensions), c.signature)
  }

  // A certificate verifies exactly when all of it but the signature is signed and the time is right.
  lemma CertAccepted(s: Scheme, c: Cert, issuer: PublicKey, now: int)
    ensures VerifyCertWith(s, c, issuer, now) == Pass <==>
            CertSigned(s, c, issuer) && c.notBefore <= now <= c.notAfter
  {}

  // A request for a certificate is signed with the key it names.
  ghost predicate CsrSigned(s: Scheme, c: Csr) {
    && s.decode(c.publicKey).Some?
    && s.verify(s.decode(c.publicKey).value, CsrMessage(c.subject, c.publicKey, c.extensions), c.signature)
  }

  // Signed by this key over everything else that the certificate says.
  ghost predicate SignedWith(s: Scheme, c: Cert, key: PrivateKey) {
    c.signature == s.sign(key, CertMessage(c.version, c.serial, c.subject, c.issuer, c.notBefore, c.notAfter,
                                           c.publicKey, c.extensions))
  }

  // The root certifies exactly signed requests, as an authority of path length 1 for three years.
  lemma IntermediateIssued(s: Scheme, root: Authority, csr: Option<Csr>, serial: string, now: int)
    ensures var r := SignIntermediateCsr(s, root, csr, serial, now);
      && (r.Ok? <==> root.key.Some? && csr.Some? && CsrSigned(s, csr.value))
      && (r.Ok? ==>
           var c := r.value;
           && c.version == 1 && c.serial == serial && c.subject == csr.value.subject && c.issuer == root.cert.subject
           && c.notBefore == now && c.notAfter == s.addYears(now, 3) && c.publicKey == csr.value.publicKey
           && c.extensions.nodeID == csr.value.extensions.nodeID && c.extensions.role == "Bootstrap Intermediate CA"
           && c.extensions.ca && c.extensions.pathLen == 1 && c.extensions.keyUsage == "cert_sign,crl_sign"
           && SignedWith(s, c, root.key.value))
  {}

  // A node's certificate is for one year, and not of an authority.
  lemma NodeCertIssued(s: Scheme, issuer: Authority, key: PrivateKey, csr: Csr, serial: string, now: int)
    ensures var c := NodeCert(s, issuer, key, csr, serial, now);
      && c.version == 1 && c.serial == serial && c.subject == csr.subject && c.issuer == issuer.cert.subject
      && c.notBefore == now && c.notAfter == s.addYears(now, 1) && c.publicKey == csr.publicKey
      && c.extensions.nodeID == csr.extensions.nodeID && c.extensions.role == "Compute Node"
      && !c.extensions.ca && c.extensions.pathLen == 0 && c.extensions.keyUsage == "digital_signature"
      && SignedWith(s, c, key)
  {}

  // Self-signed: one name, and signed with the key it carries.
  lemma SelfSignedAccepted(s: Scheme, c: Cert, now: int)
    ensures VerifySelfSigned(s, c, now) == Pass <==>
      (&& c.subject.commonName == c.issuer.commonName && s.decode(c.publicKey).Some?
       && CertSigned(s, c, s.decode(c.publicKey).value) && c.notBefore <= now <= c.notAfter)
  {}
}
