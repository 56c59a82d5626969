/** Single-use enrollment: tokens of daemon/ca/enrollment.go and SignComputeNodeCSR of daemon/ca/intermediate.go. */
module Enrollment {
  import opened Wrappers
  import opened Certificates
  import opened TrustStore

  function TokenTbs(t: Token): Message {
    TokenMessage(t.tokenID, t.networkID, t.issuedAt, t.expiresAt)
  }

  function GenerateToken(s: Scheme, id: string, network: string, now: int, ttl: int, root: PrivateKey): Token {
    var t := Token(id, network, now, now + ttl, "");
    t.(signature := s.sign(root, TokenTbs(t)))
  }

  // used_tokens.json: a file that is missing or does not parse counts as no tokens used.
  function UsedTokens(f: File<set<string>>): set<string> {
    match f
    case Content(used) => used
    case _ => {}
  }

  function VerifyToken(s: Scheme, t: Token, rootCert: Cert, used: File<set<string>>, now: int): Outcome {
    match s.decode(rootCert.publicKey)
    case None => Fail(BadKey)
    case Some(key) =>
      if !s.verify(key, TokenTbs(t), t.signature) then Fail(BadSignature)
      else if now > t.expiresAt then Fail(Expired)
      else if t.tokenID in UsedTokens(used) then Fail(TokenUsed)
      else Pass
  }

  // The checks of SignComputeNodeCSR, in order.
  function Admission(s: Scheme, a: Authority, root: File<Cert>, used: File<set<string>>,
                     csr: Option<Csr>, token: Token, now: int): Outcome
  {
    if a.key.None? then Fail(NoPrivateKey)
    else if !root.Content? then Fail(NoRootCert)
    else
      match VerifyToken(s, token, root.value, used, now)
      case Fail(e) => Fail(e)
      case Pass => if csr.None? then Fail(BadCsr) else VerifyCsr(s, csr.value)
  }

  // The intermediate authority over its directory.
  class Issuer {
    const authority: Authority
    var root: File<Cert>
    var used: File<set<string>>

    constructor (a: Authority, r: File<Cert>, u: File<set<string>>)
      ensures authority == a && root == r && used == u
    {
      authority, root, used := a, r, u;
    }

    method BurnEnrollmentToken(id: string)
      modifies this`used
      ensures used == Content(UsedTokens(old(used)) + {id})
    {
      var tokens := UsedTokens(used);
      tokens := tokens + {id};
      used := Content(tokens);
    }

    method SignComputeNodeCSR(s: Scheme, csr: Option<Csr>, token: Token, serial: string, now: int)
      returns (r: Result<Cert, Error>)
      modifies this`used
      ensures (r, used) == Issue(s, authority, root, old(used), Request(csr, token, serial, now))
    {
      if authority.key.None? {
        return Err(NoPrivateKey);
      }
      if !root.Content? {
        return Err(NoRootCert);
      }
      var verdict := VerifyToken(s, token, root.value, used, now);
      if verdict.Fail? {
        return Err(verdict.error);
      }
      if csr.None? {
        return Err(BadCsr);
      }
      verdict := VerifyCsr(s, csr.value);
      if verdict.Fail? {
        return Err(verdict.error);
      }
      BurnEnrollmentToken(token.tokenID);
      return Ok(NodeCert(s, authority, authority.key.value, csr.value, serial, now));
    }
  }

  // One call: what is asked, and the clock.
  datatype Request = Request(csr: Option<Csr>, token: Token, serial: string, now: int)

  function Issue(s: Scheme, a: Authority, root: File<Cert>, used: File<set<string>>, q: Request)
    : (Result<Cert, Error>, File<set<string>>)
  {
    match Admission(s, a, root, used, q.csr, q.token, q.now)
    case Fail(e) => (Err(e), used)
    case Pass =>
      (Ok(NodeCert(s, a, a.key.value, q.csr.value, q.serial, q.now)), Content(UsedTokens(used) + {q.token.tokenID}))
  }

  // The token is signed with the root's key over all it says.
  ghost predicate TokenSigned(s: Scheme, root: Cert, t: Token) {
    && s.decode(root.publicKey).Some?
    && s.verify(s.decode(root.publicKey).value, TokenMessage(t.tokenID, t.networkID, t.issuedAt, t.expiresAt),
                t.signature)
  }

  // A certificate is issued exactly for a genuine, unexpired and unused token with a signed request, once there are a
  // key and a root. It is then the one of NodeCertIssued, and the token is added to the used ones.
  lemma IssuedExactly(s: Scheme, a: Authority, root: File<Cert>, used: File<set<string>>, q: Request)
    ensures var (r, after) := Issue(s, a, root, used, q);
      && (r.Ok? <==>
           && a.key.Some? && root.Content? && TokenSigned(s, root.value, q.token) && q.now <= q.token.expiresAt
           && (used.Content? ==> q.token.tokenID !in used.value)
           && q.csr.Some? && CsrSigned(s, q.csr.value))
      && (r.Ok? ==> r.value == NodeCert(s, a, a.key.value, q.csr.value, q.serial, q.now))
      && (r.Ok? ==> after == Content((if used.Content? then used.value else {}) + {q.token.tokenID}))
      && (r.Err? ==> after == used)
  {}

  // A new token says what it was asked to, and is signed.
  lemma TokenGenerated(s: Scheme, id: string, network: string, now: int, ttl: int, root: PrivateKey)
    ensures var t := GenerateToken(s, id, network, now, ttl, root);
      && t.tokenID == id && t.networkID == network && t.issuedAt == now && t.expiresAt == now + ttl
      && t.signature == s.sign(root, TokenMessage(id, network, now, now + ttl))
  {}

  // ---------- Sequences of calls ----------

  function UsedAfter(s: Scheme, a: Authority, root: File<Cert>, used: File<set<string>>, calls: seq<Request>)
    : File<set<string>>
    decreases |calls|
  {
    if calls == [] then used
    else Issue(s, a, root, UsedAfter(s, a, root, used, calls[..|calls| - 1]), calls[|calls| - 1]).1
  }

  // What call i returned.
  function Answer(s: Scheme, a: Authority, root: File<Cert>, used: File<set<string>>, calls: seq<Request>, i: nat)
    : Result<Cert, Error>
    requires i < |calls|
  {
    Issue(s, a, root, UsedAfter(s, a, root, used, calls[..i]), calls[i]).0
  }

  // The used set only grows, from call i to call j.
  lemma {:induction false} UsedGrows(s: Scheme, a: Authority, root: File<Cert>, used: File<set<string>>,
                                     calls: seq<Request>, i: nat, j: nat)
    requires i <= j <= |calls|
    ensures UsedTokens(UsedAfter(s, a, root, used, calls[..i])) <= UsedTokens(UsedAfter(s, a, root, used, calls[..j]))
    decreases j
  {
    if i < j {
      UsedGrows(s, a, root, used, calls, i, j - 1);
      assert calls[..j][..j - 1] == calls[..j - 1];
    }
  }

  // A token gives at most one certificate; it is burned when the certificate exists; a refusal burns nothing.
  lemma SingleUse(s: Scheme, a: Authority, root: File<Cert>, used: File<set<string>>,
                  calls: seq<Request>, i: nat, j: nat)
    requires i < j < |calls| && Answer(s, a, root, used, calls, i).Ok?
    ensures calls[i].token.tokenID in UsedTokens(UsedAfter(s, a, root, used, calls[..i + 1]))
    ensures calls[i].token.tokenID !in UsedTokens(UsedAfter(s, a, root, used, calls[..i]))
    ensures calls[j].token.tokenID == calls[i].token.tokenID ==> Answer(s, a, root, used, calls, j).Err?
  {
    assert calls[..i + 1][..i] == calls[..i];
    UsedGrows(s, a, root, used, calls, i + 1, j);
  }

  lemma RefusalBurnsNothing(s: Scheme, a: Authority, root: File<Cert>, used: File<set<string>>,
                            calls: seq<Request>, i: nat)
    requires i < |calls| && Answer(s, a, root, used, calls, i).Err?
    ensures UsedAfter(s, a, root, used, calls[..i + 1]) == UsedAfter(s, a, root, used, calls[..i])
  {
    assert calls[..i + 1][..i] == calls[..i];
  }

  // A token of the root operator is accepted exactly until it expires or is used.
  lemma TokenAccepted(s: Scheme, id: string, network: string, issued: int, ttl: int, key: PrivateKey,
                      rootCert: Cert, used: File<set<string>>, now: int)
    requires Correct(s) && rootCert.publicKey == s.encode(s.public(key))
    ensures VerifyToken(s, GenerateToken(s, id, network, issued, ttl, key), rootCert, used, now) == Pass
       <==> now <= issued + ttl && id !in UsedTokens(used)
  {
    var t := Token(id, network, issued, issued + ttl, "");
    assert s.verify(s.public(key), TokenTbs(t), s.sign(key, TokenTbs(t)));
  }

  // The memory is only as good as the file. A call that succeeded succeeds again over whatever the file has become,
  // if and only if the token is not in it: missing and unreadable files included.
  lemma AcceptedAgain(s: Scheme, a: Authority, root: File<Cert>, used: File<set<string>>, q: Request,
                      file: File<set<string>>)
    requires Issue(s, a, root, used, q).0.Ok?
    ensures Issue(s, a, root, file, q).0.Ok? <==> q.token.tokenID !in UsedTokens(file)
    ensures Issue(s, a, root, file, q).0.Err? ==> Issue(s, a, root, file, q).0 == Err(TokenUsed)
  {
    assert VerifyToken(s, q.token, root.value, used, q.now).Pass?;
  }

  // The next certificate issued over a file that does not parse makes the loss last: of all the tokens used before,
  // each passes again, unless it is the very one just burned.
  lemma UnreadableFileForgets(s: Scheme, a: Authority, root: File<Cert>, used: File<set<string>>, q: Request,
                              file: File<set<string>>, other: Request)
    requires Issue(s, a, root, used, q).0.Ok? && !file.Content? && Issue(s, a, root, file, other).0.Ok?
    ensures var burned := Issue(s, a, root, file, other).1;
      && burned == Content({other.token.tokenID})
      && (Issue(s, a, root, burned, q).0.Ok? <==> q.token.tokenID != other.token.tokenID)
  {
    assert UsedTokens(file) + {other.token.tokenID} == {other.token.tokenID};
    AcceptedAgain(s, a, root, used, q, Content({other.token.tokenID}));
  }

  // And what is issued verifies against any store with the issuer as the only one of its name.
  lemma IssuedIsAccepted(s: Scheme, a: Authority, root: File<Cert>, used: File<set<string>>, q: Request,
                         t: Store, now: int)
    requires Correct(s) && Issue(s, a, root, used, q).0.Ok?
    requires a.cert.publicKey == s.encode(s.public(a.key.value))
    requires a.cert in t.intermediates && UniqueNames(t.intermediates)
    ensures var c := Issue(s, a, root, used, q).0.value;
      Verified(s, t, c, now) == Pass <==> c.notBefore <= now <= c.notAfter
  {
    NodeAccepted(s, a, q.csr.value, q.serial, q.now, t, now);
  }
}
