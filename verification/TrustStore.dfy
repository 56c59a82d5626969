/** The trust store of daemon/ca/verify.go and the gossip pull of daemon/ca/sync.go, over the files they share. */
module TrustStore {
  import opened Wrappers
  import opened Certificates

  // A file is missing, or does not parse, or holds a value.
  datatype File<+T> = Absent | Garbage | Content(value: T)

  // root.crt, intermediate.crt and trusted_intermediates.json
  datatype Files = Files(root: File<Cert>, intermediate: File<Cert>, trusted: File<seq<Cert>>)

  const EMPTY_DIRECTORY := Files(Absent, Absent, Absent)

  // What a peer sends: each certificate may be missing or unreadable.
  datatype Payload = Payload(root: File<Cert>, intermediate: File<Cert>)

  // Two clock readings, one for each check.
  function Pulled(s: Scheme, f: Files, p: Payload, now: int, later: int): Files {
    PulledIntermediate(s, PulledRoot(s, f, p, now), p, later)
  }

  function PulledRoot(s: Scheme, f: Files, p: Payload, now: int): Files {
    if p.root.Content? && f.root.Absent? && VerifySelfSigned(s, p.root.value, now).Pass? then f.(root := p.root)
    else f
  }

  function PulledIntermediate(s: Scheme, f: Files, p: Payload, now: int): Files {
    if p.intermediate.Content? && f.intermediate.Absent? && f.root.Content? then
      match s.decode(f.root.value.publicKey)
      case None => f
      case Some(key) =>
        if VerifyCertWith(s, p.intermediate.value, key, now).Pass? then f.(intermediate := p.intermediate) else f
    else f
  }

  predicate HasName(certs: seq<Cert>, name: string) {
    exists i | 0 <= i < |certs| :: certs[i].subject.commonName == name
  }

  datatype Store = Store(root: Option<Cert>, intermediates: seq<Cert>)

  // A file that does not parse ends the loading early, with what there is.
  function Loaded(f: Files): Store {
    var root := if f.root.Content? then Some(f.root.value) else None;
    if f.root.Garbage? || f.trusted.Garbage? then Store(root, [])
    else
      var listed := if f.trusted.Content? then f.trusted.value else [];
      if f.intermediate.Content? && !HasName(listed, f.intermediate.value.subject.commonName)
      then Store(root, listed + [f.intermediate.value])
      else Store(root, listed)
  }

  // AddIntermediate: the outcome, the store and the files afterwards.
  function Added(s: Scheme, t: Store, f: Files, c: Cert, now: int): (Outcome, Store, Files) {
    if t.root.None? then (Fail(NoRootCert), t, f)
    else if HasName(t.intermediates, c.subject.commonName) then (Pass, t, f)
    else
      match s.decode(t.root.value.publicKey)
      case None => (Fail(BadKey), t, f)
      case Some(key) =>
        match VerifyCertWith(s, c, key, now)
        case Fail(e) => (Fail(e), t, f)
        case Pass =>
          var certs := t.intermediates + [c];
          (Pass, t.(intermediates := certs), f.(trusted := Content(certs)))
  }

  // The first certificate of that name decides.
  function First(certs: seq<Cert>, name: string): Option<Cert> {
    if certs == [] then None
    else if certs[0].subject.commonName == name then Some(certs[0])
    else First(certs[1..], name)
  }

  function Verified(s: Scheme, t: Store, c: Cert, now: int): Outcome {
    if now < c.notBefore then Fail(NotYetValid)
    else if now > c.notAfter then Fail(Expired)
    else
      match First(t.intermediates, c.issuer.commonName)
      case None => Fail(NoIssuer)
      case Some(issuer) =>
        match s.decode(issuer.publicKey)
        case None => Fail(BadKey)
        case Some(key) => if s.verify(key, CertTbs(c), c.signature) then Pass else Fail(BadSignature)
  }

  // ---------- The code over its files and fields ----------

  class Directory {
    var files: Files

    constructor ()
      ensures files == EMPTY_DIRECTORY
    {
      files := EMPTY_DIRECTORY;
    }

    method PullCASync(s: Scheme, p: Payload, now: int, later: int) returns (updated: bool)
      modifies this
      ensures files == Pulled(s, old(files), p, now, later)
      ensures updated <==> files != old(files)
    {
      updated := false;
      if p.root.Content? && files.root.Absent? {
        if VerifySelfSigned(s, p.root.value, now).Pass? {
          files := files.(root := p.root);
          updated := true;
        }
      }
      if p.intermediate.Content? && files.intermediate.Absent? {
        if files.root.Content? {
          var key := s.decode(files.root.value.publicKey);
          if key.Some? && VerifyCertWith(s, p.intermediate.value, key.value, later).Pass? {
            files := files.(intermediate := p.intermediate);
            updated := true;
          }
        }
      }
    }
  }

  class TrustStore {
    var root: Option<Cert>
    var intermediates: seq<Cert>
    const directory: Directory

    ghost function Value(): Store
      reads this
    {
      Store(root, intermediates)
    }

    constructor Load(d: Directory)
      ensures Value() == Loaded(d.files) && directory == d
    {
      directory := d;
      root, intermediates := None, [];
      new;
      if d.files.root.Garbage? {
        return;
      }
      if d.files.root.Content? {
        root := Some(d.files.root.value);
      }
      if d.files.trusted.Garbage? {
        return;
      }
      if d.files.trusted.Content? {
        intermediates := d.files.trusted.value;
      }
      if d.files.intermediate.Content? {
        var present := HasIntermediate(d.files.intermediate.value.subject.commonName);
        if !present {
          intermediates := intermediates + [d.files.intermediate.value];
        }
      }
    }

    method HasIntermediate(name: string) returns (found: bool)
      ensures found <==> HasName(intermediates, name)
    {
      for i := 0 to |intermediates|
        invariant forall j | 0 <= j < i :: intermediates[j].subject.commonName != name
      {
        if intermediates[i].subject.commonName == name {
          return true;
        }
      }
      return false;
    }

    method AddIntermediate(s: Scheme, c: Cert, now: int) returns (outcome: Outcome)
      modifies this, directory
      ensures (outcome, Value(), directory.files) == Added(s, old(Value()), old(directory.files), c, now)
    {
      if root.None? {
        return Fail(NoRootCert);
      }
      var present := HasIntermediate(c.subject.commonName);
      if present {
        return Pass;
      }
      var key := s.decode(root.value.publicKey);
      if key.None? {
        return Fail(BadKey);
      }
      outcome := VerifyCertWith(s, c, key.value, now);
      if outcome.Pass? {
        intermediates := intermediates + [c];
        directory.files := directory.files.(trusted := Content(intermediates));
      }
    }

    method VerifyCert(s: Scheme, c: Cert, now: int) returns (outcome: Outcome)
      ensures outcome == Verified(s, Value(), c, now)
    {
      if now < c.notBefore {
        return Fail(NotYetValid);
      }
      if now > c.notAfter {
        return Fail(Expired);
      }
      assert intermediates[0..] == intermediates;
      for i := 0 to |intermediates|
        invariant First(intermediates, c.issuer.commonName) == First(intermediates[i..], c.issuer.commonName)
      {
        if intermediates[i].subject.commonName != c.issuer.commonName {
          assert intermediates[i..][1..] == intermediates[i + 1..];
          continue;
        }
        var key := s.decode(intermediates[i].publicKey);
        if key.None? {
          return Fail(BadKey);
        }
        if !s.verify(key.value, CertTbs(c), c.signature) {
          return Fail(BadSignature);
        }
        return Pass;
      }
      return Fail(NoIssuer);
    }
  }

  // ---------- What is pulled, loaded and accepted ----------

  // A missing root.crt is taken over exactly when it is self-signed and valid, and a missing intermediate.crt exactly
  // when the root then on file signed it and it is valid; nothing else changes.
  lemma PulledExactly(s: Scheme, f: Files, p: Payload, now: int, later: int)
    ensures var g := Pulled(s, f, p, now, later);
      && g.trusted == f.trusted
      && g.root == (if f.root.Absent? && p.root.Content? && SelfSigned(s, p.root.value, now) then p.root else f.root)
      && g.intermediate ==
           (if f.intermediate.Absent? && p.intermediate.Content? && g.root.Content? &&
               ValidUnder(s, g.root.value, p.intermediate.value, later)
            then p.intermediate else f.intermediate)
  {
    if p.root.Content? {
      SelfSignedAccepted(s, p.root.value, now);
    }
    var root := PulledRoot(s, f, p, now).root;
    if p.intermediate.Content? && root.Content? && s.decode(root.value.publicKey).Some? {
      CertAccepted(s, p.intermediate.value, s.decode(root.value.publicKey).value, later);
    }
  }

  // Signed under the key of the issuer over everything it says, and within its time.
  ghost predicate ValidUnder(s: Scheme, issuer: Cert, c: Cert, now: int) {
    && s.decode(issuer.publicKey).Some? && CertSigned(s, c, s.decode(issuer.publicKey).value)
    && c.notBefore <= now <= c.notAfter
  }

  ghost predicate SelfSigned(s: Scheme, c: Cert, now: int) {
    c.subject.commonName == c.issuer.commonName && ValidUnder(s, c, c, now)
  }

  function Listed(f: Files): seq<Cert> {
    if f.trusted.Content? then f.trusted.value else []
  }

  // The local intermediate, with a name that is not in the list.
  ghost predicate NewLocal(f: Files, c: Cert) {
    && f.intermediate == Content(c)
    && forall i | 0 <= i < |Listed(f)| :: Listed(f)[i].subject.commonName != c.subject.commonName
  }

  // When the root and the trusted list can be read, exactly the list and the local intermediate are loaded, the
  // latter last and only if its name is new. When one cannot be read, no intermediate is.
  lemma LoadedExactly(f: Files)
    ensures var t := Loaded(f);
      && (t.root == if f.root.Content? then Some(f.root.value) else None)
      && (f.root.Garbage? || f.trusted.Garbage? ==> t.intermediates == [])
      && (!f.root.Garbage? && !f.trusted.Garbage? ==>
           && Listed(f) <= t.intermediates && |t.intermediates| <= |Listed(f)| + 1
           && forall c :: c in t.intermediates <==> (c in Listed(f) || NewLocal(f, c)))
  {}

  // The first intermediate of the issuer's name decides, and every later one is ignored.
  ghost predicate Decides(certs: seq<Cert>, i: nat, name: string) {
    && i < |certs| && certs[i].subject.commonName == name
    && forall j | 0 <= j < i :: certs[j].subject.commonName != name
  }

  lemma {:induction false} FirstDecides(certs: seq<Cert>, i: nat, name: string)
    ensures Decides(certs, i, name) ==> First(certs, name) == Some(certs[i])
    ensures First(certs, name).None? ==> forall j | 0 <= j < |certs| :: certs[j].subject.commonName != name
  {
    if certs != [] && certs[0].subject.commonName != name {
      FirstDecides(certs[1..], if i > 0 then i - 1 else 0, name);
      if i > 0 && Decides(certs, i, name) {
        forall j | 0 <= j < i - 1 ensures certs[1..][j].subject.commonName != name {
          assert certs[j + 1].subject.commonName != name;
        }
      }
      if First(certs, name).None? {
        forall j | 0 <= j < |certs| ensures certs[j].subject.commonName != name {
          assert j > 0 ==> certs[j] == certs[1..][j - 1];
        }
      }
    }
  }

  lemma {:induction false} FirstExists(certs: seq<Cert>, name: string) returns (i: nat)
    requires First(certs, name).Some?
    ensures Decides(certs, i, name)
  {
    if certs[0].subject.commonName == name {
      i := 0;
    } else {
      var k := FirstExists(certs[1..], name);
      i := k + 1;
      forall j | 0 <= j < i ensures certs[j].subject.commonName != name {
        assert j > 0 ==> certs[j] == certs[1..][j - 1];
      }
    }
  }

  lemma VerifiedExactly(s: Scheme, t: Store, c: Cert, now: int)
    ensures Verified(s, t, c, now) == Pass <==> exists i: nat ::
      Decides(t.intermediates, i, c.issuer.commonName) && ValidUnder(s, t.intermediates[i], c, now)
  {
    var name := c.issuer.commonName;
    if First(t.intermediates, name).Some? {
      var k := FirstExists(t.intermediates, name);
      FirstDecides(t.intermediates, k, name);
      assert ValidUnder(s, t.intermediates[k], c, now) ==> Verified(s, t, c, now) == Pass;
    }
    forall i: nat | Decides(t.intermediates, i, name) ensures First(t.intermediates, name) == Some(t.intermediates[i]) {
      FirstDecides(t.intermediates, i, name);
    }
  }

  // ---------- Whole runs from an empty directory ----------

  datatype State = State(files: Files, stores: seq<Store>)

  datatype Op = Pull(payload: Payload, now: int, later: int) | Load | Add(store: nat, cert: Cert, now: int)

  // Any number of stores may be loaded from the directory, at any time.
  function Step(s: Scheme, t: State, op: Op): State {
    match op
    case Pull(p, now, later) => t.(files := Pulled(s, t.files, p, now, later))
    case Load => t.(stores := t.stores + [Loaded(t.files)])
    case Add(i, c, now) =>
      if i < |t.stores| then
        var (_, store, files) := Added(s, t.stores[i], t.files, c, now);
        State(files, t.stores[i := store])
      else t
  }

  function Run(s: Scheme, t: State, ops: seq<Op>): State
    decreases |ops|
  {
    if ops == [] then t else Step(s, Run(s, t, ops[..|ops| - 1]), ops[|ops| - 1])
  }

  const INITIAL := State(EMPTY_DIRECTORY, [])

  ghost predicate UniqueNames(certs: seq<Cert>) {
    forall i, j | 0 <= i < j < |certs| :: certs[i].subject.commonName != certs[j].subject.commonName
  }

  // The signature is valid under the key of the issuer, whatever the time.
  ghost predicate SignedBy(s: Scheme, issuer: Cert, c: Cert) {
    s.decode(issuer.publicKey).Some? && s.verify(s.decode(issuer.publicKey).value, CertTbs(c), c.signature)
  }

  ghost predicate GoodList(s: Scheme, root: Cert, certs: seq<Cert>) {
    UniqueNames(certs) && forall i | 0 <= i < |certs| :: SignedBy(s, root, certs[i])
  }

  // Before there is a root there is nothing; afterwards every certificate anywhere is signed by that root.
  ghost predicate GoodFiles(s: Scheme, f: Files) {
    match f.root
    case Garbage => false
    case Absent => f == EMPTY_DIRECTORY
    case Content(root) =>
      && SignedBy(s, root, root) && root.subject.commonName == root.issuer.commonName
      && (f.intermediate.Absent? || (f.intermediate.Content? && SignedBy(s, root, f.intermediate.value)))
      && (f.trusted.Absent? || (f.trusted.Content? && GoodList(s, root, f.trusted.value)))
  }

  ghost predicate GoodStore(s: Scheme, f: Files, t: Store) {
    match t.root
    case None => t.intermediates == []
    case Some(root) => f.root == Content(root) && GoodList(s, root, t.intermediates)
  }

  ghost predicate Inv(s: Scheme, t: State) {
    GoodFiles(s, t.files) && forall i | 0 <= i < |t.stores| :: GoodStore(s, t.files, t.stores[i])
  }

  lemma AppendGood(s: Scheme, root: Cert, certs: seq<Cert>, c: Cert)
    requires GoodList(s, root, certs) && SignedBy(s, root, c) && !HasName(certs, c.subject.commonName)
    ensures GoodList(s, root, certs + [c])
  {}

  lemma PullGood(s: Scheme, f: Files, p: Payload, now: int, later: int)
    requires GoodFiles(s, f)
    ensures GoodFiles(s, Pulled(s, f, p, now, later))
    ensures f.root.Content? ==> Pulled(s, f, p, now, later).root == f.root
  {
    assert GoodFiles(s, PulledRoot(s, f, p, now));
  }

  lemma LoadGood(s: Scheme, f: Files)
    requires GoodFiles(s, f)
    ensures GoodStore(s, f, Loaded(f))
  {
    if f.root.Content? && f.intermediate.Content? {
      var listed := if f.trusted.Content? then f.trusted.value else [];
      if !HasName(listed, f.intermediate.value.subject.commonName) {
        AppendGood(s, f.root.value, listed, f.intermediate.value);
      }
    }
  }

  lemma AddGood(s: Scheme, t: Store, f: Files, c: Cert, now: int)
    requires GoodFiles(s, f) && GoodStore(s, f, t)
    ensures var (_, t', f') := Added(s, t, f, c, now);
      GoodFiles(s, f') && GoodStore(s, f', t') && f'.root == f.root
  {
    if t.root.Some? && !HasName(t.intermediates, c.subject.commonName) {
      var key := s.decode(t.root.value.publicKey);
      if key.Some? && VerifyCertWith(s, c, key.value, now).Pass? {
        AppendGood(s, t.root.value, t.intermediates, c);
      }
    }
  }

  lemma InvStep(s: Scheme, t: State, op: Op)
    requires Inv(s, t)
    ensures Inv(s, Step(s, t, op))
    ensures t.files.root.Content? ==> Step(s, t, op).files.root == t.files.root
  {
    var t' := Step(s, t, op);
    match op
    case Pull(p, now, later) =>
      PullGood(s, t.files, p, now, later);
      forall i | 0 <= i < |t.stores| ensures GoodStore(s, t'.files, t.stores[i]) {
        assert GoodStore(s, t.files, t.stores[i]);
      }
    case Load =>
      LoadGood(s, t.files);
    case Add(i, c, now) =>
      if i < |t.stores| {
        AddGood(s, t.stores[i], t.files, c, now);
        forall j | 0 <= j < |t.stores| ensures GoodStore(s, t'.files, t'.stores[j]) {
          assert GoodStore(s, t.files, t.stores[j]);
        }
      }
  }

  // In every run: certificates held or stored are signed by the one root, with different names.
  lemma {:induction false} EveryRunIsTrusted(s: Scheme, ops: seq<Op>)
    ensures Inv(s, Run(s, INITIAL, ops))
    decreases |ops|
  {
    if ops != [] {
      EveryRunIsTrusted(s, ops[..|ops| - 1]);
      InvStep(s, Run(s, INITIAL, ops[..|ops| - 1]), ops[|ops| - 1]);
    }
  }

  // So in every run, a certificate that any store accepts is signed by an intermediate that the one root signed.
  lemma AcceptedIsChained(s: Scheme, ops: seq<Op>, i: nat, c: Cert, now: int)
    requires i < |Run(s, INITIAL, ops).stores|
    requires Verified(s, Run(s, INITIAL, ops).stores[i], c, now) == Pass
    ensures var t := Run(s, INITIAL, ops);
      && t.files.root.Content? && c.notBefore <= now <= c.notAfter
      && exists issuer :: issuer in t.stores[i].intermediates && Chained(s, t.files.root.value, issuer, c)
  {
    EveryRunIsTrusted(s, ops);
    var t := Run(s, INITIAL, ops);
    assert GoodStore(s, t.files, t.stores[i]);
    FirstIsThere(t.stores[i].intermediates, c.issuer.commonName);
    var issuer := First(t.stores[i].intermediates, c.issuer.commonName).value;
    assert Chained(s, t.files.root.value, issuer, c);
  }

  ghost predicate Chained(s: Scheme, root: Cert, issuer: Cert, c: Cert) {
    && SignedBy(s, root, issuer) && issuer.subject.commonName == c.issuer.commonName
    && SignedBy(s, issuer, c)
  }

  lemma {:induction false} FirstIsThere(certs: seq<Cert>, name: string)
    ensures var r := First(certs, name); r.Some? ==> r.value in certs && r.value.subject.commonName == name
  {
    if certs != [] {
      FirstIsThere(certs[1..], name);
    }
  }

  // And once written, root.crt never changes.
  lemma {:induction false} RootNeverChanges(s: Scheme, t: State, ops: seq<Op>)
    requires Inv(s, t) && t.files.root.Content?
    ensures Inv(s, Run(s, t, ops)) && Run(s, t, ops).files.root == t.files.root
    decreases |ops|
  {
    if ops != [] {
      RootNeverChanges(s, t, ops[..|ops| - 1]);
      InvStep(s, Run(s, t, ops[..|ops| - 1]), ops[|ops| - 1]);
    }
  }

  // ---------- What is issued is accepted ----------

  lemma {:induction false} FirstOfUnique(certs: seq<Cert>, c: Cert)
    requires c in certs && UniqueNames(certs)
    ensures First(certs, c.subject.commonName) == Some(c)
  {
    if certs[0] != c {
      assert c in certs[1..];
      var i :| 0 < i < |certs| && certs[i] == c;
      FirstOfUnique(certs[1..], c);
    }
  }

  // What AddIntermediate keeps, exactly. A held name is answered with success whatever the certificate, and changes
  // nothing: a renewed certificate of the same name is not kept.
  lemma KeptExactly(s: Scheme, t: Store, f: Files, c: Cert, now: int)
    ensures t.root.None? ==> Added(s, t, f, c, now) == (Fail(NoRootCert), t, f)
    ensures t.root.Some? ==> var (outcome, t', f') := Added(s, t, f, c, now);
      var held := HasName(t.intermediates, c.subject.commonName);
      var valid := ValidUnder(s, t.root.value, c, now);
      && (outcome == Pass <==> held || valid)
      && (c in t'.intermediates <==> c in t.intermediates || (!held && valid))
      && (held || !valid ==> t' == t && f' == f)
      && (!held && valid ==> t'.intermediates == t.intermediates + [c] && f'.trusted == Content(t'.intermediates))
  {}

  // A certificate the root issued to an intermediate is kept exactly during its validity and under a new name.
  lemma IntermediateAccepted(s: Scheme, root: Authority, csr: Csr, serial: string, issued: int,
                             t: Store, f: Files, now: int)
    requires Correct(s) && root.key.Some? && root.cert.publicKey == s.encode(s.public(root.key.value))
    requires SignIntermediateCsr(s, root, Some(csr), serial, issued).Ok? && t.root == Some(root.cert)
    ensures var c := SignIntermediateCsr(s, root, Some(csr), serial, issued).value;
      var (outcome, t', f') := Added(s, t, f, c, now);
      var held := HasName(t.intermediates, csr.subject.commonName);
      && (outcome == Pass <==> held || c.notBefore <= now <= c.notAfter)
      && (c in t'.intermediates <==> c in t.intermediates || (!held && c.notBefore <= now <= c.notAfter))
      && (!held && outcome == Pass ==> f'.trusted == Content(t'.intermediates))
  {
    var c := SignIntermediateCsr(s, root, Some(csr), serial, issued).value;
    assert SignedBy(s, root.cert, c);
    KeptExactly(s, t, f, c, now);
  }

  // A node certificate is accepted, exactly during its validity, wherever its issuer is the only one of its name.
  lemma NodeAccepted(s: Scheme, issuer: Authority, csr: Csr, serial: string, issued: int, t: Store, now: int)
    requires Correct(s) && issuer.key.Some? && issuer.cert.publicKey == s.encode(s.public(issuer.key.value))
    requires issuer.cert in t.intermediates && UniqueNames(t.intermediates)
    ensures var c := NodeCert(s, issuer, issuer.key.value, csr, serial, issued);
      Verified(s, t, c, now) == Pass <==> c.notBefore <= now <= c.notAfter
  {
    var c := NodeCert(s, issuer, issuer.key.value, csr, serial, issued);
    FirstOfUnique(t.intermediates, issuer.cert);
    assert s.verify(s.public(issuer.key.value), CertTbs(c), c.signature);
  }

  // The two together: root to intermediate to node.
  lemma ChainAccepted(s: Scheme, root: Authority, csr: Csr, serial: string, issued: int, key: PrivateKey,
                      t: Store, f: Files, added: int, node: Csr, serial': string, issued': int, now: int)
    requires Correct(s) && root.key.Some? && root.cert.publicKey == s.encode(s.public(root.key.value))
    requires SignIntermediateCsr(s, root, Some(csr), serial, issued).Ok? && csr.publicKey == s.encode(s.public(key))
    requires t.root == Some(root.cert) && UniqueNames(t.intermediates)
    requires !HasName(t.intermediates, csr.subject.commonName)
    ensures var c := SignIntermediateCsr(s, root, Some(csr), serial, issued).value;
      c.notBefore <= added <= c.notAfter ==>
        var n := NodeCert(s, Authority(Some(key), c), key, node, serial', issued');
        Verified(s, Added(s, t, f, c, added).1, n, now) == Pass <==> n.notBefore <= now <= n.notAfter
  {
    var c := SignIntermediateCsr(s, root, Some(csr), serial, issued).value;
    IntermediateAccepted(s, root, csr, serial, issued, t, f, added);
    if c.notBefore <= added <= c.notAfter {
      NodeAccepted(s, Authority(Some(key), c), node, serial', issued', Added(s, t, f, c, added).1, now);
    }
  }

  // A bootstrap node loads its own intermediate, and accepts what it issues exactly during its validity.
  lemma LocalIntermediateServes(s: Scheme, f: Files, issuer: Authority, csr: Csr, serial: string, issued: int, now: int)
    requires Correct(s) && issuer.key.Some? && issuer.cert.publicKey == s.encode(s.public(issuer.key.value))
    requires !f.root.Garbage? && !f.trusted.Garbage? && f.intermediate == Content(issuer.cert)
    requires UniqueNames(Listed(f)) && !HasName(Listed(f), issuer.cert.subject.commonName)
    ensures var c := NodeCert(s, issuer, issuer.key.value, csr, serial, issued);
      Verified(s, Loaded(f), c, now) == Pass <==> c.notBefore <= now <= c.notAfter
  {
    LoadedExactly(f);
    LoadedUnique(f);
    NodeAccepted(s, issuer, csr, serial, issued, Loaded(f), now);
  }

  lemma LoadedUnique(f: Files)
    requires !f.trusted.Garbage? && UniqueNames(Listed(f))
    ensures UniqueNames(Loaded(f).intermediates)
  {}
}
