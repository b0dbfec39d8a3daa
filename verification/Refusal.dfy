/** Which error a refused login or registration ends with: for every error an exact condition, in the order in which the
    ceremonies check, said without the parsers. */
module Refusal {
  import opened ByteStrings
  import opened CborValue
  import CborDecode
  import opened CborTheorems
  import Cose
  import CoseExact
  import AuthData
  import opened AuthDataExact
  import opened Policy
  import opened Attestation
  import opened AttestationExact
  import opened Challenge
  import opened Store
  import opened Ceremony
  import opened Acceptance

  // ----- client data, challenge and origin

  /** The client data is of this type and carries a challenge in base64url. */
  predicate Readable(srv: Server, json: bytes, typ: string) {
    var cd := srv.crypto.parseClientData(json);
    cd.Some? && cd.value.typ == typ && srv.crypto.decodeBase64(cd.value.challenge).Some?
  }

  /** The challenge is the one pending under the key. */
  predicate Matches(srv: Server, pending: PendingMap, key: PendingKey, json: bytes) {
    var cd := srv.crypto.parseClientData(json);
    cd.Some? && key in pending && srv.crypto.decodeBase64(cd.value.challenge) == Some(pending[key].challenge)
  }

  predicate ClaimRefused(
    srv: Server, pending: PendingMap, key: PendingKey, json: bytes, typ: string, now: int, x: Error)
  {
    var cd := srv.crypto.parseClientData(json);
    match x
    case MalformedClientData =>
      cd.None? || (cd.value.typ == typ && srv.crypto.decodeBase64(cd.value.challenge).None?)
    case ClientDataType => cd.Some? && cd.value.typ != typ
    case ChallengeNotFound => Readable(srv, json, typ) && key !in pending
    case ChallengeMismatch => Readable(srv, json, typ) && key in pending && !Matches(srv, pending, key, json)
    case ChallengeExpired =>
      Readable(srv, json, typ) && Matches(srv, pending, key, json) && now - pending[key].issuedAt > 120_000_000_000
    case OriginNotAllowed =>
      && Readable(srv, json, typ) && Matches(srv, pending, key, json)
      && now - pending[key].issuedAt <= 120_000_000_000 && cd.value.origin !in srv.origins
    case _ => false
  }

  /** The verdict on client data, challenge and origin together. */
  function Claimed(srv: Server, pending: PendingMap, key: PendingKey, json: bytes, typ: string, now: int)
    : Option<Error>
  {
    match ReadClientData(srv, json, typ)
    case Failure(x) => Some(x)
    case Success(claim) => JudgeClaim(srv, Lookup(pending, key), claim, now)
  }

  lemma ClaimErrorsExact(
    srv: Server, pending: PendingMap, key: PendingKey, json: bytes, typ: string, now: int, x: Error)
    ensures Claimed(srv, pending, key, json, typ, now) == Some(x)
            <==> ClaimRefused(srv, pending, key, json, typ, now, x)
    ensures Claimed(srv, pending, key, json, typ, now) == None <==> FreshClaim(srv, pending, key, json, typ, now)
  {
  }

  // ----- relying party, presence and verification

  predicate FlagsRefused(srv: Server, d: AuthData.Data, requested: UvPolicy, x: Error) {
    var mine := d.rpIdHash == srv.crypto.sha256(srv.rpId);
    var demanded := srv.uv == Required || requested == Required;
    match x
    case RpIdHashMismatch => !mine
    case UserNotPresent => mine && !d.up
    case UserNotVerified => mine && d.up && demanded && !d.uv
    case InvalidUvPolicy => mine && d.up && srv.uv == Unrecognized && requested != Required && requested != Preferred
    case _ => false
  }

  lemma FlagErrorsExact(srv: Server, d: AuthData.Data, requested: UvPolicy, x: Error)
    ensures CheckAuthData(srv, d, requested) == Failure(x) <==> FlagsRefused(srv, d, requested, x)
  {
  }

  // ----- the stored key

  /** The bytes, all of them, encode one acceptable item. */
  ghost predicate OneItem(b: bytes, v: Value) {
    Acceptable(v) && |b| <= 1048576 && b == Encode(v)
  }

  /** No item encodes to the bytes. */
  ghost predicate NoItem(b: bytes) { !exists v :: OneItem(b, v) }

  /** They encode a map that holds a key of another algorithm than the stored one. */
  ghost predicate OtherAlgorithm(srv: Server, cred: Credential) {
    exists v, key :: OneItem(cred.publicKey, v) && CoseExact.HoldsKey(srv.crypto, v, key) && key.alg != cred.algorithm
  }

  /** They encode a value that is refused as a key. */
  ghost predicate NoKey(srv: Server, cred: Credential, y: Cose.Error) {
    exists v :: OneItem(cred.publicKey, v) && CoseExact.KeyRefused(srv.crypto, v, y)
  }

  ghost predicate StoredRefused(srv: Server, cred: Credential, x: Error) {
    match x
    case CorruptStoredKey => NoItem(cred.publicKey) || OtherAlgorithm(srv, cred)
    case CoseFailure(y) => NoKey(srv, cred, y)
    case _ => false
  }

  lemma OneItemDecodes(b: bytes, v: Value)
    ensures OneItem(b, v) <==> CborDecode.Decode(b) == Success(CborDecode.Item(v, |b|))
  {
    DecodeExact(b, v, |b|);
    if OneItem(b, v) {
      assert Encode(v) <= b;
    }
    if CborDecode.Decode(b) == Success(CborDecode.Item(v, |b|)) {
      assert Encode(v) == b;
    }
  }

  lemma StoredErrorsExact(srv: Server, cred: Credential, x: Error)
    ensures StoredKey(srv, cred) == Failure(x) <==> StoredRefused(srv, cred, x)
  {
    var b, r := cred.publicKey, CborDecode.Decode(cred.publicKey);
    forall v
      ensures OneItem(b, v) <==> r == Success(CborDecode.Item(v, |b|))
    {
      OneItemDecodes(b, v);
    }
    if r.Success? && r.value.size == |b| {
      var v := r.value.val;
      assert OneItem(b, v);
      StoredItemExact(srv, cred, v, x);
    }
  }

  /** The errors of a stored key that is one item. */
  lemma StoredItemExact(srv: Server, cred: Credential, v: Value, x: Error)
    requires CborDecode.Decode(cred.publicKey) == Success(CborDecode.Item(v, |cred.publicKey|))
    requires Canonical(v) && OneItem(cred.publicKey, v)
    requires forall w :: OneItem(cred.publicKey, w) ==> w == v
    ensures StoredKey(srv, cred) == Failure(x) <==> StoredRefused(srv, cred, x)
  {
    forall y
      ensures Cose.Parse(srv.crypto, v) == Failure(y) <==> CoseExact.KeyRefused(srv.crypto, v, y)
    {
      CoseExact.KeyErrorsExact(srv.crypto, v, y);
    }
    forall key
      ensures Cose.Parse(srv.crypto, v) == Success(key) <==> CoseExact.HoldsKey(srv.crypto, v, key)
    {
      CoseExact.KeyExact(srv.crypto, v, key);
    }
    if StoredKey(srv, cred) == Failure(CorruptStoredKey) {
      assert CoseExact.HoldsKey(srv.crypto, v, Cose.Parse(srv.crypto, v).value);
    }
  }

  // ----- login

  /** Errors of the checks on the structure `d` that the authenticator data parsed to. */
  ghost predicate DataRefused(srv: Server, req: AssertionRequest, cred: Credential, d: AuthData.Data, x: Error) {
    || FlagsRefused(srv, d, req.uv, x)
    || (Addressed(srv, d, req.uv) && StoredRefused(srv, cred, x))
    || (Addressed(srv, d, req.uv)
        && exists key :: StoresKey(srv, cred, key) && KeyUseRefused(srv, req, cred, d, key, x))
  }

  /** Errors of the signature and of the counter, under the stored key. */
  predicate KeyUseRefused(
    srv: Server, req: AssertionRequest, cred: Credential, d: AuthData.Data, key: Cose.Key, x: Error)
  {
    var msg := req.authData + srv.crypto.sha256(req.clientDataJson);
    match x
    case UnsupportedAlgorithm => !KindFits(key.alg, key.pub)
    case SignatureVerification => KindFits(key.alg, key.pub) && !Verifies(srv.crypto, key.alg, key.pub, msg, req.sig)
    case CounterRegression =>
      && Verifies(srv.crypto, key.alg, key.pub, msg, req.sig)
      && cred.signCount != 0 && 0 < d.signCount <= cred.signCount
    case _ => false
  }

  ghost predicate AssertionRefused(srv: Server, req: AssertionRequest, cred: Credential, x: Error) {
    || (x == AuthDataFailure(AuthData.Truncated) && CutShort(req.authData))
    || (x == AuthDataFailure(AuthData.Malformed) && !CutShort(req.authData) && !exists d :: WrittenOut(req.authData, d))
    || exists d :: WrittenOut(req.authData, d) && DataRefused(srv, req, cred, d, x)
  }

  lemma KeyUseExact(
    srv: Server, req: AssertionRequest, cred: Credential, d: AuthData.Data, key: Cose.Key, x: Error)
    requires AuthData.Parse(req.authData) == Success(d) && CheckAuthData(srv, d, req.uv).Success?
    requires StoredKey(srv, cred) == Success(key) && key.alg == cred.algorithm
    ensures CheckAssertion(srv, req, cred) == Failure(x) <==> KeyUseRefused(srv, req, cred, d, key, x)
  {
    SignatureExact(srv.crypto, key.alg, key.pub, SignedOver(srv.crypto, req.authData, req.clientDataJson), req.sig);
  }

  lemma DataErrorsExact(srv: Server, req: AssertionRequest, cred: Credential, d: AuthData.Data, x: Error)
    requires AuthData.Parse(req.authData) == Success(d)
    ensures CheckAssertion(srv, req, cred) == Failure(x) <==> DataRefused(srv, req, cred, d, x)
  {
    FlagErrorsExact(srv, d, req.uv, x);
    AddressedExact(srv, d, req.uv);
    StoredErrorsExact(srv, cred, x);
    forall key
      ensures StoredKey(srv, cred) == Success(key) <==> StoresKey(srv, cred, key)
    {
      StoredExact(srv, cred, key);
    }
    if CheckAuthData(srv, d, req.uv).Success? && StoredKey(srv, cred).Success? {
      var key := StoredKey(srv, cred).value;
      assert StoresKey(srv, cred, key);
      KeyUseExact(srv, req, cred, d, key, x);
    }
  }

  /** The error of the checks between lookup and update, exactly. */
  lemma AssertionErrorsExact(srv: Server, req: AssertionRequest, cred: Credential, x: Error)
    ensures CheckAssertion(srv, req, cred) == Failure(x) <==> AssertionRefused(srv, req, cred, x)
  {
    ParseErrorsExact(req.authData);
    forall d
      ensures AuthData.Parse(req.authData) == Success(d) <==> WrittenOut(req.authData, d)
    {
      ParseWritten(req.authData, d);
    }
    if AuthData.Parse(req.authData).Success? {
      var d := AuthData.Parse(req.authData).value;
      assert WrittenOut(req.authData, d);
      DataErrorsExact(srv, req, cred, d, x);
    }
  }

  /** Errors from the lookup on. */
  ghost predicate TailRefused(
    srv: Server, creds: Credentials, req: AssertionRequest, findFails: bool, faults: Faults, x: Error)
  {
    if findFails then x == StoreFailure
    else if req.credId !in creds then x == CredentialNotFound
    else
      || AssertionRefused(srv, req, creds[req.credId], x)
      || (x == StoreFailure && (faults.read || faults.write != {}) && Passes(srv, req, creds[req.credId]))
  }

  ghost predicate Passes(srv: Server, req: AssertionRequest, cred: Credential) {
    exists a, d, key :: AssertionHolds(srv, req, cred, a, d, key)
  }

  lemma PassesExact(srv: Server, req: AssertionRequest, cred: Credential)
    ensures CheckAssertion(srv, req, cred).Success? <==> Passes(srv, req, cred)
  {
    if CheckAssertion(srv, req, cred).Success? {
      AssertionExact(srv, req, cred, CheckAssertion(srv, req, cred).value);
    }
    if Passes(srv, req, cred) {
      var a, d, key :| AssertionHolds(srv, req, cred, a, d, key);
      AssertionExact(srv, req, cred, a);
    }
  }

  lemma TailErrorsExact(
    srv: Server, creds: Credentials, req: AssertionRequest, findFails: bool, faults: Faults, x: Error)
    ensures LoginTail((q, c) => CheckAssertion(srv, q, c), creds, req, findFails, faults).0 == Failure(x)
            <==> TailRefused(srv, creds, req, findFails, faults, x)
  {
    if req.credId in creds {
      PassesExact(srv, req, creds[req.credId]);
      AssertionErrorsExact(srv, req, creds[req.credId], x);
    }
  }

  ghost predicate LoginRefused(
    srv: Server, s: State, req: AssertionRequest, now: int, findFails: bool, faults: Faults, x: Error)
  {
    var key := PendingKey(req.username, ForLogin);
    || ClaimRefused(srv, s.pending, key, req.clientDataJson, "webauthn.get", now, x)
    || (FreshClaim(srv, s.pending, key, req.clientDataJson, "webauthn.get", now)
        && TailRefused(srv, s.creds, req, findFails, faults, x))
  }

  /** The error of a login, exactly. */
  lemma LoginErrorsExact(
    srv: Server, s: State, req: AssertionRequest, now: int, findFails: bool, faults: Faults, x: Error)
    ensures Login(srv, s, req, now, findFails, faults).0 == Failure(x)
            <==> LoginRefused(srv, s, req, now, findFails, faults, x)
  {
    ClaimErrorsExact(srv, s.pending, PendingKey(req.username, ForLogin), req.clientDataJson, TYPE_GET, now, x);
    TailErrorsExact(srv, s.creds, req, findFails, faults, x);
  }

  // ----- registration

  /** Errors of the checks on an attestation object and the structure in it. */
  ghost predicate ObjectRefused(srv: Server, req: RegistrationRequest, o: Object, d: AuthData.Data, x: Error) {
    || FlagsRefused(srv, d, req.uv, x)
    || (Addressed(srv, d, req.uv)
        && match d.attested
           case None => x == MissingAttestedData
           case Some(a) =>
             || (x.CoseFailure? && CoseExact.KeyRefused(srv.crypto, a.key, x.cose))
             || exists key :: CoseExact.HoldsKey(srv.crypto, a.key, key) && StatementRefused(srv, req, o, key, x))
  }

  ghost predicate StatementRefused(srv: Server, req: RegistrationRequest, o: Object, key: Cose.Key, x: Error) {
    var known := o.format == Ascii("none") || o.format == Ascii("packed");
    || (x == AttestationFormat && !known)
    || (x == AttestationStatement && known
        && !Attests(srv.crypto, o, o.authData + srv.crypto.sha256(req.clientDataJson), key))
  }

  /** Errors of everything inside an attestation object that decodes. */
  ghost predicate InsideRefused(srv: Server, req: RegistrationRequest, o: Object, x: Error) {
    || (x == AuthDataFailure(AuthData.Truncated) && CutShort(o.authData))
    || (x == AuthDataFailure(AuthData.Malformed) && !CutShort(o.authData) && !exists d :: WrittenOut(o.authData, d))
    || exists d :: WrittenOut(o.authData, d) && ObjectRefused(srv, req, o, d, x)
  }

  ghost predicate RegistrationRefused(srv: Server, req: RegistrationRequest, x: Error) {
    || (x == MalformedAttestationObject && !exists o :: IsObject(req.attestationObject, o))
    || exists o :: IsObject(req.attestationObject, o) && InsideRefused(srv, req, o, x)
  }

  lemma StatementErrorsExact(srv: Server, req: RegistrationRequest, o: Object, key: Cose.Key, x: Error)
    requires Canonical(o.stmt)
    ensures VerifyAttestation(srv.crypto, o, req.clientDataJson, key) == Some(x)
            <==> StatementRefused(srv, req, o, key, x)
  {
    StatementExact(srv.crypto, o, req.clientDataJson, key);
  }

  lemma ObjectErrorsExact(
    srv: Server, req: RegistrationRequest, now: int, o: Object, d: AuthData.Data, x: Error)
    requires DecodeAttestationObject(req.attestationObject) == Success(o)
    requires AuthData.Parse(o.authData) == Success(d) && WrittenOut(o.authData, d)
    ensures CheckRegistration(srv, req, now) == Failure(x) <==> ObjectRefused(srv, req, o, d, x)
  {
    FlagErrorsExact(srv, d, req.uv, x);
    AddressedExact(srv, d, req.uv);
    if d.attested.Some? {
      AttestedErrorsExact(srv, req, now, o, d, x);
    }
  }

  lemma AttestedErrorsExact(
    srv: Server, req: RegistrationRequest, now: int, o: Object, d: AuthData.Data, x: Error)
    requires DecodeAttestationObject(req.attestationObject) == Success(o)
    requires AuthData.Parse(o.authData) == Success(d) && WrittenOut(o.authData, d) && d.attested.Some?
    ensures CheckAuthData(srv, d, req.uv).Success? ==>
              (CheckRegistration(srv, req, now) == Failure(x) <==>
                 || (x.CoseFailure? && CoseExact.KeyRefused(srv.crypto, d.attested.value.key, x.cose))
                 || exists key :: CoseExact.HoldsKey(srv.crypto, d.attested.value.key, key)
                                  && StatementRefused(srv, req, o, key, x))
  {
    var v := d.attested.value.key;
    if x.CoseFailure? {
      CoseExact.KeyErrorsExact(srv.crypto, v, x.cose);
    }
    forall key
      ensures Cose.Parse(srv.crypto, v) == Success(key) <==> CoseExact.HoldsKey(srv.crypto, v, key)
    {
      CoseExact.KeyExact(srv.crypto, v, key);
    }
    if Cose.Parse(srv.crypto, v).Success? {
      var key := Cose.Parse(srv.crypto, v).value;
      assert CoseExact.HoldsKey(srv.crypto, v, key);
      StatementCanonical(req.attestationObject);
      StatementErrorsExact(srv, req, o, key, x);
    }
    AttestedSteps(srv, req, now, o, d, x);
  }

  /** The checks of registration from the key on. */
  lemma AttestedSteps(srv: Server, req: RegistrationRequest, now: int, o: Object, d: AuthData.Data, x: Error)
    requires d.attested.Some?
    ensures (&& DecodeAttestationObject(req.attestationObject) == Success(o)
             && AuthData.Parse(o.authData) == Success(d) && d.at && CheckAuthData(srv, d, req.uv).Success?)
            ==> (CheckRegistration(srv, req, now) == Failure(x) <==>
                   match Cose.Parse(srv.crypto, d.attested.value.key)
                   case Failure(y) => x == CoseFailure(y)
                   case Success(key) => VerifyAttestation(srv.crypto, o, req.clientDataJson, key) == Some(x))
  {
  }

  lemma InsideErrorsExact(srv: Server, req: RegistrationRequest, now: int, o: Object, x: Error)
    requires DecodeAttestationObject(req.attestationObject) == Success(o)
    ensures CheckRegistration(srv, req, now) == Failure(x) <==> InsideRefused(srv, req, o, x)
  {
    ParseErrorsExact(o.authData);
    forall d
      ensures AuthData.Parse(o.authData) == Success(d) <==> WrittenOut(o.authData, d)
    {
      ParseWritten(o.authData, d);
    }
    if AuthData.Parse(o.authData).Success? {
      var d := AuthData.Parse(o.authData).value;
      assert WrittenOut(o.authData, d);
      ObjectErrorsExact(srv, req, now, o, d, x);
    }
  }

  /** The error of the checks between origin and store, exactly. */
  lemma RegistrationErrorsExact(srv: Server, req: RegistrationRequest, now: int, x: Error)
    ensures CheckRegistration(srv, req, now) == Failure(x) <==> RegistrationRefused(srv, req, x)
  {
    forall o
      ensures DecodeAttestationObject(req.attestationObject) == Success(o) <==> IsObject(req.attestationObject, o)
    {
      ObjectExact(req.attestationObject, o);
    }
    var r := DecodeAttestationObject(req.attestationObject);
    if r.Success? {
      assert IsObject(req.attestationObject, r.value);
      InsideErrorsExact(srv, req, now, r.value, x);
    }
  }

  /** Errors of storing the credential with this ID. */
  predicate StoreRefused(creds: Credentials, id: bytes, faults: Faults, x: Error) {
    match x
    case AlreadyRegistered => !faults.read && id in creds
    case StoreFailure => faults.read || (id !in creds && faults.write != {})
    case _ => false
  }

  ghost predicate RegisterRefused(
    srv: Server, s: State, req: RegistrationRequest, judgedAt: int, faults: Faults, x: Error)
  {
    var key := PendingKey(req.username, ForRegister);
    || ClaimRefused(srv, s.pending, key, req.clientDataJson, "webauthn.create", judgedAt, x)
    || (FreshClaim(srv, s.pending, key, req.clientDataJson, "webauthn.create", judgedAt)
        && (|| RegistrationRefused(srv, req, x)
            || StorageRefused(srv, s.creds, req, faults, x)))
  }

  /** The registration passes, and storing its credential fails. */
  ghost predicate StorageRefused(srv: Server, creds: Credentials, req: RegistrationRequest, faults: Faults, x: Error) {
    exists o, d, key ::
      RegistrationHolds(srv, req, o, d, key) && StoreRefused(creds, d.attested.value.credId, faults, x)
  }

  lemma StoreErrorsExact(creds: Credentials, cred: Credential, now: int, faults: Faults, x: Error)
    ensures WriteResult(Added(creds, cred, now), AlreadyRegistered, faults) == Some(x)
            <==> StoreRefused(creds, cred.id, faults, x)
  {
  }

  lemma StorageErrorsExact(
    srv: Server, creds: Credentials, req: RegistrationRequest, now: int, faults: Faults, x: Error)
    ensures StorageRefused(srv, creds, req, faults, x) <==>
            && CheckRegistration(srv, req, now).Success?
            && StoreRefused(creds, CheckRegistration(srv, req, now).value.id, faults, x)
  {
    if CheckRegistration(srv, req, now).Success? {
      var cred := CheckRegistration(srv, req, now).value;
      RegistrationSound(srv, req, now);
      var o, d, key :| RegistrationHolds(srv, req, o, d, key) && cred == NewCredential(req, d, key, now);
      assert d.attested.value.credId == cred.id;
    }
    if StorageRefused(srv, creds, req, faults, x) {
      var o, d, key :|
        RegistrationHolds(srv, req, o, d, key) && StoreRefused(creds, d.attested.value.credId, faults, x);
      RegistrationComplete(srv, req, now, o, d, key);
    }
  }

  /** The error of a registration, exactly. */
  lemma RegisterErrorsExact(
    srv: Server, s: State, req: RegistrationRequest, judgedAt: int, now: int, faults: Faults, x: Error)
    ensures Register(srv, s, req, judgedAt, now, faults).0 == Some(x)
            <==> RegisterRefused(srv, s, req, judgedAt, faults, x)
  {
    var key := PendingKey(req.username, ForRegister);
    ClaimErrorsExact(srv, s.pending, key, req.clientDataJson, TYPE_CREATE, judgedAt, x);
    RegistrationErrorsExact(srv, req, now, x);
    StorageErrorsExact(srv, s.creds, req, now, faults, x);
    if CheckRegistration(srv, req, now).Success? {
      StoreErrorsExact(s.creds, CheckRegistration(srv, req, now).value, now, faults, x);
    }
  }
}
