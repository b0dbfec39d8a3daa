/** The registration and login ceremonies. Everything that touches no shared state is a function of the request and
    of what the locked sections delivered; `Login` and `Register` put these together for ceremonies that run one at a
    time. */
module Ceremony {
  import opened ByteStrings
  import opened CborValue
  import CborDecode
  import AuthData
  import Cose
  import opened Crypto
  import opened Policy
  import opened Attestation
  import opened Challenge
  import opened Store

  datatype Server = Server(rpId: bytes, origins: set<string>, uv: UvPolicy, crypto: Primitives)

  datatype AssertionRequest = AssertionRequest(
    username: string, credId: bytes, clientDataJson: bytes, authData: bytes, sig: bytes, uv: UvPolicy)

  datatype RegistrationRequest = RegistrationRequest(
    username: string, clientDataJson: bytes, attestationObject: bytes, uv: UvPolicy, nickname: string)

  datatype LoginResult = LoginResult(username: string, uvPerformed: bool)

  // ----- checks on the request

  const TYPE_GET := "webauthn.get"
  const TYPE_CREATE := "webauthn.create"

  /** The decoded challenge and the origin that client data of the right type carries. */
  datatype Claim = Claim(challenge: bytes, origin: string)

  function ReadClientData(srv: Server, json: bytes, typ: string): Result<Claim, Error> {
    match srv.crypto.parseClientData(json)
    case None => Failure(MalformedClientData)
    case Some(cd) =>
      if cd.typ != typ then Failure(ClientDataType)
      else
        match srv.crypto.decodeBase64(cd.challenge)
        case None => Failure(MalformedClientData)
        case Some(challenge) => Success(Claim(challenge, cd.origin))
  }

  /** Relying party and flags, common to both ceremonies. */
  function CheckAuthData(srv: Server, ad: AuthData.Data, requested: UvPolicy): Result<bool, Error> {
    if srv.crypto.sha256(srv.rpId) != ad.rpIdHash then Failure(RpIdHashMismatch)
    else CheckFlags(EffectivePolicy(srv.uv, requested), ad.up, ad.uv)
  }

  function ParseAuthData(b: bytes): Result<AuthData.Data, Error> {
    match AuthData.Parse(b)
    case Success(d) => Success(d)
    case Failure(e) => Failure(AuthDataFailure(e))
  }

  function ParseKey(srv: Server, v: Value): Result<Cose.Key, Error> {
    match Cose.Parse(srv.crypto, v)
    case Success(k) => Success(k)
    case Failure(e) => Failure(CoseFailure(e))
  }

  /** The key that a stored credential holds, as login reads it back. */
  function StoredKey(srv: Server, cred: Credential): Result<Cose.Key, Error> {
    match CborDecode.Decode(cred.publicKey)
    case Failure(_) => Failure(CorruptStoredKey)
    case Success(Item(v, n)) =>
      if n != |cred.publicKey| then Failure(CorruptStoredKey)
      else
        var key :- ParseKey(srv, v);
        if key.alg != cred.algorithm then Failure(CorruptStoredKey) else Success(key)
  }

  /** A zero on either side means the authenticator has no counter. */
  predicate CounterRegresses(stored: nat, received: nat) {
    stored != 0 && received != 0 && received <= stored
  }

  /** What an accepted assertion says. */
  datatype Assertion = Assertion(uvPerformed: bool, count: nat)

  /** All of login after the credential was found. */
  function CheckAssertion(srv: Server, req: AssertionRequest, cred: Credential): Result<Assertion, Error> {
    var ad :- ParseAuthData(req.authData);
    var uv :- CheckAuthData(srv, ad, req.uv);
    var key :- StoredKey(srv, cred);
    match VerifySignature(srv.crypto, cred.algorithm, key.pub,
                          SignedOver(srv.crypto, req.authData, req.clientDataJson), req.sig)
    case Some(e) => Failure(e)
    case None =>
      if CounterRegresses(cred.signCount, ad.signCount) then Failure(CounterRegression)
      else Success(Assertion(uv, ad.signCount))
  }

  /** All of registration after the origin check: the credential to store. */
  function CheckRegistration(srv: Server, req: RegistrationRequest, now: int): Result<Credential, Error> {
    var o :- DecodeAttestationObject(req.attestationObject);
    var ad :- ParseAuthData(o.authData);
    var _ :- CheckAuthData(srv, ad, req.uv);
    if !ad.at || ad.attested.None? then Failure(MissingAttestedData)
    else
      var a := ad.attested.value;
      var key :- ParseKey(srv, a.key);
      match VerifyAttestation(srv.crypto, o, req.clientDataJson, key)
      case Some(e) => Failure(e)
      case None =>
        Success(Credential(a.credId, req.username, a.keyRaw, key.alg, ad.signCount, a.aaguid, Some(now), req.nickname))
  }

  // ----- whole ceremonies, one at a time

  datatype State = State(pending: PendingMap, creds: Credentials)

  function TakeChallenge(s: State, key: PendingKey): State { s.(pending := Taken(s.pending, key)) }

  /** Verdict on challenge and origin. */
  function Verdict(allowed: string -> bool, pc: Option<Pending>, claim: Claim, now: int): Option<Error> {
    match Judge(pc, claim.challenge, now)
    case Some(e) => Some(e)
    case None => if allowed(claim.origin) then None else Some(OriginNotAllowed)
  }

  function JudgeClaim(srv: Server, pc: Option<Pending>, claim: Claim, now: int): Option<Error> {
    Verdict(origin => origin in srv.origins, pc, claim, now)
  }

  /** Login from the lookup on. */
  function LoginTail(check: (AssertionRequest, Credential) -> Result<Assertion, Error>, creds: Credentials,
                     req: AssertionRequest, findFails: bool, faults: Faults)
    : (Result<LoginResult, Error>, Credentials)
  {
    if findFails then (Failure(StoreFailure), creds)
    else
      match Find(creds, req.credId)
      case None => (Failure(CredentialNotFound), creds)
      case Some(cred) =>
        match check(req, cred)
        case Failure(e) => (Failure(e), creds)
        case Success(a) =>
          var effect := CountUpdated(creds, req.credId, a.count);
          match WriteResult(effect, NoSuchCredential, faults)
          case Some(e) => (Failure(e), creds)
          case None => (Success(LoginResult(cred.username, a.uvPerformed)), effect.value)
  }

  function Login(srv: Server, s: State, req: AssertionRequest, judgedAt: int, findFails: bool, faults: Faults)
    : (Result<LoginResult, Error>, State)
  {
    match ReadClientData(srv, req.clientDataJson, TYPE_GET)
    case Failure(e) => (Failure(e), s)
    case Success(claim) =>
      var key := PendingKey(req.username, ForLogin);
      var s1 := TakeChallenge(s, key);
      match JudgeClaim(srv, Lookup(s.pending, key), claim, judgedAt)
      case Some(e) => (Failure(e), s1)
      case None =>
        var (r, creds) := LoginTail((q, c) => CheckAssertion(srv, q, c), s.creds, req, findFails, faults);
        (r, s1.(creds := creds))
  }

  function Register(srv: Server, s: State, req: RegistrationRequest, judgedAt: int, now: int, faults: Faults)
    : (Option<Error>, State)
  {
    match ReadClientData(srv, req.clientDataJson, TYPE_CREATE)
    case Failure(e) => (Some(e), s)
    case Success(claim) =>
      var key := PendingKey(req.username, ForRegister);
      var s1 := TakeChallenge(s, key);
      match JudgeClaim(srv, Lookup(s.pending, key), claim, judgedAt)
      case Some(e) => (Some(e), s1)
      case None =>
        match CheckRegistration(srv, req, now)
        case Failure(e) => (Some(e), s1)
        case Success(cred) =>
          var effect := Added(s.creds, cred, now);
          match WriteResult(effect, AlreadyRegistered, faults)
          case Some(e) => (Some(e), s1)
          case None => (None, s1.(creds := effect.value))
  }
}
