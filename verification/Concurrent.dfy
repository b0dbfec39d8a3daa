/** The server under every interleaving. Each action is one locked section, or one stretch of unlocked checks, of one
    request; requests run side by side without limit. A log records what happened. */
module Concurrent {
  import opened ByteStrings
  import opened Policy
  import opened Challenge
  import opened Store
  import opened Ceremony

  datatype Request = LoginRequest(login: AssertionRequest) | RegisterRequest(registration: RegistrationRequest) {
    function Key(): PendingKey {
      match this
      case LoginRequest(r) => PendingKey(r.username, ForLogin)
      case RegisterRequest(r) => PendingKey(r.username, ForRegister)
    }
  }

  /** The unlocked checks of the server. The steps below work for any checks; `ServerChecks` are the real ones. */
  datatype Checks = Checks(
    claim: Request -> Result<Claim, Error>,
    origin: string -> bool,
    registration: (RegistrationRequest, int) -> Result<Credential, Error>,
    assertion: (AssertionRequest, Credential) -> Result<Assertion, Error>)

  function ServerChecks(srv: Server): Checks {
    Checks((r: Request) => ReadClaim(srv, r),
           (origin: string) => origin in srv.origins,
           (r: RegistrationRequest, now: int) => CheckRegistration(srv, r, now),
           (r: AssertionRequest, c: Credential) => CheckAssertion(srv, r, c))
  }

  function ReadClaim(srv: Server, r: Request): Result<Claim, Error> {
    match r
    case LoginRequest(l) => ReadClientData(srv, l.clientDataJson, TYPE_GET)
    case RegisterRequest(g) => ReadClientData(srv, g.clientDataJson, TYPE_CREATE)
  }

  /** Where a request stands. The indices into the log are history: they never influence a step. */
  datatype Phase =
    | ToTake(claim: Claim)
    | ToJudge(claim: Claim, pc: Option<Pending>, issue: nat, take: nat)
    | ToFind
    | ToUpdate(cred: Credential, assertion: Assertion, registration: nat, found: nat)
    | ToAdd(cred: Credential)
    | Finished

  datatype Thread = Thread(req: Request, phase: Phase)

  datatype Event =
    | Issue(key: PendingKey, challenge: bytes, at: int)
    | Take(key: PendingKey)
    | Accept(key: PendingKey, challenge: bytes, at: int, issue: nat, take: nat, thread: nat)
    | Look(id: bytes)
    | LoggedIn(login: AssertionRequest, result: LoginResult, cred: Credential, assertion: Assertion,
               registration: nat, found: nat, thread: nat)
    | Registered(cred: Credential, thread: nat)
    | Removed(id: bytes)
    | Rejected(error: Error)

  datatype System = System(
    now: int, pending: PendingMap, creds: Credentials, threads: map<nat, Thread>, log: seq<Event>,
    history: History)

  /** Where in the log a key was last issued, a thread's challenge accepted, and a credential registered. */
  datatype History = History(
    issueOf: map<PendingKey, nat>, acceptOf: map<nat, nat>, registrationOf: map<bytes, nat>)

  datatype Action =
    | Tick(elapsed: nat)
    | IssueChallenge(key: PendingKey, challenge: bytes, elapsed: nat)
    | Start(thread: nat, req: Request)
    | Advance(thread: nat, faults: Faults)
    | Delete(id: bytes, faults: Faults)

  const INIT := System(0, map[], map[], map[], [], History(map[], map[], map[]))

  function Log(s: System, e: Event): System { s.(log := s.log + [e]) }

  function SetPhase(s: System, t: nat, phase: Phase): System
    requires t in s.threads
  {
    s.(threads := s.threads[t := s.threads[t].(phase := phase)])
  }

  function Reject(s: System, t: nat, e: Error): System
    requires t in s.threads
  {
    Log(SetPhase(s, t, Finished), Rejected(e))
  }

  function Step(chk: Checks, s: System, a: Action): System {
    match a
    case Tick(elapsed) => s.(now := s.now + elapsed)
    case IssueChallenge(key, challenge, elapsed) => StepIssue(s, key, challenge, elapsed)
    case Start(t, req) => if t in s.threads then s else StepStart(chk, s, t, req)
    case Advance(t, faults) => if t in s.threads then StepThread(chk, s, t, faults) else s
    case Delete(id, faults) => StepDelete(s, id, faults)
  }

  /** The sweep reads the clock, then time may pass, then the new entry reads it again. */
  function StepIssue(s: System, key: PendingKey, challenge: bytes, elapsed: nat): System {
    var at := s.now + elapsed;
    Log(s.(now := at,
           pending := Issued(s.pending, key, challenge, s.now, at),
           history := s.history.(issueOf := s.history.issueOf[key := |s.log|])),
        Issue(key, challenge, at))
  }

  function StepStart(chk: Checks, s: System, t: nat, req: Request): System {
    match chk.claim(req)
    case Failure(e) => Reject(s.(threads := s.threads[t := Thread(req, Finished)]), t, e)
    case Success(claim) => s.(threads := s.threads[t := Thread(req, ToTake(claim))])
  }

  function StepThread(chk: Checks, s: System, t: nat, faults: Faults): System
    requires t in s.threads
  {
    var Thread(req, phase) := s.threads[t];
    match phase
    case ToTake(claim) => StepTake(s, t, claim)
    case ToJudge(claim, pc, issue, take) => StepJudge(chk, s, t, claim, pc, issue, take)
    case ToFind => if req.LoginRequest? then StepFind(chk, s, t, req.login, faults) else s
    case ToUpdate(cred, a, registration, found) =>
      if req.LoginRequest? then StepUpdate(s, t, req.login, cred, a, registration, found, faults) else s
    case ToAdd(cred) => StepAdd(s, t, cred, faults)
    case Finished => s
  }

  function StepTake(s: System, t: nat, claim: Claim): System
    requires t in s.threads
  {
    var key := s.threads[t].req.Key();
    var issue := if key in s.history.issueOf then s.history.issueOf[key] else 0;
    Log(SetPhase(s.(pending := Taken(s.pending, key)), t, ToJudge(claim, Lookup(s.pending, key), issue, |s.log|)),
        Take(key))
  }

  function StepJudge(chk: Checks, s: System, t: nat, claim: Claim, pc: Option<Pending>, issue: nat, take: nat): System
    requires t in s.threads
  {
    match Judge(pc, claim.challenge, s.now)
    case Some(e) => Reject(s, t, e)
    case None => StepChecks(chk, Accepted(s, t, claim, issue, take), t, claim)
  }

  function Accepted(s: System, t: nat, claim: Claim, issue: nat, take: nat): System
    requires t in s.threads
  {
    Log(s.(history := s.history.(acceptOf := s.history.acceptOf[t := |s.log|])),
        Accept(s.threads[t].req.Key(), claim.challenge, s.now, issue, take, t))
  }

  /** The unlocked checks after an accepted challenge. */
  function StepChecks(chk: Checks, s: System, t: nat, claim: Claim): System
    requires t in s.threads
  {
    if !chk.origin(claim.origin) then Reject(s, t, OriginNotAllowed)
    else
      match s.threads[t].req
      case LoginRequest(_) => SetPhase(s, t, ToFind)
      case RegisterRequest(r) =>
        match chk.registration(r, s.now)
        case Failure(e) => Reject(s, t, e)
        case Success(cred) => SetPhase(s, t, ToAdd(cred))
  }

  /** The lookup, and the unlocked checks on what it found. */
  function StepFind(chk: Checks, s: System, t: nat, req: AssertionRequest, faults: Faults): System
    requires t in s.threads
  {
    if faults.read then Reject(s, t, StoreFailure)
    else
      match Find(s.creds, req.credId)
      case None => Reject(Log(s, Look(req.credId)), t, CredentialNotFound)
      case Some(cred) =>
        var registration := if req.credId in s.history.registrationOf then s.history.registrationOf[req.credId] else 0;
        var s1 := Log(s, Look(req.credId));
        match chk.assertion(req, cred)
        case Failure(e) => Reject(s1, t, e)
        case Success(a) => SetPhase(s1, t, ToUpdate(cred, a, registration, |s.log|))
  }

  function StepUpdate(s: System, t: nat, req: AssertionRequest, cred: Credential, a: Assertion,
                      registration: nat, found: nat, faults: Faults): System
    requires t in s.threads
  {
    var effect := CountUpdated(s.creds, req.credId, a.count);
    match WriteResult(effect, NoSuchCredential, faults)
    case Some(e) => Reject(s, t, e)
    case None =>
      Log(SetPhase(s.(creds := effect.value), t, Finished),
          LoggedIn(req, LoginResult(cred.username, a.uvPerformed), cred, a, registration, found, t))
  }

  function StepAdd(s: System, t: nat, cred: Credential, faults: Faults): System
    requires t in s.threads
  {
    var effect := Added(s.creds, cred, s.now);
    match WriteResult(effect, AlreadyRegistered, faults)
    case Some(e) => Reject(s, t, e)
    case None =>
      var registrationOf := s.history.registrationOf[cred.id := |s.log|];
      var s1 := s.(creds := effect.value, history := s.history.(registrationOf := registrationOf));
      Log(SetPhase(s1, t, Finished), Registered(effect.value[cred.id], t))
  }

  function StepDelete(s: System, id: bytes, faults: Faults): System {
    var effect := Store.Deleted(s.creds, id);
    match WriteResult(effect, NoSuchCredential, faults)
    case Some(e) => Log(s, Rejected(e))
    case None => Log(s.(creds := effect.value), Removed(id))
  }

  function Run(chk: Checks, actions: seq<Action>): System {
    if actions == [] then INIT else Step(chk, Run(chk, actions[..|actions| - 1]), actions[|actions| - 1])
  }
}
