/** Over every run and every interleaving, a login is traced to the registration of the credential that signed. */
module ConcurrentLogins {
  import opened ByteStrings
  import opened Policy
  import opened Attestation
  import opened Challenge
  import opened Store
  import opened Ceremony
  import opened Concurrent

  predicate Changes(e: Event, id: bytes) {
    (e.Registered? && e.cred.id == id) || e == Removed(id)
  }

  /** Log entry `i` registered `cred`, up to its counter, and nothing before entry `j` registered or removed its ID. */
  ghost predicate FromRegistration(log: seq<Event>, cred: Credential, i: nat, j: nat) {
    && i < j <= |log|
    && log[i].Registered? && log[i].cred.(signCount := 0) == cred.(signCount := 0)
    && forall k | i < k < j :: !Changes(log[k], cred.id)
  }

  ghost predicate CredentialsTraced(s: System) {
    forall id | id in s.creds ::
      && s.creds[id].id == id && id in s.history.registrationOf
      && FromRegistration(s.log, s.creds[id], s.history.registrationOf[id], |s.log|)
  }

  /** An accepted assertion, waiting for its counter to be stored. */
  ghost predicate HoldsLogin(s: System, t: nat) {
    t in s.threads && s.threads[t].phase.ToUpdate? && s.threads[t].req.LoginRequest?
  }

  /** The lookup at entry `found` delivered `cred`, and the assertion was accepted against it. */
  ghost predicate Attested(
    chk: Checks, log: seq<Event>, req: AssertionRequest, cred: Credential, a: Assertion, registration: nat, found: nat)
  {
    && found < |log| && log[found] == Look(req.credId) && cred.id == req.credId
    && FromRegistration(log, cred, registration, found)
    && chk.assertion(req, cred) == Success(a)
  }

  ghost predicate LoginTraced(chk: Checks, s: System, t: nat)
    requires HoldsLogin(s, t)
  {
    var Thread(LoginRequest(req), ToUpdate(cred, a, registration, found)) := s.threads[t];
    Attested(chk, s.log, req, cred, a, registration, found)
  }

  ghost predicate LoggedInTraced(chk: Checks, log: seq<Event>, i: nat)
    requires i < |log| && log[i].LoggedIn?
  {
    var LoggedIn(req, result, cred, a, registration, found, _) := log[i];
    && found < i && result == LoginResult(cred.username, a.uvPerformed)
    && Attested(chk, log, req, cred, a, registration, found)
  }

  ghost predicate LoginsSafe(chk: Checks, s: System) {
    && CredentialsTraced(s)
    && (forall t | HoldsLogin(s, t) :: LoginTraced(chk, s, t))
    && (forall i | 0 <= i < |s.log| && s.log[i].LoggedIn? :: LoggedInTraced(chk, s.log, i))
  }

  /** A step that changes no credential, and no thread that holds one. */
  ghost predicate Inert(s: System, s': System) {
    && s'.creds == s.creds && s'.history.registrationOf == s.history.registrationOf
    && s.log <= s'.log
    && (forall k | |s.log| <= k < |s'.log| :: !s'.log[k].Registered? && !s'.log[k].Removed? && !s'.log[k].LoggedIn?)
    && (forall t | HoldsLogin(s', t) :: HoldsLogin(s, t) && s'.threads[t] == s.threads[t])
  }

  lemma AttestedGrows(chk: Checks, log: seq<Event>, log': seq<Event>, req: AssertionRequest, cred: Credential,
                      a: Assertion, registration: nat, found: nat)
    requires log <= log' && Attested(chk, log, req, cred, a, registration, found)
    ensures Attested(chk, log', req, cred, a, registration, found)
  {
    assert forall k | 0 <= k < |log| :: log'[k] == log[k];
  }

  /** What the log says stays said when it grows. */
  lemma LogGrows(chk: Checks, s: System, s': System)
    requires LoginsSafe(chk, s) && s.log <= s'.log
    ensures forall t | HoldsLogin(s, t) && HoldsLogin(s', t) && s'.threads[t] == s.threads[t] :: LoginTraced(chk, s', t)
    ensures forall i | 0 <= i < |s.log| && s'.log[i].LoggedIn? :: LoggedInTraced(chk, s'.log, i)
  {
    forall t | HoldsLogin(s, t) && HoldsLogin(s', t) && s'.threads[t] == s.threads[t]
      ensures LoginTraced(chk, s', t)
    {
      assert LoginTraced(chk, s, t);
      var Thread(LoginRequest(req), ToUpdate(cred, a, registration, found)) := s.threads[t];
      AttestedGrows(chk, s.log, s'.log, req, cred, a, registration, found);
    }
    forall i | 0 <= i < |s.log| && s'.log[i].LoggedIn?
      ensures LoggedInTraced(chk, s'.log, i)
    {
      assert s'.log[i] == s.log[i] && LoggedInTraced(chk, s.log, i);
      var LoggedIn(req, result, cred, a, registration, found, _) := s.log[i];
      AttestedGrows(chk, s.log, s'.log, req, cred, a, registration, found);
    }
  }

  lemma InertSafe(chk: Checks, s: System, s': System)
    requires LoginsSafe(chk, s) && Inert(s, s')
    ensures LoginsSafe(chk, s')
  {
    assert forall k | 0 <= k < |s.log| :: s'.log[k] == s.log[k];
    LogGrows(chk, s, s');
  }

  /** Safety after a step from: the credentials it leaves, the thread `t` it moved, and the entries it logged. */
  lemma Reassemble(chk: Checks, s: System, s': System, t: nat)
    requires LoginsSafe(chk, s) && s.log <= s'.log
    requires CredentialsTraced(s')
    requires forall u | HoldsLogin(s', u) && u != t :: HoldsLogin(s, u) && s'.threads[u] == s.threads[u]
    requires HoldsLogin(s', t) ==> LoginTraced(chk, s', t)
    requires forall i | |s.log| <= i < |s'.log| && s'.log[i].LoggedIn? :: LoggedInTraced(chk, s'.log, i)
    ensures LoginsSafe(chk, s')
  {
    LogGrows(chk, s, s');
  }

  lemma FindKeepsLogins(chk: Checks, s: System, t: nat, req: AssertionRequest, faults: Faults)
    requires LoginsSafe(chk, s) && t in s.threads && s.threads[t].req == LoginRequest(req)
    ensures LoginsSafe(chk, StepFind(chk, s, t, req, faults))
  {
    var s' := StepFind(chk, s, t, req, faults);
    QuietLogKeepsCredentials(s, s');
    FoundTraced(chk, s, t, req, faults);
    FindMovesOne(chk, s, t, req, faults);
    Reassemble(chk, s, s', t);
  }

  lemma FindMovesOne(chk: Checks, s: System, t: nat, req: AssertionRequest, faults: Faults)
    requires t in s.threads
    ensures var s' := StepFind(chk, s, t, req, faults);
            && s.log <= s'.log
            && (forall i | |s.log| <= i < |s'.log| :: s'.log[i].Look? || s'.log[i].Rejected?)
            && (forall u | HoldsLogin(s', u) && u != t :: HoldsLogin(s, u) && s'.threads[u] == s.threads[u])
  {
  }

  lemma QuietLogKeepsCredentials(s: System, s': System)
    requires CredentialsTraced(s) && s.log <= s'.log
    requires s'.creds == s.creds && s'.history.registrationOf == s.history.registrationOf
    requires forall k | |s.log| <= k < |s'.log| :: !s'.log[k].Registered? && !s'.log[k].Removed?
    ensures CredentialsTraced(s')
  {
    assert forall k | 0 <= k < |s.log| :: s'.log[k] == s.log[k];
  }

  lemma FoundTraced(chk: Checks, s: System, t: nat, req: AssertionRequest, faults: Faults)
    requires CredentialsTraced(s) && t in s.threads && s.threads[t].req == LoginRequest(req)
    ensures var s' := StepFind(chk, s, t, req, faults); HoldsLogin(s', t) ==> LoginTraced(chk, s', t)
  {
    var s' := StepFind(chk, s, t, req, faults);
    if HoldsLogin(s', t) {
      assert forall k | 0 <= k < |s.log| :: s'.log[k] == s.log[k];
    }
  }

  lemma UpdateKeepsLogins(chk: Checks, s: System, t: nat, faults: Faults)
    requires LoginsSafe(chk, s) && HoldsLogin(s, t)
    ensures LoginsSafe(chk, StepThread(chk, s, t, faults))
  {
    var Thread(LoginRequest(req), ToUpdate(cred, a, registration, found)) := s.threads[t];
    var s' := StepThread(chk, s, t, faults);
    UpdateKeepsCredentials(s, t, req, cred, a, registration, found, faults);
    assert LoginTraced(chk, s, t);
    AttestedGrows(chk, s.log, s'.log, req, cred, a, registration, found);
    Reassemble(chk, s, s', t);
  }

  lemma UpdateKeepsCredentials(s: System, t: nat, req: AssertionRequest, cred: Credential, a: Assertion,
                               registration: nat, found: nat, faults: Faults)
    requires CredentialsTraced(s) && t in s.threads
    ensures CredentialsTraced(StepUpdate(s, t, req, cred, a, registration, found, faults))
  {
    var s' := StepUpdate(s, t, req, cred, a, registration, found, faults);
    assert forall k | 0 <= k < |s.log| :: s'.log[k] == s.log[k];
  }

  lemma AddKeepsLogins(chk: Checks, s: System, t: nat, cred: Credential, faults: Faults)
    requires LoginsSafe(chk, s) && t in s.threads
    ensures LoginsSafe(chk, StepAdd(s, t, cred, faults))
  {
    AddKeepsCredentials(s, t, cred, faults);
    Reassemble(chk, s, StepAdd(s, t, cred, faults), t);
  }

  lemma AddKeepsCredentials(s: System, t: nat, cred: Credential, faults: Faults)
    requires CredentialsTraced(s) && t in s.threads
    ensures CredentialsTraced(StepAdd(s, t, cred, faults))
  {
    var s' := StepAdd(s, t, cred, faults);
    if WriteResult(Added(s.creds, cred, s.now), AlreadyRegistered, faults).Some? {
      QuietLogKeepsCredentials(s, s');
    } else {
      assert s'.log[|s.log|] == Registered(s'.creds[cred.id], t);
      forall other | other in s.creds
        ensures FromRegistration(s'.log, s.creds[other], s.history.registrationOf[other], |s'.log|)
      {
        assert !Changes(s'.log[|s.log|], other);
        assert forall k | 0 <= k < |s.log| :: s'.log[k] == s.log[k];
      }
    }
  }

  lemma DeleteKeepsLogins(chk: Checks, s: System, id: bytes, faults: Faults)
    requires LoginsSafe(chk, s)
    ensures LoginsSafe(chk, StepDelete(s, id, faults))
  {
    DeleteKeepsCredentials(s, id, faults);
    LogGrows(chk, s, StepDelete(s, id, faults));
  }

  lemma DeleteKeepsCredentials(s: System, id: bytes, faults: Faults)
    requires CredentialsTraced(s)
    ensures CredentialsTraced(StepDelete(s, id, faults))
  {
    var s' := StepDelete(s, id, faults);
    if WriteResult(Store.Deleted(s.creds, id), NoSuchCredential, faults).Some? {
      QuietLogKeepsCredentials(s, s');
    } else {
      forall other | other in s'.creds
        ensures FromRegistration(s'.log, s.creds[other], s.history.registrationOf[other], |s'.log|)
      {
        assert other != id && !Changes(Removed(id), other);
        assert forall k | 0 <= k < |s.log| :: s'.log[k] == s.log[k];
      }
    }
  }

  lemma JudgeInert(chk: Checks, s: System, t: nat, claim: Claim, pc: Option<Pending>, issue: nat, take: nat)
    requires t in s.threads
    ensures Inert(s, StepJudge(chk, s, t, claim, pc, issue, take))
  {
    var s1 := Accepted(s, t, claim, issue, take);
    ChecksInert(chk, s1, t, claim);
  }

  lemma ChecksInert(chk: Checks, s: System, t: nat, claim: Claim)
    requires t in s.threads
    ensures Inert(s, StepChecks(chk, s, t, claim))
  {
  }

  lemma ThreadKeepsLogins(chk: Checks, s: System, t: nat, faults: Faults)
    requires LoginsSafe(chk, s) && t in s.threads
    ensures LoginsSafe(chk, StepThread(chk, s, t, faults))
  {
    var Thread(req, phase) := s.threads[t];
    match phase
    case ToTake(claim) => InertSafe(chk, s, StepTake(s, t, claim));
    case ToJudge(claim, pc, issue, take) =>
      JudgeInert(chk, s, t, claim, pc, issue, take);
      InertSafe(chk, s, StepJudge(chk, s, t, claim, pc, issue, take));
    case ToFind =>
      if req.LoginRequest? {
        FindKeepsLogins(chk, s, t, req.login, faults);
      }
    case ToUpdate(_, _, _, _) =>
      if req.LoginRequest? {
        UpdateKeepsLogins(chk, s, t, faults);
      }
    case ToAdd(cred) => AddKeepsLogins(chk, s, t, cred, faults);
    case Finished =>
  }

  lemma StepKeepsLogins(chk: Checks, s: System, a: Action)
    requires LoginsSafe(chk, s)
    ensures LoginsSafe(chk, Step(chk, s, a))
  {
    match a
    case Tick(elapsed) => InertSafe(chk, s, s.(now := s.now + elapsed));
    case IssueChallenge(key, challenge, elapsed) => InertSafe(chk, s, StepIssue(s, key, challenge, elapsed));
    case Start(t, req) =>
      if t !in s.threads {
        InertSafe(chk, s, StepStart(chk, s, t, req));
      }
    case Advance(t, faults) =>
      if t in s.threads {
        ThreadKeepsLogins(chk, s, t, faults);
      }
    case Delete(id, faults) => DeleteKeepsLogins(chk, s, id, faults);
  }

  lemma {:induction false} RunKeepsLogins(chk: Checks, actions: seq<Action>)
    ensures LoginsSafe(chk, Run(chk, actions))
  {
    if actions != [] {
      RunKeepsLogins(chk, actions[..|actions| - 1]);
      StepKeepsLogins(chk, Run(chk, actions[..|actions| - 1]), actions[|actions| - 1]);
    }
  }

  // ----- the real checks

  /** The assertion of `req` verifies under the key and algorithm that `cred` stores. */
  ghost predicate SignedUnder(srv: Server, req: AssertionRequest, cred: Credential) {
    && StoredKey(srv, cred).Success?
    && VerifySignature(srv.crypto, cred.algorithm, StoredKey(srv, cred).value.pub,
                       SignedOver(srv.crypto, req.authData, req.clientDataJson), req.sig) == None
  }

  /** The counter plays no part in reading back the stored key. */
  lemma SignedUnderSameKey(srv: Server, req: AssertionRequest, c: Credential, d: Credential)
    requires CheckAssertion(srv, req, c).Success? && c.(signCount := 0) == d.(signCount := 0)
    ensures SignedUnder(srv, req, d)
  {
    assert c.publicKey == c.(signCount := 0).publicKey == d.publicKey;
    assert c.algorithm == c.(signCount := 0).algorithm == d.algorithm;
  }

  /** In every run, a login as user U has an earlier registration by U of the attested credential ID, with no removal
      and no other registration of that ID before the lookup, and its signature verifies under the key and algorithm
      registered then, whatever the user name in the request; the count is held against the one seen at the lookup. */
  lemma LoginTraceable(srv: Server, actions: seq<Action>, i: nat)
    requires i < |Run(ServerChecks(srv), actions).log| && Run(ServerChecks(srv), actions).log[i].LoggedIn?
    ensures var log := Run(ServerChecks(srv), actions).log;
            var LoggedIn(req, result, seen, a, registration, found, _) := log[i];
            && registration < found < i
            && log[registration].Registered? && log[found] == Look(req.credId)
            && log[registration].cred.id == req.credId && log[registration].cred.username == result.username
            && (forall k | registration < k < found :: !Changes(log[k], req.credId))
            && SignedUnder(srv, req, log[registration].cred)
            && seen.(signCount := 0) == log[registration].cred.(signCount := 0)
            && !CounterRegresses(seen.signCount, a.count)
  {
    RunKeepsLogins(ServerChecks(srv), actions);
    var log := Run(ServerChecks(srv), actions).log;
    assert LoggedInTraced(ServerChecks(srv), log, i);
    var LoggedIn(req, result, cred, a, registration, found, _) := log[i];
    var registered := log[registration].cred;
    assert registered.id == registered.(signCount := 0).id == cred.id;
    assert registered.username == registered.(signCount := 0).username == cred.username;
    SignedUnderSameKey(srv, req, cred, registered);
  }
}
