/** One request that runs without interruption does what the sequential ceremonies say; two that overlap need not. */
module ConcurrentSerial {
  import opened ByteStrings
  import opened Policy
  import opened Challenge
  import opened Store
  import opened Ceremony
  import opened Concurrent

  function Resume(chk: Checks, s: System, t: nat, faults: Faults): System { Step(chk, s, Advance(t, faults)) }

  /** A new thread run to its end: take, judge, look up, store. */
  function Serial(chk: Checks, s: System, t: nat, req: Request, findFaults: Faults, saveFaults: Faults): System {
    var judged := Resume(chk, Resume(chk, Step(chk, s, Start(t, req)), t, NO_FAULTS), t, NO_FAULTS);
    Resume(chk, Resume(chk, judged, t, findFaults), t, saveFaults)
  }

  function Forget(s: System): State { State(s.pending, s.creds) }

  /** The last log entry reports this result. */
  predicate Reports(s: System, r: Result<LoginResult, Error>) {
    && s.log != []
    && match r
       case Failure(e) => s.log[|s.log| - 1] == Rejected(e)
       case Success(result) => s.log[|s.log| - 1].LoggedIn? && s.log[|s.log| - 1].result == result
  }

  lemma SerialTail(chk: Checks, s: System, t: nat, req: AssertionRequest, findFails: bool, faults: Faults)
    requires t in s.threads && s.threads[t] == Thread(LoginRequest(req), ToFind)
    ensures var s' := Resume(chk, Resume(chk, s, t, Faults(findFails, {})), t, faults);
            var (r, creds) := LoginTail(chk.assertion, s.creds, req, findFails, faults);
            s'.creds == creds && s'.pending == s.pending && Reports(s', r)
  {
    var s1 := Resume(chk, s, t, Faults(findFails, {}));
    if s1.threads[t].phase.Finished? {
      FinishedStays(chk, s1, t, faults);
    } else {
      SerialUpdate(chk, s1, t, req, faults);
    }
  }

  lemma SerialUpdate(chk: Checks, s: System, t: nat, req: AssertionRequest, faults: Faults)
    requires t in s.threads && s.threads[t].req == LoginRequest(req) && s.threads[t].phase.ToUpdate?
    ensures var s', phase := Resume(chk, s, t, faults), s.threads[t].phase;
            var effect := CountUpdated(s.creds, req.credId, phase.assertion.count);
            && s'.pending == s.pending
            && match WriteResult(effect, NoSuchCredential, faults)
               case Some(e) => s'.creds == s.creds && Reports(s', Failure(e))
               case None =>
                 && s'.creds == effect.value
                 && Reports(s', Success(LoginResult(phase.cred.username, phase.assertion.uvPerformed)))
  {
  }

  lemma FinishedStays(chk: Checks, s: System, t: nat, faults: Faults)
    requires t in s.threads && s.threads[t].phase.Finished?
    ensures Resume(chk, s, t, faults) == s
  {
  }

  /** What `Login` does once its challenge and origin are accepted. */
  lemma LoginIsTail(srv: Server, s: State, req: AssertionRequest, judgedAt: int, findFails: bool, faults: Faults)
    requires ReadClientData(srv, req.clientDataJson, TYPE_GET).Success?
    requires var claim := ReadClientData(srv, req.clientDataJson, TYPE_GET).value;
             JudgeClaim(srv, Lookup(s.pending, PendingKey(req.username, ForLogin)), claim, judgedAt) == None
    ensures var (r, creds) := LoginTail(ServerChecks(srv).assertion, s.creds, req, findFails, faults);
            Login(srv, s, req, judgedAt, findFails, faults)
            == (r, State(Taken(s.pending, PendingKey(req.username, ForLogin)), creds))
  {
  }

  /** An uninterrupted login leaves the state that `Login` computes and reports what `Login` returns. */
  lemma SerialLogin(srv: Server, s: System, t: nat, req: AssertionRequest, findFails: bool, faults: Faults)
    requires t !in s.threads
    ensures var s' := Serial(ServerChecks(srv), s, t, LoginRequest(req), Faults(findFails, {}), faults);
            var (r, after) := Login(srv, Forget(s), req, s.now, findFails, faults);
            Forget(s') == after && Reports(s', r)
  {
    var chk := ServerChecks(srv);
    var s1 := Step(chk, s, Start(t, LoginRequest(req)));
    var s3 := Resume(chk, Resume(chk, s1, t, NO_FAULTS), t, NO_FAULTS);
    var data := ReadClientData(srv, req.clientDataJson, TYPE_GET);
    if data.Failure? {
      FinishedStays(chk, s1, t, NO_FAULTS);
    } else {
      SerialJudge(chk, s1, t, req, data.value);
      if s3.threads[t].phase.ToFind? {
        SerialTail(chk, s3, t, req, findFails, faults);
        LoginIsTail(srv, Forget(s), req, s.now, findFails, faults);
      }
    }
    if s3.threads[t].phase.Finished? {
      FinishedStays(chk, s3, t, Faults(findFails, {}));
      FinishedStays(chk, s3, t, faults);
    }
  }

  lemma SerialJudge(chk: Checks, s: System, t: nat, req: AssertionRequest, claim: Claim)
    requires t in s.threads && s.threads[t] == Thread(LoginRequest(req), ToTake(claim))
    ensures var s' := Resume(chk, Resume(chk, s, t, NO_FAULTS), t, NO_FAULTS);
            var key := PendingKey(req.username, ForLogin);
            && s'.creds == s.creds && s'.pending == Taken(s.pending, key) && t in s'.threads
            && match Verdict(chk.origin, Lookup(s.pending, key), claim, s.now)
               case Some(e) => s'.threads[t].phase.Finished? && Reports(s', Failure(e))
               case None => s'.threads[t] == Thread(LoginRequest(req), ToFind)
  {
  }

  /** The last log entry reports the outcome of a registration. */
  predicate ReportsRegistration(s: System, r: Option<Error>) {
    && s.log != []
    && match r
       case Some(e) => s.log[|s.log| - 1] == Rejected(e)
       case None => s.log[|s.log| - 1].Registered?
  }

  lemma SerialAdd(chk: Checks, s: System, t: nat, cred: Credential, faults: Faults)
    requires t in s.threads && s.threads[t].phase == ToAdd(cred)
    ensures var s' := Resume(chk, s, t, faults);
            && s'.pending == s.pending
            && match WriteResult(Added(s.creds, cred, s.now), AlreadyRegistered, faults)
               case Some(e) => s'.creds == s.creds && ReportsRegistration(s', Some(e))
               case None => s'.creds == Added(s.creds, cred, s.now).value && ReportsRegistration(s', None)
  {
  }

  lemma SerialRegisterJudge(chk: Checks, s: System, t: nat, req: RegistrationRequest, claim: Claim)
    requires t in s.threads && s.threads[t] == Thread(RegisterRequest(req), ToTake(claim))
    ensures var s' := Resume(chk, Resume(chk, s, t, NO_FAULTS), t, NO_FAULTS);
            var key := PendingKey(req.username, ForRegister);
            && s'.creds == s.creds && s'.pending == Taken(s.pending, key) && s'.now == s.now && t in s'.threads
            && match Verdict(chk.origin, Lookup(s.pending, key), claim, s.now)
               case Some(e) => s'.threads[t].phase.Finished? && ReportsRegistration(s', Some(e))
               case None =>
                 match chk.registration(req, s.now)
                 case Failure(e) => s'.threads[t].phase.Finished? && ReportsRegistration(s', Some(e))
                 case Success(cred) => s'.threads[t].phase == ToAdd(cred)
  {
  }

  /** An uninterrupted registration leaves the state that `Register` computes and reports what `Register` returns. */
  lemma SerialRegister(srv: Server, s: System, t: nat, req: RegistrationRequest, faults: Faults)
    requires t !in s.threads
    ensures var chk := ServerChecks(srv);
            var s1 := Step(chk, s, Start(t, RegisterRequest(req)));
            var judged := Resume(chk, Resume(chk, s1, t, NO_FAULTS), t, NO_FAULTS);
            var s' := Resume(chk, judged, t, faults);
            var (r, after) := Register(srv, Forget(s), req, s.now, s.now, faults);
            Forget(s') == after && ReportsRegistration(s', r)
  {
    var chk := ServerChecks(srv);
    var s1 := Step(chk, s, Start(t, RegisterRequest(req)));
    var s3 := Resume(chk, Resume(chk, s1, t, NO_FAULTS), t, NO_FAULTS);
    var data := ReadClientData(srv, req.clientDataJson, TYPE_CREATE);
    if data.Failure? {
      FinishedStays(chk, s1, t, NO_FAULTS);
    } else {
      SerialRegisterJudge(chk, s1, t, req, data.value);
    }
    if s3.threads[t].phase.Finished? {
      FinishedStays(chk, s3, t, faults);
    } else {
      SerialAdd(chk, s3, t, s3.threads[t].phase.cred, faults);
    }
  }

  /** Both requests look up the credential before either stores its count; `u` stores first. */
  function Overlapped(chk: Checks, s: System, t: nat, u: nat): System {
    var looked := Resume(chk, Resume(chk, s, t, NO_FAULTS), u, NO_FAULTS);
    Resume(chk, Resume(chk, looked, u, NO_FAULTS), t, NO_FAULTS)
  }

  /** Two overlapping logins with one credential: both assertions are accepted, the larger count is stored first, and
      the smaller one stays. */
  lemma OverlapRegresses(
    chk: Checks, s: System, t: nat, u: nat, r: AssertionRequest, q: AssertionRequest, a: Assertion, b: Assertion)
    requires t != u && t in s.threads && u in s.threads
    requires s.threads[t] == Thread(LoginRequest(r), ToFind) && s.threads[u] == Thread(LoginRequest(q), ToFind)
    requires r.credId == q.credId && r.credId in s.creds
    requires chk.assertion(r, s.creds[r.credId]) == Success(a) && chk.assertion(q, s.creds[r.credId]) == Success(b)
    requires 0 < a.count < b.count
    ensures var s' := Overlapped(chk, s, t, u);
            && |s'.log| == |s.log| + 4
            && s'.log[|s.log| + 2].LoggedIn? && s'.log[|s.log| + 2].login == q && s'.log[|s.log| + 2].assertion == b
            && s'.log[|s.log| + 3].LoggedIn? && s'.log[|s.log| + 3].login == r && s'.log[|s.log| + 3].assertion == a
            && s'.log[|s.log| + 3].found == |s.log|
            && r.credId in s'.creds && s'.creds[r.credId].signCount == a.count && CounterRegresses(b.count, a.count)
  {
    var s1 := Resume(chk, s, t, NO_FAULTS);
    var s2 := Resume(chk, s1, u, NO_FAULTS);
    var s3 := Resume(chk, s2, u, NO_FAULTS);
    assert s3.threads[t] == s1.threads[t];
  }
}
