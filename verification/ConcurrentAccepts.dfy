/** Over every run and every interleaving, each login and each registration used up an accepted challenge of its own. */
module ConcurrentAccepts {
  import opened ByteStrings
  import opened Policy
  import opened Challenge
  import opened Store
  import opened Ceremony
  import opened Concurrent
  import opened ConcurrentChallenges

  /** A ceremony that succeeded. */
  predicate Completion(e: Event) { e.LoggedIn? || e.Registered? }

  /** The key of the challenge that a success must have consumed. */
  function KeyOf(e: Event): PendingKey
    requires Completion(e)
  {
    if e.LoggedIn? then PendingKey(e.login.username, ForLogin) else PendingKey(e.cred.username, ForRegister)
  }

  /** A registration stores a credential for the user it names. */
  ghost predicate NamesKept(chk: Checks) {
    forall r, now :: chk.registration(r, now).Success? ==> chk.registration(r, now).value.username == r.username
  }

  /** The request registers this credential, under the user name it was sent for. */
  predicate Registers(req: Request, cred: Credential) {
    req.RegisterRequest? && req.registration.username == cred.username
  }

  /** The challenge of the thread has not been judged yet. */
  predicate Unjudged(phase: Phase) { phase.ToTake? || phase.ToJudge? }

  /** Log entry `a` is the acceptance of this thread's challenge, under the key of its request. */
  ghost predicate AcceptedAt(s: System, t: nat, a: nat) {
    t in s.threads && a < |s.log| && s.log[a].Accept? && s.log[a].thread == t && s.log[a].key == s.threads[t].req.Key()
  }

  ghost predicate AcceptsOwned(s: System) {
    && (forall a | 0 <= a < |s.log| && s.log[a].Accept? ::
          var t := s.log[a].thread;
          AcceptedAt(s, t, a) && !Unjudged(s.threads[t].phase) && t in s.history.acceptOf && s.history.acceptOf[t] == a)
    && (forall t | t in s.threads && !Unjudged(s.threads[t].phase) && !s.threads[t].phase.Finished? ::
          t in s.history.acceptOf && AcceptedAt(s, t, s.history.acceptOf[t]))
  }

  ghost predicate CompletionsOwned(s: System) {
    && (forall i | 0 <= i < |s.log| && Completion(s.log[i]) ::
          var t := s.log[i].thread;
          t in s.threads && s.threads[t].phase.Finished? && t in s.history.acceptOf && s.history.acceptOf[t] < i
          && AcceptedAt(s, t, s.history.acceptOf[t])
          && s.threads[t].req.Key() == KeyOf(s.log[i]))
    && (forall i, j | 0 <= i < j < |s.log| && Completion(s.log[i]) && Completion(s.log[j]) ::
          s.log[i].thread != s.log[j].thread)
    && (forall t | t in s.threads && s.threads[t].phase.ToUpdate? :: s.threads[t].req.LoginRequest?)
    && (forall t | t in s.threads && s.threads[t].phase.ToAdd? :: Registers(s.threads[t].req, s.threads[t].phase.cred))
  }

  ghost predicate Owned(s: System) { AcceptsOwned(s) && CompletionsOwned(s) }

  /** A step of thread `t` that accepts nothing and completes nothing. */
  ghost predicate Moves(s: System, s': System, t: nat) {
    && s.log <= s'.log && s'.history.acceptOf == s.history.acceptOf
    && (forall k | |s.log| <= k < |s'.log| :: !s'.log[k].Accept? && !Completion(s'.log[k]))
    && s'.threads.Keys == s.threads.Keys
    && (forall u | u in s.threads ::
          s'.threads[u].req == s.threads[u].req && (u != t ==> s'.threads[u] == s.threads[u]))
    && t in s.threads
    && !s.threads[t].phase.Finished?
    && (Unjudged(s'.threads[t].phase) ==> Unjudged(s.threads[t].phase))
    && (!Unjudged(s'.threads[t].phase) && !s'.threads[t].phase.Finished? ==> !Unjudged(s.threads[t].phase))
    && (s'.threads[t].phase.ToUpdate? ==> s.threads[t].req.LoginRequest?)
    && !s'.threads[t].phase.ToAdd?
  }

  lemma MovesOwned(s: System, s': System, t: nat)
    requires Owned(s) && Moves(s, s', t)
    ensures Owned(s')
  {
    assert forall k | 0 <= k < |s.log| :: s'.log[k] == s.log[k];
  }

  /** A step that changes no thread and logs nothing that counts. */
  ghost predicate Idle(s: System, s': System) {
    && s.log <= s'.log && s'.history.acceptOf == s.history.acceptOf && s'.threads == s.threads
    && (forall k | |s.log| <= k < |s'.log| :: !s'.log[k].Accept? && !Completion(s'.log[k]))
  }

  lemma IdleOwned(s: System, s': System)
    requires Owned(s) && Idle(s, s')
    ensures Owned(s')
  {
    assert forall k | 0 <= k < |s.log| :: s'.log[k] == s.log[k];
  }

  /** A new thread that accepts nothing and completes nothing. */
  ghost predicate Joins(s: System, s': System, t: nat) {
    && s.log <= s'.log && s'.history.acceptOf == s.history.acceptOf
    && (forall k | |s.log| <= k < |s'.log| :: !s'.log[k].Accept? && !Completion(s'.log[k]))
    && t !in s.threads && s'.threads.Keys == s.threads.Keys + {t}
    && (forall u | u in s.threads :: s'.threads[u] == s.threads[u])
    && (s'.threads[t].phase.ToTake? || s'.threads[t].phase.Finished?)
  }

  lemma JoinsOwned(s: System, s': System, t: nat)
    requires Owned(s) && Joins(s, s', t)
    ensures Owned(s')
  {
    assert forall k | 0 <= k < |s.log| :: s'.log[k] == s.log[k];
  }

  lemma StartJoins(chk: Checks, s: System, t: nat, req: Request)
    requires t !in s.threads
    ensures Joins(s, StepStart(chk, s, t, req), t)
  {
  }

  /** Where a thread may be after its challenge was accepted. */
  predicate Follows(req: Request, phase: Phase) {
    phase == Finished || (phase == ToFind && req.LoginRequest?) || (phase.ToAdd? && Registers(req, phase.cred))
  }

  lemma AcceptKeepsAccepts(s: System, t: nat, claim: Claim, issue: nat, take: nat, phase: Phase)
    requires Owned(s) && t in s.threads && Unjudged(s.threads[t].phase) && Follows(s.threads[t].req, phase)
    ensures AcceptsOwned(SetPhase(Accepted(s, t, claim, issue, take), t, phase))
  {
    var s' := SetPhase(Accepted(s, t, claim, issue, take), t, phase);
    assert forall k | 0 <= k < |s.log| :: s'.log[k] == s.log[k];
  }

  lemma AcceptKeepsCompletions(s: System, t: nat, claim: Claim, issue: nat, take: nat, phase: Phase)
    requires Owned(s) && t in s.threads && Unjudged(s.threads[t].phase) && Follows(s.threads[t].req, phase)
    ensures CompletionsOwned(SetPhase(Accepted(s, t, claim, issue, take), t, phase))
  {
    var s' := SetPhase(Accepted(s, t, claim, issue, take), t, phase);
    assert forall k | 0 <= k < |s.log| :: s'.log[k] == s.log[k];
  }

  lemma AcceptOwned(s: System, t: nat, claim: Claim, issue: nat, take: nat, phase: Phase)
    requires Owned(s) && t in s.threads && Unjudged(s.threads[t].phase) && Follows(s.threads[t].req, phase)
    ensures Owned(SetPhase(Accepted(s, t, claim, issue, take), t, phase))
  {
    AcceptKeepsAccepts(s, t, claim, issue, take, phase);
    AcceptKeepsCompletions(s, t, claim, issue, take, phase);
  }

  lemma CompleteOwned(s: System, s': System, t: nat, e: Event)
    requires Owned(s) && t in s.threads && (s.threads[t].phase.ToUpdate? || s.threads[t].phase.ToAdd?)
    requires Completion(e) && e.thread == t && s.threads[t].req.Key() == KeyOf(e)
    requires s'.log == s.log + [e] && s'.history.acceptOf == s.history.acceptOf
    requires s'.threads == s.threads[t := s.threads[t].(phase := Finished)]
    ensures Owned(s')
  {
    assert forall k | 0 <= k < |s.log| :: s'.log[k] == s.log[k];
  }

  lemma JudgeOwned(chk: Checks, s: System, t: nat, claim: Claim, pc: Option<Pending>, issue: nat, take: nat)
    requires NamesKept(chk) && Owned(s) && t in s.threads && Unjudged(s.threads[t].phase)
    ensures Owned(StepJudge(chk, s, t, claim, pc, issue, take))
  {
    match Judge(pc, claim.challenge, s.now)
    case Some(e) =>
      RejectMoves(s, t, e);
      MovesOwned(s, Reject(s, t, e), t);
    case None =>
      var s' := StepJudge(chk, s, t, claim, pc, issue, take);
      var phase := s'.threads[t].phase;
      var s1 := SetPhase(Accepted(s, t, claim, issue, take), t, phase);
      AcceptOwned(s, t, claim, issue, take, phase);
      assert Idle(s1, s');
      IdleOwned(s1, s');
  }

  lemma RejectMoves(s: System, t: nat, e: Error)
    requires t in s.threads && !s.threads[t].phase.Finished?
    ensures Moves(s, Reject(s, t, e), t)
  {
  }

  lemma FindMoves(chk: Checks, s: System, t: nat, req: AssertionRequest, faults: Faults)
    requires t in s.threads && s.threads[t] == Thread(LoginRequest(req), ToFind)
    ensures Moves(s, StepFind(chk, s, t, req, faults), t)
  {
  }

  lemma UpdateOwned(s: System, t: nat, faults: Faults)
    requires Owned(s) && t in s.threads && s.threads[t].phase.ToUpdate? && s.threads[t].req.LoginRequest?
    ensures var Thread(LoginRequest(req), ToUpdate(cred, a, registration, found)) := s.threads[t];
            Owned(StepUpdate(s, t, req, cred, a, registration, found, faults))
  {
    var Thread(LoginRequest(req), ToUpdate(cred, a, registration, found)) := s.threads[t];
    var s' := StepUpdate(s, t, req, cred, a, registration, found, faults);
    match WriteResult(CountUpdated(s.creds, req.credId, a.count), NoSuchCredential, faults)
    case Some(e) =>
      RejectMoves(s, t, e);
      MovesOwned(s, s', t);
    case None => CompleteOwned(s, s', t, s'.log[|s.log|]);
  }

  lemma AddOwned(s: System, t: nat, cred: Credential, faults: Faults)
    requires Owned(s) && t in s.threads && s.threads[t].phase == ToAdd(cred)
    ensures Owned(StepAdd(s, t, cred, faults))
  {
    var s' := StepAdd(s, t, cred, faults);
    match WriteResult(Added(s.creds, cred, s.now), AlreadyRegistered, faults)
    case Some(e) =>
      RejectMoves(s, t, e);
      MovesOwned(s, s', t);
    case None => CompleteOwned(s, s', t, s'.log[|s.log|]);
  }

  lemma ThreadOwned(chk: Checks, s: System, t: nat, faults: Faults)
    requires NamesKept(chk) && Owned(s) && t in s.threads
    ensures Owned(StepThread(chk, s, t, faults))
  {
    var Thread(req, phase) := s.threads[t];
    match phase
    case ToTake(claim) => MovesOwned(s, StepTake(s, t, claim), t);
    case ToJudge(claim, pc, issue, take) => JudgeOwned(chk, s, t, claim, pc, issue, take);
    case ToFind =>
      if req.LoginRequest? {
        FindMoves(chk, s, t, req.login, faults);
        MovesOwned(s, StepFind(chk, s, t, req.login, faults), t);
      }
    case ToUpdate(_, _, _, _) =>
      if req.LoginRequest? {
        UpdateOwned(s, t, faults);
      }
    case ToAdd(cred) => AddOwned(s, t, cred, faults);
    case Finished =>
  }

  lemma StepOwned(chk: Checks, s: System, a: Action)
    requires NamesKept(chk) && Owned(s)
    ensures Owned(Step(chk, s, a))
  {
    match a
    case Advance(t, faults) =>
      if t in s.threads {
        ThreadOwned(chk, s, t, faults);
      }
    case Start(t, req) =>
      if t !in s.threads {
        StartJoins(chk, s, t, req);
        JoinsOwned(s, StepStart(chk, s, t, req), t);
      }
    case _ => IdleOwned(s, Step(chk, s, a));
  }

  lemma {:induction false} RunOwned(chk: Checks, actions: seq<Action>)
    requires NamesKept(chk)
    ensures Owned(Run(chk, actions))
  {
    if actions != [] {
      RunOwned(chk, actions[..|actions| - 1]);
      StepOwned(chk, Run(chk, actions[..|actions| - 1]), actions[|actions| - 1]);
    }
  }

  /** Log entry `i` issued the challenge for the key of the success at entry `c`, and the thread of `c` had it accepted
      before, as `AcceptTraced` says: taken once, untouched in between, in time. */
  ghost predicate PaidBy(log: seq<Event>, c: nat, i: nat)
    requires c < |log| && Completion(log[c])
  {
    && i < c && log[i].Issue? && log[i].key == KeyOf(log[c])
    && exists a :: i < a < c && log[a].Accept? && log[a].issue == i && log[a].thread == log[c].thread
                   && AcceptTraced(log, a)
  }

  /** The acceptance that pays for entry `c` is the one its thread owns. */
  lemma PaidThrough(s: System, c: nat, i: nat)
    requires Owned(s) && c < |s.log| && Completion(s.log[c]) && PaidBy(s.log, c, i)
    ensures s.log[c].thread in s.history.acceptOf
    ensures var a := s.history.acceptOf[s.log[c].thread];
            a < |s.log| && s.log[a].Accept? && s.log[a].issue == i && s.log[a].thread == s.log[c].thread
  {
    var a: nat :| i < a < c && s.log[a].Accept? && s.log[a].issue == i && s.log[a].thread == s.log[c].thread;
    assert s.history.acceptOf[s.log[c].thread] == a;
  }

  lemma SameIssueSameAccept(chk: Checks, actions: seq<Action>, a: nat, b: nat)
    requires var log := Run(chk, actions).log;
             a < |log| && b < |log| && log[a].Accept? && log[b].Accept? && log[a].issue == log[b].issue
    ensures a == b
  {
    AtMostOnce(chk, actions);
  }

  lemma PaysOnce(chk: Checks, actions: seq<Action>, c: nat, d: nat, i: nat)
    requires NamesKept(chk)
    requires var log := Run(chk, actions).log;
             && c < |log| && d < |log| && Completion(log[c]) && Completion(log[d])
             && PaidBy(log, c, i) && PaidBy(log, d, i)
    ensures c == d
  {
    var s := Run(chk, actions);
    RunOwned(chk, actions);
    PaidThrough(s, c, i);
    PaidThrough(s, d, i);
    SameIssueSameAccept(chk, actions, s.history.acceptOf[s.log[c].thread], s.history.acceptOf[s.log[d].thread]);
  }

  lemma Paid(chk: Checks, actions: seq<Action>, c: nat) returns (i: nat)
    requires NamesKept(chk) && c < |Run(chk, actions).log| && Completion(Run(chk, actions).log[c])
    ensures PaidBy(Run(chk, actions).log, c, i)
  {
    RunOwned(chk, actions);
    AtMostOnce(chk, actions);
    var s := Run(chk, actions);
    var a := s.history.acceptOf[s.log[c].thread];
    assert AcceptTraced(s.log, a) && s.log[a].thread == s.log[c].thread;
    i := s.log[a].issue;
  }

  /** In every run of the server each login and each registration is paid for by an earlier issue of a challenge for the
      same user and purpose, and no issue pays for two of them. */
  lemma SuccessesInjectToIssues(srv: Server, actions: seq<Action>)
    ensures var log := Run(ServerChecks(srv), actions).log;
            && (forall c | 0 <= c < |log| && Completion(log[c]) :: exists i :: 0 <= i < c && PaidBy(log, c, i))
            && (forall c, d, i | 0 <= c < |log| && 0 <= d < |log| && 0 <= i && Completion(log[c]) && Completion(log[d])
                  :: PaidBy(log, c, i) && PaidBy(log, d, i) ==> c == d)
  {
    var chk := ServerChecks(srv);
    ServerNamesKept(srv);
    var log := Run(chk, actions).log;
    forall c | 0 <= c < |log| && Completion(log[c])
      ensures exists i :: 0 <= i < c && PaidBy(log, c, i)
    {
      var i := Paid(chk, actions, c);
    }
    forall c, d, i | 0 <= c < |log| && 0 <= d < |log| && Completion(log[c]) && Completion(log[d]) && 0 <= i
                     && PaidBy(log, c, i) && PaidBy(log, d, i)
      ensures c == d
    {
      PaysOnce(chk, actions, c, d, i);
    }
  }

  lemma ServerNamesKept(srv: Server)
    ensures NamesKept(ServerChecks(srv))
  {
  }
}
