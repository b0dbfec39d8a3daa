/** Over every run and every interleaving, an issued challenge is used at most once. */
module ConcurrentChallenges {
  import opened ByteStrings
  import opened Policy
  import opened Challenge
  import opened Store
  import opened Ceremony
  import opened Concurrent

  predicate Touches(e: Event, key: PendingKey) {
    (e.Issue? || e.Take?) && e.key == key
  }

  /** Log entry `i` issued `pc` for `key`, and nothing before entry `j` touched that key again. */
  ghost predicate FromIssue(log: seq<Event>, key: PendingKey, pc: Pending, i: nat, j: nat) {
    && i < j <= |log|
    && log[i] == Issue(key, pc.challenge, pc.issuedAt)
    && forall k | i < k < j :: !Touches(log[k], key)
  }

  ghost predicate PendingTraced(s: System) {
    forall key | key in s.pending ::
      key in s.history.issueOf && FromIssue(s.log, key, s.pending[key], s.history.issueOf[key], |s.log|)
  }

  /** The take that a thread is waiting to have judged. */
  ghost predicate HoldsTake(s: System, t: nat) {
    t in s.threads && s.threads[t].phase.ToJudge?
  }

  ghost predicate TakeTraced(s: System, t: nat)
    requires HoldsTake(s, t)
  {
    var Thread(req, ToJudge(claim, pc, issue, take)) := s.threads[t];
    && take < |s.log| && s.log[take] == Take(req.Key())
    && (pc.Some? ==> FromIssue(s.log, req.Key(), pc.value, issue, take))
  }

  ghost predicate TakesTraced(s: System) {
    && (forall t | HoldsTake(s, t) :: TakeTraced(s, t))
    && (forall t, u | HoldsTake(s, t) && HoldsTake(s, u) && t != u ::
          s.threads[t].phase.take != s.threads[u].phase.take)
  }

  /** Entry `a` accepted the challenge that its `issue` entry issued for the same key: it was taken once, by its `take`
      entry, untouched since it was issued, and its age when judged was at most the lifetime. */
  ghost predicate AcceptTraced(log: seq<Event>, a: nat)
    requires a < |log| && log[a].Accept?
  {
    var Accept(key, challenge, at, issue, take, _) := log[a];
    && issue < take < a
    && log[issue].Issue? && log[issue].key == key && log[issue].challenge == challenge
    && log[take] == Take(key)
    && (forall k | issue < k < take :: !Touches(log[k], key))
    && at - log[issue].at <= 120_000_000_000
  }

  ghost predicate AcceptsTraced(s: System) {
    && (forall a | 0 <= a < |s.log| && s.log[a].Accept? :: AcceptTraced(s.log, a))
    && (forall a, b | 0 <= a < b < |s.log| && s.log[a].Accept? && s.log[b].Accept? :: s.log[a].take != s.log[b].take)
    && (forall a, t | 0 <= a < |s.log| && s.log[a].Accept? && HoldsTake(s, t) ::
          s.log[a].take != s.threads[t].phase.take)
  }

  ghost predicate ChallengesSafe(s: System) {
    PendingTraced(s) && TakesTraced(s) && AcceptsTraced(s)
  }

  /** A step that leaves challenges alone. */
  ghost predicate Quiet(s: System, s': System) {
    && s'.pending == s.pending && s'.history.issueOf == s.history.issueOf
    && s.log <= s'.log
    && (forall k | |s.log| <= k < |s'.log| :: !s'.log[k].Issue? && !s'.log[k].Take? && !s'.log[k].Accept?)
    && (forall t | HoldsTake(s', t) :: HoldsTake(s, t) && s'.threads[t] == s.threads[t])
  }

  lemma QuietSafe(s: System, s': System)
    requires ChallengesSafe(s) && Quiet(s, s')
    ensures ChallengesSafe(s')
  {
    assert forall k | 0 <= k < |s.log| :: s'.log[k] == s.log[k];
    forall t | HoldsTake(s', t)
      ensures TakeTraced(s', t)
    {
      assert TakeTraced(s, t);
    }
    forall a | 0 <= a < |s'.log| && s'.log[a].Accept?
      ensures AcceptTraced(s'.log, a)
    {
      assert AcceptTraced(s.log, a);
    }
  }

  lemma IssueKeepsPending(s: System, key: PendingKey, challenge: bytes, elapsed: nat)
    requires PendingTraced(s)
    ensures PendingTraced(StepIssue(s, key, challenge, elapsed))
  {
    var s' := StepIssue(s, key, challenge, elapsed);
    assert forall k | 0 <= k < |s.log| :: s'.log[k] == s.log[k];
  }

  lemma IssueSafe(s: System, key: PendingKey, challenge: bytes, elapsed: nat)
    requires ChallengesSafe(s)
    ensures ChallengesSafe(StepIssue(s, key, challenge, elapsed))
  {
    var s' := StepIssue(s, key, challenge, elapsed);
    IssueKeepsPending(s, key, challenge, elapsed);
    ElsewhereKept(s, s');
  }

  /** Threads and acceptances stay traced when the log grows by nothing that accepts. */
  lemma ElsewhereKept(s: System, s': System)
    requires TakesTraced(s) && AcceptsTraced(s)
    requires s.log <= s'.log && s'.threads == s.threads
    requires forall k | |s.log| <= k < |s'.log| :: !s'.log[k].Accept?
    ensures TakesTraced(s') && AcceptsTraced(s')
  {
    assert forall k | 0 <= k < |s.log| :: s'.log[k] == s.log[k];
    forall t | HoldsTake(s', t)
      ensures TakeTraced(s', t)
    {
      assert HoldsTake(s, t) && TakeTraced(s, t);
    }
    forall a | 0 <= a < |s'.log| && s'.log[a].Accept?
      ensures AcceptTraced(s'.log, a)
    {
      assert AcceptTraced(s.log, a);
    }
  }

  lemma TakeKeepsPending(s: System, t: nat, claim: Claim)
    requires ChallengesSafe(s) && t in s.threads
    ensures PendingTraced(StepTake(s, t, claim))
  {
    var s' := StepTake(s, t, claim);
    assert forall k | 0 <= k < |s.log| :: s'.log[k] == s.log[k];
  }

  lemma TakeKeepsTakes(s: System, t: nat, claim: Claim)
    requires ChallengesSafe(s) && t in s.threads && !HoldsTake(s, t)
    ensures TakesTraced(StepTake(s, t, claim))
  {
    var s' := StepTake(s, t, claim);
    assert forall k | 0 <= k < |s.log| :: s'.log[k] == s.log[k];
    forall u | HoldsTake(s', u)
      ensures TakeTraced(s', u)
      ensures u != t ==> HoldsTake(s, u) && s'.threads[u] == s.threads[u] && s.threads[u].phase.take < |s.log|
    {
      if u != t {
        assert HoldsTake(s, u) && TakeTraced(s, u);
      }
    }
  }

  lemma TakeKeepsAccepts(s: System, t: nat, claim: Claim)
    requires ChallengesSafe(s) && t in s.threads
    ensures AcceptsTraced(StepTake(s, t, claim))
  {
    var s' := StepTake(s, t, claim);
    assert forall k | 0 <= k < |s.log| :: s'.log[k] == s.log[k];
    forall a | 0 <= a < |s'.log| && s'.log[a].Accept?
      ensures AcceptTraced(s'.log, a) && s'.log[a].take < |s.log|
      ensures a < |s.log| && s'.log[a] == s.log[a]
    {
      assert AcceptTraced(s.log, a);
    }
    forall u | HoldsTake(s', u)
      ensures if u == t then s'.threads[u].phase.take == |s.log|
              else HoldsTake(s, u) && s'.threads[u] == s.threads[u]
    {
      assert u != t ==> HoldsTake(s, u);
    }
  }

  lemma AcceptedTraced(s: System, t: nat)
    requires HoldsTake(s, t) && TakeTraced(s, t)
    requires var ToJudge(claim, pc, _, _) := s.threads[t].phase; Judge(pc, claim.challenge, s.now) == None
    ensures var ToJudge(claim, _, issue, take) := s.threads[t].phase;
            AcceptTraced(Accepted(s, t, claim, issue, take).log, |s.log|)
  {
    var ToJudge(claim, _, issue, take) := s.threads[t].phase;
    assert forall k | 0 <= k < |s.log| :: Accepted(s, t, claim, issue, take).log[k] == s.log[k];
  }

  lemma AcceptTracedGrows(log: seq<Event>, log': seq<Event>, a: nat)
    requires log <= log' && a < |log| && log[a].Accept? && AcceptTraced(log, a)
    ensures log'[a] == log[a] && AcceptTraced(log', a)
  {
    assert forall k | 0 <= k < |log| :: log'[k] == log[k];
  }

  /** What a judging step leaves, from the acceptance it logs. */
  ghost predicate Judged(s: System, s': System, t: nat)
    requires HoldsTake(s, t)
  {
    var Thread(req, ToJudge(claim, pc, issue, take)) := s.threads[t];
    && Judge(pc, claim.challenge, s.now) == None
    && Quiet(Accepted(s, t, claim, issue, take), s') && !HoldsTake(s', t)
  }

  lemma JudgeKeepsTakes(s: System, s': System, t: nat)
    requires ChallengesSafe(s) && HoldsTake(s, t) && Judged(s, s', t)
    ensures TakesTraced(s') && PendingTraced(s')
    ensures forall u | HoldsTake(s', u) :: HoldsTake(s, u) && s'.threads[u] == s.threads[u] && u != t
  {
    var Thread(req, ToJudge(claim, pc, issue, take)) := s.threads[t];
    var s1 := Accepted(s, t, claim, issue, take);
    assert forall k | 0 <= k < |s.log| :: s'.log[k] == s.log[k];
    assert s'.log[|s.log|] == s1.log[|s.log|];
    forall u | HoldsTake(s', u)
      ensures HoldsTake(s, u) && s'.threads[u] == s.threads[u] && u != t && TakeTraced(s', u)
    {
      assert HoldsTake(s1, u) && HoldsTake(s, u) && TakeTraced(s, u);
    }
  }

  lemma JudgeSafe(s: System, s': System, t: nat)
    requires ChallengesSafe(s) && HoldsTake(s, t) && Judged(s, s', t)
    ensures ChallengesSafe(s')
  {
    var Thread(req, ToJudge(claim, pc, issue, take)) := s.threads[t];
    var s1 := Accepted(s, t, claim, issue, take);
    JudgeKeepsTakes(s, s', t);
    assert TakeTraced(s, t);
    assert s'.log[|s.log|] == s1.log[|s.log|];
    forall a | 0 <= a < |s'.log| && s'.log[a].Accept?
      ensures AcceptTraced(s'.log, a)
      ensures a == |s.log| || (a < |s.log| && s.log[a].Accept? && s'.log[a] == s.log[a])
    {
      if a < |s.log| {
        assert s'.log[a] == s1.log[a] == s.log[a];
        AcceptTracedGrows(s.log, s'.log, a);
      } else {
        AcceptedTraced(s, t);
        AcceptTracedGrows(s1.log, s'.log, a);
      }
    }
  }

  lemma StepSafe(chk: Checks, s: System, a: Action)
    requires ChallengesSafe(s)
    ensures ChallengesSafe(Step(chk, s, a))
  {
    match a
    case IssueChallenge(key, challenge, elapsed) => IssueSafe(s, key, challenge, elapsed);
    case Advance(t, faults) =>
      if t in s.threads {
        ThreadSafe(chk, s, t, faults);
      }
    case Tick(elapsed) => QuietSafe(s, s.(now := s.now + elapsed));
    case Start(t, req) =>
      if t !in s.threads {
        StartQuiet(chk, s, t, req);
        QuietSafe(s, StepStart(chk, s, t, req));
      }
    case Delete(id, faults) =>
      DeleteQuiet(s, id, faults);
      QuietSafe(s, StepDelete(s, id, faults));
  }

  lemma StartQuiet(chk: Checks, s: System, t: nat, req: Request)
    requires t !in s.threads
    ensures Quiet(s, StepStart(chk, s, t, req))
  {
  }

  lemma DeleteQuiet(s: System, id: bytes, faults: Faults)
    ensures Quiet(s, StepDelete(s, id, faults))
  {
  }

  lemma ThreadSafe(chk: Checks, s: System, t: nat, faults: Faults)
    requires ChallengesSafe(s) && t in s.threads
    ensures ChallengesSafe(StepThread(chk, s, t, faults))
  {
    match s.threads[t].phase
    case ToTake(claim) =>
      TakeKeepsPending(s, t, claim);
      TakeKeepsTakes(s, t, claim);
      TakeKeepsAccepts(s, t, claim);
    case ToJudge(claim, pc, issue, take) =>
      var s1 := Accepted(s, t, claim, issue, take);
      if Judge(pc, claim.challenge, s.now) == None {
        ChecksQuiet(chk, s1, t, claim);
        JudgeSafe(s, StepChecks(chk, s1, t, claim), t);
      } else {
        RejectQuiet(s, t, Judge(pc, claim.challenge, s.now).value);
        QuietSafe(s, StepThread(chk, s, t, faults));
      }
    case _ =>
      StoreStepQuiet(chk, s, t, faults);
      QuietSafe(s, StepThread(chk, s, t, faults));
  }

  lemma RejectQuiet(s: System, t: nat, e: Error)
    requires t in s.threads
    ensures Quiet(s, Reject(s, t, e)) && !HoldsTake(Reject(s, t, e), t)
  {
  }

  lemma ChecksQuiet(chk: Checks, s: System, t: nat, claim: Claim)
    requires t in s.threads
    ensures Quiet(s, StepChecks(chk, s, t, claim)) && !HoldsTake(StepChecks(chk, s, t, claim), t)
  {
  }

  lemma StoreStepQuiet(chk: Checks, s: System, t: nat, faults: Faults)
    requires t in s.threads && !s.threads[t].phase.ToTake? && !s.threads[t].phase.ToJudge?
    ensures Quiet(s, StepThread(chk, s, t, faults))
  {
    var Thread(req, phase) := s.threads[t];
    match phase
    case ToFind =>
      if req.LoginRequest? {
        FindQuiet(chk, s, t, req.login, faults);
      }
    case ToUpdate(cred, a, registration, found) =>
      if req.LoginRequest? {
        UpdateQuiet(s, t, req.login, cred, a, registration, found, faults);
      }
    case ToAdd(cred) => AddQuiet(s, t, cred, faults);
    case Finished =>
  }

  lemma FindQuiet(chk: Checks, s: System, t: nat, req: AssertionRequest, faults: Faults)
    requires t in s.threads
    ensures Quiet(s, StepFind(chk, s, t, req, faults))
  {
  }

  lemma UpdateQuiet(s: System, t: nat, req: AssertionRequest, cred: Credential, a: Assertion,
                    registration: nat, found: nat, faults: Faults)
    requires t in s.threads
    ensures Quiet(s, StepUpdate(s, t, req, cred, a, registration, found, faults))
  {
  }

  lemma AddQuiet(s: System, t: nat, cred: Credential, faults: Faults)
    requires t in s.threads
    ensures Quiet(s, StepAdd(s, t, cred, faults))
  {
  }

  lemma {:induction false} RunSafe(chk: Checks, actions: seq<Action>)
    ensures ChallengesSafe(Run(chk, actions))
  {
    if actions != [] {
      RunSafe(chk, actions[..|actions| - 1]);
      StepSafe(chk, Run(chk, actions[..|actions| - 1]), actions[|actions| - 1]);
    }
  }

  /** In every run, every accepted challenge is traced to an issue of the same key and bytes, taken once and untouched
      in between, within its lifetime; and no issue is accepted twice. */
  lemma AtMostOnce(chk: Checks, actions: seq<Action>)
    ensures var log := Run(chk, actions).log;
            && (forall a | 0 <= a < |log| && log[a].Accept? :: AcceptTraced(log, a))
            && (forall a, b | 0 <= a < b < |log| && log[a].Accept? && log[b].Accept? :: log[a].issue != log[b].issue)
  {
    RunSafe(chk, actions);
    var log := Run(chk, actions).log;
    forall a, b | 0 <= a < b < |log| && log[a].Accept? && log[b].Accept?
      ensures log[a].issue != log[b].issue
    {
      assert AcceptTraced(log, a) && AcceptTraced(log, b);
      assert Touches(log[log[a].take], log[a].key) && Touches(log[log[b].take], log[b].key);
    }
  }
}
