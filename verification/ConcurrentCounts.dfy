/** The signature counter under every interleaving: when a login overwrites a count that its own must not follow, and
    when the counts of a credential strictly increase. */
module ConcurrentCounts {
  import opened ByteStrings
  import opened Policy
  import opened Store
  import opened Ceremony
  import opened Concurrent
  import opened ConcurrentLogins

  // ----- counts in the log

  /** The entry wrote the credential: it was registered, logged in with, or removed. */
  predicate Writes(e: Event, id: bytes) {
    Changes(e, id) || (e.LoggedIn? && e.login.credId == id)
  }

  /** The count that a write leaves behind; a removal leaves none. */
  function CountLeft(e: Event): Option<nat> {
    match e
    case Registered(cred, _) => Some(cred.signCount)
    case LoggedIn(_, _, _, a, _, _, _) => Some(a.count)
    case _ => None
  }

  /** The last entry before entry `j` that wrote the credential. */
  function LastWrite(log: seq<Event>, id: bytes, j: nat): (w: Option<nat>)
    requires j <= |log|
    ensures w.Some? ==> w.value < j && Writes(log[w.value], id) && forall k | w.value < k < j :: !Writes(log[k], id)
    ensures w.None? ==> forall k | 0 <= k < j :: !Writes(log[k], id)
  {
    if j == 0 then None
    else if Writes(log[j - 1], id) then Some(j - 1)
    else LastWrite(log, id, j - 1)
  }

  /** The count that the log says is stored just before entry `j`. */
  function LoggedCount(log: seq<Event>, id: bytes, j: nat): Option<nat>
    requires j <= |log|
  {
    match LastWrite(log, id, j)
    case None => None
    case Some(w) => CountLeft(log[w])
  }

  lemma {:induction false} LastWriteGrows(log: seq<Event>, log': seq<Event>, id: bytes, j: nat)
    requires log <= log' && j <= |log|
    ensures LastWrite(log', id, j) == LastWrite(log, id, j)
    ensures LoggedCount(log', id, j) == LoggedCount(log, id, j)
  {
    if j > 0 {
      assert log'[j - 1] == log[j - 1];
      LastWriteGrows(log, log', id, j - 1);
    }
  }

  lemma {:induction false} LastWriteSkips(log: seq<Event>, id: bytes, i: nat, j: nat)
    requires i <= j <= |log| && forall k | i <= k < j :: !Writes(log[k], id)
    ensures LastWrite(log, id, j) == LastWrite(log, id, i)
  {
    if i < j {
      LastWriteSkips(log, id, i, j - 1);
    }
  }

  // ----- the stored count is the logged one

  function StoredCount(s: System, id: bytes): Option<nat> {
    if id in s.creds then Some(s.creds[id].signCount) else None
  }

  ghost predicate CountsLogged(s: System) {
    forall id: bytes :: LoggedCount(s.log, id, |s.log|) == StoredCount(s, id)
  }

  /** The lookup at `found` saw the count stored then. */
  ghost predicate SeenAt(log: seq<Event>, id: bytes, found: nat, seen: Credential) {
    found < |log| && LoggedCount(log, id, found) == Some(seen.signCount)
  }

  ghost predicate HoldsSeen(s: System, t: nat)
    requires HoldsLogin(s, t)
  {
    SeenAt(s.log, s.threads[t].req.login.credId, s.threads[t].phase.found, s.threads[t].phase.cred)
  }

  /** A login at entry `i` overwrote a count that was stored. */
  ghost predicate Overwrote(log: seq<Event>, i: nat)
    requires i < |log| && log[i].LoggedIn?
  {
    SeenAt(log, log[i].login.credId, log[i].found, log[i].cred) && LoggedCount(log, log[i].login.credId, i).Some?
  }

  ghost predicate CountsSafe(s: System) {
    && CountsLogged(s)
    && (forall t | HoldsLogin(s, t) :: HoldsSeen(s, t))
    && (forall i | 0 <= i < |s.log| && s.log[i].LoggedIn? :: Overwrote(s.log, i))
  }

  /** What a step leaves, from: the counts it leaves, the thread `t` it moved, and the entries it logged. */
  lemma AssembleCounts(s: System, s': System, t: nat)
    requires CountsSafe(s) && s.log <= s'.log && CountsLogged(s')
    requires forall u | HoldsLogin(s', u) && u != t :: HoldsLogin(s, u) && s'.threads[u] == s.threads[u]
    requires HoldsLogin(s', t) ==> HoldsSeen(s', t)
    requires forall i | |s.log| <= i < |s'.log| && s'.log[i].LoggedIn? :: Overwrote(s'.log, i)
    ensures CountsSafe(s')
  {
    forall u | HoldsLogin(s', u) && u != t
      ensures HoldsSeen(s', u)
    {
      assert HoldsSeen(s, u);
      LastWriteGrows(s.log, s'.log, s.threads[u].req.login.credId, s.threads[u].phase.found);
    }
    forall i | 0 <= i < |s.log| && s'.log[i].LoggedIn?
      ensures Overwrote(s'.log, i)
    {
      assert s'.log[i] == s.log[i] && Overwrote(s.log, i);
      LastWriteGrows(s.log, s'.log, s.log[i].login.credId, s.log[i].found);
      LastWriteGrows(s.log, s'.log, s.log[i].login.credId, i);
    }
  }

  /** Entries that write no credential leave the counts alone. */
  lemma QuietCounts(s: System, s': System)
    requires CountsLogged(s) && s'.creds == s.creds && s.log <= s'.log
    requires forall k, id | |s.log| <= k < |s'.log| :: !Writes(s'.log[k], id)
    ensures CountsLogged(s')
  {
    forall id: bytes
      ensures LoggedCount(s'.log, id, |s'.log|) == StoredCount(s', id)
    {
      LastWriteSkips(s'.log, id, |s.log|, |s'.log|);
      LastWriteGrows(s.log, s'.log, id, |s.log|);
    }
  }

  /** One entry that writes one credential, to what is stored afterwards. */
  lemma WrittenCounts(s: System, s': System, id: bytes)
    requires CountsLogged(s) && |s'.log| == |s.log| + 1 && s.log <= s'.log
    requires Writes(s'.log[|s.log|], id) && forall other | other != id :: !Writes(s'.log[|s.log|], other)
    requires CountLeft(s'.log[|s.log|]) == StoredCount(s', id)
    requires forall other: bytes | other != id :: StoredCount(s', other) == StoredCount(s, other)
    ensures CountsLogged(s')
  {
    forall other: bytes
      ensures LoggedCount(s'.log, other, |s'.log|) == StoredCount(s', other)
    {
      LastWriteGrows(s.log, s'.log, other, |s.log|);
    }
  }

  lemma InertCounts(s: System, s': System, t: nat)
    requires CountsSafe(s) && Inert(s, s')
    ensures CountsSafe(s')
  {
    QuietCounts(s, s');
    assert HoldsLogin(s', t) ==> HoldsLogin(s, t) && HoldsSeen(s, t);
    if HoldsLogin(s', t) {
      LastWriteGrows(s.log, s'.log, s.threads[t].req.login.credId, s.threads[t].phase.found);
    }
    AssembleCounts(s, s', t);
  }

  // ----- every step

  lemma FindCounts(chk: Checks, s: System, t: nat, req: AssertionRequest, faults: Faults)
    requires CountsSafe(s) && t in s.threads && s.threads[t].req == LoginRequest(req) && !HoldsLogin(s, t)
    ensures CountsSafe(StepFind(chk, s, t, req, faults))
  {
    var s' := StepFind(chk, s, t, req, faults);
    FindMovesOne(chk, s, t, req, faults);
    FindKeepsCredentials(chk, s, t, req, faults);
    QuietCounts(s, s');
    LastWriteGrows(s.log, s'.log, req.credId, |s.log|);
    AssembleCounts(s, s', t);
  }

  lemma FindKeepsCredentials(chk: Checks, s: System, t: nat, req: AssertionRequest, faults: Faults)
    requires t in s.threads && s.threads[t].req == LoginRequest(req) && !HoldsLogin(s, t)
    ensures var s' := StepFind(chk, s, t, req, faults);
            && s'.creds == s.creds
            && (HoldsLogin(s', t) ==>
                  && s'.threads[t].req.login == req && req.credId in s.creds
                  && s'.threads[t].phase.found == |s.log| < |s'.log|
                  && s'.threads[t].phase.cred == s.creds[req.credId])
  {
  }

  lemma UpdateCounts(chk: Checks, s: System, t: nat, faults: Faults)
    requires CountsSafe(s) && HoldsLogin(s, t)
    ensures CountsSafe(StepThread(chk, s, t, faults))
  {
    var Thread(LoginRequest(req), ToUpdate(cred, a, registration, found)) := s.threads[t];
    var s' := StepThread(chk, s, t, faults);
    UpdateMovesOne(s, t, req, cred, a, registration, found, faults);
    assert HoldsSeen(s, t);
    if s'.log[|s.log|].LoggedIn? {
      LoginCounts(s, s', s'.log[|s.log|]);
    } else {
      QuietCounts(s, s');
    }
    AssembleCounts(s, s', t);
  }

  lemma LoginCounts(s: System, s': System, e: Event)
    requires CountsLogged(s) && e.LoggedIn? && s'.log == s.log + [e]
    requires var id := e.login.credId;
             && SeenAt(s.log, id, e.found, e.cred)
             && id in s.creds && s'.creds == s.creds[id := s.creds[id].(signCount := e.assertion.count)]
    ensures CountsLogged(s') && Overwrote(s'.log, |s.log|)
  {
    var id := e.login.credId;
    LastWriteGrows(s.log, s'.log, id, e.found);
    LastWriteGrows(s.log, s'.log, id, |s.log|);
    assert StoredCount(s, id).Some?;
    WrittenCounts(s, s', id);
  }

  /** The update finishes its thread; it stores its count and logs a login, or changes nothing and logs an error. */
  lemma UpdateMovesOne(s: System, t: nat, req: AssertionRequest, cred: Credential, a: Assertion,
                       registration: nat, found: nat, faults: Faults)
    requires t in s.threads
    ensures var s' := StepUpdate(s, t, req, cred, a, registration, found, faults);
            && !HoldsLogin(s', t) && (forall u | u in s.threads && u != t :: s'.threads[u] == s.threads[u])
            && s'.threads.Keys == s.threads.Keys
            && |s'.log| == |s.log| + 1 && s.log <= s'.log
            && match s'.log[|s.log|]
               case Rejected(_) => s'.creds == s.creds
               case LoggedIn(r, _, c, b, _, f, _) =>
                 && r == req && c == cred && b == a && f == found
                 && req.credId in s.creds
                 && s'.creds == s.creds[req.credId := s.creds[req.credId].(signCount := a.count)]
               case _ => false
  {
  }

  lemma AddCounts(s: System, t: nat, cred: Credential, faults: Faults)
    requires CountsSafe(s) && t in s.threads
    ensures CountsSafe(StepAdd(s, t, cred, faults))
  {
    var s' := StepAdd(s, t, cred, faults);
    if WriteResult(Added(s.creds, cred, s.now), AlreadyRegistered, faults).Some? {
      QuietCounts(s, s');
    } else {
      WrittenCounts(s, s', cred.id);
    }
    AssembleCounts(s, s', t);
  }

  lemma DeleteCounts(s: System, id: bytes, faults: Faults)
    requires CountsSafe(s)
    ensures CountsSafe(StepDelete(s, id, faults))
  {
    var s' := StepDelete(s, id, faults);
    if WriteResult(Store.Deleted(s.creds, id), NoSuchCredential, faults).Some? {
      QuietCounts(s, s');
    } else {
      WrittenCounts(s, s', id);
    }
    forall t | HoldsLogin(s', t)
      ensures HoldsSeen(s', t)
    {
      assert HoldsLogin(s, t) && HoldsSeen(s, t);
      LastWriteGrows(s.log, s'.log, s.threads[t].req.login.credId, s.threads[t].phase.found);
    }
    AssembleCounts(s, s', 0);
  }

  lemma ThreadCounts(chk: Checks, s: System, t: nat, faults: Faults)
    requires CountsSafe(s) && t in s.threads
    ensures CountsSafe(StepThread(chk, s, t, faults))
  {
    var Thread(req, phase) := s.threads[t];
    match phase
    case ToTake(claim) => InertCounts(s, StepTake(s, t, claim), t);
    case ToJudge(claim, pc, issue, take) =>
      JudgeInert(chk, s, t, claim, pc, issue, take);
      InertCounts(s, StepJudge(chk, s, t, claim, pc, issue, take), t);
    case ToFind =>
      if req.LoginRequest? {
        FindCounts(chk, s, t, req.login, faults);
      }
    case ToUpdate(_, _, _, _) =>
      if req.LoginRequest? {
        UpdateCounts(chk, s, t, faults);
      }
    case ToAdd(cred) => AddCounts(s, t, cred, faults);
    case Finished =>
  }

  lemma StepCounts(chk: Checks, s: System, a: Action)
    requires CountsSafe(s)
    ensures CountsSafe(Step(chk, s, a))
  {
    match a
    case Tick(elapsed) => InertCounts(s, s.(now := s.now + elapsed), 0);
    case IssueChallenge(key, challenge, elapsed) => InertCounts(s, StepIssue(s, key, challenge, elapsed), 0);
    case Start(t, req) =>
      if t !in s.threads {
        InertCounts(s, StepStart(chk, s, t, req), t);
      }
    case Advance(t, faults) =>
      if t in s.threads {
        ThreadCounts(chk, s, t, faults);
      }
    case Delete(id, faults) => DeleteCounts(s, id, faults);
  }

  /** In every run the count stored for a credential is the one that the last write in the log left. */
  lemma {:induction false} RunCounts(chk: Checks, actions: seq<Action>)
    ensures CountsSafe(Run(chk, actions))
  {
    if actions != [] {
      RunCounts(chk, actions[..|actions| - 1]);
      StepCounts(chk, Run(chk, actions[..|actions| - 1]), actions[|actions| - 1]);
    }
  }

  // ----- the counter rule

  /** Entry `i`, a login, overwrote a count that its own must not follow. */
  predicate Regressed(log: seq<Event>, i: nat)
    requires i < |log| && log[i].LoggedIn?
  {
    var before := LoggedCount(log, log[i].login.credId, i);
    before.Some? && CounterRegresses(before.value, log[i].assertion.count)
  }

  /** Another write of the credential came between the lookup and the update of the login at entry `i`. */
  predicate Overtaken(log: seq<Event>, i: nat)
    requires i < |log| && log[i].LoggedIn?
  {
    var w := LastWrite(log, log[i].login.credId, i);
    w.Some? && w.value > log[i].found
  }

  /** In every run, whatever the interleaving, a login regresses against the count it overwrites exactly when the last
      write before it came after its lookup and left a count at least as large as its own, which is not zero. */
  lemma RegressedExact(srv: Server, actions: seq<Action>, i: nat)
    requires i < |Run(ServerChecks(srv), actions).log| && Run(ServerChecks(srv), actions).log[i].LoggedIn?
    ensures var log := Run(ServerChecks(srv), actions).log;
            var w := LastWrite(log, log[i].login.credId, i);
            && w.Some? && CountLeft(log[w.value]).Some?
            && (Regressed(log, i) <==>
                  w.value > log[i].found && 0 < log[i].assertion.count <= CountLeft(log[w.value]).value)
  {
    var log := Run(ServerChecks(srv), actions).log;
    var id, found := log[i].login.credId, log[i].found;
    RunCounts(ServerChecks(srv), actions);
    LoginTraceable(srv, actions, i);
    assert Overwrote(log, i);
    var w := LastWrite(log, id, i).value;
    if w <= found {
      assert forall k | found <= k < i :: !Writes(log[k], id) by {
        assert w != found;
      }
      LastWriteSkips(log, id, found, i);
    }
  }

  /** Entry `j` logged in with the credential, its count is not zero, and no write came between its lookup and it. */
  predicate InOrder(log: seq<Event>, id: bytes, j: nat)
    requires j < |log| && Writes(log[j], id)
  {
    log[j].LoggedIn? && log[j].assertion.count != 0 && !Overtaken(log, j)
  }

  /** The counter discipline for every interleaving: from a write that left a count other than zero on, the counts of a
      credential strictly increase as long as each write is a login with a count other than zero and no other write
      comes between its lookup and its update. Requests for other credentials, lookups and checks may overlap freely. */
  lemma {:induction false} InterleavedDiscipline(srv: Server, actions: seq<Action>, id: bytes, i: nat, j: nat)
    requires i < j < |Run(ServerChecks(srv), actions).log|
    requires var log := Run(ServerChecks(srv), actions).log;
             && Writes(log[i], id) && CountLeft(log[i]).Some? && CountLeft(log[i]).value != 0
             && Writes(log[j], id) && forall k | i < k <= j && Writes(log[k], id) :: InOrder(log, id, k)
    ensures var log := Run(ServerChecks(srv), actions).log;
            CountLeft(log[i]).value < CountLeft(log[j]).value
    decreases j
  {
    var log := Run(ServerChecks(srv), actions).log;
    assert InOrder(log, id, j) && log[j].login.credId == id;
    RegressedExact(srv, actions, j);
    var w := LastWrite(log, id, j).value;
    assert w >= i;
    if w > i {
      InterleavedDiscipline(srv, actions, id, i, w);
    }
  }
}
