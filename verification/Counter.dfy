/** Runs of ceremonies one at a time: what each may change, and the discipline of the signature counter. */
module Counter {
  import opened ByteStrings
  import opened Policy
  import opened Challenge
  import opened Store
  import opened Ceremony

  datatype Op =
    | IssueOp(key: PendingKey, challenge: bytes, purgedAt: int, issuedAt: int)
    | LoginOp(login: AssertionRequest, judgedAt: int, findFails: bool, faults: Faults)
    | RegisterOp(registration: RegistrationRequest, judgedAt: int, now: int, faults: Faults)
    | DeleteOp(id: bytes, faults: Faults)

  function Delete(s: State, id: bytes, faults: Faults): (Option<Error>, State) {
    var effect := Store.Deleted(s.creds, id);
    match WriteResult(effect, NoSuchCredential, faults)
    case Some(e) => (Some(e), s)
    case None => (None, s.(creds := effect.value))
  }

  function Apply(srv: Server, s: State, op: Op): State {
    match op
    case IssueOp(key, challenge, purgedAt, issuedAt) =>
      s.(pending := Issued(s.pending, key, challenge, purgedAt, issuedAt))
    case LoginOp(req, judgedAt, findFails, faults) => Login(srv, s, req, judgedAt, findFails, faults).1
    case RegisterOp(req, judgedAt, now, faults) => Register(srv, s, req, judgedAt, now, faults).1
    case DeleteOp(id, faults) => Delete(s, id, faults).1
  }

  const EMPTY := State(map[], map[])

  function Run(srv: Server, ops: seq<Op>): State {
    if ops == [] then EMPTY else Apply(srv, Run(srv, ops[..|ops| - 1]), ops[|ops| - 1])
  }

  // ----- what a ceremony may change

  /** A login that errs leaves the stored credentials alone; one that succeeds changes the count of the attested
      credential to the count the authenticator reported, and nothing else. */
  lemma LoginEffect(srv: Server, s: State, req: AssertionRequest, judgedAt: int, findFails: bool, faults: Faults)
    ensures var (r, s') := Login(srv, s, req, judgedAt, findFails, faults);
            && (r.Failure? ==> s'.creds == s.creds)
            && s'.pending == (if ReadClientData(srv, req.clientDataJson, "webauthn.get").Success?
                              then s.pending - {PendingKey(req.username, ForLogin)} else s.pending)
            && (r.Success? ==>
                  && req.credId in s.creds
                  && CheckAssertion(srv, req, s.creds[req.credId]).Success?
                  && var count := CheckAssertion(srv, req, s.creds[req.credId]).value.count;
                     s'.creds == s.creds[req.credId := s.creds[req.credId].(signCount := count)])
  {
  }

  lemma RegisterEffect(srv: Server, s: State, req: RegistrationRequest, judgedAt: int, now: int, faults: Faults)
    ensures var (r, s') := Register(srv, s, req, judgedAt, now, faults);
            && (r.Some? ==> s'.creds == s.creds)
            && s'.pending == (if ReadClientData(srv, req.clientDataJson, "webauthn.create").Success?
                              then s.pending - {PendingKey(req.username, ForRegister)} else s.pending)
            && (r.None? ==>
                  && CheckRegistration(srv, req, now).Success?
                  && var cred := CheckRegistration(srv, req, now).value;
                     cred.id !in s.creds && s'.creds == s.creds[cred.id := cred])
  {
  }

  /** The stored count is read by the counter rule and by nothing else. */
  lemma CountOnlyInRule(srv: Server, req: AssertionRequest, cred: Credential)
    ensures CheckAssertion(srv, req, cred) ==
            match CheckAssertion(srv, req, cred.(signCount := 0))
            case Failure(e) => Failure(e)
            case Success(a) =>
              if CounterRegresses(cred.signCount, a.count) then Failure(CounterRegression) else Success(a)
  {
  }

  // ----- the counter discipline

  /** The counts accepted for a credential since it was last registered, the registration's own count first. */
  function History(srv: Server, ops: seq<Op>, id: bytes): seq<nat> {
    if ops == [] then []
    else
      var before, s, op := History(srv, ops[..|ops| - 1], id), Run(srv, ops[..|ops| - 1]), ops[|ops| - 1];
      match op
      case IssueOp(_, _, _, _) => before
      case LoginOp(req, judgedAt, findFails, faults) =>
        var (r, s') := Login(srv, s, req, judgedAt, findFails, faults);
        if r.Success? && req.credId == id && id in s'.creds then before + [s'.creds[id].signCount] else before
      case RegisterOp(req, judgedAt, now, faults) =>
        var (r, s') := Register(srv, s, req, judgedAt, now, faults);
        if r.None? && id !in s.creds && id in s'.creds then [s'.creds[id].signCount] else before
      case DeleteOp(removed, faults) =>
        if Delete(s, removed, faults).0.None? && removed == id then [] else before
  }

  predicate Disciplined(h: seq<nat>) {
    forall k | 0 < k < |h| :: !CounterRegresses(h[k - 1], h[k])
  }

  ghost predicate HistoryInv(s: State, h: seq<nat>, id: bytes) {
    && Disciplined(h)
    && (id in s.creds <==> h != [])
    && (id in s.creds ==> h[|h| - 1] == s.creds[id].signCount)
  }

  lemma {:induction false} RunDisciplined(srv: Server, ops: seq<Op>, id: bytes)
    ensures HistoryInv(Run(srv, ops), History(srv, ops, id), id)
  {
    if ops != [] {
      RunDisciplined(srv, ops[..|ops| - 1], id);
      var s := Run(srv, ops[..|ops| - 1]);
      match ops[|ops| - 1]
      case IssueOp(_, _, _, _) =>
      case LoginOp(req, judgedAt, findFails, faults) =>
        LoginAppends(srv, s, req, judgedAt, findFails, faults);
      case RegisterOp(req, judgedAt, now, faults) => RegisterEffect(srv, s, req, judgedAt, now, faults);
      case DeleteOp(_, _) =>
    }
  }

  lemma LoginAppends(srv: Server, s: State, req: AssertionRequest, judgedAt: int, findFails: bool, faults: Faults)
    ensures var (r, s') := Login(srv, s, req, judgedAt, findFails, faults);
            && s'.creds.Keys == s.creds.Keys
            && (forall id | id in s.creds && (r.Failure? || id != req.credId) :: s'.creds[id] == s.creds[id])
            && (r.Success? ==>
                  && req.credId in s.creds
                  && !CounterRegresses(s.creds[req.credId].signCount, s'.creds[req.credId].signCount))
  {
    LoginEffect(srv, s, req, judgedAt, findFails, faults);
    if req.credId in s.creds {
      CountOnlyInRule(srv, req, s.creds[req.credId]);
    }
  }

  lemma {:induction false} IncreasesWithoutZero(h: seq<nat>, i: nat, j: nat)
    requires Disciplined(h) && i < j < |h| && forall k | i <= k <= j :: h[k] != 0
    ensures h[i] < h[j]
    decreases j - i
  {
    if i + 1 < j {
      IncreasesWithoutZero(h, i, j - 1);
    }
    assert !CounterRegresses(h[j - 1], h[j]);
  }

  /** In every run, the accepted counts of a credential strictly increase along every stretch without a zero, starting
      with the count at registration, and the last one is the one stored. */
  lemma CounterDiscipline(srv: Server, ops: seq<Op>, id: bytes, h: seq<nat>, i: nat, j: nat)
    requires h == History(srv, ops, id)
    requires i < j < |h| && forall k | i <= k <= j :: h[k] != 0
    ensures h[i] < h[j]
    ensures id in Run(srv, ops).creds && Run(srv, ops).creds[id].signCount == h[|h| - 1]
  {
    RunDisciplined(srv, ops, id);
    IncreasesWithoutZero(h, i, j);
  }
}
