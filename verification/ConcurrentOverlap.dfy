/** A run of the server in which two assertions of one honest authenticator overlap and leave the smaller count. */
module ConcurrentOverlap {
  import opened ByteStrings
  import opened CborValue
  import opened Policy
  import opened Challenge
  import opened Store
  import opened Ceremony
  import opened Concurrent
  import opened ConcurrentSerial
  import opened ConcurrentCounts
  import HarnessKeys
  import HarnessWire
  import opened HonestPeer
  import opened HonestRun

  // ----- runs in pieces

  function Steps(chk: Checks, s: System, actions: seq<Action>): System
    decreases |actions|
  {
    if actions == [] then s else Steps(chk, Step(chk, s, actions[0]), actions[1..])
  }

  lemma {:induction false} StepsAppend(chk: Checks, s: System, xs: seq<Action>, ys: seq<Action>)
    ensures Steps(chk, s, xs + ys) == Steps(chk, Steps(chk, s, xs), ys)
    decreases |xs|
  {
    if xs == [] {
      assert xs + ys == ys;
    } else {
      assert (xs + ys)[1..] == xs[1..] + ys;
      StepsAppend(chk, Step(chk, s, xs[0]), xs[1..], ys);
    }
  }

  lemma {:induction false} RunIsSteps(chk: Checks, actions: seq<Action>)
    ensures Run(chk, actions) == Steps(chk, INIT, actions)
  {
    if actions != [] {
      var xs, last := actions[..|actions| - 1], actions[|actions| - 1];
      RunIsSteps(chk, xs);
      StepsAppend(chk, INIT, xs, [last]);
      assert xs + [last] == actions;
      assert Steps(chk, Steps(chk, INIT, xs), [last]) == Step(chk, Steps(chk, INIT, xs), last);
    }
  }

  lemma StepsCons(chk: Checks, s: System, a: Action, rest: seq<Action>)
    ensures Steps(chk, s, [a] + rest) == Steps(chk, Step(chk, s, a), rest)
  {
    assert ([a] + rest)[1..] == rest;
  }

  lemma FourSteps(chk: Checks, s: System, a: Action, b: Action, c: Action, d: Action)
    ensures Steps(chk, s, [a, b, c, d]) == Step(chk, Step(chk, Step(chk, Step(chk, s, a), b), c), d)
  {
    var s1 := Step(chk, s, a);
    var s2 := Step(chk, s1, b);
    var s3 := Step(chk, s2, c);
    assert [a, b, c, d] == [a] + ([b] + ([c] + ([d] + [])));
    StepsCons(chk, s, a, [b] + ([c] + ([d] + [])));
    StepsCons(chk, s1, b, [c] + ([d] + []));
    StepsCons(chk, s2, c, [d] + []);
    StepsCons(chk, s3, d, []);
  }

  // ----- one request up to its lookup or its end

  function Resumed(t: nat): Action { Advance(t, NO_FAULTS) }

  /** A challenge is issued, taken at once and accepted. */
  function Begin(t: nat, challenge: bytes, req: Request): seq<Action> {
    [IssueChallenge(req.Key(), challenge, 0), Start(t, req), Resumed(t), Resumed(t)]
  }

  lemma BeginTaken(chk: Checks, s: System, t: nat, req: Request, claim: Claim)
    requires t !in s.threads && chk.claim(req) == Success(claim)
    ensures var s1 := StepIssue(s, req.Key(), claim.challenge, 0);
            var s3 := Step(chk, Step(chk, s1, Start(t, req)), Advance(t, NO_FAULTS));
            && s3.now == s.now && s3.creds == s.creds
            && s3.threads.Keys == s.threads.Keys + {t} && (forall u | u in s.threads :: s3.threads[u] == s.threads[u])
            && s3.threads[t].req == req && s3.threads[t].phase.ToJudge? && s3.threads[t].phase.claim == claim
            && s3.threads[t].phase.pc == Some(Pending(claim.challenge, s.now))
  {
    var s1 := StepIssue(s, req.Key(), claim.challenge, 0);
    var s2 := Step(chk, s1, Start(t, req));
    assert s2.threads == s.threads[t := Thread(req, ToTake(claim))];
    assert Lookup(s2.pending, req.Key()) == Some(Pending(claim.challenge, s.now));
    var s3 := Step(chk, s2, Advance(t, NO_FAULTS));
    assert s3.threads == s2.threads[t := s3.threads[t]];
    assert s3.threads.Keys == s.threads.Keys + {t};
  }

  lemma BeginLogin(chk: Checks, s: System, t: nat, req: AssertionRequest, claim: Claim)
    requires t !in s.threads && chk.claim(LoginRequest(req)) == Success(claim) && chk.origin(claim.origin)
    ensures var s' := Steps(chk, s, Begin(t, claim.challenge, LoginRequest(req)));
            && s'.now == s.now && s'.creds == s.creds
            && s'.threads == s.threads[t := Thread(LoginRequest(req), ToFind)]
  {
    var r := LoginRequest(req);
    FourSteps(chk, s, IssueChallenge(r.Key(), claim.challenge, 0), Start(t, r), Resumed(t), Resumed(t));
    BeginTaken(chk, s, t, r, claim);
  }

  lemma BeginRegistration(
    chk: Checks, s: System, t: nat, req: RegistrationRequest, claim: Claim, cred: Credential)
    requires t !in s.threads && chk.claim(RegisterRequest(req)) == Success(claim) && chk.origin(claim.origin)
    requires chk.registration(req, s.now) == Success(cred)
    ensures var s' := Steps(chk, s, Begin(t, claim.challenge, RegisterRequest(req)));
            && s'.now == s.now && s'.creds == s.creds
            && s'.threads == s.threads[t := Thread(RegisterRequest(req), ToAdd(cred))]
  {
    var r := RegisterRequest(req);
    FourSteps(chk, s, IssueChallenge(r.Key(), claim.challenge, 0), Start(t, r), Resumed(t), Resumed(t));
    BeginTaken(chk, s, t, r, claim);
  }

  // ----- the run

  /** What the user does: registers, and then logs in twice at once, with the challenges and randomness given. */
  datatype Plan = Plan(
    attest: Attest, nickname: string, origin: string, uv: UvPolicy,
    challenge0: bytes, challenge1: bytes, challenge2: bytes, random1: bytes, random2: bytes)

  ghost predicate Possible(g: Setting, peer: Peer, p: Plan) {
    && Configured(g.srv) && Faithful(g.srv.crypto, g.br) && Generated(g.srv.crypto, peer)
    && GoodAttest(g.srv.crypto, p.attest) && |g.credId| < TWO_TO_THE_16 && p.origin in g.srv.origins
    && HarnessWire.HarnessKey(peer.pub) && HarnessKeys.EncodableAlg(peer.alg)
    && !peer.zeroCounter && peer.signCount + 2 < TWO_TO_THE_32
    && |Registration(g, peer, p).attestationObject| <= MAX_INPUT_SIZE
  }

  function Registration(g: Setting, peer: Peer, p: Plan): RegistrationRequest
    requires HarnessWire.HarnessKey(peer.pub) && HarnessKeys.EncodableAlg(peer.alg)
  {
    MakeRegistration(g.srv, g.br, peer, p.attest, g.credId, g.user, p.challenge0, p.origin, p.uv, p.nickname)
  }

  function FirstLogin(g: Setting, peer: Peer, p: Plan): AssertionRequest {
    MakeAssertion(g.srv, g.br, Advanced(peer), g.credId, g.user, p.challenge1, p.origin, p.uv, p.random1)
  }

  function SecondLogin(g: Setting, peer: Peer, p: Plan): AssertionRequest {
    MakeAssertion(g.srv, g.br, Advanced(Advanced(peer)), g.credId, g.user, p.challenge2, p.origin, p.uv, p.random2)
  }

  /** Registration to its end; two logins up to their lookups; both lookups; the second login's update, then the
      first's. */
  function OverlapRun(g: Setting, peer: Peer, p: Plan): seq<Action>
    requires HarnessWire.HarnessKey(peer.pub) && HarnessKeys.EncodableAlg(peer.alg)
  {
    Begin(0, p.challenge0, RegisterRequest(Registration(g, peer, p)))
    + ([Resumed(0)]
       + (Begin(1, p.challenge1, LoginRequest(FirstLogin(g, peer, p)))
          + (Begin(2, p.challenge2, LoginRequest(SecondLogin(g, peer, p)))
             + [Resumed(1), Resumed(2), Resumed(2), Resumed(1)])))
  }

  lemma RegistrationPasses(g: Setting, peer: Peer, p: Plan) returns (cred: Credential)
    requires Possible(g, peer, p)
    ensures var req := Registration(g, peer, p);
            && ReadClaim(g.srv, RegisterRequest(req)) == Success(Claim(p.challenge0, p.origin))
            && CheckRegistration(g.srv, req, 0) == Success(cred)
    ensures cred.id == g.credId && StoresKeyOf(cred, peer) && cred.signCount == peer.signCount && cred.createdAt.Some?
  {
    ReadsBack(g, TYPE_CREATE, p.challenge0, p.origin);
    RegistrationAccepted(g.srv, g.br, peer, p.attest, g.credId, g.user, p.challenge0, p.origin, p.uv, p.nickname, 0);
    cred := CheckRegistration(g.srv, Registration(g, peer, p), 0).value;
  }

  /** The registration thread stores its credential. */
  lemma AddStores(chk: Checks, s: System, t: nat, cred: Credential)
    requires t in s.threads && s.threads[t].phase == ToAdd(cred) && cred.id !in s.creds && cred.createdAt.Some?
    ensures var s' := Steps(chk, s, [Resumed(t)]);
            s'.creds == s.creds[cred.id := cred] && s'.threads.Keys == s.threads.Keys
  {
    var s' := Step(chk, s, Resumed(t));
    assert Steps(chk, s, [Resumed(t)]) == Steps(chk, s', []);
    assert s'.threads == s.threads[t := s.threads[t].(phase := Finished)];
  }

  /** What the run has reached when the registration is over. */
  function AfterRegistration(g: Setting, peer: Peer, p: Plan): System
    requires HarnessWire.HarnessKey(peer.pub) && HarnessKeys.EncodableAlg(peer.alg)
  {
    var chk := ServerChecks(g.srv);
    Steps(chk, Steps(chk, INIT, Begin(0, p.challenge0, RegisterRequest(Registration(g, peer, p)))), [Resumed(0)])
  }

  lemma RegistrationStored(g: Setting, peer: Peer, p: Plan)
    requires Possible(g, peer, p)
    ensures var s := AfterRegistration(g, peer, p);
            && s.threads.Keys == {0} && g.credId in s.creds && StoresKeyOf(s.creds[g.credId], peer)
            && s.creds[g.credId].signCount == peer.signCount
  {
    var chk, req := ServerChecks(g.srv), Registration(g, peer, p);
    var cred := RegistrationPasses(g, peer, p);
    BeginRegistration(chk, INIT, 0, req, Claim(p.challenge0, p.origin), cred);
    AddStores(chk, Steps(chk, INIT, Begin(0, p.challenge0, RegisterRequest(req))), 0, cred);
  }

  lemma NextPeer(g: Setting, peer: Peer, p: Plan)
    requires Possible(g, peer, p)
    ensures var next := Advanced(peer);
            && Generated(g.srv.crypto, next) && next.signCount == peer.signCount + 1
            && Generated(g.srv.crypto, Advanced(next)) && Advanced(next).signCount == peer.signCount + 2
  {
  }

  /** An assertion by the authenticator as it is later passes the checks against the credential as it was registered. */
  lemma AssertionPasses(g: Setting, next: Peer, p: Plan, cred: Credential, challenge: bytes, random: bytes)
    requires Configured(g.srv) && Faithful(g.srv.crypto, g.br) && Generated(g.srv.crypto, next)
    requires StoresKeyOf(cred, next) && cred.signCount < next.signCount
    ensures var req := MakeAssertion(g.srv, g.br, next, g.credId, g.user, challenge, p.origin, p.uv, random);
            && ReadClaim(g.srv, LoginRequest(req)) == Success(Claim(challenge, p.origin))
            && CheckAssertion(g.srv, req, cred) == Success(Assertion(true, next.signCount))
  {
    ReadsBack(g, TYPE_GET, challenge, p.origin);
    AssertionAccepted(g.srv, g.br, next, cred, g.credId, g.user, challenge, p.origin, p.uv, random);
  }

  lemma LoginsPass(g: Setting, peer: Peer, p: Plan, cred: Credential)
    requires Possible(g, peer, p) && StoresKeyOf(cred, peer) && cred.signCount == peer.signCount
    ensures var first, second := FirstLogin(g, peer, p), SecondLogin(g, peer, p);
            && ReadClaim(g.srv, LoginRequest(first)) == Success(Claim(p.challenge1, p.origin))
            && ReadClaim(g.srv, LoginRequest(second)) == Success(Claim(p.challenge2, p.origin))
            && CheckAssertion(g.srv, first, cred) == Success(Assertion(true, peer.signCount + 1))
            && CheckAssertion(g.srv, second, cred) == Success(Assertion(true, peer.signCount + 2))
  {
    NextPeer(g, peer, p);
    AssertionPasses(g, Advanced(peer), p, cred, p.challenge1, p.random1);
    AssertionPasses(g, Advanced(Advanced(peer)), p, cred, p.challenge2, p.random2);
  }

  /** Two threads at their lookups, from a state with the credential as it was registered. */
  lemma LoginsBegin(g: Setting, peer: Peer, p: Plan, s: System)
    requires Possible(g, peer, p) && s.threads.Keys == {0} && g.credId in s.creds
    requires StoresKeyOf(s.creds[g.credId], peer) && s.creds[g.credId].signCount == peer.signCount
    ensures var chk, s3 := ServerChecks(g.srv), BothBegun(g, peer, p, s);
            var first, second := FirstLogin(g, peer, p), SecondLogin(g, peer, p);
            && s3.creds == s.creds
            && 1 in s3.threads && s3.threads[1] == Thread(LoginRequest(first), ToFind)
            && 2 in s3.threads && s3.threads[2] == Thread(LoginRequest(second), ToFind)
            && chk.assertion(first, s.creds[g.credId]) == Success(Assertion(true, peer.signCount + 1))
            && chk.assertion(second, s.creds[g.credId]) == Success(Assertion(true, peer.signCount + 2))
  {
    var chk, cred := ServerChecks(g.srv), s.creds[g.credId];
    var first, second := FirstLogin(g, peer, p), SecondLogin(g, peer, p);
    LoginsPass(g, peer, p, cred);
    BeginLogin(chk, s, 1, first, Claim(p.challenge1, p.origin));
    var s2 := Steps(chk, s, Begin(1, p.challenge1, LoginRequest(first)));
    BeginLogin(chk, s2, 2, second, Claim(p.challenge2, p.origin));
  }

  function BothBegun(g: Setting, peer: Peer, p: Plan, s: System): System {
    var chk := ServerChecks(g.srv);
    Steps(chk, Steps(chk, s, Begin(1, p.challenge1, LoginRequest(FirstLogin(g, peer, p)))),
          Begin(2, p.challenge2, LoginRequest(SecondLogin(g, peer, p))))
  }

  /** The run exists for every honest authenticator and server: both assertions are accepted, the later one is stored
      first, and the earlier one overwrites its count, which it must not follow. */
  lemma OverlapReached(g: Setting, peer: Peer, p: Plan)
    requires Possible(g, peer, p)
    ensures var s := Run(ServerChecks(g.srv), OverlapRun(g, peer, p));
            var i := |s.log| - 1;
            && i > 0 && s.log[i].LoggedIn? && s.log[i].login == FirstLogin(g, peer, p)
            && s.log[i - 1].LoggedIn? && s.log[i - 1].login == SecondLogin(g, peer, p)
            && Overtaken(s.log, i) && Regressed(s.log, i)
            && g.credId in s.creds && s.creds[g.credId].signCount == peer.signCount + 1
  {
    var s := AfterRegistration(g, peer, p);
    RegistrationStored(g, peer, p);
    LoginsBegin(g, peer, p, s);
    OverlapEnds(ServerChecks(g.srv), BothBegun(g, peer, p, s), FirstLogin(g, peer, p), SecondLogin(g, peer, p),
                Assertion(true, peer.signCount + 1), Assertion(true, peer.signCount + 2));
    RunInPieces(g, peer, p);
  }

  lemma RunInPieces(g: Setting, peer: Peer, p: Plan)
    requires HarnessWire.HarnessKey(peer.pub) && HarnessKeys.EncodableAlg(peer.alg)
    ensures Run(ServerChecks(g.srv), OverlapRun(g, peer, p))
            == Overlapped(ServerChecks(g.srv), BothBegun(g, peer, p, AfterRegistration(g, peer, p)), 1, 2)
  {
    var chk := ServerChecks(g.srv);
    var end := [Resumed(1), Resumed(2), Resumed(2), Resumed(1)];
    var two := Begin(2, p.challenge2, LoginRequest(SecondLogin(g, peer, p)));
    var one := Begin(1, p.challenge1, LoginRequest(FirstLogin(g, peer, p)));
    var zero := Begin(0, p.challenge0, RegisterRequest(Registration(g, peer, p)));
    var s1 := AfterRegistration(g, peer, p);
    RunIsSteps(chk, OverlapRun(g, peer, p));
    StepsAppend(chk, INIT, zero, [Resumed(0)] + (one + (two + end)));
    StepsAppend(chk, Steps(chk, INIT, zero), [Resumed(0)], one + (two + end));
    StepsAppend(chk, s1, one, two + end);
    StepsAppend(chk, Steps(chk, s1, one), two, end);
    FourSteps(chk, BothBegun(g, peer, p, s1), Resumed(1), Resumed(2), Resumed(2), Resumed(1));
  }

  /** The last four steps, and what the log says about them. */
  lemma OverlapEnds(chk: Checks, s: System, r: AssertionRequest, q: AssertionRequest, a: Assertion, b: Assertion)
    requires 1 in s.threads && s.threads[1] == Thread(LoginRequest(r), ToFind)
    requires 2 in s.threads && s.threads[2] == Thread(LoginRequest(q), ToFind)
    requires r.credId == q.credId && r.credId in s.creds && 0 < a.count < b.count
    requires chk.assertion(r, s.creds[r.credId]) == Success(a) && chk.assertion(q, s.creds[r.credId]) == Success(b)
    ensures var s' := Overlapped(chk, s, 1, 2);
            var i := |s'.log| - 1;
            && i > 0 && s'.log[i].LoggedIn? && s'.log[i].login == r
            && s'.log[i - 1].LoggedIn? && s'.log[i - 1].login == q
            && Overtaken(s'.log, i) && Regressed(s'.log, i)
            && r.credId in s'.creds && s'.creds[r.credId].signCount == a.count
  {
    OverlapRegresses(chk, s, 1, 2, r, q, a, b);
  }
}
