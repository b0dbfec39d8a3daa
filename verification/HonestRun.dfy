/** Whole runs of a server and an honest authenticator: after its registration, every assertion delivered in order is
    accepted, whatever was lost on the way and whatever else the server did in between. */
module HonestRun {
  import opened ByteStrings
  import opened CborValue
  import AuthData
  import Cose
  import opened Policy
  import opened Attestation
  import opened Challenge
  import opened Store
  import opened Ceremony
  import opened Harness
  import HarnessWire
  import opened Counter
  import opened HonestPeer

  /** Each assertion advances the authenticator; it is then lost or delivered. `Other` is anything else that happens. */
  datatype Event =
    | Lost
    | Delivered(username: string, challenge: bytes, origin: string, uv: UvPolicy, random: bytes, judgedAt: int)
    | Other(op: Op)

  /** One server, one authenticator and its credential. */
  datatype Setting = Setting(srv: Server, br: Browser, credId: bytes, user: string)

  function Advanced(peer: Peer): Peer {
    peer.(signCount := NextCount(peer.zeroCounter, peer.signCount))
  }

  function PeerAfter(peer: Peer, e: Event): Peer { if e.Other? then peer else Advanced(peer) }

  function Deliver(g: Setting, s: State, peer: Peer, e: Event): (Result<LoginResult, Error>, State)
    requires e.Delivered?
  {
    var req := MakeAssertion(g.srv, g.br, Advanced(peer), g.credId, e.username, e.challenge, e.origin, e.uv, e.random);
    Login(g.srv, s, req, e.judgedAt, false, NO_FAULTS)
  }

  function StateAfter(g: Setting, s: State, peer: Peer, e: Event): State {
    match e
    case Lost => s
    case Delivered(_, _, _, _, _, _) => Deliver(g, s, peer, e).1
    case Other(op) => Apply(g.srv, s, op)
  }

  /** The challenge of an assertion is the one pending for its user name, not expired, and its origin is allowed. */
  predicate Live(g: Setting, s: State, e: Event)
    requires e.Delivered?
  {
    var pc := Lookup(s.pending, PendingKey(e.username, ForLogin));
    JudgeClaim(g.srv, pc, Claim(e.challenge, e.origin), e.judgedAt) == None
  }

  // ----- what else may happen

  /** The count that authenticator data reports. */
  function ReportedCount(authData: bytes): nat {
    match AuthData.Parse(authData)
    case Success(d) => d.signCount
    case Failure(_) => 0
  }

  /** The operation succeeds in deleting the credential, or in logging in with it and a count that the authenticator has
      not reached. Refused logins, and accepted ones with counts it has reported, are free to happen. */
  predicate Disturbs(g: Setting, s: State, peer: Peer, op: Op) {
    match op
    case DeleteOp(id, faults) => id == g.credId && Delete(s, id, faults).0 == None
    case LoginOp(req, judgedAt, findFails, faults) =>
      && req.credId == g.credId && Login(g.srv, s, req, judgedAt, findFails, faults).0.Success?
      && ReportedCount(req.authData) > peer.signCount
    case _ => false
  }

  /** The operation succeeds in deleting the credential or in logging in with it. */
  predicate Touches(g: Setting, s: State, op: Op) {
    match op
    case DeleteOp(id, faults) => id == g.credId && Delete(s, id, faults).0 == None
    case LoginOp(req, judgedAt, findFails, faults) =>
      req.credId == g.credId && Login(g.srv, s, req, judgedAt, findFails, faults).0.Success?
    case _ => false
  }

  /** Each delivered assertion meets a live challenge, and nothing disturbs the credential. */
  predicate Undisturbed(g: Setting, s: State, peer: Peer, es: seq<Event>)
    decreases |es|
  {
    es == [] ||
    (&& (es[0].Delivered? ==> Live(g, s, es[0]))
     && (es[0].Other? ==> !Disturbs(g, s, peer, es[0].op))
     && Undisturbed(g, StateAfter(g, s, peer, es[0]), PeerAfter(peer, es[0]), es[1..]))
  }

  /** Each delivered assertion meets a live challenge, and nothing else touches the credential. */
  predicate Untouched(g: Setting, s: State, peer: Peer, es: seq<Event>)
    decreases |es|
  {
    es == [] ||
    (&& (es[0].Delivered? ==> Live(g, s, es[0]))
     && (es[0].Other? ==> !Touches(g, s, es[0].op))
     && Untouched(g, StateAfter(g, s, peer, es[0]), PeerAfter(peer, es[0]), es[1..]))
  }

  // ----- what is kept

  /** The credential is stored with the authenticator's key, for the user who registered. */
  ghost predicate KeyInStep(g: Setting, s: State, peer: Peer) {
    && Configured(g.srv) && Faithful(g.srv.crypto, g.br) && Generated(g.srv.crypto, peer)
    && g.credId in s.creds
    && StoresKeyOf(s.creds[g.credId], peer) && s.creds[g.credId].username == g.user
  }

  /** Besides, the stored count is one that the authenticator has already reported. */
  ghost predicate InStep(g: Setting, s: State, peer: Peer) {
    && KeyInStep(g, s, peer)
    && s.creds[g.credId].signCount <= peer.signCount && (peer.zeroCounter ==> peer.signCount == 0)
  }

  predicate NoWrap(peer: Peer, more: nat) {
    peer.zeroCounter || peer.signCount + more < TWO_TO_THE_32
  }

  lemma AdvancedKey(g: Setting, s: State, peer: Peer)
    requires KeyInStep(g, s, peer)
    ensures KeyInStep(g, s, Advanced(peer))
  {
    assert Generated(g.srv.crypto, Advanced(peer));
  }

  lemma AdvancedInStep(g: Setting, s: State, peer: Peer)
    requires InStep(g, s, peer) && NoWrap(peer, 1)
    ensures InStep(g, s, Advanced(peer))
    ensures !CounterRegresses(s.creds[g.credId].signCount, Advanced(peer).signCount)
  {
    AdvancedKey(g, s, peer);
  }

  lemma ReadsBack(g: Setting, typ: string, challenge: bytes, origin: string)
    requires Faithful(g.srv.crypto, g.br)
    ensures ReadClientData(g.srv, g.br.render(typ, challenge, origin), typ) == Success(Claim(challenge, origin))
  {
  }

  /** A delivered assertion with a live challenge is refused exactly when its count regresses; if it is accepted its
      count is stored, and the key stays. */
  lemma DeliveredExact(g: Setting, s: State, peer: Peer, e: Event)
    requires KeyInStep(g, s, peer) && e.Delivered? && Live(g, s, e)
    ensures var (r, s') := Deliver(g, s, peer, e);
            var stored, received := s.creds[g.credId].signCount, Advanced(peer).signCount;
            && KeyInStep(g, s', Advanced(peer))
            && if CounterRegresses(stored, received) then
                 r == Failure(CounterRegression) && s'.creds[g.credId].signCount == stored
               else
                 r == Success(LoginResult(g.user, true)) && s'.creds[g.credId].signCount == received
  {
    var next, cred := Advanced(peer), s.creds[g.credId];
    AdvancedKey(g, s, peer);
    ReadsBack(g, TYPE_GET, e.challenge, e.origin);
    AssertionAccepted(g.srv, g.br, next, cred, g.credId, e.username, e.challenge, e.origin, e.uv, e.random);
  }

  lemma DeliveredAccepted(g: Setting, s: State, peer: Peer, e: Event)
    requires InStep(g, s, peer) && e.Delivered? && Live(g, s, e) && NoWrap(peer, 1)
    ensures Deliver(g, s, peer, e).0 == Success(LoginResult(g.user, true))
    ensures InStep(g, Deliver(g, s, peer, e).1, Advanced(peer))
  {
    AdvancedInStep(g, s, peer);
    DeliveredExact(g, s, peer, e);
  }

  lemma AcceptedCount(srv: Server, req: AssertionRequest, cred: Credential)
    requires CheckAssertion(srv, req, cred).Success?
    ensures CheckAssertion(srv, req, cred).value.count == ReportedCount(req.authData)
  {
  }

  /** Whatever else happens, the stored key and user stay unless the credential is deleted; the count changes only to
      one that an accepted login reported. */
  lemma OtherEffect(g: Setting, s: State, op: Op)
    requires g.credId in s.creds
    requires op.DeleteOp? && op.id == g.credId ==> Delete(s, op.id, op.faults).0 != None
    ensures var s' := Apply(g.srv, s, op);
            && g.credId in s'.creds
            && if op.LoginOp? && Touches(g, s, op) then
                 s'.creds[g.credId] == s.creds[g.credId].(signCount := ReportedCount(op.login.authData))
               else s'.creds[g.credId] == s.creds[g.credId]
  {
    match op
    case IssueOp(_, _, _, _) =>
    case LoginOp(req, judgedAt, findFails, faults) =>
      LoginEffect(g.srv, s, req, judgedAt, findFails, faults);
      if Touches(g, s, op) {
        AcceptedCount(g.srv, req, s.creds[g.credId]);
      }
    case RegisterOp(req, judgedAt, now, faults) => RegisterEffect(g.srv, s, req, judgedAt, now, faults);
    case DeleteOp(_, _) =>
  }

  lemma OtherKeepsStep(g: Setting, s: State, peer: Peer, op: Op)
    requires InStep(g, s, peer) && !Disturbs(g, s, peer, op)
    ensures InStep(g, Apply(g.srv, s, op), peer)
  {
    OtherEffect(g, s, op);
  }

  // ----- what disturbing takes

  /** A login that disturbs carries a signature, valid under the authenticator's key, over a count that it has not
      reached: a forgery, or the work of a copy. */
  lemma OnlyForgeryDisturbs(g: Setting, s: State, peer: Peer, op: Op)
    requires InStep(g, s, peer) && op.LoginOp?
    ensures var msg := SignedOver(g.srv.crypto, op.login.authData, op.login.clientDataJson);
            Disturbs(g, s, peer, op) ==>
              && ReportedCount(op.login.authData) > peer.signCount
              && VerifySignature(g.srv.crypto, peer.alg, peer.pub, msg, op.login.sig) == None
  {
    if Disturbs(g, s, peer, op) {
      LoginEffect(g.srv, s, op.login, op.judgedAt, op.findFails, op.faults);
      StoredIsPeers(g, s, peer);
      SignatureChecked(g.srv, op.login, s.creds[g.credId], Cose.Key(peer.pub, peer.alg));
    }
  }

  lemma SignatureChecked(srv: Server, req: AssertionRequest, cred: Credential, key: Cose.Key)
    requires CheckAssertion(srv, req, cred).Success? && StoredKey(srv, cred) == Success(key)
    ensures var msg := SignedOver(srv.crypto, req.authData, req.clientDataJson);
            VerifySignature(srv.crypto, cred.algorithm, key.pub, msg, req.sig) == None
  {
  }

  lemma StoredIsPeers(g: Setting, s: State, peer: Peer)
    requires KeyInStep(g, s, peer)
    ensures StoredKey(g.srv, s.creds[g.credId]) == Success(Cose.Key(peer.pub, peer.alg))
  {
    HarnessWire.PublicKeyRoundTrip(g.srv.crypto, peer.pub, peer.alg, []);
    assert HarnessWire.EncodePublicKey(peer.pub, peer.alg) + [] == s.creds[g.credId].publicKey;
  }

  /** Late and repeated assertions of the authenticator itself never disturb, whatever they are wrapped in. */
  lemma OwnAssertionsHarmless(g: Setting, s: State, peer: Peer, op: Op, count: nat)
    requires InStep(g, s, peer) && op.LoginOp? && count <= peer.signCount
    requires op.login.authData == HarnessWire.AuthDataAssertion(g.srv.crypto.sha256(g.srv.rpId), count)
    ensures !Disturbs(g, s, peer, op)
  {
    HarnessWire.AssertionDataRoundTrip(g.srv.crypto.sha256(g.srv.rpId), count);
  }

  // ----- runs without a wrap

  /** Each delivered assertion logs in the user who registered. */
  predicate AllAccepted(g: Setting, s: State, peer: Peer, es: seq<Event>)
    decreases |es|
  {
    es == [] ||
    (&& (es[0].Delivered? ==> Deliver(g, s, peer, es[0]).0 == Success(LoginResult(g.user, true)))
     && AllAccepted(g, StateAfter(g, s, peer, es[0]), PeerAfter(peer, es[0]), es[1..]))
  }

  function Advances(e: Event): nat { if e.Other? then 0 else 1 }

  function Assertions(es: seq<Event>): nat {
    if es == [] then 0 else Advances(es[0]) + Assertions(es[1..])
  }

  /** One step of a run: what is delivered is accepted, and server and authenticator stay in step. */
  lemma EventKeepsStep(g: Setting, s: State, peer: Peer, e: Event)
    requires InStep(g, s, peer) && NoWrap(peer, Advances(e))
    requires e.Delivered? ==> Live(g, s, e)
    requires e.Other? ==> !Disturbs(g, s, peer, e.op)
    ensures InStep(g, StateAfter(g, s, peer, e), PeerAfter(peer, e))
    ensures e.Delivered? ==> Deliver(g, s, peer, e).0 == Success(LoginResult(g.user, true))
  {
    match e
    case Lost => AdvancedInStep(g, s, peer);
    case Delivered(_, _, _, _, _, _) => DeliveredAccepted(g, s, peer, e);
    case Other(op) => OtherKeepsStep(g, s, peer, op);
  }

  lemma NoWrapRest(peer: Peer, e: Event, rest: nat)
    requires NoWrap(peer, Advances(e) + rest)
    ensures NoWrap(peer, Advances(e)) && NoWrap(PeerAfter(peer, e), rest)
  {
  }

  /** Lost or delivered in any pattern, with any traffic around them that does not disturb the credential, the
      assertions that arrive are accepted as long as the 32-bit counter does not wrap or is fixed at zero. */
  lemma {:induction false} HonestRunAccepted(g: Setting, s: State, peer: Peer, es: seq<Event>)
    requires InStep(g, s, peer) && NoWrap(peer, Assertions(es)) && Undisturbed(g, s, peer, es)
    ensures AllAccepted(g, s, peer, es)
    decreases |es|
  {
    if es != [] {
      NoWrapRest(peer, es[0], Assertions(es[1..]));
      EventKeepsStep(g, s, peer, es[0]);
      HonestRunAccepted(g, StateAfter(g, s, peer, es[0]), PeerAfter(peer, es[0]), es[1..]);
    }
  }

  // ----- runs with wraps

  /** Assertions are numbered from the start; the count that number `m` reports. */
  function CountOf(m: nat): nat { m % TWO_TO_THE_32 }

  /** Number `m` is refused when the count of number `last` is stored. */
  predicate Refused(last: nat, m: nat) { CounterRegresses(CountOf(last), CountOf(m)) }

  /** Within one turn of the counter: it has passed zero since `last`, and not yet overtaken it. Landing on zero is
      accepted. */
  lemma RefusedWindow(last: nat, m: nat)
    requires last < m < last + TWO_TO_THE_32
    ensures var wrap := TWO_TO_THE_32 * (last / TWO_TO_THE_32 + 1);
            Refused(last, m) <==> wrap < m <= last + TWO_TO_THE_32
  {
  }

  /** The authenticator has made `made` assertions and the server stored the count of number `last`. */
  ghost predicate Numbered(g: Setting, s: State, peer: Peer, made: nat, last: nat) {
    && KeyInStep(g, s, peer) && !peer.zeroCounter && last <= made
    && peer.signCount == CountOf(made) && s.creds[g.credId].signCount == CountOf(last)
  }

  function MadeAfter(made: nat, e: Event): nat { if e.Other? then made else made + 1 }

  function LastAfter(made: nat, last: nat, e: Event): nat {
    if e.Delivered? && !Refused(last, made + 1) then made + 1 else last
  }

  /** Each delivered assertion is accepted, or refused for its count, exactly as `Refused` says. */
  predicate AllExact(g: Setting, s: State, peer: Peer, es: seq<Event>, made: nat, last: nat)
    decreases |es|
  {
    es == [] ||
    (&& (es[0].Delivered? ==>
           Deliver(g, s, peer, es[0]).0
           == if Refused(last, made + 1) then Failure(CounterRegression) else Success(LoginResult(g.user, true)))
     && AllExact(g, StateAfter(g, s, peer, es[0]), PeerAfter(peer, es[0]), es[1..],
                 MadeAfter(made, es[0]), LastAfter(made, last, es[0])))
  }

  lemma NextNumber(peer: Peer, made: nat)
    requires !peer.zeroCounter && peer.signCount == CountOf(made)
    ensures Advanced(peer).signCount == CountOf(made + 1) && !Advanced(peer).zeroCounter
  {
  }

  lemma EventNumbered(g: Setting, s: State, peer: Peer, e: Event, made: nat, last: nat)
    requires Numbered(g, s, peer, made, last)
    requires e.Delivered? ==> Live(g, s, e)
    requires e.Other? ==> !Touches(g, s, e.op)
    ensures Numbered(g, StateAfter(g, s, peer, e), PeerAfter(peer, e), MadeAfter(made, e), LastAfter(made, last, e))
    ensures e.Delivered? ==>
              Deliver(g, s, peer, e).0
              == if Refused(last, made + 1) then Failure(CounterRegression) else Success(LoginResult(g.user, true))
  {
    match e
    case Lost => LostNumbered(g, s, peer, e, made, last);
    case Delivered(_, _, _, _, _, _) => DeliveredNumbered(g, s, peer, e, made, last);
    case Other(_) => OtherNumbered(g, s, peer, e, made, last);
  }

  lemma OtherNumbered(g: Setting, s: State, peer: Peer, e: Event, made: nat, last: nat)
    requires Numbered(g, s, peer, made, last) && e.Other? && !Touches(g, s, e.op)
    ensures Numbered(g, StateAfter(g, s, peer, e), PeerAfter(peer, e), MadeAfter(made, e), LastAfter(made, last, e))
  {
    OtherEffect(g, s, e.op);
  }

  lemma LostNumbered(g: Setting, s: State, peer: Peer, e: Event, made: nat, last: nat)
    requires Numbered(g, s, peer, made, last) && e.Lost?
    ensures Numbered(g, StateAfter(g, s, peer, e), PeerAfter(peer, e), MadeAfter(made, e), LastAfter(made, last, e))
  {
    NextNumber(peer, made);
    AdvancedKey(g, s, peer);
  }

  lemma DeliveredNumbered(g: Setting, s: State, peer: Peer, e: Event, made: nat, last: nat)
    requires Numbered(g, s, peer, made, last) && e.Delivered? && Live(g, s, e)
    ensures Numbered(g, StateAfter(g, s, peer, e), PeerAfter(peer, e), MadeAfter(made, e), LastAfter(made, last, e))
    ensures Deliver(g, s, peer, e).0
            == if Refused(last, made + 1) then Failure(CounterRegression) else Success(LoginResult(g.user, true))
  {
    var (r, s') := Deliver(g, s, peer, e);
    DeliveredExact(g, s, peer, e);
    StoredNumber(g, s, s', peer, r, made, last);
    assert StateAfter(g, s, peer, e) == s' && PeerAfter(peer, e) == Advanced(peer);
  }

  lemma StoredNumber(
    g: Setting, s: State, s': State, peer: Peer, r: Result<LoginResult, Error>, made: nat, last: nat)
    requires Numbered(g, s, peer, made, last) && KeyInStep(g, s', Advanced(peer))
    requires var stored, received := s.creds[g.credId].signCount, Advanced(peer).signCount;
             if CounterRegresses(stored, received) then
               r == Failure(CounterRegression) && s'.creds[g.credId].signCount == stored
             else
               r == Success(LoginResult(g.user, true)) && s'.creds[g.credId].signCount == received
    ensures Numbered(g, s', Advanced(peer), made + 1, if Refused(last, made + 1) then last else made + 1)
    ensures r == if Refused(last, made + 1) then Failure(CounterRegression) else Success(LoginResult(g.user, true))
  {
    NextNumber(peer, made);
  }

  /** In every run, however often the 32-bit counter wraps, exactly these assertions are refused. */
  lemma {:induction false} RunExact(g: Setting, s: State, peer: Peer, es: seq<Event>, made: nat, last: nat)
    requires Numbered(g, s, peer, made, last) && Untouched(g, s, peer, es)
    ensures AllExact(g, s, peer, es, made, last)
    decreases |es|
  {
    if es != [] {
      EventNumbered(g, s, peer, es[0], made, last);
      RunExact(g, StateAfter(g, s, peer, es[0]), PeerAfter(peer, es[0]), es[1..],
               MadeAfter(made, es[0]), LastAfter(made, last, es[0]));
    }
  }

  /** One assertion after a wrap. The server stores a count that the authenticator has reported; the authenticator has
      gone on to `reported` and makes its `k`-th further assertion. It is accepted unless the counter has passed zero
      and not yet overtaken the stored count. */
  lemma WrapExact(g: Setting, s: State, peer: Peer, e: Event, stored: nat, reported: nat, k: nat)
    requires InStep(g, s, peer.(signCount := reported)) && !peer.zeroCounter && e.Delivered?
    requires s.creds[g.credId].signCount == stored >= 1 && 1 <= k < TWO_TO_THE_32
    requires peer.signCount == (reported + k) % TWO_TO_THE_32
    ensures var req :=
              MakeAssertion(g.srv, g.br, peer, g.credId, e.username, e.challenge, e.origin, e.uv, e.random);
            CheckAssertion(g.srv, req, s.creds[g.credId]).Success?
            <==> !(TWO_TO_THE_32 < reported + k <= TWO_TO_THE_32 + stored)
  {
    assert Generated(g.srv.crypto, peer.(signCount := reported));
    assert Generated(g.srv.crypto, peer);
    WrappedCount(stored, reported, k);
    var cred := s.creds[g.credId];
    AssertionAccepted(g.srv, g.br, peer, cred, g.credId, e.username, e.challenge, e.origin, e.uv, e.random);
  }

  lemma WrappedCount(stored: nat, reported: nat, k: nat)
    requires 1 <= stored <= reported < TWO_TO_THE_32 && 1 <= k < TWO_TO_THE_32
    ensures CounterRegresses(stored, (reported + k) % TWO_TO_THE_32)
            <==> TWO_TO_THE_32 < reported + k <= TWO_TO_THE_32 + stored
  {
  }

  // ----- from registration on

  lemma RegisteredInStep(g: Setting, s: State, peer: Peer, a: Attest, challenge: bytes, origin: string, uv: UvPolicy,
                         nickname: string, judgedAt: int, now: int)
    requires Configured(g.srv) && Faithful(g.srv.crypto, g.br) && Generated(g.srv.crypto, peer)
    requires GoodAttest(g.srv.crypto, a) && |g.credId| < TWO_TO_THE_16 && g.credId !in s.creds
    requires peer.zeroCounter ==> peer.signCount == 0
    requires var req := MakeRegistration(g.srv, g.br, peer, a, g.credId, g.user, challenge, origin, uv, nickname);
             |req.attestationObject| <= MAX_INPUT_SIZE
    requires var pc := Lookup(s.pending, PendingKey(g.user, ForRegister));
             JudgeClaim(g.srv, pc, Claim(challenge, origin), judgedAt) == None
    ensures var req := MakeRegistration(g.srv, g.br, peer, a, g.credId, g.user, challenge, origin, uv, nickname);
            var (r, s') := Register(g.srv, s, req, judgedAt, now, NO_FAULTS);
            && r == None && InStep(g, s', peer)
            && (!peer.zeroCounter ==> Numbered(g, s', peer, peer.signCount, peer.signCount))
  {
    ModFits(peer.signCount, TWO_TO_THE_32);
    ReadsBack(g, TYPE_CREATE, challenge, origin);
    RegistrationAccepted(g.srv, g.br, peer, a, g.credId, g.user, challenge, origin, uv, nickname, now);
  }

  /** An honest registration with a live challenge and a new credential ID succeeds. Everything delivered afterwards is
      accepted while the counter does not wrap; if it wraps, exactly as `RunExact` says. */
  lemma RegisterThenAccepted(
    g: Setting, s: State, peer: Peer, a: Attest, challenge: bytes, origin: string, uv: UvPolicy, nickname: string,
    judgedAt: int, now: int, es: seq<Event>)
    requires Configured(g.srv) && Faithful(g.srv.crypto, g.br) && Generated(g.srv.crypto, peer)
    requires GoodAttest(g.srv.crypto, a) && |g.credId| < TWO_TO_THE_16 && g.credId !in s.creds
    requires peer.zeroCounter ==> peer.signCount == 0
    requires var req := MakeRegistration(g.srv, g.br, peer, a, g.credId, g.user, challenge, origin, uv, nickname);
             |req.attestationObject| <= MAX_INPUT_SIZE
    requires var pc := Lookup(s.pending, PendingKey(g.user, ForRegister));
             JudgeClaim(g.srv, pc, Claim(challenge, origin), judgedAt) == None
    ensures var req := MakeRegistration(g.srv, g.br, peer, a, g.credId, g.user, challenge, origin, uv, nickname);
            var (r, s') := Register(g.srv, s, req, judgedAt, now, NO_FAULTS);
            && r == None
            && (NoWrap(peer, Assertions(es)) && Undisturbed(g, s', peer, es) ==> AllAccepted(g, s', peer, es))
            && (!peer.zeroCounter && Untouched(g, s', peer, es) ==>
                  AllExact(g, s', peer, es, peer.signCount, peer.signCount))
  {
    var req := MakeRegistration(g.srv, g.br, peer, a, g.credId, g.user, challenge, origin, uv, nickname);
    var (r, s') := Register(g.srv, s, req, judgedAt, now, NO_FAULTS);
    RegisteredInStep(g, s, peer, a, challenge, origin, uv, nickname, judgedAt, now);
    if NoWrap(peer, Assertions(es)) && Undisturbed(g, s', peer, es) {
      HonestRunAccepted(g, s', peer, es);
    }
    if !peer.zeroCounter && Untouched(g, s', peer, es) {
      RunExact(g, s', peer, es, peer.signCount, peer.signCount);
    }
  }
}
