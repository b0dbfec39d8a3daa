/** Over every run and every interleaving, stored keys read back: login never finds a corrupt one. */
module ConcurrentKeys {
  import opened ByteStrings
  import opened CborValue
  import CborDecode
  import opened CborTheorems
  import AuthData
  import Cose
  import opened Policy
  import opened Attestation
  import opened Challenge
  import opened Store
  import opened Ceremony
  import opened Concurrent

  /** The stored bytes are exactly one CBOR item, it parses as a key, and the key has the stored algorithm. */
  ghost predicate KeyIntact(srv: Server, cred: Credential) {
    exists v: Value, key: Cose.Key ::
      && CborDecode.Decode(cred.publicKey) == Success(CborDecode.Item(v, |cred.publicKey|))
      && Cose.Parse(srv.crypto, v) == Success(key)
      && key.alg == cred.algorithm
  }

  lemma IntactReadsBack(srv: Server, cred: Credential)
    ensures KeyIntact(srv, cred) <==> StoredKey(srv, cred).Success?
  {
    if StoredKey(srv, cred).Success? {
      var v := CborDecode.Decode(cred.publicKey).value.val;
      var key := StoredKey(srv, cred).value;
      assert Cose.Parse(srv.crypto, v) == Success(key);
    }
  }

  /** What registration stores reads back: the raw key is the canonical encoding of the map that was parsed. */
  lemma RegistrationIntact(srv: Server, req: RegistrationRequest, now: int)
    requires CheckRegistration(srv, req, now).Success?
    ensures KeyIntact(srv, CheckRegistration(srv, req, now).value)
  {
    var cred := CheckRegistration(srv, req, now).value;
    var authData := DecodeAttestationObject(req.attestationObject).value.authData;
    var a := AuthData.Parse(authData).value.attested.value;
    AuthData.ParseSound(authData);
    DecodeExact(a.keyRaw, a.key, |a.keyRaw|);
    assert cred.publicKey == a.keyRaw;
    var key := Cose.Parse(srv.crypto, a.key).value;
    assert key.alg == cred.algorithm;
  }

  /** The checks of login report a corrupt key only for a credential whose key is not intact. */
  lemma IntactNotCorrupt(srv: Server, req: AssertionRequest, cred: Credential)
    requires KeyIntact(srv, cred)
    ensures CheckAssertion(srv, req, cred) != Failure(CorruptStoredKey)
  {
    IntactReadsBack(srv, cred);
  }

  lemma RegistrationNotCorrupt(srv: Server, req: RegistrationRequest, now: int)
    ensures CheckRegistration(srv, req, now) != Failure(CorruptStoredKey)
  {
  }

  // ----- the invariant, for any checks

  /** Credentials that are good, checks that only produce good ones and never call a good one corrupt. */
  ghost predicate KeepsGood(chk: Checks, good: Credential -> bool) {
    && (forall r :: chk.claim(r) != Failure(CorruptStoredKey))
    && (forall r, now :: chk.registration(r, now) != Failure(CorruptStoredKey))
    && (forall r, now :: chk.registration(r, now).Success? ==> good(chk.registration(r, now).value))
    && (forall r, c :: good(c) ==> chk.assertion(r, c) != Failure(CorruptStoredKey))
    && (forall c: Credential, n, at :: good(c) ==> good(c.(signCount := n)) && good(c.(createdAt := at)))
  }

  ghost predicate KeysSafe(s: System, good: Credential -> bool) {
    && (forall id | id in s.creds :: good(s.creds[id]))
    && (forall t | t in s.threads && s.threads[t].phase.ToAdd? :: good(s.threads[t].phase.cred))
    && (forall i | 0 <= i < |s.log| :: s.log[i] != Rejected(CorruptStoredKey))
  }

  lemma StepKeepsKeys(chk: Checks, s: System, a: Action, good: Credential -> bool)
    requires KeepsGood(chk, good) && KeysSafe(s, good)
    ensures KeysSafe(Step(chk, s, a), good)
  {
    match a
    case Tick(_) =>
    case IssueChallenge(_, _, _) =>
    case Start(t, req) => StartKeepsKeys(chk, s, t, req, good);
    case Advance(t, faults) =>
      if t in s.threads {
        ThreadKeepsKeys(chk, s, t, faults, good);
      }
    case Delete(id, faults) => DeleteKeepsKeys(s, id, faults, good);
  }

  lemma StartKeepsKeys(chk: Checks, s: System, t: nat, req: Request, good: Credential -> bool)
    requires KeepsGood(chk, good) && KeysSafe(s, good)
    ensures KeysSafe(StepStart(chk, s, t, req), good)
  {
  }

  lemma DeleteKeepsKeys(s: System, id: bytes, faults: Faults, good: Credential -> bool)
    requires KeysSafe(s, good)
    ensures KeysSafe(StepDelete(s, id, faults), good)
  {
  }

  lemma ThreadKeepsKeys(chk: Checks, s: System, t: nat, faults: Faults, good: Credential -> bool)
    requires KeepsGood(chk, good) && KeysSafe(s, good) && t in s.threads
    ensures KeysSafe(StepThread(chk, s, t, faults), good)
  {
    var Thread(req, phase) := s.threads[t];
    match phase
    case ToTake(_) =>
    case ToJudge(claim, pc, issue, take) =>
      if Judge(pc, claim.challenge, s.now) == None {
        ChecksKeepKeys(chk, Accepted(s, t, claim, issue, take), t, claim, good);
      }
    case ToFind =>
      if req.LoginRequest? {
        FindKeepsKeys(chk, s, t, req.login, faults, good);
      }
    case ToUpdate(cred, a, registration, found) =>
      if req.LoginRequest? {
        UpdateKeepsKeys(s, t, req.login, cred, a, registration, found, faults, good, chk);
      }
    case ToAdd(cred) => AddKeepsKeys(s, t, cred, faults, good, chk);
    case Finished =>
  }

  lemma ChecksKeepKeys(chk: Checks, s: System, t: nat, claim: Claim, good: Credential -> bool)
    requires KeepsGood(chk, good) && KeysSafe(s, good) && t in s.threads
    ensures KeysSafe(StepChecks(chk, s, t, claim), good)
  {
  }

  lemma FindKeepsKeys(
    chk: Checks, s: System, t: nat, req: AssertionRequest, faults: Faults, good: Credential -> bool)
    requires KeepsGood(chk, good) && KeysSafe(s, good) && t in s.threads
    ensures KeysSafe(StepFind(chk, s, t, req, faults), good)
  {
  }

  lemma UpdateKeepsKeys(s: System, t: nat, req: AssertionRequest, cred: Credential, a: Assertion,
                        registration: nat, found: nat, faults: Faults, good: Credential -> bool, chk: Checks)
    requires KeepsGood(chk, good) && KeysSafe(s, good) && t in s.threads
    ensures KeysSafe(StepUpdate(s, t, req, cred, a, registration, found, faults), good)
  {
  }

  lemma AddKeepsKeys(s: System, t: nat, cred: Credential, faults: Faults, good: Credential -> bool, chk: Checks)
    requires KeepsGood(chk, good) && KeysSafe(s, good) && t in s.threads && good(cred)
    ensures KeysSafe(StepAdd(s, t, cred, faults), good)
  {
  }

  lemma {:induction false} RunKeepsKeys(chk: Checks, actions: seq<Action>, good: Credential -> bool)
    requires KeepsGood(chk, good)
    ensures KeysSafe(Run(chk, actions), good)
  {
    if actions != [] {
      RunKeepsKeys(chk, actions[..|actions| - 1], good);
      StepKeepsKeys(chk, Run(chk, actions[..|actions| - 1]), actions[|actions| - 1], good);
    }
  }

  /** In every reachable state every stored key decodes to its full length and parses to a key of the stored algorithm,
      and no request has ever been turned away for a corrupt stored key. */
  lemma StoredKeysIntact(srv: Server, actions: seq<Action>)
    ensures var s := Run(ServerChecks(srv), actions);
            && (forall id | id in s.creds :: KeyIntact(srv, s.creds[id]))
            && (forall i | 0 <= i < |s.log| :: s.log[i] != Rejected(CorruptStoredKey))
  {
    var good := (c: Credential) => StoredKey(srv, c).Success?;
    ServerKeepsGood(srv, good);
    RunKeepsKeys(ServerChecks(srv), actions, good);
    var s := Run(ServerChecks(srv), actions);
    forall id | id in s.creds
      ensures KeyIntact(srv, s.creds[id])
    {
      IntactReadsBack(srv, s.creds[id]);
    }
  }

  lemma ServerKeepsGood(srv: Server, good: Credential -> bool)
    requires forall c :: good(c) <==> StoredKey(srv, c).Success?
    ensures KeepsGood(ServerChecks(srv), good)
  {
    var chk := ServerChecks(srv);
    forall r, now
      ensures chk.registration(r, now) != Failure(CorruptStoredKey)
      ensures chk.registration(r, now).Success? ==> good(chk.registration(r, now).value)
    {
      RegistrationNotCorrupt(srv, r, now);
      if chk.registration(r, now).Success? {
        RegistrationIntact(srv, r, now);
        IntactReadsBack(srv, chk.registration(r, now).value);
      }
    }
    forall r, c | good(c)
      ensures chk.assertion(r, c) != Failure(CorruptStoredKey)
    {
      IntactReadsBack(srv, c);
      IntactNotCorrupt(srv, r, c);
    }
  }
}
