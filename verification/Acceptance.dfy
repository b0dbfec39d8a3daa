/** What the two ceremonies accept, exactly: the conditions of sections 7.1 and 7.2 of Web Authentication Level 2 as
    this server applies them, said without its parsers. */
module Acceptance {
  import opened ByteStrings
  import opened CborValue
  import CborDecode
  import opened CborTheorems
  import Cose
  import CoseExact
  import AuthData
  import opened AuthDataExact
  import opened Policy
  import opened Attestation
  import opened AttestationExact
  import opened Challenge
  import opened Store
  import opened Ceremony

  /** The client data is of the right type, from an allowed origin, and carries the challenge pending under the key,
      which has not expired. */
  predicate FreshClaim(srv: Server, pending: PendingMap, key: PendingKey, json: bytes, typ: string, now: int) {
    var cd := srv.crypto.parseClientData(json);
    && cd.Some? && cd.value.typ == typ && cd.value.origin in srv.origins
    && key in pending && srv.crypto.decodeBase64(cd.value.challenge) == Some(pending[key].challenge)
    && now - pending[key].issuedAt <= 120_000_000_000
  }

  /** It is meant for this relying party, the user was present, and verified if the server or the request demands it. */
  predicate Addressed(srv: Server, d: AuthData.Data, requested: UvPolicy) {
    && d.rpIdHash == srv.crypto.sha256(srv.rpId) && d.up
    && (srv.uv == Required || requested == Required ==> d.uv)
    && (srv.uv == Unrecognized ==> requested == Required || requested == Preferred)
  }

  /** The stored bytes, all of them, encode a map that holds this key. */
  ghost predicate StoresKey(srv: Server, cred: Credential, key: Cose.Key) {
    && key.alg == cred.algorithm
    && exists v: Value ::
         Acceptable(v) && |cred.publicKey| <= 1048576 && cred.publicKey == Encode(v)
         && CoseExact.HoldsKey(srv.crypto, v, key)
  }

  /** What a login needs besides a working store. */
  ghost predicate LoginHolds(srv: Server, s: State, req: AssertionRequest, now: int, d: AuthData.Data, key: Cose.Key) {
    && FreshClaim(srv, s.pending, PendingKey(req.username, ForLogin), req.clientDataJson, "webauthn.get", now)
    && WrittenOut(req.authData, d) && Addressed(srv, d, req.uv)
    && req.credId in s.creds && StoresKey(srv, s.creds[req.credId], key)
    && Verifies(srv.crypto, key.alg, key.pub, req.authData + srv.crypto.sha256(req.clientDataJson), req.sig)
    && (s.creds[req.credId].signCount == 0 || d.signCount == 0 || s.creds[req.credId].signCount < d.signCount)
  }

  lemma FreshExact(srv: Server, pending: PendingMap, key: PendingKey, json: bytes, typ: string, now: int)
    ensures FreshClaim(srv, pending, key, json, typ, now) <==>
            && ReadClientData(srv, json, typ).Success?
            && JudgeClaim(srv, Lookup(pending, key), ReadClientData(srv, json, typ).value, now) == None
  {
  }

  lemma AddressedExact(srv: Server, d: AuthData.Data, requested: UvPolicy)
    ensures CheckAuthData(srv, d, requested).Success? <==> Addressed(srv, d, requested)
    ensures CheckAuthData(srv, d, requested).Success? ==> CheckAuthData(srv, d, requested).value == d.uv
  {
  }

  lemma StoredExact(srv: Server, cred: Credential, key: Cose.Key)
    ensures StoredKey(srv, cred) == Success(key) <==> StoresKey(srv, cred, key)
  {
    if StoredKey(srv, cred) == Success(key) {
      var v := CborDecode.Decode(cred.publicKey).value.val;
      DecodeExact(cred.publicKey, v, |cred.publicKey|);
      CoseExact.KeyExact(srv.crypto, v, key);
      assert Encode(v) == cred.publicKey;
    }
    if StoresKey(srv, cred, key) {
      var v :| Acceptable(v) && |cred.publicKey| <= 1048576 && cred.publicKey == Encode(v)
               && CoseExact.HoldsKey(srv.crypto, v, key);
      DecodeExact(cred.publicKey, v, |cred.publicKey|);
      CoseExact.KeyExact(srv.crypto, v, key);
    }
  }

  ghost predicate AssertionHolds(
    srv: Server, req: AssertionRequest, cred: Credential, a: Assertion, d: AuthData.Data, key: Cose.Key)
  {
    && WrittenOut(req.authData, d) && Addressed(srv, d, req.uv) && StoresKey(srv, cred, key)
    && Verifies(srv.crypto, key.alg, key.pub, req.authData + srv.crypto.sha256(req.clientDataJson), req.sig)
    && (cred.signCount == 0 || d.signCount == 0 || cred.signCount < d.signCount)
    && a == Assertion(d.uv, d.signCount)
  }

  lemma StepsExact(srv: Server, req: AssertionRequest, cred: Credential, d: AuthData.Data, key: Cose.Key)
    ensures CheckAuthData(srv, d, req.uv).Success? <==> Addressed(srv, d, req.uv)
    ensures CheckAuthData(srv, d, req.uv).Success? ==> CheckAuthData(srv, d, req.uv).value == d.uv
    ensures StoredKey(srv, cred) == Success(key) <==> StoresKey(srv, cred, key)
    ensures var msg := SignedOver(srv.crypto, req.authData, req.clientDataJson);
            VerifySignature(srv.crypto, key.alg, key.pub, msg, req.sig) == None
            <==> Verifies(srv.crypto, key.alg, key.pub, msg, req.sig)
  {
    AddressedExact(srv, d, req.uv);
    StoredExact(srv, cred, key);
    SignatureExact(srv.crypto, key.alg, key.pub, SignedOver(srv.crypto, req.authData, req.clientDataJson), req.sig);
  }

  /** The checks between lookup and update, one by one. */
  lemma AssertionExact(srv: Server, req: AssertionRequest, cred: Credential, a: Assertion)
    ensures CheckAssertion(srv, req, cred) == Success(a) <==>
            exists d, key :: AssertionHolds(srv, req, cred, a, d, key)
  {
    if CheckAssertion(srv, req, cred) == Success(a) {
      var d, key := AuthData.Parse(req.authData).value, StoredKey(srv, cred).value;
      ParseWritten(req.authData, d);
      StepsExact(srv, req, cred, d, key);
      assert AssertionHolds(srv, req, cred, a, d, key);
    }
    if d, key :| AssertionHolds(srv, req, cred, a, d, key) {
      ParseWritten(req.authData, d);
      StepsExact(srv, req, cred, d, key);
    }
  }

  /** A login succeeds exactly when the store works and every condition holds, and then reports the user of the stored
      credential and whether the user was verified. */
  lemma LoginExact(
    srv: Server, s: State, req: AssertionRequest, now: int, findFails: bool, faults: Faults, r: LoginResult)
    ensures Login(srv, s, req, now, findFails, faults).0 == Success(r) <==>
            && !findFails && faults == NO_FAULTS
            && exists d, key :: LoginHolds(srv, s, req, now, d, key)
                                && r == LoginResult(s.creds[req.credId].username, d.uv)
  {
    var key := PendingKey(req.username, ForLogin);
    FreshExact(srv, s.pending, key, req.clientDataJson, TYPE_GET, now);
    if Login(srv, s, req, now, findFails, faults).0 == Success(r) {
      var cred := s.creds[req.credId];
      var a := CheckAssertion(srv, req, cred).value;
      AssertionExact(srv, req, cred, a);
      var d, k :| AssertionHolds(srv, req, cred, a, d, k);
      assert LoginHolds(srv, s, req, now, d, k);
    }
    if d, k :| LoginHolds(srv, s, req, now, d, k) && r == LoginResult(s.creds[req.credId].username, d.uv) {
      var cred := s.creds[req.credId];
      assert AssertionHolds(srv, req, cred, Assertion(d.uv, d.signCount), d, k);
      AssertionExact(srv, req, cred, Assertion(d.uv, d.signCount));
    }
  }

  // ----- registration

  /** What a registration needs of its attestation object. */
  ghost predicate RegistrationHolds(srv: Server, req: RegistrationRequest, o: Object, d: AuthData.Data, key: Cose.Key) {
    && IsObject(req.attestationObject, o)
    && WrittenOut(o.authData, d) && Addressed(srv, d, req.uv) && d.attested.Some?
    && CoseExact.HoldsKey(srv.crypto, d.attested.value.key, key)
    && Attests(srv.crypto, o, o.authData + srv.crypto.sha256(req.clientDataJson), key)
  }

  /** The credential stored for it: the raw key bytes are those of the attested key. */
  function NewCredential(req: RegistrationRequest, d: AuthData.Data, key: Cose.Key, now: int): Credential
    requires d.attested.Some?
  {
    var a := d.attested.value;
    Credential(a.credId, req.username, Encode(a.key), key.alg, d.signCount, a.aaguid, Some(now), req.nickname)
  }

  lemma RegistrationSound(srv: Server, req: RegistrationRequest, now: int)
    ensures var r := CheckRegistration(srv, req, now);
            r.Success? ==>
              exists o, d, key :: RegistrationHolds(srv, req, o, d, key) && r.value == NewCredential(req, d, key, now)
  {
    if CheckRegistration(srv, req, now).Success? {
      var o := DecodeAttestationObject(req.attestationObject).value;
      var d := AuthData.Parse(o.authData).value;
      var key := Cose.Parse(srv.crypto, d.attested.value.key).value;
      ObjectExact(req.attestationObject, o);
      RegistrationSteps(srv, req, o, d, key);
      assert RegistrationHolds(srv, req, o, d, key);
    }
  }

  lemma RegistrationComplete(
    srv: Server, req: RegistrationRequest, now: int, o: Object, d: AuthData.Data, key: Cose.Key)
    requires RegistrationHolds(srv, req, o, d, key)
    ensures CheckRegistration(srv, req, now) == Success(NewCredential(req, d, key, now))
  {
    ObjectExact(req.attestationObject, o);
    RegistrationSteps(srv, req, o, d, key);
  }

  lemma RegistrationSteps(srv: Server, req: RegistrationRequest, o: Object, d: AuthData.Data, key: Cose.Key)
    requires DecodeAttestationObject(req.attestationObject) == Success(o)
    ensures AuthData.Parse(o.authData) == Success(d) <==> WrittenOut(o.authData, d)
    ensures CheckAuthData(srv, d, req.uv).Success? <==> Addressed(srv, d, req.uv)
    ensures WrittenOut(o.authData, d) && d.attested.Some? ==>
              && (Cose.Parse(srv.crypto, d.attested.value.key) == Success(key)
                  <==> CoseExact.HoldsKey(srv.crypto, d.attested.value.key, key))
    ensures VerifyAttestation(srv.crypto, o, req.clientDataJson, key) == None
            <==> Attests(srv.crypto, o, o.authData + srv.crypto.sha256(req.clientDataJson), key)
  {
    ParseWritten(o.authData, d);
    AddressedExact(srv, d, req.uv);
    if WrittenOut(o.authData, d) && d.attested.Some? {
      CoseExact.KeyExact(srv.crypto, d.attested.value.key, key);
    }
    StatementCanonical(req.attestationObject);
    StatementExact(srv.crypto, o, req.clientDataJson, key);
  }

  /** A registration succeeds exactly when the store works, the claim is fresh, the attestation object passes and the
      credential ID is new; it then adds exactly that credential. */
  lemma RegisterExact(srv: Server, s: State, req: RegistrationRequest, judgedAt: int, now: int, faults: Faults)
    ensures var (r, s') := Register(srv, s, req, judgedAt, now, faults);
            && (r == None <==>
                  && faults == NO_FAULTS
                  && FreshClaim(srv, s.pending, PendingKey(req.username, ForRegister), req.clientDataJson,
                                "webauthn.create", judgedAt)
                  && exists o, d, key :: RegistrationHolds(srv, req, o, d, key)
                                         && d.attested.value.credId !in s.creds)
            && (r == None ==>
                  exists o, d, key ::
                    && RegistrationHolds(srv, req, o, d, key)
                    && s'.creds == s.creds[d.attested.value.credId := NewCredential(req, d, key, now)])
  {
    FreshExact(srv, s.pending, PendingKey(req.username, ForRegister), req.clientDataJson, TYPE_CREATE, judgedAt);
    var (r, s') := Register(srv, s, req, judgedAt, now, faults);
    if r == None {
      RegistrationSound(srv, req, now);
    }
    if o, d, key :| RegistrationHolds(srv, req, o, d, key) && d.attested.value.credId !in s.creds {
      RegistrationComplete(srv, req, now, o, d, key);
    }
  }
}
