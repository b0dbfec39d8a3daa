/** The ceremonies over the mutable stores, in the program's order. */
module CeremonyServer {
  import opened ByteStrings
  import CborDecoder
  import AuthDataParser
  import opened Policy
  import opened Attestation
  import opened Challenge
  import opened Store
  import opened Ceremony

  class RelyingParty {
    const srv: Server
    const challenges: ChallengeStore
    const store: CredentialStore

    constructor (srv: Server, challenges: ChallengeStore, store: CredentialStore)
      ensures this.srv == srv && this.challenges == challenges && this.store == store
    {
      this.srv, this.challenges, this.store := srv, challenges, store;
    }

    ghost predicate Valid()
      reads this, challenges, store, store.fs
    {
      store.Valid()
    }

    ghost function Abstract(): State
      requires Valid()
      reads this, challenges, store, store.fs
    {
      State(challenges.pending, store.Contents())
    }

    method Login(req: AssertionRequest, judgedAt: int, findFails: bool, faults: Faults)
      returns (r: Result<LoginResult, Error>)
      requires Valid()
      modifies challenges, store.fs
      ensures Valid()
      ensures (r, Abstract()) == Ceremony.Login(srv, old(Abstract()), req, judgedAt,
                                                findFails || old(store.fs.file).Garbage?, old(store.Seen(faults)))
    {
      var claim :- ReadClientData(srv, req.clientDataJson, TYPE_GET);
      var denied := challenges.Consume(req.username, ForLogin, claim.challenge, judgedAt);
      if denied.Some? {
        return Failure(denied.value);
      }
      if claim.origin !in srv.origins {
        return Failure(OriginNotAllowed);
      }
      var found :- store.FindByID(req.credId, findFails);
      if found.None? {
        return Failure(CredentialNotFound);
      }
      var cred := found.value;
      var a := VerifyAssertion(req, cred);
      if a.Failure? {
        return Failure(a.error);
      }
      var failed := store.UpdateSignCount(req.credId, a.value.count, faults);
      if failed.Some? {
        return Failure(failed.value);
      }
      return Success(LoginResult(cred.username, a.value.uvPerformed));
    }

    /** The checks of login from the parsing of authenticator data to the counter rule. */
    method VerifyAssertion(req: AssertionRequest, cred: Credential) returns (r: Result<Assertion, Error>)
      ensures r == CheckAssertion(srv, req, cred)
    {
      var ad := AuthDataParser.Parse(req.authData);
      if ad.Failure? {
        return Failure(AuthDataFailure(ad.error));
      }
      var uvPerformed :- CheckAuthData(srv, ad.value, req.uv);
      var item, _ := CborDecoder.Decode(cred.publicKey);
      if item.Failure? || item.value.size != |cred.publicKey| {
        return Failure(CorruptStoredKey);
      }
      var key :- ParseKey(srv, item.value.val);
      if key.alg != cred.algorithm {
        return Failure(CorruptStoredKey);
      }
      var signedOver := SignedOver(srv.crypto, req.authData, req.clientDataJson);
      var bad := VerifySignature(srv.crypto, cred.algorithm, key.pub, signedOver, req.sig);
      if bad.Some? {
        return Failure(bad.value);
      }
      if CounterRegresses(cred.signCount, ad.value.signCount) {
        return Failure(CounterRegression);
      }
      return Success(Assertion(uvPerformed, ad.value.signCount));
    }

    method Register(req: RegistrationRequest, judgedAt: int, now: int, faults: Faults) returns (r: Option<Error>)
      requires Valid()
      modifies challenges, store.fs
      ensures Valid()
      ensures (r, Abstract()) == Ceremony.Register(srv, old(Abstract()), req, judgedAt, now, old(store.Seen(faults)))
    {
      var claim := ReadClientData(srv, req.clientDataJson, TYPE_CREATE);
      if claim.Failure? {
        return Some(claim.error);
      }
      var denied := challenges.Consume(req.username, ForRegister, claim.value.challenge, judgedAt);
      if denied.Some? {
        return denied;
      }
      if claim.value.origin !in srv.origins {
        return Some(OriginNotAllowed);
      }
      var cred := VerifyRegistration(req, now);
      if cred.Failure? {
        return Some(cred.error);
      }
      r := store.AddCredential(cred.value, now, faults);
    }

    /** The checks of registration from the attestation object to the attestation statement. */
    method VerifyRegistration(req: RegistrationRequest, now: int) returns (r: Result<Credential, Error>)
      ensures r == CheckRegistration(srv, req, now)
    {
      var o :- DecodeAttestationObject(req.attestationObject);
      var ad := AuthDataParser.Parse(o.authData);
      if ad.Failure? {
        return Failure(AuthDataFailure(ad.error));
      }
      var _ :- CheckAuthData(srv, ad.value, req.uv);
      if !ad.value.at || ad.value.attested.None? {
        return Failure(MissingAttestedData);
      }
      var a := ad.value.attested.value;
      var key :- ParseKey(srv, a.key);
      var bad := VerifyAttestation(srv.crypto, o, req.clientDataJson, key);
      if bad.Some? {
        return Failure(bad.value);
      }
      return Success(Credential(a.credId, req.username, a.keyRaw, key.alg, ad.value.signCount, a.aaguid, Some(now),
                                req.nickname));
    }
  }
}
