/** The server accepts the synthetic authenticator: its registration, and every assertion it delivers in order. */
module HonestPeer {
  import opened ByteStrings
  import opened CborValue
  import AuthData
  import Cose
  import opened Crypto
  import opened Policy
  import opened Attestation
  import opened Store
  import opened Ceremony
  import opened HarnessKeys
  import opened HarnessWire

  /** The private-key operation, on a digest or on a message, with the random bytes it draws. */
  type Signer = (bytes, bytes) -> bytes

  /** An authenticator as a value. */
  datatype Peer = Peer(aaguid: bytes, alg: int, pub: PublicKey, zeroCounter: bool, signCount: nat, sign: Signer)

  /** The browser's rendering of type, challenge and origin as clientDataJSON. */
  datatype Browser = Browser(render: (string, bytes, string) -> bytes)

  // ----- what is taken for granted about the libraries

  /** Rendered client data reads back: the round trip of JSON and base64. */
  ghost predicate Faithful(p: Primitives, br: Browser) {
    forall typ, challenge, origin ::
      var cd := p.parseClientData(br.render(typ, challenge, origin));
      && cd.Some? && cd.value.typ == typ && cd.value.origin == origin
      && p.decodeBase64(cd.value.challenge) == Some(challenge)
  }

  /** Every signature made with the private key verifies under the public key, whatever randomness it used. */
  ghost predicate SignsWith(p: Primitives, alg: int, pub: PublicKey, sign: Signer) {
    if alg == Cose.ALG_ES256 then pub.EcKey? && forall d, random :: p.ecdsaVerify(pub, d, sign(d, random))
    else if alg == Cose.ALG_RS256 then pub.RsaKey? && forall d, random :: p.rsaVerify(pub, d, sign(d, random))
    else alg == Cose.ALG_EDDSA && pub.EdKey? && forall m, random :: p.edVerify(pub, m, sign(m, random))
  }

  ghost predicate Generated(p: Primitives, peer: Peer) {
    && GoodKey(p, peer.pub) && SignsWith(p, peer.alg, peer.pub, peer.sign)
    && |EncodePublicKey(peer.pub, peer.alg)| <= MAX_INPUT_SIZE
    && |peer.aaguid| == 16 && peer.signCount < TWO_TO_THE_32
  }

  /** A server with a recognized policy and a hash function of the right width. */
  predicate Configured(srv: Server) {
    |srv.crypto.sha256(srv.rpId)| == 32 && srv.uv != Unrecognized
  }

  // ----- signing

  /** ECDSA and RSA sign a digest, Ed25519 the message. */
  function Sign(p: Primitives, alg: int, sign: Signer, msg: bytes, random: bytes): bytes {
    sign(if alg == Cose.ALG_EDDSA then msg else p.sha256(msg), random)
  }

  lemma SignVerifies(p: Primitives, alg: int, pub: PublicKey, sign: Signer, msg: bytes, random: bytes)
    requires SignsWith(p, alg, pub, sign)
    ensures VerifySignature(p, alg, pub, msg, Sign(p, alg, sign, msg, random)) == None
  {
  }

  lemma HarnessFlagsPass(srv: Server, rpIdHash: bytes, requested: UvPolicy, d: AuthData.Data)
    requires Configured(srv) && d.rpIdHash == srv.crypto.sha256(srv.rpId) && d.up && d.uv
    ensures CheckAuthData(srv, d, requested) == Success(true)
  {
  }

  // ----- registration

  /** The attestations that the harness can make. */
  datatype Attest =
    | NoAttestation
    | SelfAttestation(random: bytes)
    | FullAttestation(random: bytes, cert: bytes, certSign: Signer)

  ghost predicate GoodAttest(p: Primitives, a: Attest) {
    a.FullAttestation? ==>
      && p.parseCertificate(a.cert).Some?
      && SignsWith(p, Cose.ALG_ES256, p.parseCertificate(a.cert).value, a.certSign)
  }

  function RegistrationAuthData(srv: Server, peer: Peer, credId: bytes): bytes
    requires HarnessKey(peer.pub) && EncodableAlg(peer.alg)
  {
    AuthDataRegistration(srv.crypto.sha256(srv.rpId), peer.signCount, peer.aaguid, credId, peer.pub, peer.alg)
  }

  function PackedStatement(p: Primitives, peer: Peer, a: Attest, msg: bytes): PackedStmt
    requires !a.NoAttestation?
  {
    if a.SelfAttestation? then PackedStmt(peer.alg, Sign(p, peer.alg, peer.sign, msg, a.random), [])
    else PackedStmt(Cose.ALG_ES256, Sign(p, Cose.ALG_ES256, a.certSign, msg, a.random), [a.cert])
  }

  function AttestationObject(srv: Server, peer: Peer, a: Attest, credId: bytes, json: bytes): bytes
    requires HarnessKey(peer.pub) && EncodableAlg(peer.alg)
  {
    var authData := RegistrationAuthData(srv, peer, credId);
    if a.NoAttestation? then AttestationObjectNone(authData)
    else
      var s := PackedStatement(srv.crypto, peer, a, SignedOver(srv.crypto, authData, json));
      AttestationObjectPacked(authData, s.alg, s.sig, s.x5c)
  }

  function MakeRegistration(srv: Server, br: Browser, peer: Peer, a: Attest, credId: bytes, username: string,
                            challenge: bytes, origin: string, uv: UvPolicy, nickname: string): RegistrationRequest
    requires HarnessKey(peer.pub) && EncodableAlg(peer.alg)
  {
    var json := br.render(TYPE_CREATE, challenge, origin);
    RegistrationRequest(username, json, AttestationObject(srv, peer, a, credId, json), uv, nickname)
  }

  /** The attestation object reads back with the authenticator data it was built around, and its statement verifies. */
  lemma AttestationAccepted(srv: Server, peer: Peer, a: Attest, credId: bytes, json: bytes)
    requires Generated(srv.crypto, peer) && GoodAttest(srv.crypto, a)
    requires |AttestationObject(srv, peer, a, credId, json)| <= MAX_INPUT_SIZE
    ensures var o := DecodeAttestationObject(AttestationObject(srv, peer, a, credId, json));
            && o.Success? && o.value.authData == RegistrationAuthData(srv, peer, credId)
            && VerifyAttestation(srv.crypto, o.value, json, Cose.Key(peer.pub, peer.alg)) == None
  {
    var authData := RegistrationAuthData(srv, peer, credId);
    if a.NoAttestation? {
      NoneObjectRoundTrip(authData);
    } else {
      var msg := SignedOver(srv.crypto, authData, json);
      var s := PackedStatement(srv.crypto, peer, a, msg);
      PackedObjectRoundTrip(authData, s);
      if a.SelfAttestation? {
        SignVerifies(srv.crypto, peer.alg, peer.pub, peer.sign, msg, a.random);
      } else {
        SignVerifies(srv.crypto, Cose.ALG_ES256, srv.crypto.parseCertificate(a.cert).value, a.certSign, msg, a.random);
      }
    }
  }

  /** The checks of a registration, passed one by one. */
  lemma RegistrationChecks(srv: Server, req: RegistrationRequest, now: int, o: Attestation.Object, d: AuthData.Data,
                           key: Cose.Key)
    requires DecodeAttestationObject(req.attestationObject) == Success(o)
    requires AuthData.Parse(o.authData) == Success(d) && CheckAuthData(srv, d, req.uv).Success?
    requires d.at && d.attested.Some? && Cose.Parse(srv.crypto, d.attested.value.key) == Success(key)
    requires VerifyAttestation(srv.crypto, o, req.clientDataJson, key) == None
    ensures var a := d.attested.value;
            CheckRegistration(srv, req, now)
            == Success(Credential(a.credId, req.username, a.keyRaw, key.alg, d.signCount, a.aaguid, Some(now),
                                  req.nickname))
  {
  }

  /** The authenticator data of a registration reads back and passes its checks, down to the key. */
  lemma RegistrationDataPasses(srv: Server, peer: Peer, credId: bytes, uv: UvPolicy)
    requires Configured(srv) && Generated(srv.crypto, peer) && |credId| < TWO_TO_THE_16
    ensures var rpIdHash := srv.crypto.sha256(srv.rpId);
            var d := RegistrationData(rpIdHash, peer.signCount, peer.aaguid, credId, peer.pub, peer.alg);
            && AuthData.Parse(RegistrationAuthData(srv, peer, credId)) == Success(d)
            && CheckAuthData(srv, d, uv).Success?
            && d.at && d.attested.Some?
            && Cose.Parse(srv.crypto, d.attested.value.key) == Success(Cose.Key(peer.pub, peer.alg))
  {
    var rpIdHash := srv.crypto.sha256(srv.rpId);
    RegistrationDataRoundTrip(rpIdHash, peer.signCount, peer.aaguid, credId, peer.pub, peer.alg);
    var d := RegistrationData(rpIdHash, peer.signCount, peer.aaguid, credId, peer.pub, peer.alg);
    HarnessFlagsPass(srv, rpIdHash, uv, d);
    KeyPasses(srv.crypto, peer);
  }

  lemma KeyPasses(p: Primitives, peer: Peer)
    requires Generated(p, peer)
    ensures Cose.Parse(p, PublicKeyValue(peer.pub, peer.alg)) == Success(Cose.Key(peer.pub, peer.alg))
  {
    PublicKeyRoundTrip(p, peer.pub, peer.alg, []);
  }

  /** The whole way of a registration over the wire: what the server would store is what the authenticator sent. */
  lemma RegistrationAccepted(srv: Server, br: Browser, peer: Peer, a: Attest, credId: bytes, username: string,
                             challenge: bytes, origin: string, uv: UvPolicy, nickname: string, now: int)
    requires Configured(srv) && Generated(srv.crypto, peer) && GoodAttest(srv.crypto, a) && |credId| < TWO_TO_THE_16
    requires var req := MakeRegistration(srv, br, peer, a, credId, username, challenge, origin, uv, nickname);
             |req.attestationObject| <= MAX_INPUT_SIZE
    ensures var req := MakeRegistration(srv, br, peer, a, credId, username, challenge, origin, uv, nickname);
            CheckRegistration(srv, req, now)
            == Success(Credential(credId, username, EncodePublicKey(peer.pub, peer.alg), peer.alg, peer.signCount,
                                  peer.aaguid, Some(now), nickname))
  {
    var req := MakeRegistration(srv, br, peer, a, credId, username, challenge, origin, uv, nickname);
    var d := RegistrationData(srv.crypto.sha256(srv.rpId), peer.signCount, peer.aaguid, credId, peer.pub, peer.alg);
    AttestationAccepted(srv, peer, a, credId, req.clientDataJson);
    RegistrationDataPasses(srv, peer, credId, uv);
    var o := DecodeAttestationObject(req.attestationObject).value;
    RegistrationChecks(srv, req, now, o, d, Cose.Key(peer.pub, peer.alg));
  }

  // ----- assertions

  /** An assertion with the authenticator's current count, routed to a challenge by `username`. */
  function MakeAssertion(srv: Server, br: Browser, peer: Peer, credId: bytes, username: string,
                         challenge: bytes, origin: string, uv: UvPolicy, random: bytes): AssertionRequest
  {
    var json := br.render(TYPE_GET, challenge, origin);
    var authData := AuthDataAssertion(srv.crypto.sha256(srv.rpId), peer.signCount);
    var msg := SignedOver(srv.crypto, authData, json);
    AssertionRequest(username, credId, json, authData, Sign(srv.crypto, peer.alg, peer.sign, msg, random), uv)
  }

  predicate StoresKeyOf(cred: Credential, peer: Peer)
    requires HarnessKey(peer.pub) && EncodableAlg(peer.alg)
  {
    cred.publicKey == EncodePublicKey(peer.pub, peer.alg) && cred.algorithm == peer.alg
  }

  /** Every check passes on an honest assertion except, possibly, the counter rule. */
  lemma AssertionAccepted(srv: Server, br: Browser, peer: Peer, cred: Credential, credId: bytes, username: string,
                          challenge: bytes, origin: string, uv: UvPolicy, random: bytes)
    requires Configured(srv) && Generated(srv.crypto, peer) && StoresKeyOf(cred, peer)
    ensures CheckAssertion(srv, MakeAssertion(srv, br, peer, credId, username, challenge, origin, uv, random), cred)
            == if CounterRegresses(cred.signCount, peer.signCount) then Failure(CounterRegression)
               else Success(Assertion(true, peer.signCount))
  {
    var rpIdHash := srv.crypto.sha256(srv.rpId);
    var req := MakeAssertion(srv, br, peer, credId, username, challenge, origin, uv, random);
    AssertionDataRoundTrip(rpIdHash, peer.signCount);
    HarnessFlagsPass(srv, rpIdHash, uv, AssertionData(rpIdHash, peer.signCount));
    PublicKeyRoundTrip(srv.crypto, peer.pub, peer.alg, []);
    assert EncodePublicKey(peer.pub, peer.alg) + [] == cred.publicKey;
    var msg := SignedOver(srv.crypto, req.authData, req.clientDataJson);
    SignVerifies(srv.crypto, peer.alg, peer.pub, peer.sign, msg, random);
  }
}
