/** The synthetic authenticator: a key pair, an AAGUID and a signature counter that advances with each assertion. */
module Harness {
  import opened ByteStrings
  import Cose
  import opened Crypto
  import opened HarnessWire

  /** The counter that the next assertion reports: a 32-bit counter wraps, a disabled one stays. */
  function NextCount(zeroCounter: bool, signCount: nat): nat {
    if zeroCounter then signCount else (signCount + 1) % TWO_TO_THE_32
  }

  /** The kind of key that is generated for a supported algorithm. */
  predicate KeyFor(alg: int, pub: PublicKey) {
    || (alg == Cose.ALG_ES256 && pub.EcKey? && pub.curve == P256)
    || (alg == Cose.ALG_RS256 && pub.RsaKey?)
    || (alg == Cose.ALG_EDDSA && pub.EdKey?)
  }

  class VirtualAuthenticator {
    const aaguid: bytes
    const alg: int
    const pub: PublicKey
    const zeroCounter: bool
    var signCount: nat

    ghost predicate Valid()
      reads this
    {
      |aaguid| == 16 && KeyFor(alg, pub) && signCount < TWO_TO_THE_32
    }

    constructor (aaguid: bytes, alg: int, pub: PublicKey, zeroCounter: bool)
      requires |aaguid| == 16 && KeyFor(alg, pub)
      ensures Valid()
      ensures this.aaguid == aaguid && this.alg == alg && this.pub == pub && this.zeroCounter == zeroCounter
      ensures signCount == if zeroCounter then 0 else 1
    {
      this.aaguid, this.alg, this.pub, this.zeroCounter := aaguid, alg, pub, zeroCounter;
      signCount := if zeroCounter then 0 else 1;
    }

    method SetSignCount(n: nat)
      requires Valid() && n < TWO_TO_THE_32
      modifies this`signCount
      ensures Valid() && signCount == n
    {
      signCount := n;
    }

    method BuildAuthDataRegistration(rpIdHash: bytes, credId: bytes) returns (buf: bytes)
      requires Valid()
      ensures buf == AuthDataRegistration(rpIdHash, signCount, aaguid, credId, pub, alg)
    {
      buf := rpIdHash;
      buf := buf + [REGISTRATION_FLAGS];
      buf := buf + ToBE(signCount, 4);
      ghost var header := buf;
      buf := buf + aaguid;
      buf := buf + ToBE(|credId| % TWO_TO_THE_16, 2);
      buf := buf + credId;
      buf := buf + EncodePublicKey(pub, alg);
      assert buf == header + (aaguid + ToBE(|credId| % TWO_TO_THE_16, 2) + credId + EncodePublicKey(pub, alg));
    }

    /** Advances the counter, unless it is fixed, and reports it. */
    method BuildAuthDataAssertion(rpIdHash: bytes) returns (buf: bytes)
      requires Valid()
      modifies this`signCount
      ensures Valid() && signCount == NextCount(zeroCounter, old(signCount))
      ensures buf == AuthDataAssertion(rpIdHash, signCount)
    {
      if !zeroCounter {
        signCount := (signCount + 1) % TWO_TO_THE_32;
      }
      buf := rpIdHash;
      buf := buf + [ASSERTION_FLAGS];
      buf := buf + ToBE(signCount, 4);
    }
  }

  /** What random generation delivered, if it did: the AAGUID and the public key of a fresh pair for each algorithm. */
  datatype Generation = Generation(
    aaguid: Option<bytes>, p256: Option<(nat, nat)>, rsa: Option<(nat, nat)>, ed: Option<bytes>)

  /** Refuses an unsupported algorithm and a failing source of randomness. */
  method New(alg: int, zeroCounter: bool, gen: Generation) returns (v: Option<VirtualAuthenticator>)
    requires gen.aaguid.Some? ==> |gen.aaguid.value| == 16
    ensures v.Some? <==>
            && gen.aaguid.Some?
            && ((alg == Cose.ALG_ES256 && gen.p256.Some?)
                || (alg == Cose.ALG_RS256 && gen.rsa.Some?)
                || (alg == Cose.ALG_EDDSA && gen.ed.Some?))
    ensures v.Some? ==>
              && fresh(v.value) && v.value.Valid()
              && v.value.alg == alg && v.value.zeroCounter == zeroCounter && v.value.aaguid == gen.aaguid.value
              && v.value.signCount == if zeroCounter then 0 else 1
    ensures v.Some? ==>
              v.value.pub == if alg == Cose.ALG_ES256 then EcKey(P256, gen.p256.value.0, gen.p256.value.1)
                             else if alg == Cose.ALG_RS256 then RsaKey(gen.rsa.value.0, gen.rsa.value.1)
                             else EdKey(gen.ed.value)
  {
    if gen.aaguid.None? {
      return None;
    }
    var pub: PublicKey;
    if alg == Cose.ALG_ES256 && gen.p256.Some? {
      pub := EcKey(P256, gen.p256.value.0, gen.p256.value.1);
    } else if alg == Cose.ALG_RS256 && gen.rsa.Some? {
      pub := RsaKey(gen.rsa.value.0, gen.rsa.value.1);
    } else if alg == Cose.ALG_EDDSA && gen.ed.Some? {
      pub := EdKey(gen.ed.value);
    } else {
      return None;
    }
    var made := new VirtualAuthenticator(gen.aaguid.value, alg, pub, zeroCounter);
    return Some(made);
  }
}
