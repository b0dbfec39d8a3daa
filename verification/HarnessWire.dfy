/** The byte builders of the synthetic authenticator, and the registration wire format read back by the program. */
module HarnessWire {
  import opened ByteStrings
  import opened CborValue
  import CborDecode
  import opened CborEncoder
  import opened CborTheorems
  import opened CborOrder
  import opened CborMaps
  import Cose
  import opened Crypto
  import opened HarnessKeys
  import AuthData
  import opened Attestation

  // ----- public keys

  /** Keys the synthetic authenticator generates. */
  predicate HarnessKey(pub: PublicKey) {
    (pub.EcKey? && pub.curve == P256) || pub.RsaKey? || pub.EdKey?
  }

  function EncodePublicKey(pub: PublicKey, alg: int): bytes
    requires HarnessKey(pub) && EncodableAlg(alg)
  {
    match pub
    case EcKey(_, x, y) => EncodeCoseKeyEC2(x, y, alg)
    case RsaKey(n, e) => EncodeCoseKeyRSA(n, e, alg)
    case EdKey(key) => EncodeCoseKeyOKP(key, alg)
  }

  function PublicKeyValue(pub: PublicKey, alg: int): Value
    requires HarnessKey(pub)
  {
    match pub
    case EcKey(_, x, y) => Ec2Value(x, y, alg)
    case RsaKey(n, e) => RsaValue(n, e, alg)
    case EdKey(key) => OkpValue(key, alg)
  }

  /** What key generation guarantees: a point on the curve, a modulus of at least 2^2047 with a small exponent,
      or 32 bytes. */
  predicate GoodKey(p: Primitives, pub: PublicKey) {
    match pub
    case EcKey(curve, x, y) =>
      && curve == P256 && x < Pow256(32) && y < Pow256(32)
      && p.onCurve(P256, [0x04] + PadBigInt(x, 32) + PadBigInt(y, 32))
    case RsaKey(n, e) => n >= Pow2(Cose.MIN_RSA_MODULUS_BITS - 1) && 1 <= e < TWO_TO_THE_31
    case EdKey(key) => |key| == Cose.ED25519_KEY_SIZE
    case OtherKey => false
  }

  lemma PublicKeyPrints(pub: PublicKey, alg: int)
    requires HarnessKey(pub) && EncodableAlg(alg)
    ensures EncodePublicKey(pub, alg) == Encode(PublicKeyValue(pub, alg))
    ensures Acceptable(PublicKeyValue(pub, alg)) && PublicKeyValue(pub, alg).Map?
  {
    match pub
    case EcKey(_, x, y) => Ec2Prints(x, y, alg);
    case RsaKey(n, e) => RsaPrints(n, e, alg);
    case EdKey(key) => OkpPrints(key, alg);
  }

  /** Every generated key, encoded, decoded from the front of any input and parsed, is the same key under the same
      algorithm. */
  lemma PublicKeyRoundTrip(p: Primitives, pub: PublicKey, alg: int, suffix: bytes)
    requires GoodKey(p, pub) && EncodableAlg(alg)
    requires |EncodePublicKey(pub, alg)| + |suffix| <= MAX_INPUT_SIZE
    ensures CborDecode.Decode(EncodePublicKey(pub, alg) + suffix)
            == Success(CborDecode.Item(PublicKeyValue(pub, alg), |EncodePublicKey(pub, alg)|))
    ensures Cose.Parse(p, PublicKeyValue(pub, alg)) == Success(Cose.Key(pub, alg))
  {
    PublicKeyPrints(pub, alg);
    DecodeAppend(PublicKeyValue(pub, alg), suffix);
    match pub
    case EcKey(_, x, y) => Ec2RoundTrip(p, x, y, alg);
    case RsaKey(n, e) => RsaRoundTrip(p, n, e, alg);
    case EdKey(key) => OkpRoundTrip(p, key, alg);
  }

  // ----- authenticator data

  const REGISTRATION_FLAGS := 0x45  // UP, UV and AT
  const ASSERTION_FLAGS := 0x05  // UP and UV

  function FixedHeader(rpIdHash: bytes, flags: byte, signCount: nat): bytes {
    rpIdHash + [flags] + ToBE(signCount, 4)
  }

  function AuthDataRegistration(
    rpIdHash: bytes, signCount: nat, aaguid: bytes, credId: bytes, pub: PublicKey, alg: int): bytes
    requires HarnessKey(pub) && EncodableAlg(alg)
  {
    FixedHeader(rpIdHash, REGISTRATION_FLAGS, signCount)
    + (aaguid + ToBE(|credId| % TWO_TO_THE_16, 2) + credId + EncodePublicKey(pub, alg))
  }

  function AuthDataAssertion(rpIdHash: bytes, signCount: nat): bytes {
    FixedHeader(rpIdHash, ASSERTION_FLAGS, signCount)
  }

  function RegistrationData(
    rpIdHash: bytes, signCount: nat, aaguid: bytes, credId: bytes, pub: PublicKey, alg: int): AuthData.Data
    requires HarnessKey(pub) && EncodableAlg(alg)
  {
    AuthData.Data(rpIdHash, signCount, true, true, false, false, true, false,
                  Some(AuthData.Attested(aaguid, credId, PublicKeyValue(pub, alg), EncodePublicKey(pub, alg))), None)
  }

  function AssertionData(rpIdHash: bytes, signCount: nat): AuthData.Data {
    AuthData.Data(rpIdHash, signCount, true, true, false, false, false, false, None, None)
  }

  lemma HarnessFlags()
    ensures AuthData.FromBits([true, false, true, false, false, false, true, false]) == REGISTRATION_FLAGS
    ensures AuthData.FromBits([true, false, true, false, false, false, false, false]) == ASSERTION_FLAGS
  {
    assert AuthData.FromBits([true, false]) == 1 && AuthData.FromBits([false, false]) == 0;
    assert AuthData.FromBits([false, false, true, false]) == 4 && AuthData.FromBits([false, false, false, false]) == 0;
  }

  lemma RegistrationDataRoundTrip(
    rpIdHash: bytes, signCount: nat, aaguid: bytes, credId: bytes, pub: PublicKey, alg: int)
    requires HarnessKey(pub) && EncodableAlg(alg) && |EncodePublicKey(pub, alg)| <= MAX_INPUT_SIZE
    requires |rpIdHash| == 32 && |aaguid| == 16 && |credId| < TWO_TO_THE_16 && signCount < TWO_TO_THE_32
    ensures AuthData.Parse(AuthDataRegistration(rpIdHash, signCount, aaguid, credId, pub, alg))
            == Success(RegistrationData(rpIdHash, signCount, aaguid, credId, pub, alg))
  {
    PublicKeyPrints(pub, alg);
    RegistrationDataIsBuild(rpIdHash, signCount, aaguid, credId, pub, alg);
    AuthData.ParseComplete(RegistrationData(rpIdHash, signCount, aaguid, credId, pub, alg), false, false);
  }

  lemma RegistrationDataIsBuild(
    rpIdHash: bytes, signCount: nat, aaguid: bytes, credId: bytes, pub: PublicKey, alg: int)
    requires HarnessKey(pub) && EncodableAlg(alg) && |credId| < TWO_TO_THE_16
    ensures AuthData.Build(RegistrationData(rpIdHash, signCount, aaguid, credId, pub, alg), false, false)
            == AuthDataRegistration(rpIdHash, signCount, aaguid, credId, pub, alg)
  {
    HarnessFlags();
    ModFits(|credId|, TWO_TO_THE_16);
    var a := AuthDataRegistration(rpIdHash, signCount, aaguid, credId, pub, alg);
    assert a + [] == a;
  }

  lemma AssertionDataRoundTrip(rpIdHash: bytes, signCount: nat)
    requires |rpIdHash| == 32 && signCount < TWO_TO_THE_32
    ensures AuthData.Parse(AuthDataAssertion(rpIdHash, signCount)) == Success(AssertionData(rpIdHash, signCount))
  {
    var d := AssertionData(rpIdHash, signCount);
    HarnessFlags();
    AuthData.ParseComplete(d, false, false);
    assert AuthData.Build(d, false, false) == AuthDataAssertion(rpIdHash, signCount);
  }

  // ----- attestation objects

  function AttestationObjectNone(authData: bytes): bytes {
    MapOf([
      EncodedEntry(EncodeText(FMT), EncodeText(NONE)),
      EncodedEntry(EncodeText(ATT_STMT), MapOf([])),
      EncodedEntry(EncodeText(AUTH_DATA), EncodeBytes(authData))])
  }

  function EncodeCerts(x5c: seq<bytes>): seq<bytes> {
    seq(|x5c|, i requires 0 <= i < |x5c| => EncodeBytes(x5c[i]))
  }

  function PackedEntries(alg: int, sig: bytes, x5c: seq<bytes>): seq<EncodedEntry>
    requires EncodableAlg(alg)
  {
    [EncodedEntry(EncodeText(ALG), EncodeNegInt(alg)), EncodedEntry(EncodeText(SIG), EncodeBytes(sig))]
    + if |x5c| > 0 then [EncodedEntry(EncodeText(X5C), ArrayOf(EncodeCerts(x5c)))] else []
  }

  function AttestationObjectPacked(authData: bytes, alg: int, sig: bytes, x5c: seq<bytes>): bytes
    requires EncodableAlg(alg)
  {
    MapOf([
      EncodedEntry(EncodeText(FMT), EncodeText(PACKED)),
      EncodedEntry(EncodeText(ATT_STMT), MapOf(PackedEntries(alg, sig, x5c))),
      EncodedEntry(EncodeText(AUTH_DATA), EncodeBytes(authData))])
  }

  // ----- the values those builders print

  function ObjectValue(o: Object): Value {
    Map([Entry(Text(FMT), Text(o.format)), Entry(Text(ATT_STMT), o.stmt), Entry(Text(AUTH_DATA), Bytes(o.authData))])
  }

  function CertValues(x5c: seq<bytes>): seq<Value> {
    seq(|x5c|, i requires 0 <= i < |x5c| => Bytes(x5c[i]))
  }

  function PackedValue(s: PackedStmt): Value {
    Map([Entry(Text(ALG), NegInt(s.alg)), Entry(Text(SIG), Bytes(s.sig))]
        + if |s.x5c| > 0 then [Entry(Text(X5C), Array(CertValues(s.x5c)))] else [])
  }

  lemma TextEncodings()
    ensures |Encode(Text(FMT))| == 4 && |Encode(Text(ATT_STMT))| == 8 && |Encode(Text(AUTH_DATA))| == 9
    ensures CanonicalCompare(Encode(Text(ALG)), Encode(Text(SIG))) == -1
    ensures CanonicalCompare(Encode(Text(SIG)), Encode(Text(X5C))) == -1
  {
    CompareConcat([0x63], [0x63], ALG, SIG);
    CompareConcat([0x63], [0x63], SIG, X5C);
    CompareFirst(ALG, SIG);
    CompareFirst(SIG, X5C);
  }

  /** An attestation object holding a canonical statement is canonical, one level deeper and six nodes larger. */
  lemma ObjectCanonical(o: Object)
    requires o.stmt.Map? && Canonical(o.stmt)
    ensures Canonical(ObjectValue(o))
    ensures Height(ObjectValue(o)) == 1 + Height(o.stmt) && Nodes(ObjectValue(o)) == 6 + Nodes(o.stmt)
  {
    var es := ObjectValue(o).entries;
    TextEncodings();
    CanonicalMap(es);
    assert es == [es[0]] + ([es[1]] + ([es[2]] + []));
    SizeCons(es[2], []);
    SizeCons(es[1], [es[2]] + []);
    SizeCons(es[0], [es[1]] + ([es[2]] + []));
    assert HeightEntry(es[0]) == HeightEntry(es[2]) == 0 && NodesEntry(es[0]) == NodesEntry(es[2]) == 2;
  }

  /** Reading an attestation object back fails only for its size or for too many elements in the statement. */
  lemma ObjectRoundTrip(o: Object)
    requires o.stmt.Map? && Canonical(o.stmt) && Height(o.stmt) < MAX_DEPTH
    ensures DecodeAttestationObject(Encode(ObjectValue(o))) == Success(o)
            <==> |Encode(ObjectValue(o))| <= MAX_INPUT_SIZE && 6 + Nodes(o.stmt) <= MAX_ELEMENTS
  {
    var v := ObjectValue(o);
    var raw := Encode(v);
    ObjectCanonical(o);
    FindTextEntry(v.entries, 0);
    FindTextEntry(v.entries, 1);
    FindTextEntry(v.entries, 2);
    if |raw| <= MAX_INPUT_SIZE && 6 + Nodes(o.stmt) <= MAX_ELEMENTS {
      DecodeExact(raw, v, |raw|);
    } else if CborDecode.Decode(raw).Success? && CborDecode.Decode(raw).value.size == |raw| {
      var w := CborDecode.Decode(raw).value.val;
      DecodeExact(raw, w, |raw|);
      PrefixFree(w, v);
    }
  }

  // ----- packed statements

  lemma {:induction false} CertBytesOfValues(x5c: seq<bytes>)
    ensures CertBytes(CertValues(x5c)) == Some(x5c)
  {
    if x5c != [] {
      CertBytesOfValues(x5c[1..]);
      assert CertValues(x5c)[1..] == CertValues(x5c[1..]);
      assert x5c == [x5c[0]] + x5c[1..];
    }
  }

  lemma PackedCanonical(s: PackedStmt)
    requires EncodableAlg(s.alg)
    ensures Canonical(PackedValue(s)) && Height(PackedValue(s)) <= 2
    ensures Nodes(PackedValue(s)) == if s.x5c == [] then 5 else 7 + |s.x5c|
  {
    var es := PackedValue(s).entries;
    TextEncodings();
    CanonicalByItem(CertValues(s.x5c));
    ScalarItemsSize(CertValues(s.x5c));
    CanonicalMap(es);
    assert es == [es[0]] + ([es[1]] + es[2..]);
    SizeCons(es[1], es[2..]);
    SizeCons(es[0], [es[1]] + es[2..]);
    if s.x5c != [] {
      assert es[2..] == [es[2]] + [];
      SizeCons(es[2], []);
      assert Height(es[2].val) == 1 && Nodes(es[2].val) == 1 + |s.x5c|;
    }
  }

  lemma PackedPrints(s: PackedStmt)
    requires EncodableAlg(s.alg)
    ensures MapOf(PackedEntries(s.alg, s.sig, s.x5c)) == Encode(PackedValue(s))
  {
    ArrayOfEncodings(EncodeCerts(s.x5c), CertValues(s.x5c));
    MapOfEncodings(PackedEntries(s.alg, s.sig, s.x5c), PackedValue(s).entries);
  }

  /** A packed statement reads back whole: algorithm, signature and every certificate in order. */
  lemma PackedRoundTrip(s: PackedStmt)
    requires EncodableAlg(s.alg)
    ensures DecodePacked(PackedValue(s)) == Success(s)
  {
    var es := PackedValue(s).entries;
    PackedCanonical(s);
    FindTextEntry(es, 0);
    FindTextEntry(es, 1);
    if s.x5c == [] {
      FindTextNone(es, X5C);
    } else {
      FindTextEntry(es, 2);
      CertBytesOfValues(s.x5c);
    }
  }

  // ----- registration on the wire

  lemma ObjectPackedPrints(authData: bytes, s: PackedStmt)
    requires EncodableAlg(s.alg)
    ensures AttestationObjectPacked(authData, s.alg, s.sig, s.x5c)
            == Encode(ObjectValue(Object(PACKED, PackedValue(s), authData)))
  {
    PackedPrints(s);
    MapOfEncodings([
      EncodedEntry(EncodeText(FMT), EncodeText(PACKED)),
      EncodedEntry(EncodeText(ATT_STMT), MapOf(PackedEntries(s.alg, s.sig, s.x5c))),
      EncodedEntry(EncodeText(AUTH_DATA), EncodeBytes(authData))],
      ObjectValue(Object(PACKED, PackedValue(s), authData)).entries);
  }

  lemma ObjectNonePrints(authData: bytes)
    ensures AttestationObjectNone(authData) == Encode(ObjectValue(Object(NONE, Map([]), authData)))
  {
    MapOfEncodings([], []);
    MapOfEncodings([
      EncodedEntry(EncodeText(FMT), EncodeText(NONE)),
      EncodedEntry(EncodeText(ATT_STMT), MapOf([])),
      EncodedEntry(EncodeText(AUTH_DATA), EncodeBytes(authData))],
      ObjectValue(Object(NONE, Map([]), authData)).entries);
  }

  /** A packed attestation object reads back with its format, statement and authenticator data exactly when it is
      within the decoder's size limit and its certificates within the element limit. */
  lemma PackedObjectRoundTrip(authData: bytes, s: PackedStmt)
    requires EncodableAlg(s.alg)
    ensures var raw := AttestationObjectPacked(authData, s.alg, s.sig, s.x5c);
            && (DecodeAttestationObject(raw) == Success(Object(PACKED, PackedValue(s), authData))
                <==> |raw| <= MAX_INPUT_SIZE && (s.x5c == [] || 13 + |s.x5c| <= MAX_ELEMENTS))
            && DecodePacked(PackedValue(s)) == Success(s)
  {
    ObjectPackedPrints(authData, s);
    PackedCanonical(s);
    PackedRoundTrip(s);
    ObjectRoundTrip(Object(PACKED, PackedValue(s), authData));
  }

  lemma NoneObjectRoundTrip(authData: bytes)
    ensures var raw := AttestationObjectNone(authData);
            DecodeAttestationObject(raw) == Success(Object(NONE, Map([]), authData)) <==> |raw| <= MAX_INPUT_SIZE
  {
    ObjectNonePrints(authData);
    CanonicalMap([]);
    ObjectRoundTrip(Object(NONE, Map([]), authData));
  }
}
