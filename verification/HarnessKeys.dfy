/** The COSE_Key encoders of the synthetic authenticator, and their round trip through the CBOR decoder and the
    COSE parser. */
module HarnessKeys {
  import opened ByteStrings
  import opened CborValue
  import opened CborEncoder
  import opened CborOrder
  import opened CborMaps
  import opened Cose
  import opened Crypto

  /** The low `size` bytes of a number, left-padded with zeros. */
  function PadBigInt(n: nat, size: nat): (b: bytes)
    ensures |b| == size
  {
    var m := MinBytes(n);
    if |m| >= size then m[|m| - size..] else Zeros(size - |m|) + m
  }

  /** Reading a padded number back keeps it modulo the width, hence exactly when it fits. */
  lemma PadRoundTrip(n: nat, size: nat)
    ensures FromBE(PadBigInt(n, size)) == n % Pow256(size)
    ensures FromBE(PadBigInt(n, size)) == n <==> n < Pow256(size)
  {
    var m := MinBytes(n);
    FromMinBytes(n);
    MinBytesLength(n, size);
    ModFits(n, Pow256(size));
    if |m| >= size {
      FromBESuffix(m, size);
    } else {
      FromBELeadingZeros(size - |m|, m);
    }
  }

  /** What the Go encoders demand of the algorithm: the NegInt constructor panics on anything else. */
  predicate EncodableAlg(alg: int) { -TWO_TO_THE_63 <= alg < 0 }

  function EncodeCoseKeyEC2(x: nat, y: nat, alg: int): bytes
    requires EncodableAlg(alg)
  {
    MapOf(EC2Entries(x, y, alg))
  }

  function EC2Entries(x: nat, y: nat, alg: int): seq<EncodedEntry>
    requires EncodableAlg(alg)
  {
    [
      EncodedEntry(EncodeUint(1), EncodeUint(2)),
      EncodedEntry(EncodeUint(3), EncodeNegInt(alg)),
      EncodedEntry(EncodeNegInt(-1), EncodeUint(1)),
      EncodedEntry(EncodeNegInt(-2), EncodeBytes(PadBigInt(x, CoordLen(P256)))),
      EncodedEntry(EncodeNegInt(-3), EncodeBytes(PadBigInt(y, CoordLen(P256))))]
  }

  function EncodeCoseKeyRSA(n: nat, e: nat, alg: int): bytes
    requires EncodableAlg(alg)
  {
    MapOf(RSAEntries(n, e, alg))
  }

  function RSAEntries(n: nat, e: nat, alg: int): seq<EncodedEntry>
    requires EncodableAlg(alg)
  {
    [
      EncodedEntry(EncodeUint(1), EncodeUint(3)),
      EncodedEntry(EncodeUint(3), EncodeNegInt(alg)),
      EncodedEntry(EncodeNegInt(-1), EncodeBytes(MinBytes(n))),
      EncodedEntry(EncodeNegInt(-2), EncodeBytes(MinBytes(e)))]
  }

  function EncodeCoseKeyOKP(key: bytes, alg: int): bytes
    requires EncodableAlg(alg)
  {
    MapOf(OKPEntries(key, alg))
  }

  function OKPEntries(key: bytes, alg: int): seq<EncodedEntry>
    requires EncodableAlg(alg)
  {
    [
      EncodedEntry(EncodeUint(1), EncodeUint(1)),
      EncodedEntry(EncodeUint(3), EncodeNegInt(alg)),
      EncodedEntry(EncodeNegInt(-1), EncodeUint(6)),
      EncodedEntry(EncodeNegInt(-2), EncodeBytes(key))]
  }

  // ----- the maps those encoders print

  const COSE_LABELS := [Uint(1), Uint(3), NegInt(-1), NegInt(-2), NegInt(-3)]

  /** Entries under the first COSE labels, in order, with scalar values. */
  predicate CoseEntries(es: seq<Entry>) {
    && |es| <= |COSE_LABELS|
    && forall i | 0 <= i < |es| ::
         && es[i].key == COSE_LABELS[i]
         && Canonical(es[i].val) && Height(es[i].val) == 0 && Nodes(es[i].val) == 1
  }

  lemma LabelEncodings()
    ensures forall i | 0 <= i < 5 :: Encode(COSE_LABELS[i]) == [[0x01, 0x03, 0x20, 0x21, 0x22][i]]
    ensures forall i | 0 < i < 5 :: CanonicalCompare(Encode(COSE_LABELS[i - 1]), Encode(COSE_LABELS[i])) == -1
  {
    assert Encode(Uint(1)) == [0x01] && Encode(Uint(3)) == [0x03];
    assert Encode(NegInt(-1)) == [0x20] && Encode(NegInt(-2)) == [0x21] && Encode(NegInt(-3)) == [0x22];
    forall i | 0 < i < 5
      ensures CanonicalCompare(Encode(COSE_LABELS[i - 1]), Encode(COSE_LABELS[i])) == -1
    {
      CompareFirst(Encode(COSE_LABELS[i - 1]), Encode(COSE_LABELS[i]));
    }
  }

  lemma CoseMapAcceptable(es: seq<Entry>)
    requires CoseEntries(es)
    ensures Acceptable(Map(es))
    ensures forall i | 0 <= i < |es| :: Map(es).MapGetInt(COSE_LABELS[i].n) == Some(es[i].val)
  {
    LabelEncodings();
    CanonicalMap(es);
    EntriesHeight(es, 0);
    ScalarEntriesNodes(es);
    forall i | 0 <= i < |es|
      ensures Map(es).MapGetInt(COSE_LABELS[i].n) == Some(es[i].val)
    {
      FindIntEntry(es, i);
    }
  }

  lemma {:induction false} ScalarEntriesNodes(es: seq<Entry>)
    requires forall i | 0 <= i < |es| :: NodesEntry(es[i]) == 2
    ensures NodesEntries(es) == 2 * |es|
  {
    if es != [] {
      ScalarEntriesNodes(es[1..]);
    }
  }

  // ----- round trips

  function Ec2Value(x: nat, y: nat, alg: int): Value {
    Map([
      Entry(Uint(1), Uint(2)), Entry(Uint(3), NegInt(alg)), Entry(NegInt(-1), Uint(1)),
      Entry(NegInt(-2), Bytes(PadBigInt(x, CoordLen(P256)))), Entry(NegInt(-3), Bytes(PadBigInt(y, CoordLen(P256))))])
  }

  function RsaValue(n: nat, e: nat, alg: int): Value {
    Map([
      Entry(Uint(1), Uint(3)), Entry(Uint(3), NegInt(alg)),
      Entry(NegInt(-1), Bytes(MinBytes(n))), Entry(NegInt(-2), Bytes(MinBytes(e)))])
  }

  function OkpValue(key: bytes, alg: int): Value {
    Map([
      Entry(Uint(1), Uint(1)), Entry(Uint(3), NegInt(alg)),
      Entry(NegInt(-1), Uint(6)), Entry(NegInt(-2), Bytes(key))])
  }

  /** The encoder prints the canonical encoding of an acceptable map. */
  lemma Ec2Prints(x: nat, y: nat, alg: int)
    requires EncodableAlg(alg)
    ensures EncodeCoseKeyEC2(x, y, alg) == Encode(Ec2Value(x, y, alg)) && Acceptable(Ec2Value(x, y, alg))
  {
    Ec2Acceptable(x, y, alg);
    MapOfEncodings(EC2Entries(x, y, alg), Ec2Value(x, y, alg).entries);
  }

  lemma Ec2Acceptable(x: nat, y: nat, alg: int)
    requires EncodableAlg(alg)
    ensures Acceptable(Ec2Value(x, y, alg))
  {
    CoseMapAcceptable(Ec2Value(x, y, alg).entries);
  }

  /** A P-256 key on the curve survives encoding and parsing exactly when its coordinates fit in 32 bytes. */
  lemma Ec2RoundTrip(p: Primitives, x: nat, y: nat, alg: int)
    requires EncodableAlg(alg)
    requires p.onCurve(P256, [0x04] + PadBigInt(x, 32) + PadBigInt(y, 32))
    ensures Cose.Parse(p, Ec2Value(x, y, alg)) == Success(Key(EcKey(P256, x, y), alg))
            <==> x < Pow256(32) && y < Pow256(32)
  {
    assert CoordLen(P256) == 32;
    Ec2Lookups(Ec2Value(x, y, alg), x, y, alg);
    PadRoundTrip(x, 32);
    PadRoundTrip(y, 32);
  }

  lemma Ec2Lookups(v: Value, x: nat, y: nat, alg: int)
    requires EncodableAlg(alg) && v == Ec2Value(x, y, alg)
    ensures v.MapGetInt(1) == Some(Uint(2)) && v.MapGetInt(3) == Some(NegInt(alg)) && v.MapGetInt(-1) == Some(Uint(1))
    ensures GetBytes(v, -2) == Some(PadBigInt(x, CoordLen(P256)))
    ensures GetBytes(v, -3) == Some(PadBigInt(y, CoordLen(P256)))
  {
    CoseMapAcceptable(v.entries);
    var get := i requires 0 <= i < 5 => v.MapGetInt(COSE_LABELS[i].n);
    assert get(0) == Some(Uint(2)) && get(1) == Some(NegInt(alg)) && get(2) == Some(Uint(1));
    assert get(3) == Some(Bytes(PadBigInt(x, CoordLen(P256)))) && get(4) == Some(Bytes(PadBigInt(y, CoordLen(P256))));
  }

  lemma RsaPrints(n: nat, e: nat, alg: int)
    requires EncodableAlg(alg)
    ensures EncodeCoseKeyRSA(n, e, alg) == Encode(RsaValue(n, e, alg)) && Acceptable(RsaValue(n, e, alg))
  {
    var es := RsaValue(n, e, alg).entries;
    CoseMapAcceptable(es);
    MapOfEncodings(RSAEntries(n, e, alg), es);
  }

  /** An RSA key survives exactly when its modulus is at least 2^2047 and its exponent is in 1 to 2^31 - 1. */
  lemma RsaRoundTrip(p: Primitives, n: nat, e: nat, alg: int)
    requires EncodableAlg(alg)
    ensures Cose.Parse(p, RsaValue(n, e, alg)) == Success(Key(RsaKey(n, e), alg))
            <==> n >= Pow2(2047) && 1 <= e <= 2147483647
  {
    RsaLookups(RsaValue(n, e, alg), n, e, alg);
    BitLenBound(n, MIN_RSA_MODULUS_BITS - 1);
    FromMinBytes(n);
    FromMinBytes(e);
  }

  lemma RsaLookups(v: Value, n: nat, e: nat, alg: int)
    requires EncodableAlg(alg) && v == RsaValue(n, e, alg)
    ensures v.MapGetInt(1) == Some(Uint(3)) && v.MapGetInt(3) == Some(NegInt(alg))
    ensures GetBytes(v, -1) == Some(MinBytes(n)) && GetBytes(v, -2) == Some(MinBytes(e))
  {
    CoseMapAcceptable(v.entries);
    var get := i requires 0 <= i < 4 => v.MapGetInt(COSE_LABELS[i].n);
    assert get(0) == Some(Uint(3)) && get(1) == Some(NegInt(alg));
    assert get(2) == Some(Bytes(MinBytes(n))) && get(3) == Some(Bytes(MinBytes(e)));
  }

  lemma OkpPrints(key: bytes, alg: int)
    requires EncodableAlg(alg)
    ensures EncodeCoseKeyOKP(key, alg) == Encode(OkpValue(key, alg)) && Acceptable(OkpValue(key, alg))
  {
    var es := OkpValue(key, alg).entries;
    CoseMapAcceptable(es);
    MapOfEncodings(OKPEntries(key, alg), es);
  }

  /** An Ed25519 key survives exactly when it is 32 bytes long. */
  lemma OkpRoundTrip(p: Primitives, key: bytes, alg: int)
    requires EncodableAlg(alg)
    ensures Cose.Parse(p, OkpValue(key, alg)) == Success(Key(EdKey(key), alg)) <==> |key| == 32
  {
    var v := OkpValue(key, alg);
    CoseMapAcceptable(v.entries);
    var get := i requires 0 <= i < 4 => v.MapGetInt(COSE_LABELS[i].n);
    assert get(0) == Some(Uint(1)) && get(1) == Some(NegInt(alg)) && get(2) == Some(Uint(6));
    assert get(3) == Some(Bytes(key));
  }
}
