/** COSE_Key public keys: a decoded CBOR map becomes a public key together with the algorithm it declares. */
module Cose {
  import opened ByteStrings
  import opened CborValue
  import opened Crypto

  const LABEL_KTY := 1
  const LABEL_ALG := 3
  const KTY_OKP := 1
  const KTY_EC2 := 2
  const KTY_RSA := 3
  const CURVE_P256 := 1
  const CURVE_P384 := 2
  const CURVE_P521 := 3
  const CURVE_ED25519 := 6
  const ALG_ES256 := -7
  const ALG_EDDSA := -8
  const ALG_RS256 := -257
  const MIN_RSA_MODULUS_BITS := 2048
  const ED25519_KEY_SIZE := 32

  datatype Error = UnsupportedKeyType | UnsupportedCurve | MalformedKey

  datatype Key = Key(pub: PublicKey, alg: int)

  function Parse(p: Primitives, v: Value): (r: Result<Key, Error>) {
    if !v.Map? then Failure(MalformedKey)
    else
      var kty := v.MapGetInt(LABEL_KTY);
      var alg := v.MapGetInt(LABEL_ALG);
      if kty.None? || !kty.value.IsInt() then Failure(MalformedKey)
      else if alg.None? || !alg.value.IsInt() then Failure(MalformedKey)
      else if kty.value.n == KTY_EC2 then ParseEC2(p, v).Map(pub => Key(pub, alg.value.Int()))
      else if kty.value.n == KTY_RSA then ParseRSA(v).Map(pub => Key(pub, alg.value.Int()))
      else if kty.value.n == KTY_OKP then ParseOKP(v).Map(pub => Key(pub, alg.value.Int()))
      else Failure(UnsupportedKeyType)
  }

  /** A byte string stored under a label, if that is what is there. */
  function GetBytes(v: Value, key: int): Option<bytes> {
    match v.MapGetInt(key)
    case Some(Bytes(b)) => Some(b)
    case _ => None
  }

  function CurveOf(crv: int): Option<Curve> {
    if crv == CURVE_P256 then Some(P256)
    else if crv == CURVE_P384 then Some(P384)
    else if crv == CURVE_P521 then Some(P521)
    else None
  }

  function BitSize(c: Curve): nat {
    match c
    case P256 => 256
    case P384 => 384
    case P521 => 521
  }

  function CoordLen(c: Curve): nat { (BitSize(c) + 7) / 8 }

  function ParseEC2(p: Primitives, v: Value): (r: Result<PublicKey, Error>) {
    var crv, x, y := v.MapGetInt(-1), GetBytes(v, -2), GetBytes(v, -3);
    if crv.None? || x.None? || y.None? then Failure(MalformedKey)
    else
      match CurveOf(crv.value.Int())
      case None => Failure(UnsupportedCurve)
      case Some(c) =>
        if |x.value| != CoordLen(c) || |y.value| != CoordLen(c) then Failure(MalformedKey)
        else if !p.onCurve(c, [0x04] + x.value + y.value) then Failure(MalformedKey)
        else Success(EcKey(c, FromBE(x.value), FromBE(y.value)))
  }

  function ParseOKP(v: Value): (r: Result<PublicKey, Error>) {
    var crv, x := v.MapGetInt(-1), GetBytes(v, -2);
    if crv.None? then Failure(MalformedKey)
    else if crv.value.Int() != CURVE_ED25519 then Failure(UnsupportedCurve)
    else if x.None? || |x.value| != ED25519_KEY_SIZE then Failure(MalformedKey)
    else Success(EdKey(x.value))
  }

  /** Number of bits of a number, as big.Int's BitLen. */
  function BitLen(n: nat): nat {
    if n == 0 then 0 else 1 + BitLen(n / 2)
  }

  function ParseRSA(v: Value): (r: Result<PublicKey, Error>) {
    var nb, eb := GetBytes(v, -1), GetBytes(v, -2);
    if nb.None? || eb.None? then Failure(MalformedKey)
    else
      var n, e := FromBE(nb.value), FromBE(eb.value);
      if n <= 0 || BitLen(n) < MIN_RSA_MODULUS_BITS then Failure(MalformedKey)
      else if e >= TWO_TO_THE_63 || e <= 0 || e > TWO_TO_THE_31 - 1 then Failure(MalformedKey)
      else Success(RsaKey(n, e))
  }

  lemma {:induction false} BitLenBound(n: nat, k: nat)
    ensures BitLen(n) > k <==> n >= Pow2(k)
  {
    if n > 0 && k > 0 {
      BitLenBound(n / 2, k - 1);
    }
  }
}
