/** Which decoded maps are COSE keys, said without the parser. */
module CoseExact {
  import opened ByteStrings
  import opened CborValue
  import opened CborOrder
  import opened Crypto
  import Cose

  /** The value under an integer label of a map, as in a mathematical map. */
  function Label(v: Value, key: int): Option<Value> {
    if v.Map? then Lookup(Meaning(v.entries), IntKey(key)) else None
  }

  function CurveId(c: Curve): nat {
    match c
    case P256 => 1
    case P384 => 2
    case P521 => 3
  }

  /** Bytes of a coordinate on each curve. */
  function Width(c: Curve): nat {
    match c
    case P256 => 32
    case P384 => 48
    case P521 => 66
  }

  /** A number as big-endian bytes of a fixed width. */
  ghost predicate HoldsCoordinate(v: Value, key: int, width: nat, n: nat) {
    n < Pow256(width) && Label(v, key) == Some(Bytes(ToBE(n, width)))
  }

  /** Coordinates of the width of the curve, of a point on it in the uncompressed form that the curve check reads. */
  ghost predicate HoldsPoint(p: Primitives, v: Value, c: Curve, x: nat, y: nat) {
    var len := Width(c);
    && HoldsCoordinate(v, -2, len, x) && HoldsCoordinate(v, -3, len, y)
    && p.onCurve(c, [0x04] + ToBE(x, len) + ToBE(y, len))
  }

  /** A number as big-endian bytes of any length. */
  ghost predicate HoldsNumber(v: Option<Value>, n: nat) {
    exists b: bytes :: v == Some(Bytes(b)) && FromBE(b) == n
  }

  ghost predicate HoldsKey(p: Primitives, v: Value, key: Cose.Key) {
    && Label(v, 3) == Some(IntKey(key.alg))
    && match key.pub
       case EcKey(c, x, y) =>
         Label(v, 1) == Some(Uint(2)) && Label(v, -1) == Some(Uint(CurveId(c))) && HoldsPoint(p, v, c, x, y)
       case RsaKey(n, e) =>
         && Label(v, 1) == Some(Uint(3)) && HoldsNumber(Label(v, -1), n) && HoldsNumber(Label(v, -2), e)
         && Pow2(2047) <= n && 1 <= e <= 2147483647
       case EdKey(k) =>
         Label(v, 1) == Some(Uint(1)) && Label(v, -1) == Some(Uint(6)) && Label(v, -2) == Some(Bytes(k)) && |k| == 32
       case OtherKey => false
  }

  lemma {:induction false} FoundIsCanonical(es: seq<Entry>, key: int)
    requires CanonicalEntries(es)
    ensures FindInt(es, key).Some? ==> Canonical(FindInt(es, key).value)
    ensures FindInt(es, key) == Lookup(Meaning(es), IntKey(key))
  {
    FindIntIsLookup(es, key);
    if es != [] {
      FoundIsCanonical(es[1..], key);
    }
  }

  lemma LabelIsGet(v: Value, key: int)
    requires Canonical(v)
    ensures v.MapGetInt(key) == Label(v, key)
    ensures Label(v, key).Some? ==> Canonical(Label(v, key).value)
  {
    if v.Map? {
      FoundIsCanonical(v.entries, key);
    }
  }

  lemma FixedWidth(b: bytes, width: nat, n: nat)
    ensures |b| == width && FromBE(b) == n <==> n < Pow256(width) && b == ToBE(n, width)
  {
    if |b| == width {
      FromBEBound(b);
      ToFromBE(b);
    }
    if n < Pow256(width) {
      FromToBEExact(n, width);
    }
  }

  lemma CoordinateExact(v: Value, key: int, width: nat, n: nat)
    requires Canonical(v)
    ensures HoldsCoordinate(v, key, width, n) <==>
            && Cose.GetBytes(v, key).Some?
            && |Cose.GetBytes(v, key).value| == width && FromBE(Cose.GetBytes(v, key).value) == n
  {
    LabelIsGet(v, key);
    var b := Cose.GetBytes(v, key);
    if b.Some? {
      FixedWidth(b.value, width, n);
    }
  }

  lemma PointExact(p: Primitives, v: Value, c: Curve, x: nat, y: nat)
    requires Canonical(v) && v.Map? && Label(v, -1) == Some(Uint(CurveId(c)))
    ensures Cose.ParseEC2(p, v) == Success(EcKey(c, x, y)) <==> HoldsPoint(p, v, c, x, y)
  {
    var len := Width(c);
    LabelIsGet(v, -1);
    LabelIsGet(v, -2);
    LabelIsGet(v, -3);
    CoordinateExact(v, -2, len, x);
    CoordinateExact(v, -3, len, y);
    assert Cose.CurveOf(CurveId(c)) == Some(c);
  }

  lemma CurveNamed(p: Primitives, v: Value, pub: PublicKey)
    requires Canonical(v) && Cose.ParseEC2(p, v) == Success(pub)
    ensures pub.EcKey? && Label(v, -1) == Some(Uint(CurveId(pub.curve)))
  {
    LabelIsGet(v, -1);
  }

  lemma RsaExact(v: Value, n: nat, e: nat)
    requires Canonical(v)
    ensures Cose.ParseRSA(v) == Success(RsaKey(n, e)) <==>
            && HoldsNumber(Label(v, -1), n) && HoldsNumber(Label(v, -2), e)
            && Pow2(2047) <= n && 1 <= e < TWO_TO_THE_31
  {
    LabelIsGet(v, -1);
    LabelIsGet(v, -2);
    Cose.BitLenBound(n, 2047);
  }

  lemma OkpExact(v: Value, k: bytes)
    requires Canonical(v)
    ensures Cose.ParseOKP(v) == Success(EdKey(k)) <==>
            Label(v, -1) == Some(Uint(6)) && Label(v, -2) == Some(Bytes(k)) && |k| == 32
  {
    LabelIsGet(v, -1);
    LabelIsGet(v, -2);
  }

  lemma KeyTypeExact(p: Primitives, v: Value, key: Cose.Key)
    requires Canonical(v)
    ensures Cose.Parse(p, v) == Success(key) <==>
            && v.Map? && Label(v, 3) == Some(IntKey(key.alg))
            && ((Label(v, 1) == Some(Uint(1)) && Cose.ParseOKP(v) == Success(key.pub))
                || (Label(v, 1) == Some(Uint(2)) && Cose.ParseEC2(p, v) == Success(key.pub))
                || (Label(v, 1) == Some(Uint(3)) && Cose.ParseRSA(v) == Success(key.pub)))
  {
    LabelIsGet(v, 1);
    LabelIsGet(v, 3);
  }

  /** A decoded map parses to a key exactly when it holds that key: type, algorithm, curve, coordinates of the curve's
      width on the curve, modulus and exponent in range, or 32 bytes. */
  lemma KeyExact(p: Primitives, v: Value, key: Cose.Key)
    requires Canonical(v)
    ensures Cose.Parse(p, v) == Success(key) <==> HoldsKey(p, v, key)
  {
    KeyTypeExact(p, v, key);
    match key.pub
    case EcKey(c, x, y) =>
      if Cose.ParseEC2(p, v) == Success(key.pub) {
        CurveNamed(p, v, key.pub);
      }
      if v.Map? && Label(v, -1) == Some(Uint(CurveId(c))) {
        PointExact(p, v, c, x, y);
      }
    case RsaKey(n, e) => RsaExact(v, n, e);
    case EdKey(k) => OkpExact(v, k);
    case OtherKey =>
  }

  // ----- errors

  /** Key type and algorithm are integers, the type is none of OKP, EC2 and RSA. */
  predicate TypeUnknown(v: Value) {
    && Label(v, 1).Some? && Label(v, 1).value.IsInt() && Label(v, 3).Some? && Label(v, 3).value.IsInt()
    && Label(v, 1) != Some(Uint(1)) && Label(v, 1) != Some(Uint(2)) && Label(v, 1) != Some(Uint(3))
  }

  /** An EC2 key with both coordinates but a curve other than the three, or an OKP key on a curve other than Ed25519. */
  predicate CurveUnknown(v: Value) {
    && Label(v, 3).Some? && Label(v, 3).value.IsInt() && Label(v, -1).Some?
    && ((Label(v, 1) == Some(Uint(1)) && Label(v, -1) != Some(Uint(6)))
        || (Label(v, 1) == Some(Uint(2))
            && Label(v, -1) != Some(Uint(1)) && Label(v, -1) != Some(Uint(2)) && Label(v, -1) != Some(Uint(3))
            && Label(v, -2).Some? && Label(v, -2).value.Bytes? && Label(v, -3).Some? && Label(v, -3).value.Bytes?))
  }

  ghost predicate KeyRefused(p: Primitives, v: Value, x: Cose.Error) {
    match x
    case UnsupportedKeyType => TypeUnknown(v)
    case UnsupportedCurve => CurveUnknown(v)
    case MalformedKey => !TypeUnknown(v) && !CurveUnknown(v) && !exists key :: HoldsKey(p, v, key)
  }

  lemma TypeErrorExact(p: Primitives, v: Value)
    requires Canonical(v)
    ensures Cose.Parse(p, v) == Failure(Cose.UnsupportedKeyType) <==> TypeUnknown(v)
  {
    LabelIsGet(v, 1);
    LabelIsGet(v, 3);
  }

  lemma CurveErrorExact(p: Primitives, v: Value)
    requires Canonical(v)
    ensures Cose.Parse(p, v) == Failure(Cose.UnsupportedCurve) <==> CurveUnknown(v)
  {
    LabelIsGet(v, 1);
    LabelIsGet(v, 3);
    LabelIsGet(v, -1);
    LabelIsGet(v, -2);
    LabelIsGet(v, -3);
  }

  /** Which error a map gives that holds no key. */
  lemma KeyErrorsExact(p: Primitives, v: Value, x: Cose.Error)
    requires Canonical(v)
    ensures Cose.Parse(p, v) == Failure(x) <==> KeyRefused(p, v, x)
  {
    TypeErrorExact(p, v);
    CurveErrorExact(p, v);
    forall key
      ensures Cose.Parse(p, v) == Success(key) <==> HoldsKey(p, v, key)
    {
      KeyExact(p, v, key);
    }
    if Cose.Parse(p, v).Success? {
      assert HoldsKey(p, v, Cose.Parse(p, v).value);
    }
  }
}
