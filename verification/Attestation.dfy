/** Attestation objects and statements, and the signature check that both ceremonies share. */
module Attestation {
  import opened ByteStrings
  import opened CborValue
  import CborDecode
  import Cose
  import opened Crypto
  import opened Policy

  // ASCII bytes of the text keys and formats.
  const FMT: bytes := [0x66, 0x6d, 0x74]
  const ATT_STMT: bytes := [0x61, 0x74, 0x74, 0x53, 0x74, 0x6d, 0x74]
  const AUTH_DATA: bytes := [0x61, 0x75, 0x74, 0x68, 0x44, 0x61, 0x74, 0x61]
  const ALG: bytes := [0x61, 0x6c, 0x67]
  const SIG: bytes := [0x73, 0x69, 0x67]
  const X5C: bytes := [0x78, 0x35, 0x63]
  const NONE: bytes := [0x6e, 0x6f, 0x6e, 0x65]
  const PACKED: bytes := [0x70, 0x61, 0x63, 0x6b, 0x65, 0x64]

  /** The three required fields of an attestation object. */
  datatype Object = Object(format: bytes, stmt: Value, authData: bytes)

  function DecodeAttestationObject(raw: bytes): (r: Result<Object, Error>) {
    match CborDecode.Decode(raw)
    case Failure(_) => Failure(MalformedAttestationObject)
    case Success(Item(v, n)) =>
      if n != |raw| || !v.Map? then Failure(MalformedAttestationObject)
      else
        match (v.MapGetText(FMT), v.MapGetText(ATT_STMT), v.MapGetText(AUTH_DATA))
        case (Some(Text(format)), Some(Map(es)), Some(Bytes(authData))) => Success(Object(format, Map(es), authData))
        case _ => Failure(MalformedAttestationObject)
  }

  /** A packed statement; `x5c` is empty for self-attestation. */
  datatype PackedStmt = PackedStmt(alg: int, sig: bytes, x5c: seq<bytes>)

  /** The contents of an array of byte strings, if that is what it is. */
  function CertBytes(items: seq<Value>): Option<seq<bytes>> {
    if items == [] then Some([])
    else
      match (items[0], CertBytes(items[1..]))
      case (Bytes(b), Some(rest)) => Some([b] + rest)
      case _ => None
  }

  function DecodePacked(stmt: Value): (r: Result<PackedStmt, Error>) {
    var alg, sig, x5c := stmt.MapGetText(ALG), stmt.MapGetText(SIG), stmt.MapGetText(X5C);
    if !stmt.Map? || alg.None? || !alg.value.IsInt() || sig.None? || !sig.value.Bytes? then
      Failure(AttestationStatement)
    else
      match x5c
      case None => Success(PackedStmt(alg.value.Int(), sig.value.b, []))
      case Some(Array(items)) =>
        var certs := CertBytes(items);
        if items == [] || certs.None? then Failure(AttestationStatement)
        else Success(PackedStmt(alg.value.Int(), sig.value.b, certs.value))
      case _ => Failure(AttestationStatement)
  }

  /** The decoder of packed statements with its loop over the certificates. */
  method DecodePackedAttStmt(stmt: Value) returns (r: Result<PackedStmt, Error>)
    ensures r == DecodePacked(stmt)
  {
    if !stmt.Map? {
      return Failure(AttestationStatement);
    }
    var algVal := stmt.MapGetText(ALG);
    if algVal.None? || !algVal.value.IsInt() {
      return Failure(AttestationStatement);
    }
    var sigVal := stmt.MapGetText(SIG);
    if sigVal.None? || !sigVal.value.Bytes? {
      return Failure(AttestationStatement);
    }
    var x5c: seq<bytes> := [];
    var x5cVal := stmt.MapGetText(X5C);
    if x5cVal.Some? {
      if !x5cVal.value.Array? || |x5cVal.value.items| == 0 {
        return Failure(AttestationStatement);
      }
      var items := x5cVal.value.items;
      assert items[0..] == items;
      assert CertBytes(items).Some? ==> [] + CertBytes(items).value == CertBytes(items).value;
      for i := 0 to |items|
        invariant CertBytes(items) == PrependCerts(x5c, CertBytes(items[i..]))
      {
        assert items[i..][1..] == items[i + 1..];
        if !items[i].Bytes? {
          return Failure(AttestationStatement);
        }
        PrependCert(x5c, items[i].b, CertBytes(items[i + 1..]));
        x5c := x5c + [items[i].b];
      }
      assert x5c + [] == x5c;
    }
    return Success(PackedStmt(algVal.value.Int(), sigVal.value.b, x5c));
  }

  ghost function PrependCerts(certs: seq<bytes>, rest: Option<seq<bytes>>): Option<seq<bytes>> {
    if rest.Some? then Some(certs + rest.value) else None
  }

  lemma PrependCert(certs: seq<bytes>, c: bytes, rest: Option<seq<bytes>>)
    ensures PrependCerts(certs, PrependCerts([c], rest)) == PrependCerts(certs + [c], rest)
  {
    assert rest.Some? ==> certs + ([c] + rest.value) == certs + [c] + rest.value;
  }

  // ----- signatures

  /** The check under one COSE algorithm: a SHA-256 digest for ECDSA and RSA, the message itself for Ed25519. */
  function VerifySignature(p: Primitives, alg: int, pub: PublicKey, msg: bytes, sig: bytes): (r: Option<Error>) {
    if alg == Cose.ALG_ES256 then
      if !pub.EcKey? then Some(UnsupportedAlgorithm)
      else if !p.ecdsaVerify(pub, p.sha256(msg), sig) then Some(SignatureVerification)
      else None
    else if alg == Cose.ALG_RS256 then
      if !pub.RsaKey? then Some(UnsupportedAlgorithm)
      else if !p.rsaVerify(pub, p.sha256(msg), sig) then Some(SignatureVerification)
      else None
    else if alg == Cose.ALG_EDDSA then
      if !pub.EdKey? then Some(UnsupportedAlgorithm)
      else if !p.edVerify(pub, msg, sig) then Some(SignatureVerification)
      else None
    else Some(UnsupportedAlgorithm)
  }

  function SignedOver(p: Primitives, authData: bytes, clientDataJson: bytes): bytes {
    authData + p.sha256(clientDataJson)
  }

  function VerifyAttestation(p: Primitives, o: Object, clientDataJson: bytes, key: Cose.Key): (r: Option<Error>) {
    if o.format == NONE then
      if o.stmt.Map? && o.stmt.entries == [] then None else Some(AttestationStatement)
    else if o.format == PACKED then VerifyPacked(p, o, clientDataJson, key)
    else Some(AttestationFormat)
  }

  function VerifyPacked(p: Primitives, o: Object, clientDataJson: bytes, key: Cose.Key): (r: Option<Error>) {
    match DecodePacked(o.stmt)
    case Failure(e) => Some(e)
    case Success(stmt) =>
      var msg := SignedOver(p, o.authData, clientDataJson);
      if stmt.x5c == [] then
        if stmt.alg != key.alg then Some(AttestationStatement)
        else if VerifySignature(p, stmt.alg, key.pub, msg, stmt.sig).Some? then Some(AttestationStatement)
        else None
      else
        match p.parseCertificate(stmt.x5c[0])
        case None => Some(AttestationStatement)
        case Some(certKey) =>
          if VerifySignature(p, stmt.alg, certKey, msg, stmt.sig).Some? then Some(AttestationStatement) else None
  }
}
