/** Which bytes are attestation objects, which values are packed statements, and which statements verify, said without
    the decoders. */
module AttestationExact {
  import opened ByteStrings
  import opened CborValue
  import CborDecode
  import opened CborTheorems
  import opened CborOrder
  import opened Crypto
  import Cose
  import opened Attestation
  import opened Policy
  import opened HarnessWire

  /** The value under a text key of a map, as in a mathematical map. */
  function Field(v: Value, key: bytes): Option<Value> {
    if v.Map? then Lookup(Meaning(v.entries), Text(key)) else None
  }

  lemma FieldIsGet(v: Value, key: bytes)
    ensures v.MapGetText(key) == Field(v, key)
  {
    if v.Map? {
      FindTextIsLookup(v.entries, key);
    }
  }

  // ----- objects

  /** The bytes are the canonical encoding of an acceptable map with the three fields. */
  ghost predicate IsObject(raw: bytes, o: Object) {
    exists v: Value ::
      Acceptable(v) && raw == Encode(v) && |raw| <= 1048576 && HoldsFields(v, o)
  }

  predicate HoldsFields(v: Value, o: Object) {
    && Field(v, Ascii("fmt")) == Some(Text(o.format))
    && o.stmt.Map? && Field(v, Ascii("attStmt")) == Some(o.stmt)
    && Field(v, Ascii("authData")) == Some(Bytes(o.authData))
  }

  /** The names of the format, spelled out. */
  lemma Names()
    ensures FMT == Ascii("fmt") && ATT_STMT == Ascii("attStmt") && AUTH_DATA == Ascii("authData")
    ensures ALG == Ascii("alg") && SIG == Ascii("sig") && X5C == Ascii("x5c")
    ensures NONE == Ascii("none") && PACKED == Ascii("packed") && NONE != PACKED
  {
    assert NONE[0] != PACKED[0];
  }

  lemma FieldsExact(v: Value, o: Object)
    ensures HoldsFields(v, o)
            <==> v.Map? && match (v.MapGetText(FMT), v.MapGetText(ATT_STMT), v.MapGetText(AUTH_DATA))
                           case (Some(Text(format)), Some(Map(es)), Some(Bytes(authData))) =>
                             o == Object(format, Map(es), authData)
                           case _ => false
  {
    Names();
    FieldIsGet(v, FMT);
    FieldIsGet(v, ATT_STMT);
    FieldIsGet(v, AUTH_DATA);
  }

  /** An attestation object decodes exactly when its bytes, all of them, are the encoding of such a map. */
  lemma ObjectExact(raw: bytes, o: Object)
    ensures DecodeAttestationObject(raw) == Success(o) <==> IsObject(raw, o)
  {
    if DecodeAttestationObject(raw) == Success(o) {
      var v := CborDecode.Decode(raw).value.val;
      DecodeExact(raw, v, |raw|);
      FieldsExact(v, o);
      assert Encode(v) == raw;
    }
    if v :| Acceptable(v) && raw == Encode(v) && |raw| <= 1048576 && HoldsFields(v, o) {
      DecodeExact(raw, v, |raw|);
      FieldsExact(v, o);
    }
  }

  // ----- packed statements

  /** The statement says exactly this: an algorithm, a signature, and a non-empty list of certificates or none. */
  predicate IsPacked(stmt: Value, s: PackedStmt) {
    && Field(stmt, Ascii("alg")) == Some(IntKey(s.alg)) && Field(stmt, Ascii("sig")) == Some(Bytes(s.sig))
    && Field(stmt, Ascii("x5c")) == if s.x5c == [] then None else Some(Array(CertValues(s.x5c)))
  }

  lemma {:induction false} CertBytesExact(items: seq<Value>, x5c: seq<bytes>)
    ensures CertBytes(items) == Some(x5c) <==> items == CertValues(x5c)
  {
    if items != [] {
      if x5c != [] {
        CertBytesExact(items[1..], x5c[1..]);
        assert CertValues(x5c) == [Bytes(x5c[0])] + CertValues(x5c[1..]);
        assert x5c == [x5c[0]] + x5c[1..];
        assert items == [items[0]] + items[1..];
      }
    }
  }

  lemma {:induction false} FoundIsCanonical(es: seq<Entry>, key: bytes)
    requires CanonicalEntries(es)
    ensures FindText(es, key).Some? ==> Canonical(FindText(es, key).value)
  {
    if es != [] {
      FoundIsCanonical(es[1..], key);
    }
  }

  /** A statement decodes exactly when it says this. */
  lemma PackedExact(stmt: Value, s: PackedStmt)
    requires Canonical(stmt)
    ensures DecodePacked(stmt) == Success(s) <==> IsPacked(stmt, s)
  {
    Names();
    FieldIsGet(stmt, ALG);
    FieldIsGet(stmt, SIG);
    FieldIsGet(stmt, X5C);
    if stmt.Map? {
      FoundIsCanonical(stmt.entries, ALG);
    }
    var x5c := Field(stmt, X5C);
    if x5c.Some? && x5c.value.Array? {
      CertBytesExact(x5c.value.items, s.x5c);
    }
  }

  // ----- verification

  /** The algorithm is one of ES256, RS256 and EdDSA, and the key is of its kind. */
  predicate KindFits(alg: int, pub: PublicKey) {
    (alg == -7 && pub.EcKey?) || (alg == -257 && pub.RsaKey?) || (alg == -8 && pub.EdKey?)
  }

  /** The signature is valid under a key of the kind that the algorithm demands: over the digest of the message for
      ECDSA and RSA, over the message itself for Ed25519. */
  predicate Verifies(p: Primitives, alg: int, pub: PublicKey, msg: bytes, sig: bytes) {
    || (alg == -7 && pub.EcKey? && p.ecdsaVerify(pub, p.sha256(msg), sig))
    || (alg == -257 && pub.RsaKey? && p.rsaVerify(pub, p.sha256(msg), sig))
    || (alg == -8 && pub.EdKey? && p.edVerify(pub, msg, sig))
  }

  /** The verdict on a signature and its two errors. */
  lemma SignatureExact(p: Primitives, alg: int, pub: PublicKey, msg: bytes, sig: bytes)
    ensures VerifySignature(p, alg, pub, msg, sig) == None <==> Verifies(p, alg, pub, msg, sig)
    ensures VerifySignature(p, alg, pub, msg, sig) == Some(UnsupportedAlgorithm) <==> !KindFits(alg, pub)
    ensures VerifySignature(p, alg, pub, msg, sig) == Some(SignatureVerification)
            <==> KindFits(alg, pub) && !Verifies(p, alg, pub, msg, sig)
  {
  }

  /** A packed statement is signed by the credential's own key under its own algorithm, or by the key of the first
      certificate. */
  ghost predicate Signed(p: Primitives, stmt: Value, msg: bytes, key: Cose.Key) {
    exists s :: IsPacked(stmt, s)
                && if s.x5c == [] then s.alg == key.alg && Verifies(p, key.alg, key.pub, msg, s.sig)
                   else var certKey := p.parseCertificate(s.x5c[0]);
                        certKey.Some? && Verifies(p, s.alg, certKey.value, msg, s.sig)
  }

  ghost predicate Attests(p: Primitives, o: Object, msg: bytes, key: Cose.Key) {
    || (o.format == Ascii("none") && o.stmt == Map([]))
    || (o.format == Ascii("packed") && Signed(p, o.stmt, msg, key))
  }

  /** The verdict on an attestation and its two errors. */
  lemma StatementExact(p: Primitives, o: Object, json: bytes, key: Cose.Key)
    requires Canonical(o.stmt)
    ensures var r, msg := VerifyAttestation(p, o, json, key), SignedOver(p, o.authData, json);
            && (r == None <==> Attests(p, o, msg, key))
            && (r == Some(AttestationFormat) <==> o.format != Ascii("none") && o.format != Ascii("packed"))
            && (r == Some(AttestationStatement)
                <==> (o.format == Ascii("none") || o.format == Ascii("packed")) && !Attests(p, o, msg, key))
  {
    Names();
    forall s
      ensures DecodePacked(o.stmt) == Success(s) <==> IsPacked(o.stmt, s)
    {
      PackedExact(o.stmt, s);
    }
    assert DecodePacked(o.stmt).Success? ==> IsPacked(o.stmt, DecodePacked(o.stmt).value);
    PackedVerdict(p, o, json, key);
  }

  lemma PackedVerdict(p: Primitives, o: Object, json: bytes, key: Cose.Key)
    requires forall s :: DecodePacked(o.stmt) == Success(s) <==> IsPacked(o.stmt, s)
    ensures var r, msg := VerifyPacked(p, o, json, key), SignedOver(p, o.authData, json);
            r == if Signed(p, o.stmt, msg, key) then None else Some(AttestationStatement)
  {
    var msg := SignedOver(p, o.authData, json);
    match DecodePacked(o.stmt)
    case Failure(_) =>
    case Success(s) =>
      assert IsPacked(o.stmt, s);
      assert forall t :: IsPacked(o.stmt, t) ==> t == s;
  }

  /** An object of format packed passes only with a verifying signature, one of format none exactly with the empty
      map. */
  lemma FormatsDemand(p: Primitives, o: Object, json: bytes, key: Cose.Key)
    requires Canonical(o.stmt)
    ensures o.format == [0x70, 0x61, 0x63, 0x6b, 0x65, 0x64] ==>
              (VerifyAttestation(p, o, json, key) == None
               <==> Signed(p, o.stmt, o.authData + p.sha256(json), key))
    ensures o.format == [0x6e, 0x6f, 0x6e, 0x65] ==>
              (VerifyAttestation(p, o, json, key) == None <==> o.stmt == Map([]))
    ensures VerifyAttestation(p, o, json, key) == None ==>
              o.format == [0x70, 0x61, 0x63, 0x6b, 0x65, 0x64] || o.format == [0x6e, 0x6f, 0x6e, 0x65]
  {
    Names();
    assert Ascii("packed") == [0x70, 0x61, 0x63, 0x6b, 0x65, 0x64] && Ascii("none") == [0x6e, 0x6f, 0x6e, 0x65];
    StatementExact(p, o, json, key);
  }

  /** The statement of a decoded object is canonical. */
  lemma StatementCanonical(raw: bytes)
    requires DecodeAttestationObject(raw).Success?
    ensures Canonical(DecodeAttestationObject(raw).value.stmt)
  {
    var v := CborDecode.Decode(raw).value.val;
    DecodeExact(raw, v, |raw|);
    FoundIsCanonical(v.entries, ATT_STMT);
  }
}
