/** What the program takes from Go's crypto, x509, json and base64 packages, as parameters. Nothing is assumed
    about them except where a lemma says so in its requires. */
module Crypto {
  import opened ByteStrings

  datatype Curve = P256 | P384 | P521

  datatype PublicKey =
    | EcKey(curve: Curve, x: nat, y: nat)
    | RsaKey(n: nat, e: nat)
    | EdKey(key: bytes)
    | OtherKey

  /** The three fields that both ceremonies read from clientDataJSON. */
  datatype ClientData = ClientData(typ: string, challenge: string, origin: string)

  datatype Primitives = Primitives(
    onCurve: (Curve, bytes) -> bool,
    sha256: bytes -> bytes,
    ecdsaVerify: (PublicKey, bytes, bytes) -> bool,
    rsaVerify: (PublicKey, bytes, bytes) -> bool,
    edVerify: (PublicKey, bytes, bytes) -> bool,
    parseCertificate: bytes -> Option<PublicKey>,
    parseClientData: bytes -> Option<ClientData>,
    decodeBase64: string -> Option<bytes>
  )
}
