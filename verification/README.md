# Passkey server: a model with proofs

Vouchsafe is a WebAuthn relying-party server written in Go. This project models three connected layers of it in Dafny
and proves what they promise.

1. The canonical CBOR decoder and the encoder beside it: `ByteStrings`, `CborValue`, `CborDecode`, `CborDecoder`,
   `CborEncoder`, `CborTheorems`, `CborErrors`, `CborOrder`, `CborContainers`, `CborMaps`.
2. The binary structures built on CBOR: authenticator data (section 6.1 of Web Authentication Level 2), COSE keys,
   attestation objects, and the synthetic authenticator that produces them: `AuthData`, `AuthDataParser`,
   `AuthDataExact`, `Cose`, `CoseExact`, `Attestation`, `AttestationExact`, `HarnessKeys`, `HarnessWire`, `Harness`.
3. The ceremonies and their state (sections 7.1 and 7.2 of Web Authentication Level 2): pending challenges, the
   credential file, registration, login and the signature counter: `Challenge`, `ChallengeRefinement`, `Base64`,
   `Store`, `Policy`, `Ceremony`, `CeremonyServer`, `Acceptance`, `Refusal`, `Counter`, `HonestPeer`, `HonestRun`, and the server under every
   interleaving of its locked sections: `Concurrent`, `ConcurrentChallenges`, `ConcurrentAccepts`, `ConcurrentLogins`,
   `ConcurrentKeys`, `ConcurrentCounts`, `ConcurrentSerial`, `ConcurrentOverlap`.

`Vectors` holds published examples of CBOR and base64. `dafny verify dfyconfig.toml` checks the whole project.

## How it is built

Code that works step by step is a class or a method with loops (`CborDecoder.Decoder`, `CborEncoder`, `AuthDataParser`,
`ChallengeStore`, `FileSystem`, `CredentialStore`, `VirtualAuthenticator`, `RelyingParty`). Each method is proved
equal to a function of its inputs or of the old state, and the theorems are about those functions. Code made of
expressions (COSE parsing, the two ceremonies' checks, the COSE and attestation encoders) is functions.

What comes from Go's libraries is a parameter: `Crypto.Primitives` holds SHA-256, signature verification, curve
membership, certificate parsing, JSON parsing of client data and base64url decoding. A lemma that needs more than
determinism says so in its `requires`: that a signature made with the private key verifies (`SignsWith`), that client
data reads back (`Faithful`). Clock readings, random bytes and failing system calls are parameters of each step.
The standard base64 encoding that keys the credential file is written out and proved injective.

Strings from CBOR are byte strings, as Go strings are. Integers are unbounded in Dafny; the limits of uint64, int64 and
uint32 are written out where the program meets them: `CborDecoder.Int64`, the range checks of decoded integers, the
16-bit credential ID length, the wrapping 32-bit signature counter.

## The main results

- The decoder accepts exactly the canonical encodings of values within its limits (`DecodeExact`). Canonical encodings
  have a unique reading and none is a prefix of another (`UniqueReading`, `PrefixFree`, without any limit). It refuses
  with a given error exactly the inputs whose first defect in reading order is of that kind (`DecodeFailsExactly`).
  Errors other than truncation are final (`DecodeFinal`) and a cut item is always a truncation (`StrictPrefixTruncated`). The work
  is bounded whatever a header claims (`Decode`).
- The key check makes all keys of a decoded map distinct, so first-match lookup is lookup in a mathematical map
  (`GetIsLookup`). The order agrees with arguments and contents inside one scalar type (`ScalarOrder`); for two arrays
  or two maps and across types the exact condition is stated (`ContainerOrder`, `MixedOrder`).
- Authenticator data parses exactly when it is the concatenation its flag bits describe (`ParseExact`). Public keys and
  registrations survive the wire exactly within stated limits (`Ec2RoundTrip`, `RsaRoundTrip`, `OkpRoundTrip`,
  `PackedObjectRoundTrip`, `NoneObjectRoundTrip`).
- A decoded map is a key, and bytes are an attestation object with a valid statement, under exact conditions that
  mention no parser (`KeyExact`, `ObjectExact`, `PackedExact`, `StatementExact`). On top of these, login and
  registration succeed exactly under the conditions of sections 7.2 and 7.1 (`LoginExact`, `RegisterExact`), and each
  error of theirs has its exact condition (`LoginErrorsExact`, `RegisterErrorsExact`). Limits, widths, names and times
  in these statements are literal.
- The challenge store with its sweeps refines independent one-shot cells (`ConsumeRefinesCell`), reports another error
  exactly for swept entries (`ErrorsDifferExactly`), and stays small (`PendingBounded`). The credential file refines a finite map, also across crashes (`CredentialStore`).
- Under every interleaving: an issued challenge is accepted at most once, and logins and registrations inject into
  issues (`AtMostOnce`, `SuccessesInjectToIssues`); a login is traced to the registration it relies on
  (`LoginTraceable`); stored keys always read back (`StoredKeysIntact`); a login regresses against the count it
  overwrites exactly under the condition of `RegressedExact`, and outside it counts strictly increase
  (`InterleavedDiscipline`).
- One ceremony at a time: the signature counter (`CounterDiscipline`) and the acceptance of an honest authenticator,
  through losses, forged attempts, late and repeated assertions (`RegisterThenAccepted`) and through counter wraps
  (`RunExact`).

## Where the code and its promises part

- The comment at `internal/cbor/decode.go:353` names section 4.2.1 of RFC 8949, which is plain bytewise order. The code
  sorts shorter encodings first, the order of section 4.2.3. The model follows the code. `ScalarOrder` shows that the
  two agree inside one scalar type. `MixedOrder` (different types) and `ContainerOrder` (two arrays or two maps) state
  exactly when they agree, and `MixedOrderExample` and `ContainerOrderExample` are pairs on which they differ.
- The counter rule holds between a lookup and its own check, because lookup and update are separate locked sections. A
  login regresses against the count it overwrites if and only if another write of the credential came after its lookup
  and left a count at least as large, its own not being zero (`RegressedExact`). `OverlapReached` is a run of the
  server in which this happens with two assertions of one honest authenticator. An accepted zero also resets the
  comparison, as the rule intends, so strict increase is stated for stretches without a zero.
- A 32-bit counter wraps. `RunExact` states for whole runs which assertions are refused: those whose count has passed
  zero since the last stored one and has not overtaken it (`RefusedWindow`).
- The challenge sweep changes one error: an expired challenge is reported as not found instead of expired or mismatched
  if and only if another Issue has swept it (`ErrorsDifferExactly`; `SweptRunDiffers` is a run).

## Model

| member | source | states |
|---|---|---|
| CborTheorems.HeaderRead | internal/cbor/decode.go:147-196 | whatever is read as an argument was its shortest header: nothing else is accepted, across all five widths |
| CborTheorems.HeaderReadBack | internal/cbor/decode.go:147-196 | the shortest header of every uint64 argument is read back as that argument |
| CborTheorems.OrderErrorMeaning | internal/cbor/decode.go:342-350 | the pass over adjacent key spans finds no error exactly when the spans strictly ascend |
| CborTheorems.DecodeValueSound | internal/cbor/decode.go:238-300 | a decoded value re-encodes to exactly the bytes read, is canonical, and its height and node count fit the remaining budgets and account for the element counter |
| CborTheorems.DecodeValueComplete | internal/cbor/decode.go:238-300 | wherever the canonical encoding of a value stands in the buffer and the budgets allow it, it decodes to that value |
| CborTheorems.DecodeExact | internal/cbor/decode.go:101-111 | decoding succeeds with value v and size n if and only if the buffer has at most 2^20 bytes, v is canonical with at most 8 nested containers and 10000 nodes, and the buffer starts with the n bytes of v's encoding |
| CborTheorems.DecodeAppend | internal/cbor/decode.go:96-111 | an item decodes the same whatever follows it, so an embedded item's end is found without a stated length |
| CborTheorems.UniqueReading | internal/cbortest/encode.go:14-97 | a byte string has at most one reading as a canonical encoding followed by a rest, for values of any depth and size |
| CborTheorems.PrefixFree | internal/cbortest/encode.go:14-97 | a canonical encoding that is a prefix of another is the same value |
| CborTheorems.DecodeFinal | internal/cbor/decode.go:96-129 | every outcome except truncation, errors included, is unchanged by appending bytes within the size limit |
| CborTheorems.StrictPrefixTruncated | internal/cbor/decode.go:113-129 | every strict prefix of an accepted item fails with truncation and no other error |
| CborErrors.OrderErrorExact | internal/cbor/decode.go:342-350 | the first adjacent spans that do not ascend give a duplicate if they are equal, else an order error |
| CborErrors.BrokenReported | internal/cbor/decode.go:113-351 | sound items within 8 containers and 10000 elements, then a defect: the decoder reports the kind of that defect |
| CborErrors.BrokenFound | internal/cbor/decode.go:113-351 | whatever is refused consists of sound items within the limits and then a defect of the kind reported |
| CborErrors.DecodeFailsExactly | internal/cbor/decode.go:101-351 | decoding fails with error x if and only if the input exceeds 2^20 bytes and x says so, or it starts with sound items and a first defect of kind x: a missing or cut part at the end of input, a longer argument than needed, a reserved or unsupported form, an integer beyond int64, a tag, a ninth container, an element after the 10000th, or keys that repeat or descend |
| CborErrors.DisorderedMap | internal/cbor/decode.go:342-350 | a map whose entries are sound and whose keys first fail to ascend at k is refused as a duplicate if keys k-1 and k are equal, else as out of order, whatever follows |
| CborDecoder.Decoder.ReadByte | internal/cbor/decode.go:113-120 | delivers the byte under the cursor and moves on, or reports truncation and stays |
| CborDecoder.Decoder.ReadN | internal/cbor/decode.go:122-129 | delivers the next n bytes if n is not negative and they are there, else reports truncation and stays; the cursor sum cannot overflow |
| CborDecoder.Decoder.ReadInitialByte | internal/cbor/decode.go:133-140 | splits a byte into major type and additional information so that 32 times the one plus the other is the byte |
| CborDecoder.Decoder.ReadArgument | internal/cbor/decode.go:147-196 | moves the cursor and fails as the specification of arguments says |
| CborDecoder.Decoder.DecodeSimple | internal/cbor/decode.go:203-236 | booleans and null; truncation is reported before an unsupported width |
| CborDecoder.Decoder.DecodeValue | internal/cbor/decode.go:238-300 | computes the specification from the cursor, depth and element count; keeps cursor, depth and element bounds also after an error; copies at most the remaining depth times the bytes read; conversions fit int64 |
| CborDecoder.Decoder.DecodeArray | internal/cbor/decode.go:302-317 | the array case of the specification; depth is restored on success |
| CborDecoder.Decoder.DecodeItemLoop | internal/cbor/decode.go:308-314 | the loop for any claimed length up to 2^64-1 computes the recursive specification |
| CborDecoder.Decoder.DecodeMap | internal/cbor/decode.go:319-351 | the map case of the specification, order check included; depth is restored on success |
| CborDecoder.Decoder.DecodeEntryLoop | internal/cbor/decode.go:326-339 | the loop over entries computes the recursive specification and stays within the copying bound of the enclosing level |
| CborDecoder.Decoder.DecodeEntry | internal/cbor/decode.go:327-338 | one key with a copy of its bytes, and one value |
| CborDecoder.Decoder.CheckOrder | internal/cbor/decode.go:342-350 | succeeds on ascending spans; else the first pair that does not ascend is a duplicate if equal, out of order if not |
| CborDecoder.Decode | internal/cbor/decode.go:101-111 | computes the specification; reads at most the buffer, calls decodeValue at most 10001 times and copies at most 8 times the bytes read into key spans, whatever the outcome |
| CborEncoder.PutUint | internal/cbortest/encode.go:81-96 | writes the big-endian bytes of an argument in place and nothing else |
| CborEncoder.EncodeHeader | internal/cbortest/encode.go:74-97 | the shortest header for every uint64 argument |
| CborEncoder.EncodeArray | internal/cbortest/encode.go:36-42 | header and items in order |
| CborEncoder.EncodeMap | internal/cbortest/encode.go:54-61 | header, then key and value of each entry in order |
| CborEncoder.ScalarsPrint | internal/cbortest/encode.go:14-33 | the integer, string, boolean and null constructors print the canonical encodings of their values |
| CborEncoder.ArrayOfEncodings | internal/cbortest/encode.go:36-42 | an array printed from encoded items is the canonical encoding of the array |
| CborEncoder.MapOfEncodings | internal/cbortest/encode.go:54-61 | a map printed from encoded entries is the canonical encoding of the map |
| Vectors.CborIntegers | internal/cbortest/encode.go:74-97 | published one-byte and two-byte encodings of integers of both signs |
| Vectors.CborEightByteInteger | internal/cbortest/encode.go:74-97 | the published encoding of 10^12 in eight bytes, most significant first |
| Vectors.CborStrings | internal/cbortest/encode.go:26-72 | published encodings of byte strings, text strings, booleans and null |
| Vectors.CborArrays | internal/cbortest/encode.go:36-42 | published encodings of arrays |
| Vectors.CborMaps | internal/cbortest/encode.go:54-61 | published encodings of maps |
| CborOrder.CanonicalCompareTotal | internal/cbor/decode.go:356-364 | zero only on equal byte strings, and swapping the arguments flips the sign |
| CborOrder.CanonicalCompareTransitive | internal/cbor/decode.go:356-364 | strictly less is transitive |
| CborOrder.KeysDistinct | internal/cbor/decode.go:342-351 | the check of adjacent spans makes all keys of a map pairwise different |
| CborOrder.MeaningIsEveryEntry | internal/cbor/decode.go:342-351 | every entry of a canonical map is found under its own key, and the mathematical map has as many keys as there are entries |
| CborOrder.GetIsLookup | internal/cbor/decode.go:69-87 | on every decoded map MapGetInt and MapGetText are lookup in the mathematical map of its entries |
| CborOrder.CompareHeaders | internal/cbor/decode.go:356-364 | headers of one major type order as their arguments, across all five widths |
| CborOrder.ScalarOrder | internal/cbor/decode.go:353-364 | for keys of one scalar type the order is argument, then content, and equals plain bytewise order |
| CborOrder.MixedOrder | internal/cbor/decode.go:353-364 | across major types the code's order equals bytewise order if and only if the encoding with the smaller major type is not longer |
| CborOrder.MixedOrderExample | internal/cbor/decode.go:353-364 | the keys 24 and -1, on which sections 4.2.1 and 4.2.3 of RFC 8949 disagree |
| CborContainers.CompareItems | internal/cbor/decode.go:356-364 | bytewise order of two equally long sequences of items is that of the first items that differ |
| CborContainers.ContainerOrder | internal/cbor/decode.go:353-364 | two arrays or two maps: bytewise order is number of parts, then first differing part; the code's order agrees if and only if the one that precedes is not longer |
| CborContainers.ContainerOrderExample | internal/cbor/decode.go:353-364 | the arrays [24] and [-1], on which the two orders disagree |
| AuthDataParser.Parse | internal/authdata/parse.go:72-117 | the moving cursor and the field-by-field filling compute the specification of the parser |
| AuthDataParser.ParseAttestedCredentialData | internal/authdata/parse.go:119-149 | likewise for the variable-length part; the key's end is where the CBOR item ends |
| AuthData.ParseSound | internal/authdata/parse.go:72-149 | a parsed buffer is rebuilt from the result and the two reserved flag bits; the raw key is the encoding of the decoded key |
| AuthData.ParseComplete | internal/authdata/parse.go:72-149 | every well-formed structure parses back to itself whatever its reserved bits |
| AuthData.ParseExact | internal/authdata/parse.go:72-149 | parsing gives d if and only if the buffer is the concatenation for d selected by its AT and ED bits, with CBOR tail within limits |
| AuthDataExact.ParseWritten | internal/authdata/parse.go:72-149 | parsing gives d if and only if the bytes are 32 of hash, a flag byte with UP, UV, BE, BS, AT and ED at weights 1, 4, 8, 16, 64 and 128, four of count, then 16 of AAGUID, two of length, ID and key if AT, and the extension map if ED |
| AuthDataExact.ParseErrorsExact | internal/authdata/parse.go:72-149 | truncated if and only if the header, or with AT the AAGUID, length or credential ID, is not complete; malformed if and only if neither that nor well-formed |
| CoseExact.KeyExact | internal/cose/key.go:76-214 | a decoded map parses to a key if and only if it holds the type, algorithm and curve labels of that key and a point on the curve with coordinates of 32, 48 or 66 bytes, or a modulus of at least 2^2047 and an exponent of 1 to 2^31-1, or 32 bytes |
| CoseExact.KeyErrorsExact | internal/cose/key.go:76-214 | an integer type other than 1, 2 and 3 is an unsupported key type; a curve other than the listed ones is an unsupported curve; every other map that holds no key is malformed |
| AttestationExact.ObjectExact | internal/ceremony/register.go:129-155 | bytes decode to an attestation object if and only if all of them are the encoding of an acceptable map with the three fields |
| AttestationExact.PackedExact | internal/ceremony/attestation.go:35-61 | a statement decodes to an algorithm, signature and certificate list if and only if its map says exactly that, an absent list being the empty one and an empty list refused |
| AttestationExact.SignatureExact | internal/ceremony/login.go:167-201 | a signature passes if and only if it verifies; the algorithm is unsupported if and only if it is none of -7, -257 and -8 or the key is of another kind; verification fails if and only if the key fits and the signature does not verify |
| AttestationExact.FormatsDemand | internal/ceremony/attestation.go:15-27 | format "packed" passes if and only if the statement carries a verifying signature, "none" if and only if it is the empty map, and nothing else passes |
| AttestationExact.StatementExact | internal/ceremony/attestation.go:15-97 | accepted if and only if format "none" and empty, or format "packed" and signed by the credential's key under its algorithm or by the key of the first certificate; any other format is an unknown format, and every other refusal a bad statement |
| HarnessKeys.PadRoundTrip | internal/webauthntest/virtualauth.go:408-416 | reading a padded number back gives it modulo 256^size, hence the number itself if and only if it fits |
| HarnessKeys.Ec2Prints | internal/webauthntest/virtualauth.go:323-332 | the EC2 key encoder prints the canonical encoding of an acceptable map |
| HarnessKeys.RsaPrints | internal/webauthntest/virtualauth.go:334-341 | the RSA key encoder prints the canonical encoding of an acceptable map |
| HarnessKeys.OkpPrints | internal/webauthntest/virtualauth.go:343-350 | the OKP key encoder prints the canonical encoding of an acceptable map |
| HarnessKeys.Ec2RoundTrip | internal/cose/key.go:113-165 | a P-256 key on the curve parses back if and only if both coordinates are below 2^256 |
| HarnessKeys.RsaRoundTrip | internal/cose/key.go:185-214 | an RSA key parses back if and only if its modulus is at least 2^2047 and its exponent is in 1 to 2^31-1 |
| HarnessKeys.OkpRoundTrip | internal/cose/key.go:167-183 | an Ed25519 key parses back if and only if it has 32 bytes |
| Cose.BitLenBound | internal/cose/key.go:185-214 | a bit length above k means a number of at least 2^k: what the minimum of 2048 bits demands |
| HarnessWire.PublicKeyRoundTrip | internal/webauthntest/virtualauth.go:307-350 | every generated key, encoded and followed by anything within the limit, decodes with its exact length and parses to the same key and algorithm |
| HarnessWire.RegistrationDataRoundTrip | internal/webauthntest/virtualauth.go:277-289 | registration authenticator data parses back with the same AAGUID, credential ID up to 65535 bytes, count and raw key bytes |
| HarnessWire.AssertionDataRoundTrip | internal/webauthntest/virtualauth.go:294-305 | assertion authenticator data parses back with the same hash and count |
| HarnessWire.ObjectRoundTrip | internal/ceremony/register.go:129-155 | an attestation object around a canonical statement below the depth limit reads back if and only if it fits the size limit and the statement has at most 9994 nodes |
| HarnessWire.PackedRoundTrip | internal/ceremony/attestation.go:35-61 | a packed statement reads back whole: algorithm, signature and certificates in order |
| HarnessWire.PackedObjectRoundTrip | internal/webauthntest/virtualauth.go:368-387 | a built packed object reads back if and only if it fits the size limit and has at most 9987 certificates |
| HarnessWire.NoneObjectRoundTrip | internal/webauthntest/virtualauth.go:357-363 | a built object without attestation reads back if and only if it fits the size limit |
| Attestation.DecodePackedAttStmt | internal/ceremony/attestation.go:35-61 | the loop that collects certificates computes the specification, errors included |
| Harness.New | internal/webauthntest/virtualauth.go:67-103 | succeeds exactly for ES256, RS256 and EdDSA with working randomness, with a fresh key of the kind the algorithm needs, and starts at count 1, or at 0 without a counter |
| Harness.VirtualAuthenticator.constructor | internal/webauthntest/virtualauth.go:67-103 | an authenticator with a key of its algorithm's kind starts at count 1, or at 0 without a counter |
| Harness.VirtualAuthenticator.BuildAuthDataRegistration | internal/webauthntest/virtualauth.go:277-289 | appends hash, flags, count, AAGUID, 16-bit length, ID and key; the counter stays |
| Harness.VirtualAuthenticator.BuildAuthDataAssertion | internal/webauthntest/virtualauth.go:294-305 | advances the counter modulo 2^32 unless disabled, and reports the new one |
| Challenge.ChallengeStore.PurgeExpiredLocked | internal/ceremony/challenge.go:131-138 | in any iteration order, keeps exactly the entries at most 120 seconds old |
| Challenge.ChallengeStore.Issue | internal/ceremony/challenge.go:78-92 | sweeps and replaces the entry of its key; changes nothing when no randomness is available |
| Challenge.ChallengeStore.Consume | internal/ceremony/challenge.go:99-119 | the entry is gone whatever the outcome; the verdict is not found, mismatch, expired (older than 120 seconds) or accepted, in that order |
| ChallengeRefinement.StoreWithinCells | internal/ceremony/challenge.go:78-138 | a pending entry is what its one-shot cell holds, and a cell whose entry is missing holds an expired one |
| ChallengeRefinement.ConsumeRefinesCell | internal/ceremony/challenge.go:99-138 | with a clock that does not run backwards, Consume succeeds in the swept store if and only if it succeeds in the cell; when errors differ the store says not found |
| ChallengeRefinement.SurvivesExact | internal/ceremony/challenge.go:78-138 | an issued entry is still pending if and only if no later Issue found it older than the lifetime |
| ChallengeRefinement.ErrorsDifferExactly | internal/ceremony/challenge.go:99-138 | the verdicts of store and cell differ if and only if the last operation on the key is an Issue at m and a later Issue n before the Consume swept at a time more than the lifetime after m |
| ChallengeRefinement.SweptRunDiffers | internal/ceremony/challenge.go:99-138 | a run of three operations in which the store says not found and the cell says expired |
| ChallengeRefinement.KeptRunAccepts | internal/ceremony/challenge.go:99-138 | the same run a nanosecond earlier, at 120 seconds exactly, is accepted by both |
| ChallengeRefinement.PendingBounded | internal/ceremony/challenge.go:73-92 | right after an Issue at most as many entries are pending as were issued within one lifetime |
| Base64.EncodeInjective | internal/store/file.go:250-252 | different credential IDs have different keys |
| Vectors.Base64Short | internal/store/file.go:250-252 | published encodings of short strings, padding and the whole alphabet's last two characters included |
| Vectors.Base64Long | internal/store/file.go:250-252 | published encodings of more than one group |
| Store.MeaningLookup | internal/store/file.go:74-88 | in a document keyed by encoded IDs a credential is found under its ID and nowhere else |
| Store.ByKeyMeaning | internal/store/file.go:204-208 | a document built from a list without repeated IDs means exactly that list |
| Store.CredentialStore.LoadLocked | internal/store/file.go:178-198 | in any map order, every entry of the file exactly once, under whatever keys; a missing or empty file is no credentials; an unreadable one is an error; for files the store wrote, the list is the finite map |
| Store.CredentialStore.SaveLocked | internal/store/file.go:204-248 | replaces the file only if every step succeeds; a crash after any step leaves the old or the new file, never the old one after the new one |
| Store.CredentialStore.FindByID | internal/store/file.go:74-88 | lookup in the finite map |
| Store.CredentialStore.FindByUsername | internal/store/file.go:91-105 | each credential of the user exactly once and no other |
| Store.CredentialStore.AddCredential | internal/store/file.go:109-126 | adds the credential, stamped if it has no time, or changes nothing; taken ID is reported if the file is readable, every other failure as a store failure; crash leaves the old or the new map |
| Store.CredentialStore.UpdateSignCount | internal/store/file.go:130-150 | replaces one count in the finite map or changes nothing; crash leaves the old or the new map |
| Store.CredentialStore.DeleteCredential | internal/store/file.go:155-176 | removes one ID from the finite map or changes nothing; crash leaves the old or the new map |
| CeremonyServer.RelyingParty.Login | internal/ceremony/login.go:69-156 | over the mutable stores, returns and leaves what the login function says, in the program's order of checks |
| CeremonyServer.RelyingParty.VerifyAssertion | internal/ceremony/login.go:101-149 | the checks between lookup and update, run with the imperative parser and decoder, compute the pure checks |
| CeremonyServer.RelyingParty.Register | internal/ceremony/register.go:63-125 | over the mutable stores, returns and leaves what the registration function says |
| CeremonyServer.RelyingParty.VerifyRegistration | internal/ceremony/register.go:82-124 | the checks between origin and store, run with the imperative parser, compute the pure checks |
| Acceptance.StoredExact | internal/ceremony/login.go:113-130 | a stored key reads back as a key if and only if its bytes are the encoding of a map holding that key under the stored algorithm |
| Acceptance.AssertionExact | internal/ceremony/login.go:101-149 | the checks after the lookup pass if and only if the authenticator data is well formed and addressed to this server, the signature verifies under the stored key, and the counter is zero on a side or larger |
| Acceptance.LoginExact | internal/ceremony/login.go:69-156 | login succeeds if and only if the store works, the claim is fresh and from an allowed origin, and all checks hold; the user reported is the stored credential's |
| Acceptance.RegistrationSound | internal/ceremony/register.go:82-124 | a registration that passes has an attestation object, structure and key meeting every condition, and stores the encoding of that key |
| Acceptance.RegistrationComplete | internal/ceremony/register.go:82-124 | whatever meets every condition passes |
| Acceptance.RegisterExact | internal/ceremony/register.go:63-125 | registration succeeds if and only if the store works, the claim is fresh, every condition holds and the ID is new; it then adds exactly that credential |
| Refusal.ClaimErrorsExact | internal/ceremony/login.go:70-88 | malformed client data, wrong type, no challenge, another challenge, one older than 120 seconds, origin not allowed: each if and only if it applies and nothing before it does |
| Refusal.FlagErrorsExact | internal/policy/flags.go:31-70 | hash mismatch, user not present, user not verified, unrecognized policy: each if and only if it applies and nothing before it does |
| Refusal.StoredErrorsExact | internal/ceremony/login.go:113-130 | a stored key is corrupt if and only if its bytes are not one item or hold a key of another algorithm, and otherwise fails as the map it encodes does |
| Refusal.AssertionErrorsExact | internal/ceremony/login.go:101-149 | the checks after the lookup end with error x if and only if x applies and nothing checked earlier does: authenticator data, flags, stored key, algorithm, signature, counter |
| Refusal.LoginErrorsExact | internal/ceremony/login.go:69-156 | a login ends with error x if and only if the claim is refused with x, or it is fresh and the lookup, the checks or the update fail with x |
| Refusal.RegistrationErrorsExact | internal/ceremony/register.go:82-124 | the checks of a registration end with error x if and only if x applies and nothing checked earlier does |
| Refusal.RegisterErrorsExact | internal/ceremony/register.go:63-125 | a registration ends with error x if and only if the claim is refused with x, or it is fresh and the checks or storing fail with x |
| Counter.LoginEffect | internal/ceremony/login.go:69-156 | an erring login changes no credential; a successful one changes only the attested credential's count, to the count reported; with readable client data the pending challenge of its user is gone either way |
| Counter.RegisterEffect | internal/ceremony/register.go:63-125 | an erring registration changes no credential; a successful one adds exactly its credential under a new ID; with readable client data the pending challenge of its user is gone either way |
| Counter.RunDisciplined | internal/ceremony/login.go:139-153 | in every run the accepted counts never regress between neighbours and the last is the stored one |
| Counter.CounterDiscipline | internal/ceremony/login.go:139-153 | in every run the accepted counts of a credential strictly increase along every stretch without a zero, from the registration count on |
| HonestPeer.AttestationAccepted | internal/ceremony/attestation.go:15-97 | a none, packed self or packed full attestation made by the authenticator reads back and verifies |
| HonestPeer.RegistrationAccepted | internal/ceremony/register.go:82-124 | an honest registration passes every check, and the credential stored holds the ID, key bytes, algorithm, count and AAGUID that the authenticator sent |
| HonestPeer.AssertionAccepted | internal/ceremony/login.go:101-149 | an honest assertion is accepted if and only if its count does not regress, and is otherwise refused for that reason |
| HonestRun.DeliveredExact | internal/ceremony/login.go:69-156 | one delivered assertion with a live challenge is refused if and only if its count regresses; accepted, it logs in the registered user and stores its count |
| HonestRun.OtherKeepsStep | internal/ceremony/login.go:69-156 | any other operation keeps the stored count one that the authenticator has reported, unless it succeeds in deleting the credential or in logging in with a count beyond it |
| HonestRun.OnlyForgeryDisturbs | internal/ceremony/login.go:132-137 | a login that does succeed with a count beyond it carries a valid signature of the authenticator's key over that count |
| HonestRun.OwnAssertionsHarmless | internal/ceremony/login.go:139-153 | late and repeated assertions of the authenticator itself never do |
| HonestRun.HonestRunAccepted | internal/ceremony/login.go:69-156 | with any subset of assertions lost and any traffic in between except a successful delete or a successful login with a count the authenticator has not reached, every delivered assertion is accepted while the counter does not wrap or is fixed at zero |
| HonestRun.RefusedWindow | internal/ceremony/login.go:139-149 | within one turn of the counter, number m is refused after number last if and only if it has passed a multiple of 2^32 and not yet last plus 2^32 |
| HonestRun.RunExact | internal/ceremony/login.go:69-156 | in whole runs, however often the counter wraps, exactly the assertions refused by that rule are refused, if nothing else succeeds in touching the credential |
| HonestRun.RegisterThenAccepted | internal/ceremony/register.go:63-125 | an honest registration with a live challenge and a new ID succeeds; everything delivered afterwards is accepted without a wrap, and with wraps exactly as RunExact says |
| HonestRun.WrapExact | internal/ceremony/login.go:139-149 | the checks of one assertion k after the reported count refuse it if and only if the count has passed zero and not overtaken the stored one |
| ConcurrentChallenges.AtMostOnce | internal/ceremony/challenge.go:78-119 | under every interleaving an accepted challenge has an earlier issue of the same key and bytes, one take with no other issue or take of the key between, age at most the lifetime when judged; no issue is accepted twice |
| ConcurrentAccepts.SuccessesInjectToIssues | internal/ceremony/login.go:82-84 | under every interleaving each login and each registration has an earlier issue for its user name and purpose, accepted by its own thread, and no issue serves two of them |
| ConcurrentLogins.LoginTraceable | internal/ceremony/login.go:90-155 | under every interleaving a login as U has an earlier registration by U of the attested ID, no delete or other registration of the ID before the lookup, and its signature verifies under the key registered then, whatever user name the request carried |
| ConcurrentCounts.RunCounts | internal/store/file.go:130-150 | under every interleaving the stored count of every credential is the one that the last registration, login or removal in the log left, and each login saw the count logged at its lookup |
| ConcurrentCounts.RegressedExact | internal/ceremony/login.go:139-153 | under every interleaving a login regresses against the count it overwrites if and only if the last write of the credential before it came after its lookup and left a count at least as large as its own, which is not zero |
| ConcurrentCounts.InterleavedDiscipline | internal/ceremony/login.go:139-153 | under every interleaving the counts of a credential strictly increase while each write is a login with a count other than zero and no write of the credential falls between its lookup and its update |
| ConcurrentKeys.RegistrationIntact | internal/ceremony/register.go:103-124 | the key bytes that registration stores decode to their full length and parse to a key of the stored algorithm |
| ConcurrentKeys.StoredKeysIntact | internal/ceremony/login.go:113-130 | in every state reachable under every interleaving every stored key is intact, and no request was ever refused for a corrupt stored key |
| ConcurrentSerial.SerialLogin | internal/ceremony/login.go:69-156 | a login thread that runs without interruption leaves the state and the result of the login function |
| ConcurrentSerial.SerialRegister | internal/ceremony/register.go:63-125 | a registration thread that runs without interruption leaves the state and the result of the registration function |
| ConcurrentSerial.OverlapRegresses | internal/ceremony/login.go:93-153 | from any state with two logins at their lookups that both pass, the larger count can be stored first and overwritten by the smaller |
| ConcurrentOverlap.OverlapReached | internal/ceremony/login.go:93-153 | the server reaches this: for every honest authenticator, a given sequence of 17 steps registers it, accepts two overlapping assertions and leaves the smaller count |

## Left out

- CborDecoder.Decoder.DecodeValue: after an error only the cursor, depth and element bounds are stated, because the program drops the decoder.
- CborDecoder.Decode: running time is stated as calls and copied bytes, not as allocations; decoded strings are copied once besides.
- Counter.CounterDiscipline: for ceremonies that run one at a time, because overlapping logins break it; ConcurrentCounts.RegressedExact says exactly when.
- HonestRun.HonestRunAccepted: not for runs in which the credential is deleted, or in which somebody else succeeds in logging in with a count that the authenticator has not reached.
- ChallengeRefinement.ConsumeRefinesCell: for clocks that do not run backwards; SetClock is not modelled, and durations do not saturate.
- Store.CredentialStore.FindByID: like the other operations on top of the load, for files whose entries are filed under their own encoded IDs, as the store writes them; a file edited by hand may differ.
- Store.CredentialStore.SaveLocked: process crashes with an atomic rename; power loss, file permissions and Windows differences are not modelled, nor is a failing removal of the temporary file.
- JSON and base64url: client data is parsed by an abstract function, and the credential file is a map; the replacement of invalid UTF-8 by the JSON encoder is not modelled.
- Cryptography, certificate parsing, curve membership and random bytes: parameters, with no unforgeability assumed anywhere.
- Origin allowlist: a set of strings, as in the program.
- HTTP handlers, session tokens, the demo page, command-line flags, TLS certificates, logging and the tools directory: plumbing around the three layers.
- Error texts and offsets: only the kind of an error is kept.
