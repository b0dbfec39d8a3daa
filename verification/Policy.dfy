/** The errors a ceremony can end with, and the checks that belong to no single step: origin, relying party hash,
    user presence and user verification. */
module Policy {
  import opened ByteStrings
  import AuthData
  import Cose

  datatype Error =
    | MalformedClientData
    | ClientDataType
    | ChallengeNotFound
    | ChallengeMismatch
    | ChallengeExpired
    | OriginNotAllowed
    | CredentialNotFound
    | AuthDataFailure(authData: AuthData.Error)
    | RpIdHashMismatch
    | UserNotPresent
    | UserNotVerified
    | InvalidUvPolicy
    | CoseFailure(cose: Cose.Error)
    | CorruptStoredKey
    | UnsupportedAlgorithm
    | SignatureVerification
    | CounterRegression
    | MalformedAttestationObject
    | AttestationFormat
    | AttestationStatement
    | MissingAttestedData
    | AlreadyRegistered
    | NoSuchCredential
    | StoreFailure

  datatype UvPolicy = Required | Preferred | Discouraged | Unrecognized

  function Strictness(p: UvPolicy): nat {
    match p
    case Required => 2
    case Preferred => 1
    case _ => 0
  }

  /** The stricter of the configured floor and what one ceremony asked for. */
  function EffectivePolicy(floor: UvPolicy, requested: UvPolicy): UvPolicy {
    if requested != Unrecognized && Strictness(requested) > Strictness(floor) then requested else floor
  }

  function CheckFlags(p: UvPolicy, up: bool, uv: bool): Result<bool, Error> {
    if !up then Failure(UserNotPresent)
    else if p == Required && !uv then Failure(UserNotVerified)
    else if p == Unrecognized then Failure(InvalidUvPolicy)
    else Success(uv)
  }
}
