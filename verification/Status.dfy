/** The status codes of the C core, and the caller-owned storage its results are published in. */
module Status {

  datatype Status =
    | OK
    | ERR_INVALID_ARGUMENT
    | ERR_BOUNDS
    | ERR_OVERFLOW
    | ERR_IMAGE_FORMAT
    | ERR_MANIFEST_FORMAT
    | ERR_SIGNATURE
    | ERR_KEY_REVOKED
    | ERR_SECURITY_EPOCH
    | ERR_TARGET_MISMATCH
    | ERR_SLOT_INVALID
    | ERR_TRANSACTION_CORRUPT
    | ERR_HEALTH_FAILED
    | ERR_NO_BOOTABLE_IMAGE
    | ERR_INTERNAL
    | ERR_UNSUPPORTED_ALGORITHM
    | ERR_CRYPTO_PROVIDER
    | ERR_TRUST_STORE
    | ERR_KEY_UNKNOWN
    | ERR_KEY_EXPIRED
    | ERR_KEY_ROLE
    | ERR_KEY_LIFECYCLE

  /** A struct the caller owns and passes by address. */
  class Cell<T> {
    var value: T

    constructor (value: T)
      ensures this.value == value
    {
      this.value := value;
    }
  }
}
