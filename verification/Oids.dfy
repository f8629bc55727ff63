/** Object identifiers, as their content octets. */
module Oids {
  import opened Octets

  const SHA256: octets := [0x60, 0x86, 0x48, 0x01, 0x65, 0x03, 0x04, 0x02, 0x01]
  const SHA384: octets := [0x60, 0x86, 0x48, 0x01, 0x65, 0x03, 0x04, 0x02, 0x02]
  const SHA512: octets := [0x60, 0x86, 0x48, 0x01, 0x65, 0x03, 0x04, 0x02, 0x03]
  const RSA_ENCRYPTION: octets := [0x2A, 0x86, 0x48, 0x86, 0xF7, 0x0D, 0x01, 0x01, 0x01]
  const SHA256_WITH_RSA: octets := [0x2A, 0x86, 0x48, 0x86, 0xF7, 0x0D, 0x01, 0x01, 0x0B]
  const SHA384_WITH_RSA: octets := [0x2A, 0x86, 0x48, 0x86, 0xF7, 0x0D, 0x01, 0x01, 0x0C]
  const SHA512_WITH_RSA: octets := [0x2A, 0x86, 0x48, 0x86, 0xF7, 0x0D, 0x01, 0x01, 0x0D]
  const EC_PUBLIC_KEY: octets := [0x2A, 0x86, 0x48, 0xCE, 0x3D, 0x02, 0x01]
  const ECDSA_WITH_SHA256: octets := [0x2A, 0x86, 0x48, 0xCE, 0x3D, 0x04, 0x03, 0x02]
  const ECDSA_WITH_SHA384: octets := [0x2A, 0x86, 0x48, 0xCE, 0x3D, 0x04, 0x03, 0x03]
  const ECDSA_WITH_SHA512: octets := [0x2A, 0x86, 0x48, 0xCE, 0x3D, 0x04, 0x03, 0x04]
  const DATA: octets := [0x2A, 0x86, 0x48, 0x86, 0xF7, 0x0D, 0x01, 0x07, 0x01]
  const SIGNED_DATA: octets := [0x2A, 0x86, 0x48, 0x86, 0xF7, 0x0D, 0x01, 0x07, 0x02]
  const CONTENT_TYPE: octets := [0x2A, 0x86, 0x48, 0x86, 0xF7, 0x0D, 0x01, 0x09, 0x03]
  const MESSAGE_DIGEST: octets := [0x2A, 0x86, 0x48, 0x86, 0xF7, 0x0D, 0x01, 0x09, 0x04]
  const SIGNING_TIME: octets := [0x2A, 0x86, 0x48, 0x86, 0xF7, 0x0D, 0x01, 0x09, 0x05]
  const SIGNING_CERTIFICATE_V2: octets :=
    [0x2A, 0x86, 0x48, 0x86, 0xF7, 0x0D, 0x01, 0x09, 0x10, 0x02, 0x2F]
  const SIGNATURE_TIME_STAMP_TOKEN: octets :=
    [0x2A, 0x86, 0x48, 0x86, 0xF7, 0x0D, 0x01, 0x09, 0x10, 0x02, 0x0E]
  const OCSP_RESPONSE_REVOCATION_INFO: octets := [0x2B, 0x06, 0x01, 0x05, 0x05, 0x07, 0x10, 0x02]

  /** What an OID's content must satisfy: not empty, and its last arc terminated. */
  predicate IsOid(b: octets) {
    b != [] && b[|b| - 1] < 0x80
  }
}
