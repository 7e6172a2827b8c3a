/**
 * The foreign code the registry calls: sodiumoxide's box primitives, the
 * base64 codec and UTF-8 handling of Rust strings. Their internals are not
 * part of this model, so they are gathered in `Primitives`, a record of
 * functions that every operation receives as a parameter; the contracts of
 * the registry depend only on the values these functions return.
 */
module Sodium {
  import opened Wrappers

  newtype byte = x: int | 0 <= x < 256

  type Bytes = seq<byte>

  /** Sizes of sodiumoxide's `box_` values (curve25519xsalsa20poly1305). */
  const PublicKeyBytes: nat := 32
  const SecretKeyBytes: nat := 32
  const NonceBytes: nat := 24

  type PublicKey = k: Bytes | |k| == PublicKeyBytes witness seq(32, _ => 0)
  type SecretKey = k: Bytes | |k| == SecretKeyBytes witness seq(32, _ => 0)
  type Nonce = n: Bytes | |n| == NonceBytes witness seq(24, _ => 0)

  datatype Primitives = Primitives(
    /** `base64::encode` */
    b64Encode: Bytes -> string,
    /** `base64::decode`, its error already rendered with `to_string` */
    b64Decode: string -> Result<Bytes, string>,
    /** `PublicKey::from_slice` */
    keyFromSlice: Bytes -> Option<PublicKey>,
    /** `box_::open(ciphertext, nonce, their public key, our secret key)` */
    open: (Bytes, Nonce, PublicKey, SecretKey) -> Option<Bytes>,
    /** `String::as_bytes` */
    asBytes: string -> Bytes,
    /** `String::from_utf8` */
    fromUtf8: Bytes -> Option<string>
  )
}
