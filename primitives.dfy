/**
 * The standard-library cryptography the journal codec relies on: SHA-256
 * (section 6.2 of FIPS 180-4) and the Galois/Counter Mode authenticated
 * cipher (sections 7.1 and 7.2 of NIST SP 800-38D) over AES (FIPS 197).
 * Their internals are not modelled. A `Suite` carries them as three
 * functions, and `seal` and `open` take the raw key, so the AES block cipher
 * and its key schedule are folded into them. `Sound` states the guarantees
 * the codec depends on.
 */
module Primitives {
  import opened Wrappers

  newtype byte = x: int | 0 <= x < 0x100

  type Bytes = seq<byte>

  /** Size in bytes of a SHA-256 digest. */
  const DigestSize: nat := 32

  /** Size in bytes of the standard GCM nonce, as returned by `NonceSize()`. */
  const NonceSize: nat := 12

  /** Size in bytes of the GCM authentication tag appended by `Seal`. */
  const TagSize: nat := 16

  /** Key sizes accepted by `aes.NewCipher` (AES-128, AES-192, AES-256). */
  predicate ValidAesKeySize(n: nat) {
    n == 16 || n == 24 || n == 32
  }

  /**
   * The library calls themselves. `seal(key, nonce, plaintext)` is the sealed
   * ciphertext with its tag; `open(key, nonce, ciphertext)` is the plaintext,
   * or `None` when authentication fails.
   */
  datatype Suite = Suite(
    sha256: Bytes -> Bytes,
    seal: (Bytes, Bytes, Bytes) -> Bytes,
    open: (Bytes, Bytes, Bytes) -> Option<Bytes>)

  /**
   * What the model assumes of the library: the digest is 32 bytes long;
   * with an AES-256 key and a 12-byte nonce, sealing adds exactly one tag,
   * opening undoes sealing, and a ciphertext shorter than a tag never
   * authenticates.
   */
  ghost predicate Sound(c: Suite) {
    (forall m :: |c.sha256(m)| == DigestSize) &&
    (forall k, n, p :: |k| == 32 && |n| == NonceSize ==>
       |c.seal(k, n, p)| == |p| + TagSize) &&
    (forall k, n, p :: |k| == 32 && |n| == NonceSize ==>
       c.open(k, n, c.seal(k, n, p)) == Some(p)) &&
    (forall k, n, t :: |k| == 32 && |n| == NonceSize && |t| < TagSize ==>
       c.open(k, n, t) == None)
  }

  /** A keyless stand-in: an all-zero digest, and a tag of zeros that `open` strips. */
  function ToySuite(): Suite {
    Suite(
      m => seq(DigestSize, _ => 0 as byte),
      (k, n, p) => p + seq(TagSize, _ => 0 as byte),
      (k, n, t) => if |t| < TagSize then None else Some(t[..|t| - TagSize]))
  }

  /** The assumptions of `Sound` are consistent: some suite meets them. */
  lemma ToySuiteIsSound()
    ensures Sound(ToySuite())
  {
    var c := ToySuite();
    forall k, n, p | |k| == 32 && |n| == NonceSize
      ensures c.open(k, n, c.seal(k, n, p)) == Some(p)
    {
      var t := p + seq(TagSize, _ => 0 as byte);
      assert c.seal(k, n, p) == t;
      assert t[..|t| - TagSize] == p;
    }
  }
}
