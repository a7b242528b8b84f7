/**
 * The journal codec: key derivation from the passphrase, construction of the
 * AES-256-GCM cipher, and the on-disk layout `nonce ++ Seal(key, nonce, plaintext)`.
 * Go's `([]byte, error)` results are modelled as an `Outcome` pair, so that the
 * codec's "empty bytes and a nil error" answer stays expressible.
 */
module EncryptionService {
  import opened Wrappers
  import opened Primitives

  /** The errors the codec can hand back. */
  datatype Error =
    | KeySizeError        // aes.NewCipher refused the key
    | ErrEOF              // io.ReadFull read no byte of the nonce
    | ErrUnexpectedEOF    // io.ReadFull read part of the nonce
    | ErrInvalidJournal   // "byte array read from file is invalid"
    | ErrOpen             // "cipher: message authentication failed"

  /** A Go result pair: the bytes and an error that is `None` for `nil`. */
  datatype Outcome = Outcome(bytes: Bytes, err: Option<Error>)

  /** A GCM cipher keyed with the AES key it was built from. */
  datatype Gcm = Gcm(key: Bytes)

  /** The AES key: the SHA-256 digest of the passphrase's bytes. */
  function GenerateHash(c: Suite, passPhrase: Bytes): (key: Bytes)
    ensures Sound(c) ==> |key| == DigestSize
  {
    c.sha256(passPhrase)
  }

  /**
   * `aes.NewCipher` on the derived key, then `cipher.NewGCM`, which cannot
   * fail on an AES block. Given a 32-byte digest the construction succeeds.
   */
  function GetGcm(c: Suite, passPhrase: Bytes): (r: Result<Gcm, Error>)
    ensures r.Success? <==> ValidAesKeySize(|GenerateHash(c, passPhrase)|)
    ensures r.Success? ==> r.value.key == GenerateHash(c, passPhrase)
    ensures r.Failure? ==> r.error == KeySizeError
    ensures Sound(c) ==> r == Success(Gcm(GenerateHash(c, passPhrase)))
  {
    var key := GenerateHash(c, passPhrase);
    if ValidAesKeySize(|key|) then Success(Gcm(key)) else Failure(KeySizeError)
  }

  /**
   * `gcm.Seal(dst, nonce, plaintext, nil)`: the sealed text appended to `dst`.
   * Go panics on a nonce of the wrong length, hence the precondition.
   */
  function Seal(c: Suite, g: Gcm, dst: Bytes, nonce: Bytes, plaintext: Bytes): (out: Bytes)
    requires |nonce| == NonceSize
    ensures |dst| <= |out| && out[..|dst|] == dst
    ensures out[|dst|..] == c.seal(g.key, nonce, plaintext)
    ensures Sound(c) && |g.key| == 32 ==> |out| == |dst| + |plaintext| + TagSize
  {
    dst + c.seal(g.key, nonce, plaintext)
  }

  /**
   * `gcm.Open(nil, nonce, ciphertext, nil)`: the plaintext and a nil error,
   * or nil bytes and `ErrOpen` when authentication fails.
   */
  function Open(c: Suite, g: Gcm, nonce: Bytes, ciphertext: Bytes): (r: Outcome)
    requires |nonce| == NonceSize
    ensures r.err.None? <==> c.open(g.key, nonce, ciphertext).Some?
    ensures r.err.Some? ==> r == Outcome([], Some(ErrOpen))
    ensures r.err.None? ==> Some(r.bytes) == c.open(g.key, nonce, ciphertext)
    ensures Sound(c) && |g.key| == 32 && |ciphertext| < TagSize ==> r == Outcome([], Some(ErrOpen))
    ensures forall p :: Sound(c) && |g.key| == 32 && ciphertext == c.seal(g.key, nonce, p) ==>
              r == Outcome(p, None)
  {
    match c.open(g.key, nonce, ciphertext)
    case Some(plaintext) => Outcome(plaintext, None)
    case None => Outcome([], Some(ErrOpen))
  }

  /** Splits a stored journal into its nonce prefix and its sealed remainder. */
  function SplitJournal(encryptedJournal: Bytes): (parts: (Bytes, Bytes))
    requires NonceSize <= |encryptedJournal|
    ensures |parts.0| == NonceSize
    ensures parts.0 + parts.1 == encryptedJournal
  {
    (encryptedJournal[..NonceSize], encryptedJournal[NonceSize..])
  }

  /**
   * `io.ReadFull(rand.Reader, buf)`, with the bytes the random source will
   * deliver given as a finite `source`: it fills the buffer, or copies what
   * there is and reports `ErrEOF` (nothing read) or `ErrUnexpectedEOF` (a
   * short read), as `io.ReadFull` does on a finite reader. These two errors
   * stand for whatever operating-system error the real random source reports.
   */
  method ReadFull(source: Bytes, buf: array<byte>) returns (err: Option<Error>)
    modifies buf
    ensures err.None? <==> buf.Length <= |source|
    ensures err.None? ==> buf[..] == source[..buf.Length]
    ensures err.Some? ==> buf[..|source|] == source && buf[|source|..] == old(buf[|source|..])
    ensures err.Some? ==> err == Some(if |source| == 0 then ErrEOF else ErrUnexpectedEOF)
  {
    var n := if buf.Length <= |source| then buf.Length else |source|;
    forall i | 0 <= i < n {
      buf[i] := source[i];
    }
    if n < buf.Length {
      err := Some(if n == 0 then ErrEOF else ErrUnexpectedEOF);
    } else {
      err := None;
    }
  }

  /**
   * Decrypts a stored journal: rejects an input shorter than a nonce, splits
   * it at `NonceSize` and opens the remainder. A failed cipher construction
   * yields empty bytes with a nil error, as in the source.
   */
  function DecryptJournal(c: Suite, encryptedJournal: Bytes, passPhrase: Bytes): (r: Outcome)
    ensures GetGcm(c, passPhrase).Failure? ==> r == Outcome([], None)
    ensures GetGcm(c, passPhrase).Success? && |encryptedJournal| < NonceSize ==>
              r == Outcome([], Some(ErrInvalidJournal))
  {
    match GetGcm(c, passPhrase)
    case Failure(_) => Outcome([], None)
    case Success(gcm) =>
      if |encryptedJournal| < NonceSize then
        Outcome([], Some(ErrInvalidJournal))
      else
        var (nonce, encryptedJournalText) := SplitJournal(encryptedJournal);
        Open(c, gcm, nonce, encryptedJournalText)
  }

  /**
   * Encrypts a journal: fills a fresh nonce buffer from the random source and
   * returns `Seal(nonce, nonce, journalBytes)`, the nonce followed by the
   * sealed text. `entropy` stands for the bytes `crypto/rand` will deliver.
   */
  method EncryptJournal(c: Suite, journalBytes: Bytes, passPhrase: Bytes, entropy: Bytes)
    returns (r: Outcome)
    ensures GetGcm(c, passPhrase).Failure? ==> r == Outcome([], None)
    ensures GetGcm(c, passPhrase).Success? && |entropy| < NonceSize ==>
              r == Outcome([], Some(if |entropy| == 0 then ErrEOF else ErrUnexpectedEOF))
    ensures GetGcm(c, passPhrase).Success? && NonceSize <= |entropy| ==>
              r.err == None && NonceSize <= |r.bytes| &&
              r.bytes[..NonceSize] == entropy[..NonceSize] &&
              r.bytes[NonceSize..] == c.seal(GenerateHash(c, passPhrase), entropy[..NonceSize], journalBytes)
    ensures Sound(c) && NonceSize <= |entropy| ==>
              |r.bytes| == NonceSize + |journalBytes| + TagSize &&
              DecryptJournal(c, r.bytes, passPhrase) == Outcome(journalBytes, None)
  {
    var g := GetGcm(c, passPhrase);
    if g.Failure? {
      return Outcome([], None);
    }
    var gcm := g.value;
    var nonce := new byte[NonceSize];
    var err := ReadFull(entropy, nonce);
    if err.Some? {
      return Outcome([], err);
    }
    r := Outcome(Seal(c, gcm, nonce[..], nonce[..], journalBytes), None);
    if Sound(c) {
      RoundTrip(c, journalBytes, passPhrase, nonce[..]);
    }
  }

  /**
   * Round trip: opening what `Seal` framed behind its own nonce gives back the
   * plaintext, whatever the nonce, for a passphrase used on both sides.
   */
  lemma RoundTrip(c: Suite, journalBytes: Bytes, passPhrase: Bytes, nonce: Bytes)
    requires Sound(c)
    requires |nonce| == NonceSize
    ensures GetGcm(c, passPhrase).Success?
    ensures DecryptJournal(c, Seal(c, GetGcm(c, passPhrase).value, nonce, nonce, journalBytes), passPhrase)
            == Outcome(journalBytes, None)
  {
    var gcm := GetGcm(c, passPhrase).value;
    var framed := Seal(c, gcm, nonce, nonce, journalBytes);
    var parts := SplitJournal(framed);
    assert parts.0 == nonce;
    assert parts.1 == c.seal(gcm.key, nonce, journalBytes);
  }

  /**
   * An input shorter than a nonce is rejected with `ErrInvalidJournal` before
   * `Open` is reached: the answer does not depend on what `open` does.
   */
  lemma ShortInputRejected(c: Suite, encryptedJournal: Bytes, passPhrase: Bytes,
                           otherOpen: (Bytes, Bytes, Bytes) -> Option<Bytes>)
    requires |encryptedJournal| < NonceSize
    ensures DecryptJournal(c, encryptedJournal, passPhrase)
            == DecryptJournal(c.(open := otherOpen), encryptedJournal, passPhrase)
    ensures Sound(c) ==>
              DecryptJournal(c, encryptedJournal, passPhrase) == Outcome([], Some(ErrInvalidJournal))
  {
  }

  /**
   * Any input of at least a nonce is opened with its first `NonceSize` bytes
   * as the nonce and the rest as the ciphertext.
   */
  lemma DecryptSplitsAtNonce(c: Suite, encryptedJournal: Bytes, passPhrase: Bytes,
                             nonce: Bytes, text: Bytes)
    requires GetGcm(c, passPhrase).Success?
    requires |nonce| == NonceSize && encryptedJournal == nonce + text
    ensures DecryptJournal(c, encryptedJournal, passPhrase)
            == Open(c, GetGcm(c, passPhrase).value, nonce, text)
  {
    var parts := SplitJournal(encryptedJournal);
    assert parts.0 == nonce;
    assert parts.1 == text;
  }

  /**
   * An input of exactly `NonceSize` bytes passes the length check and reaches
   * `Open` with an empty ciphertext, which cannot authenticate.
   */
  lemma ExactNonceReachesOpen(c: Suite, encryptedJournal: Bytes, passPhrase: Bytes)
    requires GetGcm(c, passPhrase).Success?
    requires |encryptedJournal| == NonceSize
    ensures DecryptJournal(c, encryptedJournal, passPhrase)
            == Open(c, GetGcm(c, passPhrase).value, encryptedJournal, [])
    ensures Sound(c) ==>
              DecryptJournal(c, encryptedJournal, passPhrase) == Outcome([], Some(ErrOpen))
  {
    DecryptSplitsAtNonce(c, encryptedJournal, passPhrase, encryptedJournal, []);
  }

  /**
   * When `getGCM` fails, decryption answers empty bytes and a nil error: the
   * failure is swallowed (`EncryptJournal` states the same of encryption).
   * It happens exactly when the digest is not an AES key size, so never with
   * a 32-byte SHA-256 digest: that `!Sound(c)` is what this lemma adds, the
   * answer itself being `DecryptJournal`'s first ensures.
   */
  lemma CipherFailureSwallowed(c: Suite, encryptedJournal: Bytes, passPhrase: Bytes)
    requires !ValidAesKeySize(|GenerateHash(c, passPhrase)|)
    ensures !Sound(c)
    ensures DecryptJournal(c, encryptedJournal, passPhrase) == Outcome([], None)
  {
  }
}
