# cryptkeeper: a Dafny model of the journal codec and the editor selection

cryptkeeper is a command-line journal. Entries are typed in an external editor
and are meant to be stored encrypted with AES-256-GCM under a key derived from
a passphrase. The write command as written stores them in plain, because
cmd/write.go:56-61 never calls `EncryptJournal`.
This project models the parts of the `cmd` package that carry logic, and proves
properties about them:

- **Journal codec** (`cmd/encryptionservice.go`, module `EncryptionService`).
  The key is the SHA-256 digest of the passphrase. The cipher is AES-GCM. The
  format `EncryptJournal` produces, and `DecryptJournal` (called by the read
  command) expects, is `nonce ++ Seal(key, nonce, plaintext)`. Decryption rejects
  an input shorter than a nonce, splits at `NonceSize` and opens the rest.
- **Editor selection** (`getPreferredEditor` in `cmd/editorservice.go` and
  `cmd/write.go`, modules `Editor`, `EditorService` and `Write`). A requested
  editor on the allow-list `vim, vi, code, vsc, nano` is kept. Anything else,
  the empty name included, becomes `vim`.
- **Editor arguments** (`appendEditorArgs` / `resolveEditorArgs`). The argument
  list is the temp file name. It is preceded by `--wait` when the executable
  path contains `code` or `vsc`.

How the library and the environment are represented:

- The cryptographic primitives are the three function fields of a
  `Primitives.Suite`:
  - `sha256` is SHA-256 (section 6.2 of FIPS 180-4);
  - `seal` and `open` are GCM (sections 7.1 and 7.2 of NIST SP 800-38D) over
    AES (FIPS 197). They take the raw key, so the AES block cipher and its key
    schedule are folded into them.
- `Primitives.Sound` states what the codec relies on:
  - a digest is 32 bytes;
  - with a 32-byte key and a 12-byte nonce, `seal` adds a 16-byte tag;
  - `open` undoes `seal`;
  - a ciphertext shorter than a tag never authenticates.
- `Primitives.ToySuiteIsSound` exhibits one suite that meets `Sound`, so those
  assumptions are consistent.
- A Go `([]byte, error)` result is an `Outcome(bytes, err)` with `err == None`
  for `nil`. This keeps the codec's "empty bytes and a nil error" answer
  expressible.
- The bytes `crypto/rand` would deliver are a parameter (`entropy`). The real
  random reader never reports end of input. The `ErrEOF` and
  `ErrUnexpectedEOF` that `io.ReadFull` gives on a finite `entropy` stand for
  the operating-system error the real reader would report.
- `exec.LookPath` is a parameter.
- The global `editor` flag is a parameter.
- A passphrase is the byte sequence of the Go string.

Behaviours of the source worth knowing:

- A failed cipher construction is swallowed. `EncryptJournal` and
  `DecryptJournal` return empty bytes and a `nil` error
  (cmd/encryptionservice.go:41-43 and 61-63), as stated by
  `EncryptionService.EncryptJournal` and `EncryptionService.CipherFailureSwallowed`.
  Under `Sound` the digest is 32 bytes, so this branch is unreachable.
- Outside the model: the write command's help text says "Entry will be
  encrypted when written" (cmd/write.go:50-51). Yet cmd/write.go:61 writes the
  editor's bytes as they are, without calling `EncryptJournal`.
- Outside the model: the editor's exit status is discarded. The check
  `if OpenEditor(...); err != nil` (cmd/write.go:167, cmd/editorservice.go:90)
  tests the `err` of the earlier `file.Close()`.
- The wait flag is chosen from the path `LookPath` returns, not from the
  editor name (cmd/editorservice.go:60-65). A `vim` installed under
  `/home/decoder/bin` therefore receives `--wait`
  (`EditorService.DirectoryDecidesWait`, `EditorService.PathDecidesWait`).
- Key derivation is deterministic by construction: `GenerateHash` is a
  function of the passphrase. Write and read therefore derive the same key
  from the same passphrase.

## Model

| member | source | states |
|---|---|---|
| `EncryptionService.GenerateHash` | cmd/encryptionservice.go:30-34 | the key is the passphrase's digest, 32 bytes long |
| `EncryptionService.GetGcm` | cmd/encryptionservice.go:13-27 | construction succeeds exactly when the digest is an AES key size, keyed with that digest, failing with a key-size error otherwise; with a sound suite it always succeeds |
| `EncryptionService.Seal` | cmd/encryptionservice.go:52 | output starts with `dst` and continues with the sealed text; length is `dst` plus plaintext plus one 16-byte tag |
| `EncryptionService.Open` | cmd/encryptionservice.go:72 | with a sound suite and an AES-256 key, opening the seal of `p` gives `p` and a nil error, and a ciphertext shorter than a tag gives empty bytes and the authentication error; in general, a nil error exactly when the cipher authenticates |
| `EncryptionService.SplitJournal` | cmd/encryptionservice.go:70-71 | the nonce part is 12 bytes and the two parts concatenate back to the input |
| `EncryptionService.ReadFull` | cmd/encryptionservice.go:46-49 | the nonce buffer is filled from the random source; a short source gives EOF (nothing read) or unexpected EOF (partial read) |
| `EncryptionService.DecryptJournal` | cmd/encryptionservice.go:59-73 | a failed cipher construction gives empty bytes and a nil error; an input shorter than a nonce gives the invalid-journal error |
| `EncryptionService.EncryptJournal` | cmd/encryptionservice.go:39-53 | output is the nonce it read followed by the sealed plaintext, 12 + plaintext + 16 bytes, and decrypts back to the plaintext; a cipher failure gives empty bytes and nil error; a short random read gives the read error |
| `EncryptionService.RoundTrip` | cmd/encryptionservice.go:39-72 | decrypting a nonce-prefixed sealed journal with the same passphrase returns the plaintext and no error, for any nonce |
| `EncryptionService.ShortInputRejected` | cmd/encryptionservice.go:65-68 | an input shorter than a nonce gets the invalid-journal error, and the answer does not depend on `Open` at all |
| `EncryptionService.DecryptSplitsAtNonce` | cmd/encryptionservice.go:70-72 | an input `nonce ++ text` is opened with exactly that nonce and that text |
| `EncryptionService.ExactNonceReachesOpen` | cmd/encryptionservice.go:65-72 | an input of exactly 12 bytes passes the length check and reaches `Open` with an empty ciphertext, which fails authentication |
| `EncryptionService.CipherFailureSwallowed` | cmd/encryptionservice.go:59-63 | when the digest is not an AES key size the suite is unsound and decryption answers empty bytes with a nil error (encryption: `EncryptJournal`'s first ensures) |
| `Strings.ContainsIffSubstring` | cmd/editorservice.go:49 | `strings.Contains` holds exactly when the pattern occurs at some index of the string |
| `Editor.Resolve` | cmd/editorservice.go:18-41 | the resolved editor is on the allow-list; a listed name is kept; an unlisted or empty name becomes `vim` |
| `Editor.ResolveIdempotent` | cmd/editorservice.go:20-40 | resolving a resolved editor returns it unchanged |
| `EditorService.GetPreferredEditor` | cmd/editorservice.go:18-41 | the allow-list scan returns the allow-list resolution; the result is listed and equals the request exactly when the request is listed |
| `EditorService.AppendEditorArgs` | cmd/editorservice.go:46-54 | one or two arguments, the last being the temp file; two exactly when the command contains `code` or `vsc`, the first then being `--wait` |
| `EditorService.EditorCommandLine` | cmd/editorservice.go:59-65 | a failed lookup gives no command; otherwise argv has 2 or 3 elements: the looked-up path, then `appendEditorArgs` of that path, so `--wait` exactly when the path contains `code` or `vsc`, and the temp file last |
| `EditorService.DirectoryDecidesWait` | cmd/editorservice.go:46-65 | any executable under a directory path containing `code` or `vsc` gets `--wait`, whatever the editor's name |
| `EditorService.PathDecidesWait` | cmd/editorservice.go:49-65 | `vim` resolves to itself and gets no flag, while a `vim` path under `/home/decoder` gets `--wait` |
| `Write.GetPreferredEditor` | cmd/write.go:95-118 | the write.go scan returns the allow-list resolution; the result is listed and equals the request exactly when the request is listed |
| `Write.PreferredEditorDraftsAgree` | cmd/write.go:95-118 | the write.go and editorservice.go selections return the same, listed editor for every request |
| `Write.ResolveEditorArgs` | cmd/write.go:123-131 | builds the same argument list as `appendEditorArgs` for every command and file name |
| `Write.OutputPath` | cmd/write.go:61 | the persisted path is the file-name flag followed by `.ck` |

## Left out

- The internals of SHA-256, AES and GCM. They are library calls, represented as the functions of a `Suite` constrained by `Sound`.
- `Primitives.Sound`: the tag length and the round trip are assumed for plaintexts of every length. Go's GCM panics in `Seal` above (2^32 - 2) * 16 bytes of plaintext, and `Open` rejects ciphertexts longer than that plus one tag. No journal comes near this limit.
- Nonce randomness and uniqueness. The random bytes are a parameter, so freshness cannot be stated.
- Rejection under a wrong passphrase and tamper detection. Both are probabilistic guarantees of GCM, not consequences of the framing.
- The streaming hash object (`h.Write`, `h.Sum`). It is collapsed into one application of `sha256` to the passphrase's bytes, which is what a single `Write` followed by `Sum(nil)` computes.
- `GetEditorInput`, `OpenEditor`/`openEditor` process spawning and `DisplayOutputInEditor`. These are temp-file creation and removal, `exec.Command` and `cmd.Run`, which are I/O. Only the argument vector `openEditor` builds is modelled, by `EditorService.EditorCommandLine`.
- `EditorService.EditorCommandLine`: the `EditorResolver` function value is replaced by the resolved editor name, and `log.Fatal` on a failed lookup by `None`.
- `cmd/read.go`. It is command glue: `os.ReadFile`, `DecryptJournal` and `log.Fatal`.
- Editor names, temp file names and `LookPath` paths: Go strings are bytes, but they are modelled as Dafny strings of characters. Equality and the ASCII searches for `code` and `vsc` give the same answers on valid UTF-8.
- Cobra flag registration, `log.Fatal` exits, and the `time.Now()`-based default file name.
- The write command's `os.WriteFile` call and its file mode. Only the path it writes to is modelled, by `Write.OutputPath`.
- The Go package as a whole. Its two files declare the same functions twice and would not compile together, so each draft is modelled in its own module.
