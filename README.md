# Image--Crypto: the password-based file encryption pipeline in Dafny

This project models the data path of `encrypt_file` and `decrypt_file` in
`image_crypto/image_crypto.py`. Encryption derives a 32-byte key from the
password and a fresh 16-byte salt with PBKDF2-HMAC-SHA256 (100000
iterations). It pads the file with PKCS#7 to whole 16-byte blocks and
encrypts it with AES-256 in CBC mode under a fresh 16-byte IV. It writes the
container `salt || iv || ciphertext` to `<base>_encryption<ext>`. Decryption
slices the container at offsets 16 and 32, derives the key again, decrypts,
unpads, and writes `<base>_decryption<ext>`.

Modules, one per component:

- `Outcomes` (outcomes.dfy): the `Result` type. The code itself catches
  nothing, so every failure is a `ValueError` from the cryptography library.
  There are three variants, one for each place the library raises on this
  path: `InvalidIvSize`, `NotBlockAligned` and `InvalidPadding`.
- `Pkcs7` (pkcs7.dfy): padding and unpadding as defined in section 6.3 of
  RFC 5652, with a 16-byte block.
- `KeyDerivation` (key_derivation.dfy): `derive_key`. PBKDF2 (section 5.2 of
  RFC 8018) is a function-valued parameter. The only assumption about it is
  that it returns as many bytes as asked for. Being a function, it is
  deterministic.
- `Cbc` (cbc.dfy): the CBC chaining of section 6.2 of NIST SP 800-38A, defined
  over an AES-256 block cipher (FIPS 197) passed as a pair of functions. The
  assumptions about AES are: under a 32-byte key, each direction maps a
  16-byte block to a 16-byte block, and the inverse cipher undoes the
  cipher. The CBC-level facts (length preserved, decryption inverts
  encryption) are proved from these, not assumed.
- `PathNames` (path_names.dfy): POSIX `os.path.splitext` and the suffix
  insertion that builds the output name.
- `ImageCrypto` (image_crypto.dfy): the container framing, `EncryptFile`,
  `DecryptFile`, and the end-to-end round trip. Salt and IV are parameters
  instead of `os.urandom` output. The file bytes are parameters and results
  instead of file reads and writes.

How the code fails, and what the sizes come to:

- The code checks no lengths itself. Every failure is a `ValueError` raised
  by the cryptography library, at one of three places. Constructing
  `modes.CBC(iv)` (line 67) rejects an IV that is not 16 bytes, which
  happens for a container shorter than 32 bytes. The decryptor's `finalize`
  (line 69) rejects a ciphertext that is not a whole number of blocks. The
  unpadder's `finalize` (line 72) rejects bad padding.
- The library's unpadder keeps its last block buffered, so its `finalize`
  also fails unless its input is a positive multiple of 16 bytes. A
  container of exactly 32 bytes has an empty ciphertext and fails at the
  unpadder, with `InvalidPadding`.
- Padding always adds 1 to 16 bytes. An empty file and an 11-byte file each
  give one ciphertext block, a 48-byte container. A 16-byte file gives two
  blocks, a 64-byte container.

## Model

| member | source | states |
|---|---|---|
| `Pkcs7.PadLength` | image_crypto/image_crypto.py:39-40 | the padding length k is in 1..16, and n + k is a multiple of 16 |
| `Pkcs7.Pad` | image_crypto/image_crypto.py:39-40 | the padded length is a multiple of 16, greater than the input length and at most 16 more; the input is a prefix; each of the k appended bytes has value k |
| `Pkcs7.Unpad` | image_crypto/image_crypto.py:71-72 | on success, padding the result gives back exactly the input; every failure is `InvalidPadding` |
| `Pkcs7.UnpadPad` | image_crypto/image_crypto.py:71-72 | unpadding a padded input returns the original data |
| `Pkcs7.UnpadSucceedsIff` | image_crypto/image_crypto.py:71-72 | unpadding yields d exactly when the input equals Pad(d): padding is injective and the unpadder accepts nothing else |
| `KeyDerivation.DeriveKey` | image_crypto/image_crypto.py:19-27 | PBKDF2 with SHA-256, 100000 iterations and a 32-byte output: the key is 32 bytes for any password and any salt length |
| `Cbc.EncryptBlocks` | image_crypto/image_crypto.py:42-44 | CBC encryption of block-aligned data preserves its length |
| `Cbc.DecryptBlocks` | image_crypto/image_crypto.py:67-69 | CBC decryption of block-aligned data preserves its length |
| `Cbc.Decrypt` | image_crypto/image_crypto.py:67-69 | an IV that is not 16 bytes fails with `InvalidIvSize`; otherwise unaligned data fails with `NotBlockAligned`; otherwise the result is the CBC decryption `DecryptBlocks` of the data, which has the ciphertext's length |
| `Cbc.DecryptEncrypt` | image_crypto/image_crypto.py:67-69 | CBC decryption under the same key and IV inverts CBC encryption |
| `Cbc.EncryptDecrypt` | image_crypto/image_crypto.py:42-44 | if AES is a permutation, CBC encryption also inverts CBC decryption on aligned data |
| `PathNames.SplitExt` | image_crypto/image_crypto.py:46 | root + ext is the name; ext is non-empty exactly when the final component has a '.' after a non-dot character; a non-empty ext is a '.' followed by no '.' or '/' |
| `PathNames.InsertSuffixKeepsExtension` | image_crypto/image_crypto.py:46-47 | inserting a suffix without '.' or '/' between root and ext gives a name whose split is (root + suffix, ext) |
| `PathNames.EncryptedName` | image_crypto/image_crypto.py:46-47 | the encrypt output name splits into base + "_encryption" and the input's own extension |
| `PathNames.DecryptedName` | image_crypto/image_crypto.py:74-75 | the decrypt output name splits into base + "_decryption" and the input's own extension |
| `ImageCrypto.FrameSplit` | image_crypto/image_crypto.py:61-63 | slicing `salt + iv + ciphertext` at [:16], [16:32] and [32:] recovers the salt, IV and ciphertext; the container is 32 bytes longer than the ciphertext |
| `ImageCrypto.EncryptFile` | image_crypto/image_crypto.py:31-53 | the container starts with salt then IV and is 32 + 16 * (n / 16 + 1) bytes long for n bytes of data; the name is the encrypt name |
| `ImageCrypto.DecryptFile` | image_crypto/image_crypto.py:57-81 | fewer than 32 bytes fail with `InvalidIvSize`; an unaligned ciphertext fails with `NotBlockAligned`; exactly 32 bytes fail with `InvalidPadding`; a success is 1 to 16 bytes shorter than the ciphertext and carries the decrypt name |
| `ImageCrypto.RoundTrip` | image_crypto/image_crypto.py:31-81 | decrypting what encrypt wrote, with the same password, returns the original data, for every salt and IV |
| `ImageCrypto.DecryptSucceedsOnlyOnEncryptions` | image_crypto/image_crypto.py:57-72 | if AES is a permutation, any container that decrypts is exactly the encryption of its plaintext under its own salt and IV |
| `ImageCrypto.FreshRandomnessDistinctContainers` | image_crypto/image_crypto.py:35-51 | different salts or IVs give different containers for the same data and password |
| `ImageCrypto.ContainerLengthBoundaries` | image_crypto/image_crypto.py:39-51 | 0 bytes and 11 bytes of data give a 48-byte container; 16 bytes give 64 |
| `ImageCrypto.HelloWorldScenario` | image_crypto/image_crypto.py:31-72 | "hello world" under "secret" gives a 48-byte container that decrypts back to "hello world" |

## Left out

- The Flask app, the `index`, `process` and `download` routes, form and upload handling, `send_file`, the base64 preview, the HTML page and `app.run`: HTTP and UI plumbing.
- File-system work: creating the upload and output folders, reading the input file, writing the output file, and joining paths with `OUTPUT_FOLDER`. `DecryptFile` returns the output name and contents, not `output_path`.
- `os.urandom`: salt and IV are parameters. So the model cannot say that they are fresh. `FreshRandomnessDistinctContainers` only says that fresh values would give distinct containers.
- The internals of AES, SHA-256, HMAC and PBKDF2: foreign library code. They are function-valued parameters constrained by `KeyDerivation.IsPbkdf2` and `Cbc.IsAes256`. `Cbc.IsPermutation` is an extra assumption that AES satisfies, and only the converse lemmas use it.
- `password.encode()`: the UTF-8 encoding of the password is not modelled. The PBKDF2 parameter takes the password string.
- The `algorithms.AES(key)` key-size check: the key always comes from `DeriveKey` and is always 32 bytes, so `Cbc.Decrypt` requires that.
- The library's IV-size and alignment checks on the encrypt side: they cannot fail, because the IV is 16 bytes and padded data is aligned. So `EncryptFile` uses `Cbc.EncryptBlocks` directly.
- The `update()`/`finalize()` split of the padder, unpadder and cipher contexts: each is used one-shot, so each pair is a single function.
- Wrong-password detection and distinct keys for distinct salts: these hold only with high probability, which the model cannot express.
- Windows path rules (`ntpath.splitext`, with `\` as a separator): `PathNames.SplitExt` follows the POSIX `posixpath` rules.
- `KeyDerivation.DeriveKey`: the contract gives only the key length. The PBKDF2 parameters (SHA-256, 100000 iterations, 32 bytes) appear in its body, not in a contract.
