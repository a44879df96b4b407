/** The encrypt/decrypt data path of `encrypt_file` and `decrypt_file`: the
    container `salt || iv || ciphertext`, key derivation, PKCS#7 padding,
    AES-256-CBC and the output name. Salt and IV, drawn from `os.urandom` in
    the code, are parameters here; reading and writing files is left out, so
    each operation returns the name and the bytes it would write. */
module ImageCrypto {
  import opened Outcomes
  import Pkcs7
  import KeyDerivation
  import Cbc
  import PathNames

  const SaltSize: nat := 16
  const IvSize: nat := 16
  /** Bytes before the ciphertext: salt, then IV. */
  const HeaderSize: nat := SaltSize + IvSize

  /** The primitives `default_backend()` supplies. */
  datatype Backend = Backend(kdf: KeyDerivation.Pbkdf2, aes: Cbc.Aes)

  ghost predicate IsSound(b: Backend) {
    KeyDerivation.IsPbkdf2(b.kdf) && Cbc.IsAes256(b.aes)
  }

  /** The output file: its name and the bytes written to it. */
  datatype OutputFile = OutputFile(name: string, contents: seq<bv8>)

  /** Python's `s[lo:hi]` for 0 <= lo <= hi: bounds past the end are clamped. */
  function Slice(s: seq<bv8>, lo: nat, hi: nat): (r: seq<bv8>)
    requires lo <= hi
    ensures |r| <= hi - lo
    ensures hi <= |s| ==> r == s[lo..hi]
  {
    if |s| <= lo then [] else if |s| <= hi then s[lo..] else s[lo..hi]
  }

  /** Python's `s[lo:]`: empty when `lo` is past the end. */
  function Suffix(s: seq<bv8>, lo: nat): (r: seq<bv8>)
    ensures lo <= |s| ==> r == s[lo..]
    ensures |s| <= lo ==> r == []
  {
    if |s| <= lo then [] else s[lo..]
  }

  /** `salt + iv + encrypted`, the bytes `encrypt_file` writes. */
  function Frame(salt: seq<bv8>, iv: seq<bv8>, encrypted: seq<bv8>): seq<bv8> {
    salt + iv + encrypted
  }

  /** The slices `decrypt_file` takes recover exactly the three parts
      `encrypt_file` framed, and the container is 32 bytes longer than the
      ciphertext. */
  lemma FrameSplit(salt: seq<bv8>, iv: seq<bv8>, encrypted: seq<bv8>)
    requires |salt| == SaltSize && |iv| == IvSize
    ensures |Frame(salt, iv, encrypted)| == HeaderSize + |encrypted|
    ensures Slice(Frame(salt, iv, encrypted), 0, SaltSize) == salt
    ensures Slice(Frame(salt, iv, encrypted), SaltSize, HeaderSize) == iv
    ensures Suffix(Frame(salt, iv, encrypted), HeaderSize) == encrypted
  {
  }

  /** `encrypt_file`: derive the key from the password and salt, pad, encrypt
      with AES-256-CBC under the IV, and write `salt || iv || ciphertext` to
      `<base>_encryption<ext>`. */
  function EncryptFile(b: Backend, data: seq<bv8>, password: string, name: string,
                       salt: seq<bv8>, iv: seq<bv8>): (out: OutputFile)
    requires IsSound(b)
    requires |salt| == SaltSize && |iv| == IvSize
    ensures |out.contents| == HeaderSize + (|data| / Pkcs7.BlockSize + 1) * Pkcs7.BlockSize
    ensures out.contents[..HeaderSize] == salt + iv
    ensures out.name == PathNames.EncryptedName(name)
  {
    var key := KeyDerivation.DeriveKey(b.kdf, password, salt);
    var padded := Pkcs7.Pad(data);
    var encrypted := Cbc.EncryptBlocks(b.aes, key, iv, padded);
    assert |padded| == (|data| / Pkcs7.BlockSize + 1) * Pkcs7.BlockSize;
    OutputFile(PathNames.EncryptedName(name), Frame(salt, iv, encrypted))
  }

  /** `decrypt_file`: slice the container at 16 and 32, derive the key from
      the password and the stored salt, decrypt with AES-256-CBC under the
      stored IV, unpad, and write the plaintext to `<base>_decryption<ext>`.
      The code checks no length itself: a short container fails when the IV
      is checked, an unaligned one at the decryptor's finalize, bad padding
      (including an empty ciphertext) at the unpadder's finalize. */
  function DecryptFile(b: Backend, data: seq<bv8>, password: string, name: string): (r: Result<OutputFile>)
    requires IsSound(b)
    ensures |data| < HeaderSize ==> r == Failure(InvalidIvSize)
    ensures |data| >= HeaderSize && (|data| - HeaderSize) % Cbc.BlockSize != 0 ==> r == Failure(NotBlockAligned)
    ensures |data| == HeaderSize ==> r == Failure(InvalidPadding)
    ensures r.Success? ==>
              && (|data| - HeaderSize) % Cbc.BlockSize == 0
              && |data| - HeaderSize - Cbc.BlockSize <= |r.value.contents| < |data| - HeaderSize
              && r.value.name == PathNames.DecryptedName(name)
  {
    var salt := Slice(data, 0, SaltSize);
    var iv := Slice(data, SaltSize, HeaderSize);
    var encrypted := Suffix(data, HeaderSize);
    var key := KeyDerivation.DeriveKey(b.kdf, password, salt);
    var padded :- Cbc.Decrypt(b.aes, key, iv, encrypted);
    var plain :- Pkcs7.Unpad(padded);
    Success(OutputFile(PathNames.DecryptedName(name), plain))
  }

  /** Decrypting what `encrypt_file` wrote, with the same password, gives back
      the original bytes, whatever salt and IV were drawn. */
  lemma RoundTrip(b: Backend, data: seq<bv8>, password: string, name: string,
                  salt: seq<bv8>, iv: seq<bv8>, uploadName: string)
    requires IsSound(b)
    requires |salt| == SaltSize && |iv| == IvSize
    ensures DecryptFile(b, EncryptFile(b, data, password, name, salt, iv).contents, password, uploadName)
            == Success(OutputFile(PathNames.DecryptedName(uploadName), data))
  {
    var key := KeyDerivation.DeriveKey(b.kdf, password, salt);
    var padded := Pkcs7.Pad(data);
    var encrypted := Cbc.EncryptBlocks(b.aes, key, iv, padded);
    FrameSplit(salt, iv, encrypted);
    Cbc.DecryptEncrypt(b.aes, key, iv, padded);
    Pkcs7.UnpadPad(data);
  }

  /** Conversely, with AES a permutation of blocks, a container that decrypts
      at all is exactly what `encrypt_file` writes for the recovered plaintext
      under the container's own salt and IV: decryption accepts nothing else. */
  lemma DecryptSucceedsOnlyOnEncryptions(b: Backend, data: seq<bv8>, password: string, name: string)
    requires IsSound(b) && Cbc.IsPermutation(b.aes)
    requires DecryptFile(b, data, password, name).Success?
    ensures |data| >= HeaderSize
    ensures EncryptFile(b, DecryptFile(b, data, password, name).value.contents, password, name,
                        data[..SaltSize], data[SaltSize..HeaderSize]).contents == data
  {
    var salt, iv, encrypted := data[..SaltSize], data[SaltSize..HeaderSize], data[HeaderSize..];
    var key := KeyDerivation.DeriveKey(b.kdf, password, salt);
    assert Slice(data, 0, SaltSize) == salt && Slice(data, SaltSize, HeaderSize) == iv;
    assert Suffix(data, HeaderSize) == encrypted;
    var padded := Cbc.DecryptBlocks(b.aes, key, iv, encrypted);
    assert Cbc.Decrypt(b.aes, key, iv, encrypted) == Success(padded);
    var plain := DecryptFile(b, data, password, name).value.contents;
    assert Pkcs7.Unpad(padded) == Success(plain);
    Cbc.EncryptDecrypt(b.aes, key, iv, encrypted);
    assert Frame(salt, iv, encrypted) == data;
  }

  /** Two encryptions that draw different salts or IVs write different
      containers, even for the same data and password. */
  lemma FreshRandomnessDistinctContainers(b: Backend, data: seq<bv8>, password: string, name: string,
                                          salt1: seq<bv8>, iv1: seq<bv8>, salt2: seq<bv8>, iv2: seq<bv8>)
    requires IsSound(b)
    requires |salt1| == SaltSize && |iv1| == IvSize && |salt2| == SaltSize && |iv2| == IvSize
    requires salt1 != salt2 || iv1 != iv2
    ensures EncryptFile(b, data, password, name, salt1, iv1).contents
            != EncryptFile(b, data, password, name, salt2, iv2).contents
  {
    assert (salt1 + iv1)[..SaltSize] == salt1 && (salt1 + iv1)[SaltSize..] == iv1;
    assert (salt2 + iv2)[..SaltSize] == salt2 && (salt2 + iv2)[SaltSize..] == iv2;
  }

  /** Container sizes at the padding boundaries: 0 and 11 bytes give one
      ciphertext block (48 bytes in all), 16 bytes give two (64). */
  lemma ContainerLengthBoundaries(b: Backend, data: seq<bv8>, password: string, name: string,
                                  salt: seq<bv8>, iv: seq<bv8>)
    requires IsSound(b)
    requires |salt| == SaltSize && |iv| == IvSize
    ensures |data| == 0 ==> |EncryptFile(b, data, password, name, salt, iv).contents| == 48
    ensures |data| == 11 ==> |EncryptFile(b, data, password, name, salt, iv).contents| == 48
    ensures |data| == 16 ==> |EncryptFile(b, data, password, name, salt, iv).contents| == 64
  {
  }

  /** "hello world" encrypted under "secret" makes a 48-byte container, which
      decrypts under "secret" to "hello world". */
  lemma HelloWorldScenario(b: Backend, salt: seq<bv8>, iv: seq<bv8>)
    requires IsSound(b)
    requires |salt| == SaltSize && |iv| == IvSize
    ensures var hello: seq<bv8> := [0x68, 0x65, 0x6c, 0x6c, 0x6f, 0x20, 0x77, 0x6f, 0x72, 0x6c, 0x64];
            var container := EncryptFile(b, hello, "secret", "hello.txt", salt, iv).contents;
            && |container| == 48
            && DecryptFile(b, container, "secret", "hello.txt").Success?
            && DecryptFile(b, container, "secret", "hello.txt").value.contents == hello
  {
    var hello: seq<bv8> := [0x68, 0x65, 0x6c, 0x6c, 0x6f, 0x20, 0x77, 0x6f, 0x72, 0x6c, 0x64];
    var container := EncryptFile(b, hello, "secret", "hello.txt", salt, iv).contents;
    assert |container| == HeaderSize + (11 / Pkcs7.BlockSize + 1) * Pkcs7.BlockSize;
    RoundTrip(b, hello, "secret", "hello.txt", salt, iv, "hello.txt");
    assert DecryptFile(b, container, "secret", "hello.txt")
           == Success(OutputFile(PathNames.DecryptedName("hello.txt"), hello));
  }
}
