/** AES-256 (FIPS 197) in CBC mode (section 6.2 of NIST SP 800-38A).

    The block cipher itself is a parameter: a pair of functions on 16-byte
    blocks under a 32-byte key. Only the chaining of CBC is defined here. */
module Cbc {
  import opened Outcomes

  const BlockSize: nat := 16
  const KeySize: nat := 32

  /** Forward and inverse cipher, each (key, block) -> block. */
  datatype Aes = Aes(encrypt: (seq<bv8>, seq<bv8>) -> seq<bv8>, decrypt: (seq<bv8>, seq<bv8>) -> seq<bv8>)

  /** What the model assumes of AES-256: under a 32-byte key both directions
      map a block to a block, and the inverse cipher undoes the cipher. */
  ghost predicate IsAes256(aes: Aes) {
    && (forall key, block | |key| == KeySize && |block| == BlockSize :: |aes.encrypt(key, block)| == BlockSize)
    && (forall key, block | |key| == KeySize && |block| == BlockSize :: |aes.decrypt(key, block)| == BlockSize)
    && (forall key, block | |key| == KeySize && |block| == BlockSize :: aes.decrypt(key, aes.encrypt(key, block)) == block)
  }

  /** AES is a permutation of blocks: the cipher also undoes the inverse
      cipher. Only the converse of the round trip needs this. */
  ghost predicate IsPermutation(aes: Aes) {
    forall key, block | |key| == KeySize && |block| == BlockSize :: aes.encrypt(key, aes.decrypt(key, block)) == block
  }

  function Xor(a: seq<bv8>, b: seq<bv8>): (r: seq<bv8>)
    requires |a| == |b|
    ensures |r| == |a|
    ensures forall i :: 0 <= i < |r| ==> r[i] == a[i] ^ b[i]
  {
    seq(|a|, i requires 0 <= i < |a| => a[i] ^ b[i])
  }

  lemma XorTwice(a: seq<bv8>, b: seq<bv8>)
    requires |a| == |b|
    ensures Xor(Xor(a, b), b) == a
  {
  }

  /** CBC encryption of whole blocks: C_j = E(K, P_j xor C_(j-1)), C_0 = IV. */
  function EncryptBlocks(aes: Aes, key: seq<bv8>, iv: seq<bv8>, plain: seq<bv8>): (cipher: seq<bv8>)
    requires IsAes256(aes) && |key| == KeySize && |iv| == BlockSize
    requires |plain| % BlockSize == 0
    ensures |cipher| == |plain|
    decreases |plain|
  {
    if |plain| == 0 then []
    else
      var block := aes.encrypt(key, Xor(plain[..BlockSize], iv));
      block + EncryptBlocks(aes, key, block, plain[BlockSize..])
  }

  /** CBC decryption of whole blocks: P_j = D(K, C_j) xor C_(j-1), C_0 = IV. */
  function DecryptBlocks(aes: Aes, key: seq<bv8>, iv: seq<bv8>, cipher: seq<bv8>): (plain: seq<bv8>)
    requires IsAes256(aes) && |key| == KeySize && |iv| == BlockSize
    requires |cipher| % BlockSize == 0
    ensures |plain| == |cipher|
    decreases |cipher|
  {
    if |cipher| == 0 then []
    else
      Xor(aes.decrypt(key, cipher[..BlockSize]), iv) + DecryptBlocks(aes, key, cipher[..BlockSize], cipher[BlockSize..])
  }

  /** The library's one-shot decryptor: constructing `modes.CBC(iv)` rejects an
      IV that is not one block, and `finalize` rejects data that is not a whole
      number of blocks. */
  function Decrypt(aes: Aes, key: seq<bv8>, iv: seq<bv8>, cipher: seq<bv8>): (r: Result<seq<bv8>>)
    requires IsAes256(aes) && |key| == KeySize
    ensures |iv| != BlockSize ==> r == Failure(InvalidIvSize)
    ensures |iv| == BlockSize && |cipher| % BlockSize != 0 ==> r == Failure(NotBlockAligned)
    ensures r.Success? ==> |r.value| == |cipher|
    ensures |iv| == BlockSize && |cipher| % BlockSize == 0 ==> r == Success(DecryptBlocks(aes, key, iv, cipher))
  {
    if |iv| != BlockSize then Failure(InvalidIvSize)
    else if |cipher| % BlockSize != 0 then Failure(NotBlockAligned)
    else Success(DecryptBlocks(aes, key, iv, cipher))
  }

  /** CBC decryption under the same key and IV inverts CBC encryption. */
  lemma {:induction false} DecryptEncrypt(aes: Aes, key: seq<bv8>, iv: seq<bv8>, plain: seq<bv8>)
    requires IsAes256(aes) && |key| == KeySize && |iv| == BlockSize
    requires |plain| % BlockSize == 0
    ensures DecryptBlocks(aes, key, iv, EncryptBlocks(aes, key, iv, plain)) == plain
    decreases |plain|
  {
    if |plain| != 0 {
      var x := Xor(plain[..BlockSize], iv);
      var block := aes.encrypt(key, x);
      var rest := EncryptBlocks(aes, key, block, plain[BlockSize..]);
      var cipher := block + rest;
      assert cipher[..BlockSize] == block && cipher[BlockSize..] == rest;
      XorTwice(plain[..BlockSize], iv);
      DecryptEncrypt(aes, key, block, plain[BlockSize..]);
      assert plain == plain[..BlockSize] + plain[BlockSize..];
    }
  }

  /** With AES a permutation, CBC encryption also inverts CBC decryption:
      every aligned ciphertext is the encryption of its decryption. */
  lemma {:induction false} EncryptDecrypt(aes: Aes, key: seq<bv8>, iv: seq<bv8>, cipher: seq<bv8>)
    requires IsAes256(aes) && IsPermutation(aes) && |key| == KeySize && |iv| == BlockSize
    requires |cipher| % BlockSize == 0
    ensures EncryptBlocks(aes, key, iv, DecryptBlocks(aes, key, iv, cipher)) == cipher
    decreases |cipher|
  {
    if |cipher| != 0 {
      var block := cipher[..BlockSize];
      var x := Xor(aes.decrypt(key, block), iv);
      var rest := DecryptBlocks(aes, key, block, cipher[BlockSize..]);
      var plain := x + rest;
      assert plain[..BlockSize] == x && plain[BlockSize..] == rest;
      XorTwice(aes.decrypt(key, block), iv);
      EncryptDecrypt(aes, key, block, cipher[BlockSize..]);
      assert cipher == block + cipher[BlockSize..];
    }
  }
}
