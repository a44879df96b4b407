/** PKCS#7 padding (section 6.3 of RFC 5652) with a 128-bit block, as used by
    `padding.PKCS7(128)` for the padder and the unpadder. */
module Pkcs7 {
  import opened Outcomes

  /** The AES block size in bytes (128 bits). */
  const BlockSize: nat := 16

  /** Number of padding bytes appended to `n` bytes of data: always 1..16. */
  function PadLength(n: nat): (k: nat)
    ensures 1 <= k <= BlockSize
    ensures (n + k) % BlockSize == 0
  {
    BlockSize - n % BlockSize
  }

  /** Appends k bytes of value k, so that the result is block aligned. */
  function Pad(data: seq<bv8>): (padded: seq<bv8>)
    ensures |padded| % BlockSize == 0
    ensures |data| < |padded| <= |data| + BlockSize
    ensures padded[..|data|] == data
    ensures forall i :: |data| <= i < |padded| ==> padded[i] == (|padded| - |data|) as bv8
  {
    var k := PadLength(|data|);
    data + seq(k, _ => k as bv8)
  }

  /** The library's unpadder: it buffers all but the last block, so its
      finalize step fails unless the input is a positive whole number of
      blocks; then the last byte k must lie in 1..16 and the last k bytes
      must all equal k, and those k bytes are removed. */
  function Unpad(padded: seq<bv8>): (r: Result<seq<bv8>>)
    ensures r.Success? ==> Pad(r.value) == padded
    ensures r.Failure? ==> r.error == InvalidPadding
  {
    if |padded| == 0 || |padded| % BlockSize != 0 then
      Failure(InvalidPadding)
    else
      var k := padded[|padded| - 1] as int;
      if k == 0 || k > BlockSize then
        Failure(InvalidPadding)
      else if exists i :: |padded| - k <= i < |padded| && padded[i] != k as bv8 then
        Failure(InvalidPadding)
      else
        UnpadIsPadInverse(padded, k);
        Success(padded[..|padded| - k])
  }

  /** If the last k bytes of an aligned input all hold k, then padding what
      precedes them gives the input back. */
  lemma UnpadIsPadInverse(padded: seq<bv8>, k: int)
    requires |padded| > 0 && |padded| % BlockSize == 0
    requires 1 <= k <= BlockSize
    requires forall i :: |padded| - k <= i < |padded| ==> padded[i] == k as bv8
    ensures Pad(padded[..|padded| - k]) == padded
  {
  }

  /** Unpadding undoes padding: the round trip of encrypt_file's padder and
      decrypt_file's unpadder. */
  lemma UnpadPad(data: seq<bv8>)
    ensures Unpad(Pad(data)) == Success(data)
  {
    var padded := Pad(data);
    var k := |padded| - |data|;
    assert padded[|padded| - 1] as int == k;
    assert padded[..|padded| - k] == data;
  }

  /** Unpadding succeeds with d exactly when the input is the padding of d:
      padding is injective and Unpad accepts nothing else. */
  lemma UnpadSucceedsIff(padded: seq<bv8>, data: seq<bv8>)
    ensures Unpad(padded) == Success(data) <==> Pad(data) == padded
  {
    if Pad(data) == padded {
      UnpadPad(data);
    }
  }
}
