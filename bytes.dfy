// Bytes and byte-wise XOR, shared by every layer of the model.

module Bytes {
  /** A byte of the cipher state, a key or a message. */
  type Byte = bv8

  /** Byte-wise XOR of two equally long sequences. */
  function XorBytes(a: seq<Byte>, b: seq<Byte>): (r: seq<Byte>)
    requires |a| == |b|
    ensures |r| == |a|
    ensures forall i :: 0 <= i < |a| ==> r[i] == a[i] ^ b[i]
  {
    seq(|a|, i requires 0 <= i < |a| => a[i] ^ b[i])
  }

  /** XOR with the same key twice gives back the input. */
  lemma XorBytesTwice(a: seq<Byte>, k: seq<Byte>)
    requires |a| == |k|
    ensures XorBytes(XorBytes(a, k), k) == a
  {
    var r := XorBytes(XorBytes(a, k), k);
    forall i | 0 <= i < |a| ensures r[i] == a[i] {
      assert r[i] == (a[i] ^ k[i]) ^ k[i];
    }
  }
}
