/** Fixed-width big-endian unsigned integers, as written by
    binary.BigEndian.PutUint64 and read by binary.BigEndian.Uint64. */
module BigEndian {
  import opened Common

  function Pow256(n: nat): (p: nat)
    ensures p >= 1
  {
    if n == 0 then 1 else 256 * Pow256(n - 1)
  }

  /** 2^64: one more than the largest value eight bytes can hold. */
  const Uint64Limit: nat := 0x1_0000_0000_0000_0000

  lemma Pow256Eight()
    ensures Pow256(8) == Uint64Limit
  {
    assert Pow256(4) == 0x1_0000_0000;
  }

  /** The `n`-byte big-endian encoding of `x`, most significant byte first. */
  function EncodeBE(x: nat, n: nat): (s: Bytes)
    requires x < Pow256(n)
    ensures |s| == n
  {
    if n == 0 then []
    else EncodeBE(x / 256, n - 1) + [x % 256]
  }

  /** The unsigned value of a big-endian byte string. */
  function DecodeBE(s: Bytes): (x: nat)
    ensures x < Pow256(|s|)
  {
    if s == [] then 0
    else 256 * DecodeBE(s[..|s| - 1]) + s[|s| - 1]
  }

  /** Decoding an encoding gives back the number. */
  lemma {:induction false} DecodeEncodeBE(x: nat, n: nat)
    requires x < Pow256(n)
    ensures DecodeBE(EncodeBE(x, n)) == x
  {
    if n > 0 {
      var s := EncodeBE(x, n);
      assert s[..n - 1] == EncodeBE(x / 256, n - 1);
      DecodeEncodeBE(x / 256, n - 1);
    }
  }

  /** Encoding a decoded byte string gives back the bytes. */
  lemma {:induction false} EncodeDecodeBE(s: Bytes)
    ensures EncodeBE(DecodeBE(s), |s|) == s
  {
    if s != [] {
      var init, last := s[..|s| - 1], s[|s| - 1];
      var x := DecodeBE(s);
      assert x / 256 == DecodeBE(init) && x % 256 == last;
      EncodeDecodeBE(init);
      assert s == init + [last];
    }
  }

  /** binary.BigEndian.PutUint64 */
  function PutUint64(x: nat): (s: Bytes)
    requires x < Uint64Limit
    ensures |s| == 8
  {
    Pow256Eight();
    EncodeBE(x, 8)
  }

  /** binary.BigEndian.Uint64 on an 8-byte slice */
  function Uint64(s: Bytes): (x: nat)
    requires |s| == 8
    ensures x < Uint64Limit
  {
    Pow256Eight();
    DecodeBE(s)
  }

  lemma Uint64RoundTrip(x: nat)
    requires x < Uint64Limit
    ensures Uint64(PutUint64(x)) == x
  {
    Pow256Eight();
    DecodeEncodeBE(x, 8);
  }

  lemma PutUint64RoundTrip(s: Bytes)
    requires |s| == 8
    ensures PutUint64(Uint64(s)) == s
  {
    Pow256Eight();
    EncodeDecodeBE(s);
  }
}
