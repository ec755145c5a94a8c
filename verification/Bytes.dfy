/** Bytes, words and their big-endian reading, shared by the frame and download formats. */
module Bytes {

  datatype Option<T> = None | Some(value: T)

  type byte = x: nat | x < 256

  const U32: nat := 0x1_0000_0000

  ghost function BigEndian(bs: seq<byte>): nat {
    if bs == [] then 0 else BigEndian(bs[..|bs| - 1]) * 256 + bs[|bs| - 1]
  }

  /** The `len` low bytes of n, most significant first. */
  ghost function Encode(n: nat, len: nat): (bs: seq<byte>)
    ensures |bs| == len
  {
    if len == 0 then [] else Encode(n / 256, len - 1) + [n % 256]
  }

  ghost function Pow256(len: nat): nat {
    if len == 0 then 1 else 256 * Pow256(len - 1)
  }

  lemma {:induction false} DecodeEncode(n: nat, len: nat)
    requires n < Pow256(len)
    ensures BigEndian(Encode(n, len)) == n
  {
    if len > 0 {
      DecodeEncode(n / 256, len - 1);
      assert Encode(n, len)[..len - 1] == Encode(n / 256, len - 1);
    }
  }

  lemma {:induction false} EncodeDecode(bs: seq<byte>)
    ensures BigEndian(bs) < Pow256(|bs|)
    ensures Encode(BigEndian(bs), |bs|) == bs
  {
    if bs != [] {
      EncodeDecode(bs[..|bs| - 1]);
    }
  }
}
