/** Bytes and the little-endian encoding of unsigned integers. */
module Bytes {

  /** One element of a `Uint8Array`. */
  type byte = x: int | 0 <= x < 256

  /** 256 to the power `k`: the number of values that fit in `k` bytes. */
  function Pow256(k: nat): (p: nat)
    ensures p >= 1
  {
    if k == 0 then 1 else 256 * Pow256(k - 1)
  }

  /** The bound of an SSZ `uint64`. */
  const Uint64Bound: nat := 0x1_0000_0000_0000_0000

  lemma Pow256Eight()
    ensures Pow256(8) == Uint64Bound
  {
  }

  /** `n` written as `width` bytes, least significant byte first
      (bits above `width` bytes are dropped). */
  function LittleEndian(n: nat, width: nat): (r: seq<byte>)
    ensures |r| == width
    ensures width > 0 ==> r[0] == n % 256
  {
    if width == 0 then [] else [n % 256] + LittleEndian(n / 256, width - 1)
  }

  /** The unsigned integer that a little-endian byte string denotes. */
  function FromLittleEndian(bs: seq<byte>): (n: nat)
    ensures n < Pow256(|bs|)
  {
    if bs == [] then 0 else bs[0] + 256 * FromLittleEndian(bs[1..])
  }

  /** Decoding the little-endian bytes of a value that fits gives it back. */
  lemma {:induction false} FromLittleEndianOfLittleEndian(n: nat, width: nat)
    requires n < Pow256(width)
    ensures FromLittleEndian(LittleEndian(n, width)) == n
  {
    if width > 0 {
      FromLittleEndianOfLittleEndian(n / 256, width - 1);
      assert LittleEndian(n, width)[1..] == LittleEndian(n / 256, width - 1);
    }
  }

  /** Encoding the value of a byte string at its own width gives it back. */
  lemma {:induction false} LittleEndianOfFromLittleEndian(bs: seq<byte>)
    ensures LittleEndian(FromLittleEndian(bs), |bs|) == bs
  {
    if bs != [] {
      LittleEndianOfFromLittleEndian(bs[1..]);
      var n := FromLittleEndian(bs);
      assert n % 256 == bs[0];
      assert n / 256 == FromLittleEndian(bs[1..]);
      assert bs == [bs[0]] + bs[1..];
    }
  }

  /** Two values below the bound have the same encoding only if they are equal. */
  lemma LittleEndianInjective(m: nat, n: nat, width: nat)
    requires m < Pow256(width) && n < Pow256(width)
    requires LittleEndian(m, width) == LittleEndian(n, width)
    ensures m == n
  {
    FromLittleEndianOfLittleEndian(m, width);
    FromLittleEndianOfLittleEndian(n, width);
  }
}
