/** Byte-level helpers shared by the encoder, the decoder and the port framing:
    fixed-width big-endian fields (Ruby's pack/unpack "C", "S>", "L>", "l>")
    and the least-significant-first magnitude of the big-integer terms. */
module Bytes {

  type byte = x: int | 0 <= x < 256
  type bytes = seq<byte>

  const TWO16: int := 0x1_0000
  const TWO31: int := 0x8000_0000
  const TWO32: int := 0x1_0000_0000

  /** 256 to the power n. */
  function Pow256(n: nat): (r: nat)
    ensures r >= 1
  {
    if n == 0 then 1 else 256 * Pow256(n - 1)
  }

  lemma Pow256Facts()
    ensures Pow256(1) == 256 && Pow256(2) == TWO16 && Pow256(4) == TWO32
  {
  }

  /** Unsigned big-endian value of a byte string. */
  function BE(bs: bytes): (r: nat)
    ensures r < Pow256(|bs|)
  {
    if bs == [] then 0 else BE(bs[..|bs| - 1]) * 256 + bs[|bs| - 1]
  }

  /** The `width` low-order bytes of n, most significant first. */
  function BEBytes(n: nat, width: nat): (r: bytes)
    ensures |r| == width
  {
    if width == 0 then [] else BEBytes(n / 256, width - 1) + [n % 256]
  }

  lemma {:induction false} BEBytesInverse(n: nat, width: nat)
    requires n < Pow256(width)
    ensures BE(BEBytes(n, width)) == n
  {
    if width > 0 {
      var hi := BEBytes(n / 256, width - 1);
      assert BEBytes(n, width)[..width - 1] == hi;
      BEBytesInverse(n / 256, width - 1);
    }
  }

  /** pack("S>"): a 2-byte big-endian field; the value is truncated to 16 bits. */
  function U16(n: int): (r: bytes)
    ensures |r| == 2 && BE(r) == n % TWO16
  {
    Pow256Facts();
    BEBytesInverse(n % TWO16, 2);
    BEBytes(n % TWO16, 2)
  }

  /** pack("L>") and pack("l>"): a 4-byte big-endian two's-complement field;
      the value is truncated to 32 bits. */
  function U32(n: int): (r: bytes)
    ensures |r| == 4 && BE(r) == n % TWO32
  {
    Pow256Facts();
    BEBytesInverse(n % TWO32, 4);
    BEBytes(n % TWO32, 4)
  }

  /** unpack("l>"): a 4-byte big-endian two's-complement signed value. */
  function Signed32(bs: bytes): (r: int)
    requires |bs| == 4
    ensures -TWO31 <= r < TWO31
    ensures r % TWO32 == BE(bs)
  {
    Pow256Facts();
    var u := BE(bs);
    if u >= TWO31 then u - TWO32 else u
  }

  predicate IsInt32(i: int) {
    -TWO31 <= i < TWO31
  }

  lemma Signed32OfU32(i: int)
    requires IsInt32(i)
    ensures Signed32(U32(i)) == i
  {
  }

  /** Value of a magnitude stored least-significant byte first: the sum of bs[i] * 256^i. */
  function LE(bs: bytes): (r: nat)
    ensures r < Pow256(|bs|)
  {
    if bs == [] then 0 else bs[0] + 256 * LE(bs[1..])
  }

  /** The `len` low-order bytes of m, least significant first. */
  function LEBytes(m: nat, len: nat): (r: bytes)
    ensures |r| == len
  {
    if len == 0 then [] else [m % 256] + LEBytes(m / 256, len - 1)
  }

  lemma {:induction false} LEBytesInverse(m: nat, len: nat)
    requires m < Pow256(len)
    ensures LE(LEBytes(m, len)) == m
  {
    if len > 0 {
      LEBytesInverse(m / 256, len - 1);
    }
  }

  /** The number of bytes the magnitude m needs: ceil(bit_length(m) / 8). */
  function ByteLen(m: nat): (n: nat)
    ensures m < Pow256(n)
    ensures m > 0 ==> n >= 1 && Pow256(n - 1) <= m
    ensures m == 0 ==> n == 0
  {
    if m == 0 then 0 else 1 + ByteLen(m / 256)
  }

  lemma {:induction false} ByteLenAtMost(m: nat, k: nat)
    requires m < Pow256(k)
    ensures ByteLen(m) <= k
  {
    if m > 0 {
      assert k >= 1;
      ByteLenAtMost(m / 256, k - 1);
    }
  }

  /** The `len` low-order bytes of x in two's complement, least significant
      first: Ruby's `x & 255` followed by `x >>= 8`, repeated. */
  function LowBytes(x: int, len: nat): (r: bytes)
    decreases len
    ensures |r| == len
    ensures x >= 0 ==> r == LEBytes(x, len)
  {
    if len == 0 then [] else [x % 256] + LowBytes(x / 256, len - 1)
  }

  function Abs(i: int): nat {
    if i < 0 then -i else i
  }

  /** A one-byte big-endian field is the byte itself. */
  lemma BEOne(b: byte)
    ensures BE([b]) == b as nat
  {
    assert [b][..0] == [];
  }

  /** Slicing a suffix is slicing the whole. */
  lemma SuffixSlice<T>(s: seq<T>, i: nat, n: nat)
    requires i <= |s|
    ensures i + n <= |s| ==> s[i..][..n] == s[i..i + n] && s[i..][n..] == s[i + n..]
  {
  }

  /** Concatenation regrouped; stated once so that proofs in large contexts
      need not rediscover it. */
  lemma {:induction false} Assoc3<T>(a: seq<T>, b: seq<T>, c: seq<T>)
    ensures (a + b) + c == a + (b + c)
  {
  }
}
