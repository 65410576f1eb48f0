/** `hex_checksum` (src/payload.rs): the Intel HEX record checksum, the
    two's complement of the byte sum truncated to eight bits. */
module Checksum {
  import opened Bytes

  /** The unbounded sum of the bytes, as a reference for the truncated fold. */
  function Sum(bs: seq<byte>): nat
  {
    if bs == [] then 0 else Sum(bs[..|bs| - 1]) + bs[|bs| - 1]
  }

  /** `bs.iter().fold(0u8, |acc, &x| acc.wrapping_add(x))`. */
  function WrappingSum(bs: seq<byte>): (s: byte)
    ensures s == Sum(bs) % 256
  {
    if bs == [] then 0
    else
      var acc := WrappingSum(bs[..|bs| - 1]);
      ModAddLeft(Sum(bs[..|bs| - 1]), bs[|bs| - 1], 256);
      (acc + bs[|bs| - 1]) % 256
  }

  /** `x ^ 0xff` on a `u8`. */
  function Complement(x: byte): (r: byte)
    ensures r == 255 - x
  {
    Pow2Values();
    BitXorAllOnes(x, 8);
    BitXor(x, 0xFF)
  }

  /** `(sum ^ 0xff).wrapping_add(1)`: adding it to the byte sum gives zero
      modulo 256, and it is the unique byte that does. */
  function HexChecksum(bs: seq<byte>): (c: byte)
    ensures (Sum(bs) + c) % 256 == 0
    ensures c == (256 - Sum(bs) % 256) % 256
  {
    ComplementUnique(Sum(bs), (256 - Sum(bs) % 256) % 256);
    (Complement(WrappingSum(bs)) + 1) % 256
  }

  lemma SumAppend(a: seq<byte>, b: seq<byte>)
    ensures Sum(a + b) == Sum(a) + Sum(b)
    decreases |b|
  {
    if b == [] {
      assert a + b == a;
    } else {
      assert (a + b)[..|a + b| - 1] == a + b[..|b| - 1];
      SumAppend(a, b[..|b| - 1]);
    }
  }

  /** A record whose last byte is the checksum of the bytes before it sums to
      zero modulo 256, and conversely. */
  lemma ChecksumValid(bs: seq<byte>)
    requires |bs| >= 1
    ensures bs[|bs| - 1] == HexChecksum(bs[..|bs| - 1]) <==> Sum(bs) % 256 == 0
  {
    var p, x := Sum(bs[..|bs| - 1]), bs[|bs| - 1];
    assert Sum(bs) == p + x;
    ComplementUnique(p, x);
  }

  /** The checksum byte is the only byte that brings the sum to a multiple
      of 256. */
  lemma ComplementUnique(p: nat, x: byte)
    ensures x == (256 - p % 256) % 256 <==> (p + x) % 256 == 0
  {
    var m := p % 256;
    assert p == 256 * (p / 256) + m;
    assert (p + x) % 256 == (m + x) % 256;
    assert (m + x) % 256 == 0 <==> m + x == 0 || m + x == 256;
  }

  lemma ChecksumAppended(bs: seq<byte>)
    ensures Sum(bs + [HexChecksum(bs)]) % 256 == 0
  {
    SumAppend(bs, [HexChecksum(bs)]);
    assert Sum([HexChecksum(bs)]) == HexChecksum(bs) by {
      assert [HexChecksum(bs)][..0] == [];
    }
  }
}
