/** Shared vocabulary of the converter: bytes, fallible results, and the
    integer helpers needed to model Rust's fixed-width arithmetic exactly. */
module Bytes {

  /** A Rust `u8`. */
  type byte = x: int | 0 <= x < 256

  datatype Result<+T, +E> = Ok(value: T) | Err(error: E)

  datatype Option<+T> = None | Some(value: T)

  const TWO_16: nat := 0x1_0000
  const TWO_32: nat := 0x1_0000_0000
  const TWO_64: nat := 0x1_0000_0000_0000_0000

  function Pow2(k: nat): (r: nat)
    ensures r >= 1
  {
    if k == 0 then 1 else 2 * Pow2(k - 1)
  }

  /** Shifting by `a + b` bits is shifting by `a` bits, then by `b`. */
  lemma {:induction false} Pow2Add(a: nat, b: nat)
    ensures Pow2(a + b) == Pow2(a) * Pow2(b)
    decreases b
  {
    if b > 0 {
      Pow2Add(a, b - 1);
      assert Pow2(a + b) == 2 * Pow2(a + b - 1);
    }
  }

  /** Bitwise OR of two unbounded naturals, bit by bit from the least
      significant end (Rust's `|` on `usize`). */
  function BitOr(a: nat, b: nat): nat
    decreases a + b
  {
    if a == 0 then b
    else if b == 0 then a
    else 2 * BitOr(a / 2, b / 2) + (if a % 2 == 1 || b % 2 == 1 then 1 else 0)
  }

  /** OR-ing a value with itself gives it back. */
  lemma {:induction false} BitOrSelf(a: nat)
    ensures BitOr(a, a) == a
    decreases a
  {
    if a > 0 {
      BitOrSelf(a / 2);
    }
  }

  /** OR-ing a value shifted left by `k` bits with one that fits in `k` bits
      is addition: the two operands share no set bit. */
  lemma {:induction false} BitOrDisjoint(hi: nat, lo: nat, k: nat)
    requires lo < Pow2(k)
    ensures BitOr(hi * Pow2(k), lo) == hi * Pow2(k) + lo
  {
    if k == 0 {
      assert lo == 0;
    } else if hi == 0 || lo == 0 {
    } else {
      var p := Pow2(k - 1);
      assert Pow2(k) == 2 * p;
      assert hi * Pow2(k) == 2 * (hi * p);
      assert (hi * Pow2(k)) / 2 == hi * p;
      assert (hi * Pow2(k)) % 2 == 0;
      assert lo / 2 < p;
      BitOrDisjoint(hi, lo / 2, k - 1);
      assert BitOr(hi * Pow2(k), lo) == 2 * (hi * p + lo / 2) + lo % 2;
    }
  }

  /** Bitwise exclusive OR of two unbounded naturals (Rust's `^`). */
  function BitXor(a: nat, b: nat): nat
    decreases a + b
  {
    if a == 0 then b
    else if b == 0 then a
    else 2 * BitXor(a / 2, b / 2) + (if a % 2 != b % 2 then 1 else 0)
  }

  /** XOR with `k` one bits flips a `k`-bit value: it is subtraction from
      the all-ones value. */
  lemma {:induction false} BitXorAllOnes(x: nat, k: nat)
    requires x < Pow2(k)
    ensures BitXor(x, Pow2(k) - 1) == Pow2(k) - 1 - x
  {
    if k == 0 || x == 0 {
    } else {
      var ones := Pow2(k) - 1;
      assert ones >= 1 && ones / 2 == Pow2(k - 1) - 1 && ones % 2 == 1;
      assert x / 2 < Pow2(k - 1);
      BitXorAllOnes(x / 2, k - 1);
      assert BitXor(x, ones) == 2 * (Pow2(k - 1) - 1 - x / 2) + (1 - x % 2);
    }
  }

  lemma Pow2Values()
    ensures Pow2(8) == 256
    ensures Pow2(16) == TWO_16
  {
    assert Pow2(4) == 16;
    assert Pow2(8) == 256 by {
      assert Pow2(5) == 32;
      assert Pow2(6) == 64;
      assert Pow2(7) == 128;
    }
    assert Pow2(12) == 4096 by {
      assert Pow2(9) == 512;
      assert Pow2(10) == 1024;
      assert Pow2(11) == 2048;
    }
    assert Pow2(13) == 8192;
    assert Pow2(14) == 16384;
    assert Pow2(15) == 32768;
  }

  /** `(hi << 16) | lo` for a `lo` below 2^16 is `hi * 2^16 + lo`. */
  lemma ShiftOr16(hi: nat, lo: nat)
    requires lo < TWO_16
    ensures BitOr(hi * TWO_16, lo) == hi * TWO_16 + lo
  {
    Pow2Values();
    BitOrDisjoint(hi, lo, 16);
  }

  /** `(hi << 8) | lo` for a byte `lo` is `hi * 256 + lo`. */
  lemma ShiftOr8(hi: nat, lo: byte)
    ensures BitOr(hi * 256, lo) == hi * 256 + lo
  {
    Pow2Values();
    BitOrDisjoint(hi, lo, 8);
  }

  /** `u16::from_be_bytes([hi, lo])`. */
  function FromBigEndian16(hi: byte, lo: byte): (r: nat)
    ensures r < TWO_16
  {
    hi * 256 + lo
  }

  /** The two bytes are recovered as the high and low halves of the value. */
  lemma FromBigEndian16Bytes(hi: byte, lo: byte)
    ensures FromBigEndian16(hi, lo) / 256 == hi && FromBigEndian16(hi, lo) % 256 == lo
  {
    DivUnique(FromBigEndian16(hi, lo), 256, hi, lo);
  }

  /** `(x as u32).to_be_bytes()`: the truncation to 32 bits, then the four
      bytes most significant first. */
  function ToBigEndian32(x: nat): (r: seq<byte>)
    ensures |r| == 4
  {
    var w := x % TWO_32;
    [w / 0x100_0000, (w / 0x1_0000) % 256, (w / 0x100) % 256, w % 256]
  }

  /** The four bytes, most significant first, weigh up to the truncated
      value. */
  lemma BigEndian32Value(x: nat)
    ensures var r := ToBigEndian32(x);
      (r[0] as int) * 0x100_0000 + (r[1] as int) * 0x1_0000 + (r[2] as int) * 0x100 + r[3] == x % TWO_32
  {
    BigEndian32Halves(x);
    var w := x % TWO_32;
    DivUnique(w, TWO_16, w / TWO_16, w % TWO_16);
    DivUnique(x, TWO_16, (x / TWO_32) * TWO_16 + w / TWO_16, w % TWO_16);
  }

  lemma MulAtLeast(k: int, d: int)
    requires k >= 1 && d > 0
    ensures k * d >= d
  {
    assert k * d == (k - 1) * d + d;
    assert (k - 1) * d >= 0;
  }

  /** Euclidean division is determined by the quotient and remainder. */
  lemma DivUnique(x: int, d: int, a: int, b: int)
    requires d > 0 && 0 <= b < d && x == a * d + b
    ensures x / d == a && x % d == b
  {
    var q, r := x / d, x % d;
    assert x == q * d + r;
    assert (q - a) * d == b - r by {
      assert q * d - a * d == (q - a) * d;
    }
    if q > a {
      MulAtLeast(q - a, d);
    } else if q < a {
      assert (a - q) * d == r - b;
      MulAtLeast(a - q, d);
    }
  }

  /** Taking one divisor's worth off the dividend lowers the quotient by one
      and keeps the remainder. */
  lemma DivMinusOne(n: int, d: int)
    requires d > 0
    ensures (n - d) / d == n / d - 1 && (n - d) % d == n % d
  {
    assert n == (n / d) * d + n % d;
    assert n - d == (n / d - 1) * d + n % d;
    DivUnique(n - d, d, n / d - 1, n % d);
  }

  /** A positive multiple of `d` is at least `d`. */
  lemma ModZeroAtLeast(n: int, d: int)
    requires d > 0 && n > 0 && n % d == 0
    ensures n >= d
  {
    assert n == (n / d) * d;
    assert n / d >= 1;
    MulAtLeast(n / d, d);
  }

  /** Rounding down to a multiple of `d` removes the remainder. */
  lemma RoundDown(n: int, d: int)
    requires n >= 0 && d > 0
    ensures n / d * d == n - n % d && 0 <= n / d * d <= n
  {
    assert n == (n / d) * d + n % d;
  }

  /** Dropping the remainder leaves a multiple. */
  lemma RemainderDropped(n: int, d: int)
    requires n >= 0 && d > 0
    ensures (n - n % d) % d == 0
  {
    RoundDown(n, d);
    DivUnique(n - n % d, d, n / d, 0);
  }

  /** Reducing the left operand first does not change a sum's remainder. */
  lemma ModAddLeft(a: int, b: int, d: int)
    requires d > 0
    ensures (a % d + b) % d == (a + b) % d
  {
    DivUnique(a + b, d, a / d + (a % d + b) / d, (a % d + b) % d);
  }

  lemma DivNonNegative(n: int, d: int)
    requires n >= 0 && d > 0
    ensures n / d >= 0
  {
  }

  /** Stepping through a multiple of `d` in steps of `d`. */
  lemma NextMultiple(offset: int, total: int, d: int)
    requires d > 0 && 0 <= offset < total
    requires offset % d == 0 && (total - offset) % d == 0
    ensures offset + d <= total
    ensures (offset + d) % d == 0 && (total - (offset + d)) % d == 0
  {
    ModZeroAtLeast(total - offset, d);
    DivMinusOne(offset + d, d);
    DivMinusOne(total - offset, d);
  }

  /** The high and the low half of `(x as u32).to_be_bytes()`. */
  lemma BigEndian32Halves(x: nat)
    ensures var r := ToBigEndian32(x);
      && (r[0] as int) * 256 + r[1] == (x % TWO_32) / TWO_16
      && (r[2] as int) * 256 + r[3] == x % TWO_16
  {
    var w := x % TWO_32;
    var hi, lo := w / TWO_16, w % TWO_16;
    DivUnique(w, TWO_16, hi, lo);
    DivUnique(hi, 256, w / 0x100_0000, (w / 0x1_0000) % 256);
    DivUnique(lo, 256, (w / 0x100) % 256, w % 256);
    DivUnique(x, TWO_16, (x / TWO_32) * TWO_16 + hi, lo);
  }

  // Sequence steps the writers' loops take one element or one piece at a time.

  /** Appending element `i` to a prefix ending before it. */
  lemma PrefixExtend<T>(head: seq<T>, s: seq<T>, i: nat)
    requires i < |s|
    ensures head + s[..i] + [s[i]] == head + s[..i + 1]
  {
    assert s[..i + 1] == s[..i] + [s[i]];
  }

  lemma PrefixWhole<T>(s: seq<T>)
    ensures s[..|s|] == s
  {
  }

  /** Concatenation regrouped to the right. */
  lemma Reassociate<T>(a: seq<T>, b: seq<T>, c: seq<T>)
    ensures a + b + c == a + (b + c)
  {
  }
}
