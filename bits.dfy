/** Integer primitives the proof module relies on: powers of two, the bit
    length of a natural number, the value of a little-endian byte string, and
    the Rust intrinsics it calls (`u8::leading_zeros`, `u64::trailing_zeros`,
    `usize::pow` on base 2, and the foreign `math::utils::log2`). All numbers
    are unbounded naturals; the fixed widths are subset types. */
module Bits {

  const U32_MAX: nat := 0xFFFF_FFFF
  const U64_MAX: nat := 0xFFFF_FFFF_FFFF_FFFF

  type U8 = x: nat | x < 0x100
  type U32 = x: nat | x <= U32_MAX
  type U64 = x: nat | x <= U64_MAX

  // ---------------------------------------------------------------------------
  // Powers of two

  function Pow2(k: nat): (r: nat)
    ensures r >= 1
  {
    if k == 0 then 1 else 2 * Pow2(k - 1)
  }

  lemma {:induction false} Pow2Add(a: nat, b: nat)
    ensures Pow2(a + b) == Pow2(a) * Pow2(b)
  {
    if a > 0 {
      Pow2Add(a - 1, b);
      assert Pow2(a + b) == 2 * Pow2(a - 1 + b);
    }
  }

  lemma {:induction false} Pow2StrictlyMonotone(a: nat, b: nat)
    requires a < b
    ensures Pow2(a) < Pow2(b)
  {
    if a + 1 < b {
      Pow2StrictlyMonotone(a, b - 1);
    }
  }

  lemma Pow2Monotone(a: nat, b: nat)
    requires a <= b
    ensures Pow2(a) <= Pow2(b)
  {
    if a < b {
      Pow2StrictlyMonotone(a, b);
    }
  }

  /** Powers of two are ordered as their exponents are. */
  lemma Pow2Order(a: nat, b: nat)
    ensures a < b ==> Pow2(a) < Pow2(b)
    ensures Pow2(a) <= Pow2(b) ==> a <= b
  {
    if a < b {
      Pow2StrictlyMonotone(a, b);
    } else if b < a {
      Pow2StrictlyMonotone(b, a);
    }
  }

  /** `2^k` divided by `2^j` is exactly `2^(k-j)` when `j <= k`. */
  lemma Pow2Quotient(k: nat, j: nat)
    requires j <= k
    ensures Pow2(k) / Pow2(j) == Pow2(k - j)
    ensures Pow2(k) % Pow2(j) == 0
  {
    Pow2Add(k - j, j);
    var q, d := Pow2(k - j), Pow2(j);
    assert Pow2(k) == q * d;
    assert (q * d) / d == q && (q * d) % d == 0 by {
      QuotientOfMultiple(q, d);
    }
  }

  lemma QuotientOfMultiple(q: nat, d: nat)
    requires d > 0
    ensures (q * d) / d == q && (q * d) % d == 0
  {
    var x := q * d;
    var k, r := x / d, x % d;
    assert x == k * d + r && 0 <= r < d;
    var m: int := q - k;
    assert m * d == q * d - k * d;
    MulSign(m, d);
    assert m == 0;
  }

  lemma MulSign(m: int, d: nat)
    ensures m >= 1 ==> m * d >= d
    ensures m <= -1 ==> m * d <= -(d as int)
  {
  }

  /** Every power of two up to `2^63` fits a 64-bit word; `2^64` does not. */
  lemma Pow2FitsU64(k: nat)
    ensures Pow2(k) <= U64_MAX <==> k < 64
  {
    Pow2SixtyFour();
    if k < 64 {
      Pow2StrictlyMonotone(k, 64);
    } else {
      Pow2Monotone(64, k);
    }
  }

  lemma Pow2SixtyFour()
    ensures Pow2(8) == 0x100
    ensures Pow2(64) == U64_MAX + 1
  {
    assert Pow2(2) == 4;
    Pow2Add(2, 2);
    Pow2Add(4, 4);
    assert Pow2(8) == 0x100;
    Pow2Add(8, 8);
    assert Pow2(16) == 0x1_0000;
    Pow2Add(16, 16);
    assert Pow2(32) == 0x1_0000_0000;
    Pow2Add(32, 32);
  }

  predicate IsPow2(n: nat)
  {
    if n <= 1 then n == 1 else n % 2 == 0 && IsPow2(n / 2)
  }

  /** The exact base-2 logarithm of a power of two, as `math::utils::log2`
      computes it; the foreign function is only defined on powers of two. */
  function Log2(n: nat): (k: nat)
    requires IsPow2(n)
    ensures Pow2(k) == n
  {
    if n == 1 then 0 else 1 + Log2(n / 2)
  }

  lemma {:induction false} Pow2IsPow2(k: nat)
    ensures IsPow2(Pow2(k)) && Log2(Pow2(k)) == k
  {
    if k > 0 {
      Pow2IsPow2(k - 1);
      assert Pow2(k) / 2 == Pow2(k - 1);
    }
  }

  // ---------------------------------------------------------------------------
  // Bit length

  /** The number of bits needed to write `n` in binary: 0 for 0, otherwise the
      index of the highest set bit plus one. */
  function BitLength(n: nat): nat
  {
    if n == 0 then 0 else 1 + BitLength(n / 2)
  }

  /** `BitLength(n)` is the smallest `k` with `n < 2^k`; for `n > 0` also
      `2^(k-1) <= n`. */
  lemma {:induction false} BitLengthBounds(n: nat)
    ensures n < Pow2(BitLength(n))
    ensures n > 0 ==> Pow2(BitLength(n) - 1) <= n
    ensures forall k: nat :: n < Pow2(k) ==> BitLength(n) <= k
  {
    if n > 0 {
      BitLengthBounds(n / 2);
    }
    forall k: nat | n < Pow2(k)
      ensures BitLength(n) <= k
    {
      BitLengthMinimal(n, k);
    }
  }

  lemma {:induction false} BitLengthMinimal(n: nat, k: nat)
    requires n < Pow2(k)
    ensures BitLength(n) <= k
  {
    if n > 0 {
      assert k > 0;
      BitLengthMinimal(n / 2, k - 1);
    }
  }

  /** The two bounds of `BitLengthBounds` determine the bit length. */
  lemma {:induction false} BitLengthUnique(n: nat, k: nat)
    requires 0 < k && Pow2(k - 1) <= n < Pow2(k)
    ensures BitLength(n) == k
  {
    if k > 1 {
      BitLengthUnique(n / 2, k - 1);
    }
  }

  // ---------------------------------------------------------------------------
  // Little-endian byte strings

  /** The natural number a little-endian byte string encodes. */
  function LittleEndianValue(s: seq<U8>): nat
  {
    if s == [] then 0 else s[0] + 0x100 * LittleEndianValue(s[1..])
  }

  lemma Pow2Bytes(n: nat)
    requires n > 0
    ensures Pow2(8 * n) == 0x100 * Pow2(8 * (n - 1))
  {
    Pow2Add(8, 8 * (n - 1));
    assert Pow2(8) == 0x100;
  }

  lemma {:induction false} LittleEndianBound(s: seq<U8>)
    ensures LittleEndianValue(s) < Pow2(8 * |s|)
  {
    if s != [] {
      LittleEndianBound(s[1..]);
      Pow2Bytes(|s|);
      var rest := LittleEndianValue(s[1..]);
      assert rest + 1 <= Pow2(8 * (|s| - 1));
      assert 0x100 * (rest + 1) <= 0x100 * Pow2(8 * (|s| - 1));
    }
  }

  /** The value of `s + t` is that of `s` plus that of `t` shifted by `s`'s bytes. */
  lemma {:induction false} LittleEndianConcat(s: seq<U8>, t: seq<U8>)
    ensures LittleEndianValue(s + t) == LittleEndianValue(s) + Pow2(8 * |s|) * LittleEndianValue(t)
  {
    if s == [] {
      assert s + t == t;
    } else {
      assert (s + t)[1..] == s[1..] + t;
      LittleEndianConcat(s[1..], t);
      Pow2Bytes(|s|);
      var shifted := Pow2(8 * (|s| - 1)) * LittleEndianValue(t);
      assert 0x100 * shifted == Pow2(8 * |s|) * LittleEndianValue(t);
    }
  }

  lemma {:induction false} LittleEndianZeros(z: seq<U8>)
    requires forall i :: 0 <= i < |z| ==> z[i] == 0
    ensures LittleEndianValue(z) == 0
  {
    if z != [] {
      LittleEndianZeros(z[1..]);
    }
  }

  // ---------------------------------------------------------------------------
  // Rust intrinsics

  /** The number of zero bits above the highest set bit of `b`, counted within
      a word of `width` bits. */
  function LeadingZerosIn(b: nat, width: nat): nat
  {
    if width == 0 then 0
    else if b >= Pow2(width - 1) then 0
    else 1 + LeadingZerosIn(b, width - 1)
  }

  lemma {:induction false} LeadingZerosBitLength(b: nat, width: nat)
    requires b < Pow2(width)
    ensures LeadingZerosIn(b, width) + BitLength(b) == width
  {
    if width > 0 {
      if b >= Pow2(width - 1) {
        BitLengthUnique(b, width);
      } else {
        LeadingZerosBitLength(b, width - 1);
      }
    }
  }

  /** `u8::leading_zeros`: 8 for 0, and 8 minus the bit length otherwise. */
  function LeadingZeros8(b: U8): (r: nat)
    ensures r + BitLength(b) == 8
  {
    assert Pow2(8) == 0x100;
    LeadingZerosBitLength(b, 8);
    LeadingZerosIn(b, 8)
  }

  /** The number of zero bits below the lowest set bit of `x`, counted within
      a word of `width` bits (so `width` for zero). */
  function TrailingZerosIn(x: nat, width: nat): nat
  {
    if width == 0 || x % 2 == 1 then 0 else 1 + TrailingZerosIn(x / 2, width - 1)
  }

  lemma {:induction false} TrailingZerosOfPow2(k: nat, width: nat)
    requires k < width
    ensures TrailingZerosIn(Pow2(k), width) == k
  {
    if k > 0 {
      assert Pow2(k) % 2 == 0 && Pow2(k) / 2 == Pow2(k - 1);
      TrailingZerosOfPow2(k - 1, width - 1);
    }
  }

  lemma {:induction false} TrailingZerosOfZero(width: nat)
    ensures TrailingZerosIn(0, width) == width
  {
    if width > 0 {
      TrailingZerosOfZero(width - 1);
    }
  }

  /** `x` is divisible by `2^t` for its trailing-zero count `t`, and the
      quotient is odd unless the count stopped at the word width. */
  lemma {:induction false} TrailingZerosDivide(x: nat, width: nat)
    ensures x % Pow2(TrailingZerosIn(x, width)) == 0
    ensures TrailingZerosIn(x, width) < width ==> (x / Pow2(TrailingZerosIn(x, width))) % 2 == 1
  {
    if width > 0 && x % 2 == 0 {
      TrailingZerosDivide(x / 2, width - 1);
      var t := TrailingZerosIn(x / 2, width - 1);
      var p := Pow2(t);
      assert Pow2(t + 1) == 2 * p;
      var q := (x / 2) / p;
      assert x / 2 == q * p;
      assert x == q * (2 * p);
      QuotientOfMultiple(q, 2 * p);
    }
  }

  /** `u64::trailing_zeros`: 64 for zero. */
  function TrailingZeros64(x: U64): (r: nat)
    ensures r <= 64
    ensures x % Pow2(r) == 0
    ensures x > 0 ==> (x / Pow2(r)) % 2 == 1
    ensures x == 0 ==> r == 64
  {
    TrailingZerosOfZero(64);
    TrailingZerosBound(x, 64);
    TrailingZerosDivide(x, 64);
    Pow2FitsU64(64);
    TrailingZerosNonZero(x, 64);
    TrailingZerosIn(x, 64)
  }

  lemma {:induction false} TrailingZerosBound(x: nat, width: nat)
    ensures TrailingZerosIn(x, width) <= width
  {
    if width > 0 && x % 2 == 0 {
      TrailingZerosBound(x / 2, width - 1);
    }
  }

  /** A non-zero word below `2^width` has its lowest set bit within the word. */
  lemma {:induction false} TrailingZerosNonZero(x: nat, width: nat)
    requires x < Pow2(width)
    ensures x > 0 ==> TrailingZerosIn(x, width) < width
  {
    if x > 0 && x % 2 == 0 {
      TrailingZerosNonZero(x / 2, width - 1);
    }
  }
}
