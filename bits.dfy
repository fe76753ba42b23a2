/** Arithmetic shared by the allocator and size computations: powers of two,
    bitwise XOR on naturals, page alignment, and the unsigned-integer
    truncations of C that the model spells out, and the optional value
    that stands for a C pointer that may be NULL. */
module Bits {

  datatype Option<T> = None | Some(value: T)

  const PAGE_SHIFT: nat := 12
  const PAGE_SIZE: nat := 4096

  const U32_LIMIT: nat := 0x1_0000_0000
  const U64_LIMIT: nat := 0x1_0000_0000_0000_0000
  const ULONG_MAX: nat := 0xFFFF_FFFF_FFFF_FFFF

  function Pow2(k: nat): (r: nat)
    ensures r >= 1
  {
    if k == 0 then 1 else 2 * Pow2(k - 1)
  }

  /** Bit k of x. */
  predicate Bit(x: nat, k: nat) {
    if k == 0 then x % 2 == 1 else Bit(x / 2, k - 1)
  }

  /** Bitwise exclusive or of two naturals, one binary digit at a time. */
  function Xor(a: nat, b: nat): nat
    decreases a + b
  {
    if a == 0 && b == 0 then 0
    else 2 * Xor(a / 2, b / 2) + (if a % 2 == b % 2 then 0 else 1)
  }

  /** DIV_ROUND_UP(n, d) */
  function DivRoundUp(n: nat, d: nat): nat
    requires d > 0
  {
    (n + d - 1) / d
  }

  /** C's `x << PAGE_SHIFT` on an `unsigned int`: the product is cut to 32 bits. */
  function ShlPageU32(x: nat): nat {
    (x * PAGE_SIZE) % U32_LIMIT
  }

  /** u64 addition, wrapping at 2^64: (a + b) % 2^64. */
  function AddU64(a: nat, b: nat): (r: nat)
    requires a < U64_LIMIT && b < U64_LIMIT
    ensures r < U64_LIMIT
  {
    if a + b < U64_LIMIT then a + b else a + b - U64_LIMIT
  }

  lemma AddU64Mod(a: nat, b: nat)
    requires a < U64_LIMIT && b < U64_LIMIT
    ensures AddU64(a, b) == (a + b) % U64_LIMIT
  {
  }

  /** u64 subtraction, wrapping below zero. */
  function SubU64(a: nat, b: nat): nat
    requires a < U64_LIMIT && b < U64_LIMIT
  {
    if a >= b then a - b else a - b + U64_LIMIT
  }

  /** ALIGN_DOWN(x, PAGE_SIZE), also `x & PAGE_MASK`. */
  function PageAlignDown(x: nat): (r: nat)
    ensures r <= x < r + PAGE_SIZE && r % PAGE_SIZE == 0
  {
    x / PAGE_SIZE * PAGE_SIZE
  }

  /** PAGE_ALIGN(x) on a u64: rounds up to a page boundary, wrapping to 0
      above the last page boundary. */
  function PageAlignU64(x: nat): (r: nat)
    requires x < U64_LIMIT
    ensures x <= U64_LIMIT - PAGE_SIZE ==> x <= r < x + PAGE_SIZE
    ensures x > U64_LIMIT - PAGE_SIZE ==> r == 0
    ensures r % PAGE_SIZE == 0 && r < U64_LIMIT
  {
    (x + PAGE_SIZE - 1) % U64_LIMIT / PAGE_SIZE * PAGE_SIZE
  }

  /** Adding whole pages to a page-aligned value keeps it aligned. */
  lemma AddPages(a: nat, k: nat)
    requires a % PAGE_SIZE == 0
    ensures (a + k * PAGE_SIZE) % PAGE_SIZE == 0
  {
    assert a + k * PAGE_SIZE == (a / PAGE_SIZE + k) * PAGE_SIZE;
  }

  // ---------------------------------------------------------------------
  // Powers of two

  lemma {:induction false} Pow2Add(a: nat, b: nat)
    ensures Pow2(a + b) == Pow2(a) * Pow2(b)
    decreases a
  {
    if a > 0 {
      Pow2Add(a - 1, b);
      assert Pow2(a + b) == 2 * Pow2(a - 1 + b);
    }
  }

  lemma {:induction false} Pow2Monotone(a: nat, b: nat)
    requires a <= b
    ensures Pow2(a) <= Pow2(b)
    decreases b
  {
    if a < b {
      Pow2Monotone(a, b - 1);
    }
  }

  lemma Pow2U64()
    ensures Pow2(64) == U64_LIMIT
  {
    assert Pow2(4) == 16;
    Pow2Add(4, 4);
    assert Pow2(8) == 256;
    Pow2Add(8, 8);
    assert Pow2(16) == 0x1_0000;
    Pow2Add(16, 16);
    assert Pow2(32) == U32_LIMIT;
    Pow2Add(32, 32);
  }

  lemma Pow2Page()
    ensures Pow2(PAGE_SHIFT) == PAGE_SIZE
  {
    assert Pow2(1) == 2;
    assert Pow2(2) == 4;
    assert Pow2(3) == 8;
    assert Pow2(4) == 16;
    assert Pow2(5) == 32;
    assert Pow2(6) == 64;
    assert Pow2(7) == 128;
    assert Pow2(8) == 256;
    assert Pow2(9) == 512;
    assert Pow2(10) == 1024;
    assert Pow2(11) == 2048;
  }

  // ---------------------------------------------------------------------
  // XOR

  lemma {:induction false} XorZero(a: nat)
    ensures Xor(a, 0) == a
    decreases a
  {
    if a != 0 {
      XorZero(a / 2);
    }
  }

  /** XOR with a single power of two flips that one bit: it adds the power
      when the bit is clear and subtracts it when the bit is set. */
  lemma {:induction false} XorPow2(x: nat, k: nat)
    ensures Bit(x, k) ==> x >= Pow2(k) && Xor(x, Pow2(k)) == x - Pow2(k)
    ensures !Bit(x, k) ==> Xor(x, Pow2(k)) == x + Pow2(k)
    decreases k
  {
    if k == 0 {
      XorZero(x / 2);
      assert Xor(x, 1) == 2 * Xor(x / 2, 0) + (if x % 2 == 1 then 0 else 1);
    } else {
      XorPow2(x / 2, k - 1);
      assert Pow2(k) / 2 == Pow2(k - 1) && Pow2(k) % 2 == 0;
      assert Xor(x, Pow2(k)) == 2 * Xor(x / 2, Pow2(k - 1)) + (if x % 2 == 0 then 0 else 1);
    }
  }

  /** Bit k is the one bit set in 2^k. */
  lemma {:induction false} BitOfPow2(k: nat)
    ensures Bit(Pow2(k), k) && !Bit(0, k)
    decreases k
  {
    if k > 0 {
      BitOfPow2(k - 1);
      assert Pow2(k) / 2 == Pow2(k - 1);
    }
  }

  /** Shifting both operands left by one shifts their XOR left by one. */
  lemma XorDouble(a: nat, b: nat)
    ensures Xor(2 * a, 2 * b) == 2 * Xor(a, b)
  {
  }

  /** x shifted left by m bits. */
  function Shl(x: nat, m: nat): nat {
    if m == 0 then x else 2 * Shl(x, m - 1)
  }

  lemma {:induction false} ShlMul(x: nat, m: nat)
    ensures Shl(x, m) == x * Pow2(m)
    decreases m
  {
    if m > 0 {
      ShlMul(x, m - 1);
      assert x * Pow2(m) == x * (2 * Pow2(m - 1)) == 2 * (x * Pow2(m - 1));
    }
  }

  lemma ShlPage(x: nat)
    ensures Shl(x, PAGE_SHIFT) == x * PAGE_SIZE
  {
    assert Shl(x, 1) == 2 * x;
    assert Shl(x, 2) == 4 * x;
    assert Shl(x, 3) == 8 * x;
    assert Shl(x, 4) == 16 * x;
    assert Shl(x, 5) == 32 * x;
    assert Shl(x, 6) == 64 * x;
    assert Shl(x, 7) == 128 * x;
    assert Shl(x, 8) == 256 * x;
    assert Shl(x, 9) == 512 * x;
    assert Shl(x, 10) == 1024 * x;
    assert Shl(x, 11) == 2048 * x;
  }

  /** Shifting both operands left by m bits shifts their XOR left by m bits. */
  lemma {:induction false} XorShl(a: nat, b: nat, m: nat)
    ensures Xor(Shl(a, m), Shl(b, m)) == Shl(Xor(a, b), m)
    decreases m
  {
    if m > 0 {
      XorShl(a, b, m - 1);
      XorDouble(Shl(a, m - 1), Shl(b, m - 1));
    }
  }

  lemma {:induction false} BitShl(x: nat, m: nat, k: nat)
    ensures Bit(Shl(x, m), k + m) == Bit(x, k)
    decreases m
  {
    if m > 0 {
      BitShl(x, m - 1, k);
      assert Shl(x, m) / 2 == Shl(x, m - 1);
    }
  }

  lemma {:induction false} ShlPow2(j: nat, m: nat)
    ensures Shl(Pow2(j), m) == Pow2(j + m)
    decreases m
  {
    if m > 0 {
      ShlPow2(j, m - 1);
    }
  }

  // ---------------------------------------------------------------------
  // Alignment to powers of two

  /** x is a multiple of 2^k: its low k bits are clear. */
  predicate AlignedTo(x: nat, k: nat) {
    k == 0 || (x % 2 == 0 && AlignedTo(x / 2, k - 1))
  }

  /** Adding 2^k to a number flips bit k and keeps alignment to 2^k. */
  lemma {:induction false} AddPow2(x: nat, k: nat)
    ensures Bit(x + Pow2(k), k) == !Bit(x, k)
    ensures AlignedTo(x + Pow2(k), k) == AlignedTo(x, k)
    decreases k
  {
    if k > 0 {
      AddPow2(x / 2, k - 1);
      assert (x + Pow2(k)) / 2 == x / 2 + Pow2(k - 1);
      assert (x + Pow2(k)) % 2 == x % 2;
    }
  }

  /** Subtracting 2^k from a number whose bit k is set clears that bit. */
  lemma SubPow2(x: nat, k: nat)
    requires Bit(x, k)
    ensures x >= Pow2(k)
    ensures !Bit(x - Pow2(k), k)
    ensures AlignedTo(x - Pow2(k), k) == AlignedTo(x, k)
  {
    BitBound(x, k);
    AddPow2(x - Pow2(k), k);
  }

  lemma {:induction false} BitBound(x: nat, k: nat)
    requires Bit(x, k)
    ensures x >= Pow2(k)
    decreases k
  {
    if k > 0 {
      BitBound(x / 2, k - 1);
    }
  }

  /** A number aligned to 2^(k+1) is aligned to 2^k with bit k clear, and conversely. */
  lemma {:induction false} AlignedSucc(x: nat, k: nat)
    ensures AlignedTo(x, k + 1) <==> AlignedTo(x, k) && !Bit(x, k)
    decreases k
  {
    if k > 0 {
      AlignedSucc(x / 2, k - 1);
    }
  }

  /** Multiples of 2^k below 2^k * m are spaced at least 2^k apart. */
  lemma {:induction false} AlignedGap(x: nat, y: nat, k: nat)
    requires AlignedTo(x, k) && AlignedTo(y, k) && x < y
    ensures x + Pow2(k) <= y
    decreases k
  {
    if k > 0 {
      AlignedGap(x / 2, y / 2, k - 1);
    }
  }

  lemma {:induction false} AlignedShl(a: nat, m: nat, k: nat)
    ensures AlignedTo(Shl(a, m), k + m) == AlignedTo(a, k)
    decreases m
  {
    if m > 0 {
      AlignedShl(a, m - 1, k);
      assert Shl(a, m) / 2 == Shl(a, m - 1);
    }
  }

  lemma {:induction false} AlignedSum(x: nat, y: nat, k: nat)
    requires AlignedTo(x, k) && AlignedTo(y, k)
    ensures AlignedTo(x + y, k)
    decreases k
  {
    if k > 0 {
      AlignedSum(x / 2, y / 2, k - 1);
      assert (x + y) / 2 == x / 2 + y / 2;
    }
  }

  lemma {:induction false} AlignedPow2(j: nat, k: nat)
    requires j >= k
    ensures AlignedTo(Pow2(j), k)
    decreases k
  {
    if k > 0 {
      AlignedPow2(j - 1, k - 1);
    }
  }

}
