/**
 * Fixed-width C integer behaviour used by the statistics decoder: the 32-bit
 * `int` wrap of a truncating assignment, 64-bit pointer arithmetic, and C's
 * division, which truncates toward zero (Dafny's `/` is Euclidean).
 */
module CInt {

  const TWO_31: int := 0x8000_0000
  const TWO_32: int := 0x1_0000_0000
  const INT32_MIN: int := -0x8000_0000
  const INT32_MAX: int := 0x7fff_ffff
  /** Pointers are 64 bits wide on the hosts this driver targets. */
  const ADDR_SPACE: int := 0x1_0000_0000_0000_0000

  type Byte = b: int | 0 <= b < 0x100
  type U32 = x: int | 0 <= x < 0x1_0000_0000

  /** The value a C `int` holds after being assigned the (wider) value `x`. */
  function Wrap32(x: int): (r: int)
    ensures INT32_MIN <= r <= INT32_MAX
    ensures (x - r) % TWO_32 == 0
    ensures INT32_MIN <= x <= INT32_MAX ==> r == x
  {
    (x + TWO_31) % TWO_32 - TWO_31
  }

  /** The value a 64-bit pointer holds after arithmetic that produced `x`. */
  function Wrap64(x: int): (r: nat)
    ensures r < ADDR_SPACE
    ensures (x - r) % ADDR_SPACE == 0
    ensures 0 <= x < ADDR_SPACE ==> r == x
  {
    x % ADDR_SPACE
  }

  /** A 64-bit pointer value. */
  type Addr = a: int | 0 <= a < ADDR_SPACE

  /**
   * `p + d` in pointer arithmetic, for an offset `d` that is itself below
   * 2^64: the sum wraps at most once past the top of the address space.
   */
  function AddrAdd(p: Addr, d: nat): (r: Addr)
    requires d < ADDR_SPACE
  {
    if p + d < ADDR_SPACE then p + d else p + d - ADDR_SPACE
  }

  /** The pointer sum is the 64-bit wrap of the exact sum, and it is below `p` exactly when it wrapped. */
  lemma AddrAddWraps(p: Addr, d: nat)
    requires d < ADDR_SPACE
    ensures AddrAdd(p, d) == Wrap64(p + d)
    ensures AddrAdd(p, d) < p <==> p + d >= ADDR_SPACE
  {
    var r := p + d - ADDR_SPACE;
    if p + d >= ADDR_SPACE {
      assert p + d == ADDR_SPACE * 1 + r && 0 <= r < ADDR_SPACE;
    }
  }

  /** The low 8 bits of `x`: assignment to a `uint8_t`. */
  function Low8(x: nat): (r: Byte)
    ensures x < 0x100 ==> r == x
  {
    x % 0x100
  }

  /** The low 16 bits of `x`: assignment to a `uint16_t`. */
  function Low16(x: nat): (r: nat)
    ensures r < 0x1_0000
    ensures x < 0x1_0000 ==> r == x
  {
    x % 0x1_0000
  }

  /** 2^k. */
  function Pow2(k: nat): (p: nat)
    ensures p > 0
  {
    if k == 0 then 1 else 2 * Pow2(k - 1)
  }

  lemma {:induction false} Pow2Monotone(j: nat, k: nat)
    requires j <= k
    ensures Pow2(j) <= Pow2(k)
    decreases k
  {
    if j < k {
      Pow2Monotone(j, k - 1);
    }
  }

  lemma {:induction false} Pow2Add(j: nat, k: nat)
    ensures Pow2(j + k) == Pow2(j) * Pow2(k)
    decreases k
  {
    if k > 0 {
      Pow2Add(j, k - 1);
      assert Pow2(j + k) == 2 * Pow2(j + k - 1);
    }
  }

  /** The powers of two that bound `uint8_t`, `uint16_t` and `uint32_t`. */
  lemma Pow2Sizes()
    ensures Pow2(8) == 0x100 && Pow2(16) == 0x1_0000 && Pow2(32) == TWO_32
  {
    assert Pow2(2) == 4;
    Pow2Add(2, 2);
    assert Pow2(4) == 16;
    Pow2Add(4, 4);
    assert Pow2(8) == 0x100;
    Pow2Add(8, 8);
    assert Pow2(16) == 0x1_0000;
    Pow2Add(16, 16);
    assert Pow2(32) == TWO_32;
  }

  /** A field of at most 32 bits holds a 32-bit value. */
  lemma Pow2Width(k: nat)
    requires k <= 32
    ensures Pow2(k) <= TWO_32
  {
    Pow2Sizes();
    Pow2Monotone(k, 32);
  }

  /** Bit `k` of `x` is set: `x & (1 << k)` is nonzero. */
  predicate Bit(x: nat, k: nat) {
    (x / Pow2(k)) % 2 == 1
  }

  /** C's `a / d` for a positive divisor: the quotient truncated toward zero. */
  function CDiv(a: int, d: int): (q: int)
    requires d > 0
    ensures a >= 0 ==> 0 <= q * d <= a < q * d + d
    ensures a < 0 ==> q * d - d < a <= q * d <= 0
  {
    if a >= 0 then
      DivBounds(a, d);
      a / d
    else
      DivBounds(-a, d);
      assert -((-a) / d) * d == -((-a) / d * d);
      -((-a) / d)
  }

  lemma DivBounds(a: nat, d: int)
    requires d > 0
    ensures 0 <= a / d * d <= a < a / d * d + d
  {
    var q, r := a / d, a % d;
    assert a == q * d + r && 0 <= r < d;
    assert q >= 0;
    assert q * d >= 0;
  }
}
