/** Machine-level values: bytes, unsigned words and the C bit operators, written as
    arithmetic on natural numbers so that the digit and ring proofs can use `/` and `%`. */
module Machine {

  datatype Option<+T> = None | Some(value: T)

  type Byte = x: int | 0 <= x < 256

  const U32: int := 0x1_0000_0000

  type Word = x: int | 0 <= x < U32

  type Int32 = x: int | -0x8000_0000 <= x < 0x8000_0000

  /** Conversion to uint16_t. */
  function ToU16(x: int): nat {
    x % 0x1_0000
  }

  /** Conversion to uint32_t. */
  function ToU32(x: int): Word {
    x % U32
  }

  /** The int32_t with the given 32-bit pattern. */
  function ToI32(w: Word): Int32 {
    if w < 0x8000_0000 then w else w - U32
  }

  /** The 32-bit pattern of an int32_t. */
  function Pattern(x: Int32): Word {
    if x < 0 then x + U32 else x
  }

  function Pow2(k: nat): nat
    ensures Pow2(k) >= 1
  {
    if k == 0 then 1 else 2 * Pow2(k - 1)
  }

  ghost predicate IsPow2(n: nat) {
    exists k: nat :: n == Pow2(k)
  }

  /** The C operator `&` on unsigned values. */
  function And(x: nat, y: nat): nat
    decreases x
  {
    if x == 0 then 0
    else (if x % 2 == 1 && y % 2 == 1 then 1 else 0) + 2 * And(x / 2, y / 2)
  }

  /** The C operator `|` on unsigned values. */
  function Or(x: nat, y: nat): nat
    decreases x + y
  {
    if x == 0 && y == 0 then 0
    else (if x % 2 == 1 || y % 2 == 1 then 1 else 0) + 2 * Or(x / 2, y / 2)
  }

  /** The C operator `~` on a uint32_t. */
  function Not(x: Word): Word {
    U32 - 1 - x
  }

  /** `x <<= k` on a uint32_t. */
  function Shl(x: Word, k: nat): Word {
    if k == 0 then x else ToU32(2 * Shl(x, k - 1))
  }

  /** `x >>= k` on a uint32_t. */
  function Shr(x: Word, k: nat): Word {
    if k == 0 then x else Shr(x, k - 1) / 2
  }

  lemma ShrBound(x: nat, p: nat)
    requires p >= 1
    ensures 0 <= x / p <= x
  {
    DivIs(x, p, x / p, x % p);
    if x / p > x {
      MulMono(1, p, x / p);
    }
  }

  // ----- arithmetic helpers

  lemma ModLe(x: nat, p: nat)
    requires p >= 1
    ensures 0 <= x % p <= x
  {
    ShrBound(x, p);
    DivIs(x, p, x / p, x % p);
    MulMono(0, x / p, p);
  }

  lemma MulMono(a: nat, b: nat, c: nat)
    requires a <= b
    ensures a * c <= b * c
  {
  }

  /** Quotient and remainder are the only pair with a remainder in range. */
  lemma DivIs(x: int, d: nat, q: int, r: int)
    requires d > 0
    ensures x == d * q + r && 0 <= r < d ==> x / d == q && x % d == r
    ensures x == d * (x / d) + x % d && 0 <= x % d < d
  {
    if x == d * q + r && 0 <= r < d {
      var gap := x / d - q;
      assert d * gap == r - x % d;
      if gap >= 1 {
        MulMono(1, gap, d);
      } else if gap <= -1 {
        MulMono(1, -gap, d);
      }
    }
  }

  lemma MulShift(a: nat, b: nat)
    ensures 2 * (a * b) == (2 * a) * b
  {
  }

  lemma {:induction false} Pow2Add(i: nat, j: nat)
    ensures Pow2(i + j) == Pow2(i) * Pow2(j)
  {
    if i > 0 {
      Pow2Add(i - 1, j);
      MulShift(Pow2(i - 1), Pow2(j));
    }
  }

  lemma {:induction false} Pow2Mono(i: nat, j: nat)
    requires i < j
    ensures 2 * Pow2(i) <= Pow2(j)
  {
    if i + 1 < j {
      Pow2Mono(i, j - 1);
    }
  }

  /** Scaling commutes with the conversion to uint32_t. */
  lemma ModStep(a: nat, m: nat, d: nat)
    ensures ToU32(m * ToU32(a) + d) == ToU32(m * a + d)
  {
    var q := a / U32;
    assert m * a == m * ToU32(a) + U32 * (m * q) by {
      assert a == U32 * q + a % U32;
      assert m * (U32 * q) == U32 * (m * q);
    }
    var x := m * ToU32(a) + d;
    DivIs(x, U32, x / U32, x % U32);
    DivIs(m * a + d, U32, x / U32 + m * q, x % U32);
  }

  lemma {:induction false} ShlIs(x: Word, k: nat)
    ensures Shl(x, k) == ToU32(x * Pow2(k))
    decreases k
  {
    if k == 0 {
      DivIs(x, U32, 0, x);
    } else {
      ShlIs(x, k - 1);
      ModStep(x * Pow2(k - 1), 2, 0);
      assert 2 * (x * Pow2(k - 1)) == x * Pow2(k);
    }
  }

  lemma {:induction false} ShrIs(x: Word, k: nat)
    ensures Shr(x, k) == x / Pow2(k)
    decreases k
  {
    if k == 0 {
      DivIs(x, 1, x, 0);
    } else {
      ShrIs(x, k - 1);
      SplitMod(x, Pow2(k - 1), 2);
    }
  }

  lemma ShiftByFour(x: Word)
    ensures Pow2(4) == 16 && Shl(x, 4) == ToU32(16 * x) && Shr(x, 4) == x / 16
  {
    assert Pow2(4) == 2 * Pow2(3) == 4 * Pow2(2) == 8 * Pow2(1) == 16;
    ShlIs(x, 4);
    ShrIs(x, 4);
  }

  lemma WordBits()
    ensures Pow2(32) == U32
  {
    assert Pow2(4) == 2 * Pow2(3) == 4 * Pow2(2) == 8 * Pow2(1) == 16;
    Pow2Add(4, 4);
    Pow2Add(8, 8);
    Pow2Add(16, 16);
  }

  // ----- what the masks of the repository compute

  /** `x & (2^k - 1)` is the remainder modulo 2^k. */
  lemma {:induction false} AndLowMask(x: nat, k: nat)
    ensures And(x, Pow2(k) - 1) == x % Pow2(k)
    decreases k
  {
    if k == 0 {
      AndZero(x);
    } else if x > 0 {
      var p := Pow2(k - 1);
      AndLowMask(x / 2, k - 1);
      assert (Pow2(k) - 1) / 2 == p - 1 && (Pow2(k) - 1) % 2 == 1;
      HalveMod(x, p);
    } else {
      DivIs(0, Pow2(k), 0, 0);
    }
  }

  lemma {:induction false} AndZero(x: nat)
    ensures And(x, 0) == 0
  {
    if x > 0 {
      AndZero(x / 2);
    }
  }

  lemma HalveMod(x: nat, p: nat)
    requires p >= 1
    ensures x % (2 * p) == x % 2 + 2 * ((x / 2) % p)
    ensures x / (2 * p) == (x / 2) / p
  {
    SplitMod(x, 2, p);
  }

  /** Dividing by a product is dividing twice. */
  lemma SplitMod(x: nat, d: nat, p: nat)
    requires d >= 1 && p >= 1
    ensures d * p >= 1
    ensures x % (d * p) == x % d + d * ((x / d) % p)
    ensures x / (d * p) == (x / d) / p
  {
    var q, r := (x / d) / p, (x / d) % p;
    DivIs(x / d, p, q, r);
    DivIs(x, d, x / d, x % d);
    Regroup(d, p, q, r);
    BelowProduct(d, p, r, x % d);
    DivIs(x, d * p, q, d * r + x % d);
  }

  lemma Regroup(d: int, p: int, q: int, r: int)
    ensures d * (p * q + r) == (d * p) * q + d * r
  {
  }

  lemma BelowProduct(d: nat, p: nat, r: nat, t: nat)
    requires r < p && t < d
    ensures 0 <= d * r + t < d * p
  {
    MulMono(r, p - 1, d);
    assert r * d == d * r && (p - 1) * d == d * p - d;
  }

  /** The n-bit mask with its low k bits clear. */
  function HighMask(n: nat, k: nat): nat
    requires k <= n
  {
    if k < n then Pow2Mono(k, n); Pow2(n) - Pow2(k) else 0
  }

  /** `x & ~(2^k - 1)` under an n-bit mask clears the low k bits, and whatever lies above the mask. */
  lemma {:induction false} AndHighMask(x: nat, n: nat, k: nat)
    requires k <= n
    ensures And(x, HighMask(n, k)) == x % Pow2(n) - x % Pow2(k)
    decreases n
  {
    if k == 0 {
      AndLowMask(x, n);
    } else if x > 0 {
      var p, m := Pow2(k - 1), Pow2(n - 1);
      assert HighMask(n, k) == 2 * HighMask(n - 1, k - 1);
      AndHighMask(x / 2, n - 1, k - 1);
      HalveMod(x, p);
      HalveMod(x, m);
    } else {
      DivIs(0, Pow2(k), 0, 0);
      DivIs(0, Pow2(n), 0, 0);
    }
  }

  /** `x | d` adds when d fits below the lowest set bit of x. */
  lemma {:induction false} OrLow(x: nat, d: nat, k: nat)
    requires d < Pow2(k)
    ensures Or(x * Pow2(k), d) == x * Pow2(k) + d
    decreases k
  {
    if k == 0 {
      OrZero(x);
    } else {
      var p := Pow2(k - 1);
      assert x * Pow2(k) == 2 * (x * p);
      if x * Pow2(k) != 0 || d != 0 {
        OrLow(x, d / 2, k - 1);
        assert (x * Pow2(k)) / 2 == x * p;
      }
    }
  }

  lemma {:induction false} OrZero(x: nat)
    ensures Or(x, 0) == x
  {
    if x > 0 {
      OrZero(x / 2);
    }
  }

  lemma AndDouble(p: nat, x: nat)
    requires p > 0
    ensures And(2 * p, x) == 2 * And(p, x / 2)
  {
  }

  /** The single bit tested by `Pow2(k) & x`. */
  lemma {:induction false} AndSingleBit(x: nat, k: nat)
    ensures And(Pow2(k), x) == Pow2(k) * ((x / Pow2(k)) % 2)
    decreases k
  {
    if k == 0 {
      assert And(1, x) == (if x % 2 == 1 then 1 else 0) + 2 * And(0, x / 2);
      DivIs(x, 1, x, 0);
    } else {
      var p := Pow2(k - 1);
      AndSingleBit(x / 2, k - 1);
      HalveMod(x, p);
      var bit := (x / Pow2(k)) % 2;
      assert bit == ((x / 2) / p) % 2;
      AndDouble(p, x);
      MulShift(p, bit);
    }
  }
}
