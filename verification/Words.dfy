/** Machine words of the C sources, as natural numbers with explicit wrap-around,
    and the bitwise operators the branch-free code is built from. */
module Words {

  type Word16 = x: int | 0 <= x < 0x1_0000
  type Word32 = x: int | 0 <= x < 0x1_0000_0000
  type Word64 = x: int | 0 <= x < 0x1_0000_0000_0000_0000

  function Min(a: int, b: int): int {
    if a < b then a else b
  }

  function Max(a: int, b: int): int {
    if a < b then b else a
  }

  // Conversions to an unsigned width; a negative argument wraps as in two's complement.
  function U16(x: int): Word16 {
    x % 0x1_0000
  }

  function U32(x: int): Word32 {
    x % 0x1_0000_0000
  }

  function U64(x: int): Word64 {
    x % 0x1_0000_0000_0000_0000
  }

  /** The signed reading of a 32-bit word. */
  function S32(w: Word32): int {
    if w < 0x8000_0000 then w else w - 0x1_0000_0000
  }

  // ------------------------------------------------- powers of two and division

  function Pow2(n: nat): (p: nat)
    ensures p > 0
  {
    if n == 0 then 1 else 2 * Pow2(n - 1)
  }

  lemma {:induction false} Pow2Add(m: nat, n: nat)
    ensures Pow2(m + n) == Pow2(m) * Pow2(n)
  {
    if m > 0 {
      Pow2Add(m - 1, n);
      assert Pow2(m + n) == 2 * Pow2((m - 1) + n);
    }
  }

  lemma {:induction false} Pow2Mono(m: nat, n: nat)
    requires m <= n
    ensures Pow2(m) <= Pow2(n)
  {
    if m < n {
      Pow2Mono(m, n - 1);
    }
  }

  lemma Pow2Sum(m: nat, p: nat, n: nat, q: nat)
    requires Pow2(m) == p && Pow2(n) == q
    ensures Pow2(m + n) == p * q
  {
    Pow2Add(m, n);
  }

  lemma Pow2Constants()
    ensures Pow2(1) == 2 && Pow2(8) == 0x100 && Pow2(10) == 0x400 && Pow2(16) == 0x1_0000
    ensures Pow2(31) == 0x8000_0000 && Pow2(32) == 0x1_0000_0000 && Pow2(48) == 0x1_0000_0000_0000
    ensures Pow2(56) == 0x100_0000_0000_0000
    ensures Pow2(63) == 0x8000_0000_0000_0000 && Pow2(64) == 0x1_0000_0000_0000_0000
  {
    Pow2Sum(8, 0x100, 2, 4);
    Pow2Sum(8, 0x100, 8, 0x100);
    Pow2Sum(16, 0x1_0000, 16, 0x1_0000);
    Pow2Sum(32, 0x1_0000_0000, 16, 0x1_0000);
    Pow2Sum(48, 0x1_0000_0000_0000, 8, 0x100);
    Pow2Sum(56, 0x100_0000_0000_0000, 8, 0x100);
    assert Pow2(32) == 2 * Pow2(31);
    assert Pow2(64) == 2 * Pow2(63);
  }

  lemma ProductMono(a: nat, b: nat, c: nat)
    requires a <= b
    ensures a * c <= b * c
  {
  }

  lemma Products(a: nat, b: nat, c: nat, d: nat)
    requires a <= b && c <= d
    ensures a * c <= b * d
  {
    ProductMono(a, b, c);
    ProductMono(c, d, b);
  }

  /** Truncating division of naturals. */
  function Div(a: nat, d: nat): nat
    requires d > 0
  {
    if a < d then 0 else 1 + Div(a - d, d)
  }

  lemma {:induction false} DivParts(a: nat, d: nat) returns (r: nat)
    requires d > 0
    ensures r < d && a == Div(a, d) * d + r
    decreases a
  {
    if a < d {
      r := a;
    } else {
      r := DivParts(a - d, d);
      var q := Div(a - d, d);
      assert (q + 1) * d == q * d + d;
    }
  }

  lemma {:induction false} DivUnique(a: nat, d: nat, q: nat, r: nat)
    requires d > 0 && r < d && a == q * d + r
    ensures Div(a, d) == q
    decreases q
  {
    if q > 0 {
      assert q * d == (q - 1) * d + d;
      ProductMono(0, q - 1, d);
      DivUnique(a - d, d, q - 1, r);
    }
  }

  lemma {:induction false} DivMono(a: nat, b: nat, d: nat)
    requires a <= b && d > 0
    ensures Div(a, d) <= Div(b, d)
    decreases b
  {
    if a >= d {
      DivMono(a - d, b - d, d);
    }
  }

  lemma DivScale(a: nat, b: nat, c: nat)
    requires b > 0 && c > 0
    ensures b * c > 0 && Div(a * c, b * c) == Div(a, b)
  {
    var r := DivParts(a, b);
    var q := Div(a, b);
    ProductMono(1, b, c);
    ProductMono(r + 1, b, c);
    assert (r + 1) * c == r * c + c;
    assert (q * b + r) * c == q * (b * c) + r * c;
    DivUnique(a * c, b * c, q, r * c);
  }

  lemma RemainderOfQuotient(b: nat, d: nat, q: nat, r': nat, r: nat)
    requires r' < d && r < b
    ensures (q * d + r') * b + r == q * (b * d) + (r' * b + r)
    ensures 0 <= r' * b + r < b * d
  {
    ProductMono(r' + 1, d, b);
    assert (r' + 1) * b == r' * b + b;
    assert (q * d + r') * b == q * (b * d) + r' * b;
  }

  lemma DivOfParts(a: nat, b: nat, d: nat, q: nat, r: nat, q': nat, r': nat)
    requires r < b && r' < d && a == q * b + r && q == q' * d + r'
    ensures b * d > 0 && Div(a, b * d) == q'
  {
    RemainderOfQuotient(b, d, q', r', r);
    DivUnique(a, b * d, q', r' * b + r);
  }

  lemma DivDiv(a: nat, b: nat, d: nat)
    requires b > 0 && d > 0
    ensures b * d > 0 && Div(Div(a, b), d) == Div(a, b * d)
  {
    var q := Div(a, b);
    var r := DivParts(a, b);
    var r' := DivParts(q, d);
    DivOfParts(a, b, d, q, r, Div(q, d), r');
  }

  // ------------------------------------------------------- shifts and bitwise ops

  // Shifts of an unsigned word: bits shifted out of the top are lost.
  function Shl32(x: nat, n: nat): Word32 {
    U32(x * Pow2(n))
  }

  function Shl64(x: nat, n: nat): Word64 {
    U64(x * Pow2(n))
  }

  function Shr(x: nat, n: nat): nat {
    Div(x, Pow2(n))
  }

  /** Bitwise and, one bit at a time. */
  function And(x: nat, y: nat): nat {
    if x == 0 || y == 0 then 0
    else (if x % 2 == 1 && y % 2 == 1 then 1 else 0) + 2 * And(x / 2, y / 2)
  }

  /** Bitwise or, one bit at a time. */
  function Or(x: nat, y: nat): nat {
    if x == 0 then y
    else if y == 0 then x
    else (if x % 2 == 1 || y % 2 == 1 then 1 else 0) + 2 * Or(x / 2, y / 2)
  }

  /** Bitwise complement of a 32-bit word. */
  function Not32(x: Word32): Word32 {
    0xFFFF_FFFF - x
  }

  /** `x >> 31` on a signed 32-bit value, as a word: all ones when the sign bit is set. */
  function SignMask(x: Word32): Word32 {
    if x < 0x8000_0000 then 0 else 0xFFFF_FFFF
  }

  lemma {:induction false} AndOnes(x: nat, n: nat)
    requires x < Pow2(n)
    ensures And(x, Pow2(n) - 1) == x
  {
    if x != 0 {
      assert (Pow2(n) - 1) / 2 == Pow2(n - 1) - 1;
      AndOnes(x / 2, n - 1);
    }
  }

  /** A word masked by all ones is itself; masked by zero it vanishes. */
  lemma AndMask32(x: Word32)
    ensures And(x, 0xFFFF_FFFF) == x && And(x, 0) == 0
  {
    Pow2Constants();
    AndOnes(x, 32);
  }

  /** Or of disjoint bit ranges is addition. */
  lemma {:induction false} OrDisjoint(hi: nat, lo: nat, n: nat)
    requires lo < Pow2(n)
    ensures Or(hi * Pow2(n), lo) == hi * Pow2(n) + lo
  {
    if n > 0 && hi != 0 && lo != 0 {
      var x := hi * Pow2(n - 1);
      assert hi * Pow2(n) == 2 * x;
      ProductMono(1, Pow2(n - 1), hi);
      OrDisjoint(hi, lo / 2, n - 1);
    }
  }

  /** `x & ~(x >> 31)`: the negative half of the signed range becomes zero. */
  function ClampLow(x: Word32): (r: Word32)
    ensures r == Max(S32(x), 0)
  {
    AndMask32(x);
    And(x, Not32(SignMask(x)))
  }

  /** `x & (x >> 31)`: the positive half of the signed range becomes zero. */
  function NegativePart(x: Word32): (r: Word32)
    ensures S32(r) == Min(S32(x), 0)
  {
    AndMask32(x);
    And(x, SignMask(x))
  }
}
