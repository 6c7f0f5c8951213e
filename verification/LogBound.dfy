/** The fixed-point logarithm never over-estimates the true one: with eight
    fraction bits, 2^(Log2p1(v) - 256) <= v^256 for every nonzero 64-bit word. */
module LogBound {
  import opened Words
  import opened FixedPoint

  function Pow(b: nat, n: nat): nat {
    if n == 0 then 1 else b * Pow(b, n - 1)
  }

  lemma {:induction false} PowAdd(b: nat, m: nat, n: nat)
    ensures Pow(b, m + n) == Pow(b, m) * Pow(b, n)
  {
    if m > 0 {
      PowAdd(b, m - 1, n);
      assert Pow(b, m + n) == b * Pow(b, (m - 1) + n);
      assert (b * Pow(b, m - 1)) * Pow(b, n) == b * (Pow(b, m - 1) * Pow(b, n));
    }
  }

  lemma {:induction false} PowProduct(a: nat, b: nat, n: nat)
    ensures Pow(a * b, n) == Pow(a, n) * Pow(b, n)
  {
    if n > 0 {
      PowProduct(a, b, n - 1);
      Interchange(a, b, Pow(a, n - 1), Pow(b, n - 1));
    }
  }

  lemma Interchange(a: nat, b: nat, c: nat, d: nat)
    ensures (a * b) * (c * d) == (a * c) * (b * d)
  {
  }

  lemma {:induction false} PowMono(a: nat, b: nat, n: nat)
    requires a <= b
    ensures Pow(a, n) <= Pow(b, n)
  {
    if n > 0 {
      PowMono(a, b, n - 1);
      Products(a, b, Pow(a, n - 1), Pow(b, n - 1));
    }
  }

  lemma {:induction false} PowOfPow2(k: nat, n: nat)
    ensures Pow(Pow2(k), n) == Pow2(k * n)
  {
    if n > 0 {
      PowOfPow2(k, n - 1);
      Pow2Add(k, k * (n - 1));
      assert k * n == k + k * (n - 1);
    }
  }

  lemma {:induction false} PowPositive(b: nat, n: nat)
    requires b > 0
    ensures Pow(b, n) > 0
  {
    if n > 0 {
      PowPositive(b, n - 1);
      ProductMono(1, b, Pow(b, n - 1));
    }
  }

  /** 4xy <= (x + y)^2. */
  lemma SquareOfSum(x: nat, y: nat)
    ensures 4 * (x * y) <= (x + y) * (x + y)
  {
    var d := x - y;
    assert d * d >= 0;
    assert (x + y) * (x + y) == x * x + 2 * (x * y) + y * y;
    assert d * d == x * x - 2 * (x * y) + y * y;
  }

  /** A chord of 2^x lies above the curve, at the m-th of n = 2^j equal steps:
      2^m <= (1 + m/n)^n.  The proof halves n, as in the inequality of the
      arithmetic and geometric means. */
  lemma {:induction false} ChordAbove(j: nat, m: nat)
    requires m <= Pow2(j)
    ensures Pow(Pow2(j), Pow2(j)) * Pow2(m) <= Pow(Pow2(j) + m, Pow2(j))
    decreases j
  {
    hide Pow;
    if j == 0 {
      ChordBase(m);
    } else {
      var n := Pow2(j - 1);
      var m1, m2 := m / 2, m - m / 2;
      ChordAbove(j - 1, m1);
      ChordAbove(j - 1, m2);
      ChordStep(n, m1, m2);
    }
  }

  lemma ChordBase(m: nat)
    requires m <= 1
    ensures Pow(1, 1) * Pow2(m) <= Pow(1 + m, 1)
  {
    assert Pow(1, 1) == 1 && Pow(2, 1) == 2;
  }

  lemma ChordStep(n: nat, m1: nat, m2: nat)
    requires Pow(n, n) * Pow2(m1) <= Pow(n + m1, n)
    requires Pow(n, n) * Pow2(m2) <= Pow(n + m2, n)
    ensures Pow(2 * n, 2 * n) * Pow2(m1 + m2) <= Pow(2 * n + m1 + m2, 2 * n)
  {
    hide Pow, Pow2;
    var x, y, p := n + m1, n + m2, Pow(n, n);
    Pow2Add(m1, m2);
    // (2n)^(2n) == 4^n * n^n * n^n
    EvenPower(2 * n, n);
    PowProduct(4, n * n, n);
    PowProduct(n, n, n);
    assert (2 * n) * (2 * n) == 4 * (n * n);
    // the two halves multiplied
    Products(p * Pow2(m1), Pow(x, n), p * Pow2(m2), Pow(y, n));
    Interchange(p, Pow2(m1), p, Pow2(m2));
    PowProduct(x, y, n);
    // 4xy <= (x + y)^2
    PowProduct(4, x * y, n);
    SquareOfSum(x, y);
    PowMono(4 * (x * y), (x + y) * (x + y), n);
    EvenPower(x + y, n);
    ProductMono((p * p) * (Pow2(m1) * Pow2(m2)), Pow(x * y, n), Pow(4, n));
    assert Pow(4, n) * ((p * p) * (Pow2(m1) * Pow2(m2))) == (Pow(4, n) * (p * p)) * (Pow2(m1) * Pow2(m2)) by {
      Associative(Pow(4, n), p * p, Pow2(m1) * Pow2(m2));
    }
  }

  lemma Associative(a: nat, b: nat, c: nat)
    ensures a * (b * c) == (a * b) * c
  {
  }

  lemma EvenPower(b: nat, n: nat)
    ensures Pow(b, 2 * n) == Pow(b * b, n)
  {
    hide Pow;
    PowAdd(b, n, n);
    PowProduct(b, b, n);
  }

  /** The estimate inside one octave, cleared of denominators. */
  lemma OctaveBound(v: nat, k: nat, m: nat, n: nat)
    requires n == Pow2(8) && m <= n
    requires Pow2(k) * (n + m) <= n * v
    ensures Pow2(n * k + m) <= Pow(v, n)
  {
    hide Pow, Pow2;
    PowMono(Pow2(k) * (n + m), n * v, n);
    PowProduct(Pow2(k), n + m, n);
    PowProduct(n, v, n);
    PowOfPow2(k, n);
    assert k * n == n * k;
    Pow2Add(n * k, m);
    ChordAbove(8, m);
    var a, b, c := Pow(n, n), Pow2(n * k), Pow2(m);
    ProductMono(a * c, Pow(n + m, n), b);
    Rotate(a, b, c);
    Pow2Constants();
    PowPositive(n, n);
    Cancel(a, b * c, Pow(v, n));
  }

  lemma Rotate(a: nat, b: nat, c: nat)
    ensures b * (a * c) == a * (b * c)
  {
  }

  lemma StrictProduct(a: nat, x: nat, y: nat)
    requires a > 0 && x > y
    ensures a * x > a * y
  {
  }

  lemma Cancel(a: nat, x: nat, y: nat)
    requires a > 0 && a * x <= a * y
    ensures x <= y
  {
    if x > y {
      StrictProduct(a, x, y);
    }
  }

  /** For every nonzero word with logarithm g: 2^(g - 256) <= v^256. */
  lemma LogNeverOver(v: Word64)
    requires v != 0
    ensures Log2p1(v) >= 256
    ensures Pow2(Log2p1(v) - 256) <= Pow(v, 256)
  {
    hide Pow, Pow2, Log2p1, Div;
    var k := Octave64(v);
    LogOctave(v, k);
    Pow2Constants();
    var d := Div(256 * v, Pow2(k));
    var r := DivParts(256 * v, Pow2(k));
    assert Pow2(k) * (256 + (d - 256)) <= 256 * v;
    OctaveBound(v, k, d - 256, 256);
  }
}
