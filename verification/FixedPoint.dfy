/** The fixed-point arithmetic of bore_sched.h: the base-2 logarithm, the burst
    penalty and the smoothing step, each written as the branch-free C computes it
    on wrapping words, and proved equal to what it is meant to compute. */
module FixedPoint {
  import opened Words

  const MAX_BURST_PENALTY: Word16 := 10239

  /** The largest value the logarithm takes on 64-bit words. */
  const LOG_MAX: Word16 := 16639

  /** From this offset on, the offset shifted by 8 does not fit a signed word. */
  const OFFSET_LIMIT := 0x80_0000

  /** The smallest scaled product at the cap: MAX_BURST_PENALTY * 1024. */
  const CAPPED_PRODUCT := 10_484_736

  /** The module parameters, all of C type `uint`. */
  datatype Tunables = Tunables(
    bore: Word32,
    inheritType: Word32,
    smoothness: Word32,
    offset: Word32,
    scale: Word32,
    lifetime: Word32)
  {
    /** The settings for which no word of `calc_burst_penalty` wraps. */
    predicate NoWrap() {
      && offset < OFFSET_LIMIT
      && NonNegative(LOG_MAX - 256 * offset) * scale < 0x1_0000_0000
    }

    /** C leaves a shift of a 32-bit word by 32 or more undefined. */
    predicate ShiftDefined() {
      smoothness < 32
    }
  }

  const DEFAULTS := Tunables(1, 2, 1, 24, 1536, 75_000_000)

  function NonNegative(x: int): nat {
    if x < 0 then 0 else x
  }

  // ---------------------------------------------------------------- logarithm

  /** The number of leading zeros of `v` in a word of `n` bits. */
  function LeadingZeros(v: nat, n: nat): (z: nat)
    ensures z <= n && (v > 0 && n > 0 ==> z < n)
  {
    if n == 0 || v >= Pow2(n - 1) then 0 else 1 + LeadingZeros(v, n - 1)
  }

  /** `__builtin_clzll`, undefined at 0. */
  function Clz64(v: Word64): (n: nat)
    requires v != 0
    ensures n < 64
  {
    LeadingZeros(v, 64)
  }

  /** The eight bits below the leading one of a word with `clz` leading zeros:
      a shift left by `clz`, by 1, and right by 56. */
  function Mantissa(v: Word64, clz: nat): Word32 {
    U32(U64(2 * Shl64(v, clz)) / 0x100_0000_0000_0000)
  }

  /** `log2p1_u64_u32fp(v, 8)`, the only precision the module uses. */
  function Log2p1(v: Word64): nat {
    if v == 0 then 0
    else
      var clz := Clz64(v);
      Or(256 * (64 - clz), Mantissa(v, clz))
  }

  lemma {:induction false} LeadingZerosOctave(v: nat, k: nat, n: nat)
    requires k < n && Pow2(k) <= v < Pow2(k + 1)
    ensures LeadingZeros(v, n) == n - 1 - k
  {
    if k < n - 1 {
      Pow2Mono(k + 1, n - 1);
      LeadingZerosOctave(v, k, n - 1);
    }
  }

  /** Every nonzero number lies in exactly one octave. */
  lemma {:induction false} OctaveOf(v: nat, n: nat) returns (k: nat)
    requires 0 < v < Pow2(n)
    ensures k < n && Pow2(k) <= v < Pow2(k + 1)
  {
    if v >= Pow2(n - 1) {
      k := n - 1;
    } else {
      k := OctaveOf(v, n - 1);
    }
  }

  lemma Octave64(v: Word64) returns (k: nat)
    requires v != 0
    ensures k < 64 && Pow2(k) <= v < Pow2(k + 1)
  {
    Pow2Constants();
    k := OctaveOf(v, 64);
  }

  lemma OctaveFits(k: nat, v: nat)
    requires k < 64 && v < Pow2(k + 1)
    ensures v < 0x1_0000_0000_0000_0000
  {
    Pow2Constants();
    Pow2Mono(k + 1, 64);
  }

  lemma ScaledInterval(p: nat, v: nat, c: nat)
    requires p <= v < 2 * p
    ensures p * c <= v * c && (c > 0 ==> v * c < 2 * (p * c))
  {
    ProductMono(p, v, c);
    ProductMono(v + 1, 2 * p, c);
    assert (v + 1) * c == v * c + c;
    assert (2 * p) * c == 2 * (p * c);
  }

  /** Shifting a word left by its leading zeros puts it in the top octave. */
  lemma Normalised(v: Word64, k: nat)
    requires k < 64 && Pow2(k) <= v < Pow2(k + 1)
    ensures v != 0 && Clz64(v) == 63 - k
    ensures 0x8000_0000_0000_0000 <= v * Pow2(63 - k) < 0x1_0000_0000_0000_0000
  {
    Pow2Constants();
    LeadingZerosOctave(v, k, 64);
    Pow2Add(k, 63 - k);
    ScaledInterval(Pow2(k), v, Pow2(63 - k));
  }

  /** Dropping the top bit of a normalised word and keeping eight more leaves the
      position inside the octave, in 256ths, rounded down. */
  lemma TopBitDropped(norm: Word64)
    requires 0x8000_0000_0000_0000 <= norm
    ensures U32(U64(2 * norm) / 0x100_0000_0000_0000) == 256 * norm / 0x8000_0000_0000_0000 - 256
    ensures 256 <= 256 * norm / 0x8000_0000_0000_0000 < 512
  {
  }

  lemma ShiftFits(v: Word64, clz: nat, norm: Word64)
    requires norm == v * Pow2(clz)
    ensures Shl64(v, clz) == norm
  {
    hide Pow2;
  }

  lemma MantissaNormalised(norm: Word64, v: Word64, clz: nat)
    requires 0x8000_0000_0000_0000 <= norm == v * Pow2(clz)
    ensures Mantissa(v, clz) == 256 * norm / 0x8000_0000_0000_0000 - 256
    ensures 256 <= 256 * norm / 0x8000_0000_0000_0000 < 512
  {
    hide Pow2, Shl64, U32, U64;
    ShiftFits(v, clz, norm);
    TopBitDropped(norm);
  }

  lemma DivByTop(a: nat)
    ensures Div(a, 0x8000_0000_0000_0000) == a / 0x8000_0000_0000_0000
  {
    hide Div;
    DivUnique(a, 0x8000_0000_0000_0000, a / 0x8000_0000_0000_0000, a % 0x8000_0000_0000_0000);
  }

  lemma PositionInOctave(v: nat, k: nat, norm: nat)
    requires k < 64 && norm == v * Pow2(63 - k)
    ensures 256 * norm / 0x8000_0000_0000_0000 == Div(256 * v, Pow2(k))
  {
    hide Div, Pow2;
    Pow2Constants();
    Pow2Add(k, 63 - k);
    DivScale(256 * v, Pow2(k), Pow2(63 - k));
    assert (256 * v) * Pow2(63 - k) == 256 * norm;
    DivByTop(256 * norm);
  }

  lemma ExponentAndMantissa(exponent: nat, mantissa: nat)
    requires exponent <= 64 && mantissa < 256
    ensures Or(256 * exponent, mantissa) == 256 * exponent + mantissa
  {
    hide Or, Pow2;
    Pow2Constants();
    OrDisjoint(exponent, mantissa, 8);
  }

  /** Inside the octave 2^k <= v < 2^(k+1) the logarithm is the straight line
      through the two end points, rounded down. */
  lemma LogOctave(v: Word64, k: nat)
    requires k < 64 && Pow2(k) <= v < Pow2(k + 1)
    ensures Log2p1(v) == 256 * k + Div(256 * v, Pow2(k))
    ensures 256 <= Div(256 * v, Pow2(k)) < 512
  {
    hide Div, Pow2, Or, Mantissa;
    Normalised(v, k);
    var norm := v * Pow2(63 - k);
    MantissaNormalised(norm, v, 63 - k);
    PositionInOctave(v, k, norm);
    ExponentAndMantissa(k + 1, Mantissa(v, 63 - k));
  }

  lemma LogOfZero()
    ensures Log2p1(0) == 0
  {
  }

  lemma LogRange(v: Word64)
    ensures Log2p1(v) <= LOG_MAX
    ensures v == 0 <==> Log2p1(v) == 0
    ensures Log2p1(v) == 0 || Log2p1(v) >= 256
  {
    hide Log2p1;
    if v != 0 {
      var k := Octave64(v);
      LogOctave(v, k);
    } else {
      LogOfZero();
    }
  }

  /** The logarithm is monotone over all 64-bit words. */
  lemma LogMonotone(v: Word64, w: Word64)
    requires v <= w
    ensures Log2p1(v) <= Log2p1(w)
  {
    hide Log2p1, Pow2, Div;
    if v == 0 {
      LogOfZero();
    } else {
      var k := Octave64(v);
      var m := Octave64(w);
      LogOctave(v, k);
      LogOctave(w, m);
      if k <= m {
        DivMono(256 * v, 256 * w, Pow2(k));
      } else {
        Pow2Mono(m + 1, k);
        assert false;
      }
    }
  }

  lemma Pow2Step(k: nat)
    ensures k > 0 ==> Pow2(k) == 2 * Pow2(k - 1)
    ensures k == 0 ==> Pow2(k) == 1
    ensures Pow2(k + 1) == 2 * Pow2(k)
  {
  }

  /** Doubling a burst adds one octave, exactly. */
  lemma LogDoubling(v: Word64)
    requires 0 < v && 2 * v < 0x1_0000_0000_0000_0000
    ensures Log2p1(2 * v) == Log2p1(v) + 256
  {
    hide Log2p1, Div, Pow2;
    var k := Octave64(2 * v);
    Pow2Step(k);
    LogOctave(v, k - 1);
    LogOctave(2 * v, k);
    DivDoubled(256 * v, Pow2(k - 1));
  }

  lemma DivDoubled(a: nat, p: nat)
    requires p > 0
    ensures Div(2 * a, 2 * p) == Div(a, p)
  {
    hide Div;
    DivScale(a, p, 2);
  }

  // ------------------------------------------------------------ burst penalty

  /** The part of `calc_burst_penalty` after the logarithm, on wrapping 32-bit
      words; `<< 8` and `>> 10` are written as the product and the quotient they are. */
  function PenaltyOfGreed(t: Tunables, greed: Word32): Word32 {
    var tolerance := U32(256 * t.offset);
    var penalty := ClampLow(U32(greed - tolerance));
    Capped(U32(penalty * t.scale) / 1024)
  }

  /** `x - max(0, x - MAX_BURST_PENALTY)`, with the maximum taken by a sign mask. */
  function Capped(scaledPenalty: Word32): Word32 {
    var overflow := U32(scaledPenalty - MAX_BURST_PENALTY);
    U32(scaledPenalty - ClampLow(overflow))
  }

  /** `calc_burst_penalty`. */
  function CalcBurstPenalty(t: Tunables, burstTime: Word64): Word32 {
    LogRange(burstTime);
    PenaltyOfGreed(t, Log2p1(burstTime))
  }

  /** The same penalty over the integers: nothing wraps and nothing is masked. */
  function IdealPenalty(t: Tunables, greed: nat): nat {
    var scaled := NonNegative(greed - 256 * t.offset) * t.scale;
    Min(MAX_BURST_PENALTY, scaled / 1024)
  }

  lemma CapMeaning(scaled: Word32)
    requires scaled < 0x40_0000
    ensures Capped(scaled) == Min(MAX_BURST_PENALTY, scaled)
  {
    hide ClampLow;
  }

  /** The cap holds for every burst time and every parameter setting, also when
      the shift of the offset or the product with the scale wraps. */
  lemma PenaltyCapped(t: Tunables, burstTime: Word64)
    ensures CalcBurstPenalty(t, burstTime) <= MAX_BURST_PENALTY
  {
    hide Log2p1, ClampLow, Capped;
    LogRange(burstTime);
    CapMeaning(U32(ClampLow(U32(Log2p1(burstTime) - U32(256 * t.offset))) * t.scale) / 1024);
  }

  lemma ToleranceMeaning(offset: Word32, greed: Word32)
    requires offset < OFFSET_LIMIT && greed <= LOG_MAX
    ensures ClampLow(U32(greed - U32(256 * offset))) == NonNegative(greed - 256 * offset)
  {
    hide ClampLow;
  }

  lemma SmallerProduct(penalty: nat, limit: nat, scale: nat)
    requires penalty <= limit && limit * scale < 0x1_0000_0000
    ensures 0 <= penalty * scale < 0x1_0000_0000
  {
    ProductMono(penalty, limit, scale);
    ProductMono(0, penalty, scale);
  }

  lemma CappedQuotient(product: nat)
    requires product < 0x1_0000_0000
    ensures Capped(U32(product) / 1024) == Min(MAX_BURST_PENALTY, product / 1024)
  {
    hide Capped;
    CapMeaning(product / 1024);
  }

  lemma GreedExact(t: Tunables, greed: nat)
    requires t.NoWrap() && greed <= LOG_MAX
    ensures PenaltyOfGreed(t, greed) == IdealPenalty(t, greed)
  {
    hide ClampLow, Capped, U32, Min;
    ToleranceMeaning(t.offset, greed);
    var penalty := NonNegative(greed - 256 * t.offset);
    SmallerProduct(penalty, NonNegative(LOG_MAX - 256 * t.offset), t.scale);
    CappedQuotient(penalty * t.scale);
  }

  lemma SignedTolerance(greed: Word32, offset: Word32)
    ensures ClampLow(U32(greed - U32(256 * offset))) ==
            var d := (greed - 256 * offset) % 0x1_0000_0000; if d < 0x8000_0000 then d else 0
  {
    hide ClampLow;
  }

  lemma CappedWord(product: nat)
    ensures var scaled := product % 0x1_0000_0000 / 1024;
            Capped(U32(product) / 1024) == if scaled <= 10239 then scaled else 10239
  {
    hide Capped;
    CapMeaning(product % 0x1_0000_0000 / 1024);
  }

  /** What the branch-free code computes for every word and every setting: the
      logarithm less the shifted offset, as a signed word not below 0, times the
      scale, cut to 32 bits, over 1024 and at most 10239. */
  lemma PenaltyMeaning(t: Tunables, burstTime: Word64)
    ensures var d := (Log2p1(burstTime) - 256 * t.offset) % 0x1_0000_0000;
            var above := if d < 0x8000_0000 then d else 0;
            var scaled := above * t.scale % 0x1_0000_0000 / 1024;
            CalcBurstPenalty(t, burstTime) == if scaled <= 10239 then scaled else 10239
  {
    hide Log2p1, ClampLow, Capped, U32;
    LogRange(burstTime);
    var greed := Log2p1(burstTime);
    SignedTolerance(greed, t.offset);
    var d := (greed - 256 * t.offset) % 0x1_0000_0000;
    var above := if d < 0x8000_0000 then d else 0;
    ProductMono(0, above, t.scale);
    CappedWord(above * t.scale);
  }

  /** In the range of settings that keeps every word small, over the integers. */
  lemma PenaltyInRange(t: Tunables, burstTime: Word64)
    requires t.offset < 0x80_0000 && t.scale <= 258126
    ensures var above := Log2p1(burstTime) - 256 * t.offset;
            var r := CalcBurstPenalty(t, burstTime);
            && (above <= 0 ==> r == 0)
            && (above > 0 ==> 1024 * r <= above * t.scale && (above * t.scale < 1024 * (r + 1) || r == 10239))
  {
    hide Log2p1, PenaltyOfGreed;
    LogRange(burstTime);
    NoWrapRange(t);
    PenaltyExact(t, burstTime);
    var above := Log2p1(burstTime) - 256 * t.offset;
    if above > 0 {
      ProductMono(0, above, t.scale);
      Quotient1024(above * t.scale);
    }
  }

  lemma Quotient1024(product: nat)
    ensures var q := product / 1024; 1024 * q <= product < 1024 * (q + 1)
  {
  }

  /** Without wrap-around the C computes the intended penalty. */
  lemma PenaltyExact(t: Tunables, burstTime: Word64)
    requires t.NoWrap()
    ensures CalcBurstPenalty(t, burstTime) == IdealPenalty(t, Log2p1(burstTime))
  {
    LogRange(burstTime);
    GreedExact(t, Log2p1(burstTime));
  }

  lemma IdealMonotone(t: Tunables, greed: nat, greed': nat)
    requires greed <= greed'
    ensures IdealPenalty(t, greed) <= IdealPenalty(t, greed')
  {
    ProductMono(NonNegative(greed - 256 * t.offset), NonNegative(greed' - 256 * t.offset), t.scale);
  }

  /** A longer burst never has a smaller penalty. */
  lemma PenaltyMonotone(t: Tunables, b: Word64, b': Word64)
    requires t.NoWrap() && b <= b'
    ensures CalcBurstPenalty(t, b) <= CalcBurstPenalty(t, b')
  {
    PenaltyExact(t, b);
    PenaltyExact(t, b');
    LogMonotone(b, b');
    IdealMonotone(t, Log2p1(b), Log2p1(b'));
  }

  /** An idle task has no penalty. */
  lemma PenaltyAtZero(t: Tunables)
    requires t.offset < OFFSET_LIMIT
    ensures CalcBurstPenalty(t, 0) == 0
  {
    hide ClampLow, Capped;
    LogOfZero();
    ToleranceMeaning(t.offset, 0);
    CapMeaning(0);
  }

  /** Any scale up to 258126 is safe with any offset below 2^23, and so are the defaults. */
  lemma NoWrapRange(t: Tunables)
    requires t.offset < OFFSET_LIMIT && t.scale <= 258126
    ensures t.NoWrap() && DEFAULTS.NoWrap()
  {
    ProductMono(NonNegative(LOG_MAX - 256 * t.offset), LOG_MAX, t.scale);
  }

  /** From 2304 on, every value up to LOG_MAX is the logarithm of some word. */
  lemma LogReaches(g: nat) returns (v: Word64)
    requires 2304 <= g <= LOG_MAX
    ensures Log2p1(v) == g
  {
    hide Log2p1, Pow2, Div;
    var k, m := g / 256 - 1, g % 256;
    var p := Pow2(k - 8);
    Pow2Constants();
    Pow2Sum(8, 256, k - 8, p);
    Pow2Step(k);
    var w := (256 + m) * p;
    ScaledInterval(256, 256 + m, p);
    OctaveFits(k, w);
    ProductMono(0, 256 + m, p);
    v := w;
    LogOctave(v, k);
    PointInOctave(m, p);
  }

  lemma PointInOctave(m: nat, p: nat)
    requires p > 0
    ensures Div(256 * ((256 + m) * p), 256 * p) == 256 + m
  {
    assert 256 * ((256 + m) * p) == (256 + m) * (256 * p);
    DivUnique(256 * ((256 + m) * p), 256 * p, 256 + m, 0);
  }

  ghost predicate PenaltyIsMonotone(t: Tunables) {
    forall b: Word64, b': Word64 :: b <= b' ==> CalcBurstPenalty(t, b) <= CalcBurstPenalty(t, b')
  }

  /** The settings the tick's early return relies on: a task at rest has no
      penalty, and a longer burst never has a smaller one. */
  ghost predicate Sound(t: Tunables) {
    CalcBurstPenalty(t, 0) == 0 && PenaltyIsMonotone(t)
  }

  lemma SoundAt(t: Tunables, b: Word64, b': Word64)
    requires Sound(t) && b <= b'
    ensures CalcBurstPenalty(t, 0) == 0 && CalcBurstPenalty(t, b) <= CalcBurstPenalty(t, b')
  {
    hide CalcBurstPenalty;
  }

  lemma NoWrapIsSound(t: Tunables)
    requires t.NoWrap()
    ensures Sound(t)
  {
    hide CalcBurstPenalty;
    PenaltyAtZero(t);
    forall b: Word64, b': Word64 | b <= b'
      ensures CalcBurstPenalty(t, b) <= CalcBurstPenalty(t, b')
    {
      PenaltyMonotone(t, b, b');
    }
  }

  lemma PenaltyOfProduct(t: Tunables, penalty: nat, product: nat)
    requires t.offset < OFFSET_LIMIT && penalty + 256 * t.offset <= LOG_MAX
    requires product == penalty * t.scale
    ensures PenaltyOfGreed(t, penalty + 256 * t.offset) == Min(MAX_BURST_PENALTY, U32(product) / 1024)
  {
    hide ClampLow, Capped;
    ToleranceMeaning(t.offset, penalty + 256 * t.offset);
    CapMeaning(U32(product) / 1024);
  }

  /** The first product that wraps falls below the cap, right after one that does not. */
  lemma WrapDrops(t: Tunables, penalty: nat)
    requires t.offset < OFFSET_LIMIT && t.scale <= CAPPED_PRODUCT
    requires 0 < penalty && penalty + 256 * t.offset <= LOG_MAX
    requires (penalty - 1) * t.scale < 0x1_0000_0000 <= penalty * t.scale
    ensures PenaltyOfGreed(t, penalty + 256 * t.offset) < MAX_BURST_PENALTY
    ensures PenaltyOfGreed(t, penalty - 1 + 256 * t.offset) == MAX_BURST_PENALTY
  {
    hide PenaltyOfGreed;
    var product := penalty * t.scale;
    assert (penalty - 1) * t.scale == product - t.scale;
    PenaltyOfProduct(t, penalty, product);
    PenaltyOfProduct(t, penalty - 1, product - t.scale);
  }

  lemma {:induction false} FirstWrap(scale: nat, n: nat) returns (penalty: nat)
    requires n * scale >= 0x1_0000_0000
    ensures 0 < penalty <= n && (penalty - 1) * scale < 0x1_0000_0000 <= penalty * scale
  {
    if n == 0 {
      assert false;
    } else if (n - 1) * scale >= 0x1_0000_0000 {
      penalty := FirstWrap(scale, n - 1);
    } else {
      penalty := n;
    }
  }

  /** The scales up to which a wrapped product is sure to fall below the cap, next
      to a product that some burst time has: MAX_BURST_PENALTY * 1024, or less for an offset
      so small that the gaps between the lowest logarithms come in. */
  predicate ModerateScale(t: Tunables) {
    t.scale <= CAPPED_PRODUCT && (t.offset >= 9 || t.scale <= 1_864_135)
  }

  lemma WrapIsHigh(t: Tunables, penalty: nat)
    requires ModerateScale(t) && penalty * t.scale >= 0x1_0000_0000
    ensures penalty - 1 + 256 * t.offset >= 2304
  {
    if t.offset < 9 && penalty <= 2304 {
      ProductMono(penalty, 2304, t.scale);
    }
  }

  /** For every offset below 2^23 and every moderate scale, the penalty is
      monotone in the burst time exactly when its arithmetic does not wrap. */
  lemma MonotoneIffNoWrap(t: Tunables)
    requires t.offset < OFFSET_LIMIT && ModerateScale(t)
    ensures t.NoWrap() <==> PenaltyIsMonotone(t)
  {
    hide CalcBurstPenalty;
    if t.NoWrap() {
      forall b: Word64, b': Word64 | b <= b'
        ensures CalcBurstPenalty(t, b) <= CalcBurstPenalty(t, b')
      {
        PenaltyMonotone(t, b, b');
      }
    } else {
      WrapBreaksMonotone(t);
    }
  }

  /** Where the product wraps, some burst has the full penalty and a longer one has less. */
  lemma LongerBurstEscapes(t: Tunables) returns (low: Word64, high: Word64)
    requires t.offset < OFFSET_LIMIT && ModerateScale(t) && !t.NoWrap()
    ensures low < high
    ensures CalcBurstPenalty(t, high) < CalcBurstPenalty(t, low) == MAX_BURST_PENALTY
  {
    hide Log2p1, PenaltyOfGreed;
    var penalty := FirstWrap(t.scale, NonNegative(LOG_MAX - 256 * t.offset));
    WrapIsHigh(t, penalty);
    WrapDrops(t, penalty);
    low := LogReaches(penalty - 1 + 256 * t.offset);
    high := LogReaches(penalty + 256 * t.offset);
    if low >= high {
      LogMonotone(high, low);
    }
  }

  lemma WrapBreaksMonotone(t: Tunables)
    requires t.offset < OFFSET_LIMIT && ModerateScale(t) && !t.NoWrap()
    ensures !PenaltyIsMonotone(t)
  {
    hide CalcBurstPenalty;
    var low, high := LongerBurstEscapes(t);
    assert CalcBurstPenalty(t, low) > CalcBurstPenalty(t, high);
  }

  /** Beyond the moderate scales wrapping need not show: at the largest scale of
      all every product of a positive penalty wraps to one above the cap. */
  lemma WrapMayHide(t: Tunables)
    requires t.offset == 0 && t.scale == 0xFFFF_FFFF
    ensures !t.NoWrap() && PenaltyIsMonotone(t)
  {
    hide CalcBurstPenalty;
    forall b: Word64, b': Word64 | b <= b'
      ensures CalcBurstPenalty(t, b) <= CalcBurstPenalty(t, b')
    {
      LogRange(b');
      PenaltyCapped(t, b);
      PenaltyAtZero(t);
      if b > 0 {
        LargestScale(t, b');
      }
    }
  }

  lemma LargestScale(t: Tunables, b: Word64)
    requires t.offset == 0 && t.scale == 0xFFFF_FFFF && b > 0
    ensures CalcBurstPenalty(t, b) == MAX_BURST_PENALTY
  {
    hide Log2p1, PenaltyOfGreed;
    LogRange(b);
    var g := Log2p1(b);
    PenaltyOfProduct(t, g, g * 0xFFFF_FFFF);
    NegatedWord(g);
  }

  lemma NegatedWord(g: nat)
    requires 0 < g <= LOG_MAX
    ensures U32(g * 0xFFFF_FFFF) == 0x1_0000_0000 - g
  {
    assert g * 0xFFFF_FFFF == (g - 1) * 0x1_0000_0000 + (0x1_0000_0000 - g);
  }

  function WrappedProduct(t: Tunables, penalty: nat): Word32 {
    U32(penalty * t.scale)
  }

  /** No product of a penalty that can occur wraps to one below the cap. */
  predicate StaysCapped(t: Tunables) {
    forall p: nat :: 0 < p <= LOG_MAX - 256 * t.offset ==> WrappedProduct(t, p) >= CAPPED_PRODUCT
  }

  lemma PenaltyBelow(t: Tunables, greed: nat)
    requires t.offset < OFFSET_LIMIT && greed <= LOG_MAX && greed <= 256 * t.offset
    ensures PenaltyOfGreed(t, greed) == 0
  {
    hide ClampLow, Capped;
    ToleranceMeaning(t.offset, greed);
    CapMeaning(0);
  }

  lemma PenaltyAbove(t: Tunables, b: Word64)
    requires t.offset < OFFSET_LIMIT
    ensures Log2p1(b) <= 256 * t.offset ==> CalcBurstPenalty(t, b) == 0
    ensures Log2p1(b) > 256 * t.offset ==>
              CalcBurstPenalty(t, b) ==
              Min(MAX_BURST_PENALTY, WrappedProduct(t, Log2p1(b) - 256 * t.offset) / 1024)
  {
    hide Log2p1, PenaltyOfGreed, U32;
    LogRange(b);
    var g := Log2p1(b);
    if g <= 256 * t.offset {
      PenaltyBelow(t, g);
    } else {
      PenaltyOfProduct(t, g - 256 * t.offset, (g - 256 * t.offset) * t.scale);
    }
  }

  /** From scale CAPPED_PRODUCT on, the smallest positive penalty is at the cap, and
      the penalty is monotone exactly when all others stay there. */
  lemma MonotoneIffStaysCapped(t: Tunables)
    requires 9 <= t.offset < OFFSET_LIMIT && t.scale >= CAPPED_PRODUCT
    ensures PenaltyIsMonotone(t) <==> StaysCapped(t)
  {
    hide CalcBurstPenalty, Log2p1;
    if StaysCapped(t) {
      forall b: Word64, b': Word64 | b <= b'
        ensures CalcBurstPenalty(t, b) <= CalcBurstPenalty(t, b')
      {
        CappedAbove(t, b, b');
      }
    }
    if PenaltyIsMonotone(t) {
      forall p: nat | 0 < p <= LOG_MAX - 256 * t.offset
        ensures WrappedProduct(t, p) >= CAPPED_PRODUCT
      {
        MonotoneStays(t, p);
      }
    }
  }

  lemma CappedAbove(t: Tunables, b: Word64, b': Word64)
    requires t.offset < OFFSET_LIMIT && StaysCapped(t) && b <= b'
    ensures CalcBurstPenalty(t, b) <= CalcBurstPenalty(t, b')
  {
    hide CalcBurstPenalty, Log2p1, WrappedProduct;
    LogMonotone(b, b');
    LogRange(b');
    PenaltyAbove(t, b);
    PenaltyAbove(t, b');
  }

  lemma MonotoneStays(t: Tunables, p: nat)
    requires 9 <= t.offset < OFFSET_LIMIT && t.scale >= CAPPED_PRODUCT && PenaltyIsMonotone(t)
    requires 0 < p <= LOG_MAX - 256 * t.offset
    ensures WrappedProduct(t, p) >= CAPPED_PRODUCT
  {
    assert WrappedProduct(t, 1) == t.scale;
    hide CalcBurstPenalty, Log2p1, WrappedProduct;
    var first := LogReaches(1 + 256 * t.offset);
    var v := LogReaches(p + 256 * t.offset);
    PenaltyAbove(t, first);
    PenaltyAbove(t, v);
    if first > v {
      LogMonotone(v, first);
    }
  }

  // A check of every setting: the logarithm takes each value from 2304 = Log2p1(256)
  // on, and below 256 there are 256 burst times to compare one after another.

  /** No step down between neighbours: a check by 14591 comparisons. */
  predicate GrowsByStep(t: Tunables) {
    && (forall v: nat :: v < 256 ==> CalcBurstPenalty(t, v) <= CalcBurstPenalty(t, v + 1))
    && (forall g: nat :: 2304 <= g < LOG_MAX ==> PenaltyOfGreed(t, g) <= PenaltyOfGreed(t, g + 1))
  }

  lemma LogAt256()
    ensures Log2p1(256) == 2304
  {
    hide Log2p1, Div;
    Pow2Constants();
    LogOctave(256, 8);
    DivUnique(256 * 256, 256, 256, 0);
  }

  lemma {:induction false} GreedsGrow(t: Tunables, g: nat, g': nat)
    requires GrowsByStep(t) && 2304 <= g <= g' <= LOG_MAX
    ensures PenaltyOfGreed(t, g) <= PenaltyOfGreed(t, g')
    decreases g' - g
  {
    hide PenaltyOfGreed, CalcBurstPenalty;
    if g < g' {
      GreedsGrow(t, g + 1, g');
    }
  }

  lemma {:induction false} ShortBurstsGrow(t: Tunables, v: nat, v': nat)
    requires GrowsByStep(t) && v <= v' <= 256
    ensures CalcBurstPenalty(t, v) <= CalcBurstPenalty(t, v')
    decreases v' - v
  {
    hide PenaltyOfGreed, CalcBurstPenalty;
    if v < v' {
      ShortBurstsGrow(t, v + 1, v');
    }
  }

  lemma LongBurstsGrow(t: Tunables, b: Word64, b': Word64)
    requires GrowsByStep(t) && 256 <= b <= b'
    ensures CalcBurstPenalty(t, b) <= CalcBurstPenalty(t, b')
  {
    hide Log2p1, PenaltyOfGreed, GrowsByStep;
    LogAt256();
    LogMonotone(256, b);
    LogMonotone(b, b');
    LogRange(b');
    GreedsGrow(t, Log2p1(b), Log2p1(b'));
  }

  lemma StepGrows(t: Tunables, g: nat)
    requires PenaltyIsMonotone(t) && 2304 <= g < LOG_MAX
    ensures PenaltyOfGreed(t, g) <= PenaltyOfGreed(t, g + 1)
  {
    hide Log2p1, PenaltyOfGreed;
    var b := LogReaches(g);
    var b' := LogReaches(g + 1);
    if b > b' {
      LogMonotone(b', b);
    }
    assert CalcBurstPenalty(t, b) <= CalcBurstPenalty(t, b');
  }

  /** For every setting whatsoever: monotone over all 64-bit burst times exactly
      when no step of the check goes down. */
  lemma MonotoneIffGrowsByStep(t: Tunables)
    ensures PenaltyIsMonotone(t) <==> GrowsByStep(t)
  {
    hide CalcBurstPenalty, PenaltyOfGreed;
    if GrowsByStep(t) {
      forall b: Word64, b': Word64 | b <= b'
        ensures CalcBurstPenalty(t, b) <= CalcBurstPenalty(t, b')
      {
        if b' <= 256 {
          ShortBurstsGrow(t, b, b');
        } else if 256 <= b {
          LongBurstsGrow(t, b, b');
        } else {
          ShortBurstsGrow(t, b, 256);
          LongBurstsGrow(t, 256, b');
        }
      }
    }
    if PenaltyIsMonotone(t) {
      forall g: nat | 2304 <= g < LOG_MAX
        ensures PenaltyOfGreed(t, g) <= PenaltyOfGreed(t, g + 1)
      {
        StepGrows(t, g);
      }
    }
  }

  // --------------------------------------------------------------- smoothing

  function IsGrowing(newVal: Word16, oldVal: Word16): int {
    if newVal > oldVal then 1 else 0
  }

  function SmoothedTowards(t: Tunables, newVal: Word16, oldVal: Word16): Word32
    requires t.ShiftDefined()
  {
    var increment := U32(U32(newVal - oldVal) * IsGrowing(newVal, oldVal));
    var shift := t.smoothness;
    U32(oldVal + Shr(U32(increment + Shl32(1, shift) - 1), shift))
  }

  /** `binary_smooth`: the two results are selected by masks. */
  function BinarySmooth(t: Tunables, newVal: Word16, oldVal: Word16): nat
    requires t.ShiftDefined()
  {
    var growing := U32(-IsGrowing(newVal, oldVal));
    Or(And(newVal, Not32(growing)), And(SmoothedTowards(t, newVal, oldVal), growing))
  }

  function CeilDiv(a: nat, b: nat): nat
    requires b > 0
  {
    Div(a + b - 1, b)
  }

  lemma {:induction false} CeilDivRange(a: nat, b: nat)
    requires b > 0
    ensures CeilDiv(a, b) <= a && (a > 0 ==> CeilDiv(a, b) > 0)
  {
    if a > 0 {
      if b == 1 {
        DivUnique(a, 1, a, 0);
      } else {
        CeilDivStep(a, b);
      }
    }
  }

  lemma {:induction false} CeilDivStep(a: nat, b: nat)
    requires a > 0 && b > 1
    ensures 0 < CeilDiv(a, b) <= a
  {
    if a > b {
      CeilDivStep(a - b, b);
      assert Div(a + b - 1, b) == 1 + Div(a - 1, b);
    } else {
      DivUnique(a + b - 1, b, 1, a - 1);
    }
  }

  lemma SmoothedWord(newVal: Word16, oldVal: Word16, s: nat)
    requires s < 32 && oldVal < newVal
    ensures U32(oldVal + Shr(U32(newVal - oldVal + Shl32(1, s) - 1), s)) == oldVal + CeilDiv(newVal - oldVal, Pow2(s))
    ensures CeilDiv(newVal - oldVal, Pow2(s)) <= newVal - oldVal
  {
    hide Div;
    StepWord(s);
    hide Pow2;
    CeilDivRange(newVal - oldVal, Pow2(s));
  }

  lemma StepWord(s: nat)
    requires s < 32
    ensures Shl32(1, s) == Pow2(s) <= 0x8000_0000
  {
    Pow2Constants();
    Pow2Mono(s, 31);
  }

  /** A falling penalty is taken at once; a growing one closes the 2^smoothness-th
      part of the gap, rounded up. */
  lemma SmoothMeaning(t: Tunables, newVal: Word16, oldVal: Word16)
    requires t.ShiftDefined()
    ensures BinarySmooth(t, newVal, oldVal) ==
            if newVal > oldVal then oldVal + CeilDiv(newVal - oldVal, Pow2(t.smoothness)) else newVal
  {
    hide And, Div, Pow2, Shr, Shl32;
    AndMask32(newVal);
    AndMask32(SmoothedTowards(t, newVal, oldVal));
    if newVal > oldVal {
      SmoothedWord(newVal, oldVal, t.smoothness);
    }
  }

  /** The step up is the smallest whole number that covers the gap 2^smoothness times. */
  lemma SmoothStep(t: Tunables, newVal: Word16, oldVal: Word16)
    requires t.ShiftDefined()
    ensures newVal <= oldVal ==> BinarySmooth(t, newVal, oldVal) == newVal
    ensures newVal > oldVal ==>
              var step := BinarySmooth(t, newVal, oldVal) - oldVal;
              (step - 1) * Pow2(t.smoothness) < newVal - oldVal <= step * Pow2(t.smoothness)
  {
    hide BinarySmooth, Div, Pow2;
    SmoothMeaning(t, newVal, oldVal);
    if newVal > oldVal {
      CeilDivBracket(newVal - oldVal, Pow2(t.smoothness));
    }
  }

  lemma CeilDivBracket(gap: nat, b: nat)
    requires b > 0
    ensures (CeilDiv(gap, b) - 1) * b < gap <= CeilDiv(gap, b) * b
  {
    hide Div;
    var r := DivParts(gap + b - 1, b);
    var q := Div(gap + b - 1, b);
    assert (q - 1) * b == q * b - b;
  }

  /** The smoothed value never overshoots the new penalty and never falls below
      both inputs; unless it has arrived it makes progress. */
  lemma SmoothBetween(t: Tunables, newVal: Word16, oldVal: Word16)
    requires t.ShiftDefined()
    ensures Min(newVal, oldVal) <= BinarySmooth(t, newVal, oldVal) <= newVal
    ensures BinarySmooth(t, newVal, oldVal) == newVal || oldVal < BinarySmooth(t, newVal, oldVal)
  {
    SmoothMeaning(t, newVal, oldVal);
    if newVal > oldVal {
      CeilDivRange(newVal - oldVal, Pow2(t.smoothness));
    }
  }

  /** The previous penalty after `n` bursts that all ended at penalty `c`. */
  function PrevAfter(t: Tunables, c: Word16, prev: Word16, n: nat): Word16
    requires t.ShiftDefined()
    decreases n
  {
    SmoothBetween(t, c, prev);
    if n == 0 then prev else PrevAfter(t, c, BinarySmooth(t, c, prev), n - 1)
  }

  /** Convergence: one burst when the target is not above, otherwise at most as
      many as the gap; then the value stays. */
  lemma {:induction false} SmoothConverges(t: Tunables, c: Word16, prev: Word16, n: nat)
    requires t.ShiftDefined() && n >= Max(1, c - prev)
    ensures PrevAfter(t, c, prev, n) == c
    decreases n
  {
    SmoothBetween(t, c, prev);
    var next := BinarySmooth(t, c, prev);
    if n > 1 {
      SmoothConverges(t, c, next, n - 1);
    }
  }

  lemma HalfStep(t: Tunables, c: Word16, prev: Word16)
    requires t.smoothness == 1 && prev <= c
    ensures prev <= BinarySmooth(t, c, prev) <= c
    ensures c - BinarySmooth(t, c, prev) == Div(c - prev, 2)
  {
    hide BinarySmooth, Div;
    SmoothMeaning(t, c, prev);
    Pow2Constants();
    var gap := c - prev;
    DivUnique(gap, 2, gap / 2, gap % 2);
    DivUnique(gap + 1, 2, (gap + 1) / 2, (gap + 1) % 2);
  }

  /** At smoothness 1 every burst halves the gap, rounding down. */
  lemma {:induction false} GapHalves(t: Tunables, c: Word16, prev: Word16, n: nat)
    requires t.smoothness == 1 && prev <= c
    ensures PrevAfter(t, c, prev, n) <= c
    ensures c - PrevAfter(t, c, prev, n) == Div(c - prev, Pow2(n))
    decreases n
  {
    if n == 0 {
      DivUnique(c - prev, 1, c - prev, 0);
    } else {
      HalfStep(t, c, prev);
      GapHalves(t, c, BinarySmooth(t, c, prev), n - 1);
      DivDiv(c - prev, 2, Pow2(n - 1));
    }
  }

  /** With the default smoothness fourteen bursts settle any penalty, and
      thirteen do not. */
  lemma FourteenBursts(t: Tunables, c: Word16, prev: Word16)
    requires t.smoothness == 1 && c <= MAX_BURST_PENALTY
    ensures PrevAfter(t, c, prev, 14) == c
    ensures PrevAfter(t, MAX_BURST_PENALTY, 0, 13) != MAX_BURST_PENALTY
  {
    Pow2Sum(7, 128, 7, 128);
    Pow2Sum(6, 64, 7, 128);
    GapHalves(t, MAX_BURST_PENALTY, 0, 13);
    DivUnique(MAX_BURST_PENALTY, 8192, 1, 2047);
    if prev <= c {
      GapHalves(t, c, prev, 14);
    } else {
      SmoothConverges(t, c, prev, 14);
    }
  }
}
