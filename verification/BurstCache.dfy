/** The packed burst caches of bore_ctx: reciprocal division, the 48+16 bit word,
    expiry, the bounded sample of tasks, and how often a cache can be rescanned. */
module BurstCache {
  import opened Words
  import opened FixedPoint

  const SAMPLE_LIMIT: nat := 63
  const SCAN_LIMIT: nat := 126

  // ------------------------------------------------------- division by reciprocal

  /** Entry `i` of `bore_reciprocal_lut`: 2^32 / i rounded up, cut to 32 bits.
      The entry at 0 is never written and stays zero. */
  function Reciprocal(i: nat): Word32 {
    if i == 0 then 0 else U32(Div(0xFFFF_FFFF + i, i))
  }

  /** The average as `update_burst_cache` computes it, given the table entry. */
  function AverageByReciprocal(count: nat, total: Word32, entry: Word32): Word32 {
    if count == 1 then total else U32(U64(total * entry) / 0x1_0000_0000)
  }

  /** The mean rounded down, 0 for no samples. */
  function Mean(count: nat, total: nat): nat {
    if count == 0 then 0 else Div(total, count)
  }

  lemma CeilingOfReciprocal(i: nat) returns (e: nat)
    requires i >= 2
    ensures e < i && Reciprocal(i) * i == 0x1_0000_0000 + e && Reciprocal(i) <= 0x8000_0000
  {
    hide Div;
    var n := 0xFFFF_FFFF + i;
    var r := DivParts(n, i);
    var q := Div(n, i);
    e := i - 1 - r;
    if q > 0x8000_0000 {
      ProductMono(0x8000_0001, q, i);
    }
  }

  lemma QuotientBracket(count: nat, total: nat, entry: nat, e: nat, q: nat, r: nat)
    requires count >= 2 && r < count && total == q * count + r
    requires entry * count == 0x1_0000_0000 + e && total * e < 0x1_0000_0000
    ensures q * 0x1_0000_0000 <= total * entry < (q + 1) * 0x1_0000_0000
  {
    var n := total * entry;
    assert n * count == total * (entry * count);
    assert total * (0x1_0000_0000 + e) == total * 0x1_0000_0000 + total * e;
    ProductMono(0, total, e);
    BracketBySides(count, n, q * 0x1_0000_0000, (q + 1) * 0x1_0000_0000, q, r, total * e);
  }

  lemma BracketBySides(count: nat, n: nat, low: nat, high: nat, q: nat, r: nat, te: nat)
    requires count >= 2 && r < count && te < 0x1_0000_0000
    requires low == q * 0x1_0000_0000 && high == low + 0x1_0000_0000
    requires n * count == (q * count + r) * 0x1_0000_0000 + te
    ensures low <= n < high
  {
    assert n * count == low * count + r * 0x1_0000_0000 + te;
    assert high * count == low * count + count * 0x1_0000_0000;
    if n < low {
      ProductMono(n + 1, low, count);
    }
    if n >= high {
      ProductMono(high, n, count);
    }
  }

  lemma TotalBounds(count: nat, total: nat, e: nat)
    requires 2 <= count <= SAMPLE_LIMIT && total <= 0xFFFF * count && e < count
    ensures total * e < 0x1_0000_0000
    ensures total <= 0xFFFF * 63
  {
    ProductMono(total, 0xFFFF * 63, e);
  }

  /** Multiplying by the table entry and shifting is exact division, for every
      count the scans produce and every total of 16-bit penalties; the 64-bit
      product does not overflow.  The entry at 1 is zero: one sample needs its
      own case. */
  lemma ReciprocalIsDivision(count: nat, total: Word32)
    requires count <= SAMPLE_LIMIT && total <= 0xFFFF * count
    ensures total * Reciprocal(count) < 0x1_0000_0000_0000_0000
    ensures AverageByReciprocal(count, total, Reciprocal(count)) == Mean(count, total)
    ensures Reciprocal(1) == 0 && Reciprocal(0) == 0
  {
    hide Div, Reciprocal;
    ReciprocalEnds();
    var n := total * Reciprocal(count);
    if count == 0 {
      assert n == 0;
    } else if count == 1 {
      DivUnique(total, 1, total, 0);
    } else {
      BracketOfTotal(count, total, n);
      HighWord(n, Mean(count, total));
    }
  }

  lemma ReciprocalEnds()
    ensures Reciprocal(0) == 0 && Reciprocal(1) == 0
  {
    hide Div;
    DivUnique(0x1_0000_0000, 1, 0x1_0000_0000, 0);
  }

  lemma HighWord(n: nat, q: nat)
    requires n < 0x1_0000_0000_0000_0000
    requires q * 0x1_0000_0000 <= n < (q + 1) * 0x1_0000_0000
    ensures U32(U64(n) / 0x1_0000_0000) == q
  {
  }

  lemma BracketOfTotal(count: nat, total: Word32, n: nat)
    requires 2 <= count <= SAMPLE_LIMIT && total <= 0xFFFF * count
    requires n == total * Reciprocal(count)
    ensures n < 0x1_0000_0000_0000_0000
    ensures Mean(count, total) * 0x1_0000_0000 <= n < (Mean(count, total) + 1) * 0x1_0000_0000
  {
    hide Div, Reciprocal;
    var e := CeilingOfReciprocal(count);
    TotalBounds(count, total, e);
    var r := DivParts(total, count);
    QuotientBracket(count, total, Reciprocal(count), e, Div(total, count), r);
    Products(total, 0xFFFF * 63, Reciprocal(count), 0x8000_0000);
  }

  /** The mean is the total over the count, rounded down. */
  lemma MeanMeaning(count: nat, total: nat)
    ensures count == 0 ==> Mean(count, total) == 0
    ensures count > 0 ==> Mean(count, total) * count <= total < (Mean(count, total) + 1) * count
  {
    hide Div;
    if count > 0 {
      var r := DivParts(total, count);
      assert (Div(total, count) + 1) * count == Div(total, count) * count + count;
    }
  }

  lemma MeanAtMost(count: nat, total: nat, bound: nat)
    requires total <= bound * count
    ensures Mean(count, total) <= bound
  {
    hide Div;
    if count > 0 {
      var r := DivParts(total, count);
      var q := Div(total, count);
      if q > bound {
        ProductMono(bound + 1, q, count);
      }
    }
  }

  // ------------------------------------------------------------- the packed word

  /** `struct bore_bc`: 48 bits of timestamp below 16 bits of penalty. */
  function Pack(timestamp: nat, penalty: Word16): Word64
    requires timestamp < 0x1_0000_0000_0000
  {
    penalty * 0x1_0000_0000_0000 + timestamp
  }

  function TimestampOf(word: Word64): (ts: nat)
    ensures ts < 0x1_0000_0000_0000
  {
    word % 0x1_0000_0000_0000
  }

  function PenaltyOf(word: Word64): Word16 {
    word / 0x1_0000_0000_0000
  }

  /** Both fields survive packing, and a word is nothing but its two fields. */
  lemma PackRoundTrip(timestamp: nat, penalty: Word16, word: Word64)
    requires timestamp < 0x1_0000_0000_0000
    ensures TimestampOf(Pack(timestamp, penalty)) == timestamp
    ensures PenaltyOf(Pack(timestamp, penalty)) == penalty
    ensures Pack(TimestampOf(word), PenaltyOf(word)) == word
    ensures word == PenaltyOf(word) * 0x1_0000_0000_0000 + TimestampOf(word)
  {
  }

  /** `burst_cache_expired`: the subtraction is on unsigned 64-bit words. */
  predicate Expired(t: Tunables, word: Word64, now: Word64) {
    U64(now - U64(TimestampOf(word) * 0x1_0000)) > t.lifetime
  }

  /** A cache is expired when its time, in units of 2^16 ns, is more than one
      lifetime ago, in the arithmetic of 64-bit words. */
  lemma ExpiredMeaning(t: Tunables, word: Word64, now: Word64)
    ensures Expired(t, word, now) <==>
            (now - TimestampOf(word) * 0x1_0000) % 0x1_0000_0000_0000_0000 > t.lifetime
    ensures TimestampOf(word) * 0x1_0000 <= now ==>
              (Expired(t, word, now) <==> now - TimestampOf(word) * 0x1_0000 > t.lifetime)
  {
  }

  // ----------------------------------------------------------- the bounded sample

  /** What a scan sees of a task. */
  datatype Candidate = Candidate(eligible: bool, penalty: Word16)

  function Eligible(cs: seq<Candidate>): (ps: seq<Word16>)
    ensures |ps| <= |cs|
  {
    if cs == [] then []
    else Eligible(cs[..|cs| - 1]) + (if cs[|cs| - 1].eligible then [cs[|cs| - 1].penalty] else [])
  }

  function Take<X>(n: nat, xs: seq<X>): seq<X> {
    if |xs| <= n then xs else xs[..n]
  }

  /** The first 63 eligible among the first 126 scanned. */
  function Sample(cs: seq<Candidate>): (ps: seq<Word16>)
    ensures |ps| <= SAMPLE_LIMIT
  {
    Take(SAMPLE_LIMIT, Eligible(Take(SCAN_LIMIT, cs)))
  }

  function Sum(ps: seq<Word16>): nat {
    if ps == [] then 0 else Sum(ps[..|ps| - 1]) + ps[|ps| - 1]
  }

  lemma {:induction false} EligiblePrefix(cs: seq<Candidate>, i: nat)
    requires i <= |cs|
    ensures Eligible(cs[..i]) <= Eligible(cs)
  {
    if i < |cs| {
      EligiblePrefix(cs[..|cs| - 1], i);
      assert cs[..|cs| - 1][..i] == cs[..i];
    } else {
      assert cs[..i] == cs;
    }
  }

  /** One step of a scan. */
  lemma ScanStep(cs: seq<Candidate>, i: nat)
    requires i < |cs|
    ensures Eligible(cs[..i + 1]) ==
            Eligible(cs[..i]) + (if cs[i].eligible then [cs[i].penalty] else [])
    ensures Sum(Eligible(cs[..i + 1])) ==
            Sum(Eligible(cs[..i])) + (if cs[i].eligible then cs[i].penalty else 0)
  {
    var next := cs[..i + 1];
    assert next[..|next| - 1] == cs[..i];
    var ps := Eligible(cs[..i]);
    if cs[i].eligible {
      var qs := ps + [cs[i].penalty];
      assert qs[..|qs| - 1] == ps;
    } else {
      assert ps + [] == ps;
    }
  }

  /** A scan that stops at either limit, or at the end of the list, has seen the sample. */
  lemma ScanDone(cs: seq<Candidate>, i: nat)
    requires i <= |cs| && i <= SCAN_LIMIT && |Eligible(cs[..i])| <= SAMPLE_LIMIT
    requires i == |cs| || i == SCAN_LIMIT || |Eligible(cs[..i])| == SAMPLE_LIMIT
    ensures Sample(cs) == Eligible(cs[..i])
  {
    var scanned := Take(SCAN_LIMIT, cs);
    assert scanned[..i] == cs[..i];
    EligiblePrefix(scanned, i);
    if i == |scanned| {
      assert scanned[..i] == scanned;
    }
  }

  lemma {:induction false} SumSplits(ps: seq<Word16>, qs: seq<Word16>)
    ensures Sum([]) == 0 && (|ps| == 1 ==> Sum(ps) == ps[0])
    ensures Sum(ps + qs) == Sum(ps) + Sum(qs)
    decreases |qs|
  {
    assert |ps| == 1 ==> ps[..0] == [];
    if qs == [] {
      assert ps + qs == ps;
    } else {
      var rest := qs[..|qs| - 1];
      assert (ps + qs)[..|ps + qs| - 1] == ps + rest;
      SumSplits(ps, rest);
    }
  }

  lemma {:induction false} SumAtMost(ps: seq<Word16>, bound: nat)
    requires forall i :: 0 <= i < |ps| ==> ps[i] <= bound
    ensures Sum(ps) <= bound * |ps|
  {
    if ps != [] {
      var rest := ps[..|ps| - 1];
      SumAtMost(rest, bound);
      assert bound * |ps| == bound * |rest| + bound;
    }
  }

  lemma SumFits(ps: seq<Word16>)
    ensures Sum(ps) <= 0xFFFF * |ps|
  {
    SumAtMost(ps, 0xFFFF);
  }

  lemma {:induction false} EligibleFrom(cs: seq<Candidate>, k: nat) returns (j: nat)
    requires k < |Eligible(cs)|
    ensures j < |cs| && cs[j].eligible && cs[j].penalty == Eligible(cs)[k]
  {
    var rest := cs[..|cs| - 1];
    if k < |Eligible(rest)| {
      j := EligibleFrom(rest, k);
    } else {
      j := |cs| - 1;
    }
  }

  /** The sampled penalties are penalties of eligible tasks on the list. */
  lemma SampleFrom(cs: seq<Candidate>, k: nat) returns (j: nat)
    requires k < |Sample(cs)|
    ensures j < |cs| && cs[j].eligible && cs[j].penalty == Sample(cs)[k]
  {
    j := EligibleFrom(Take(SCAN_LIMIT, cs), k);
  }

  /** The eligible positions below `i`. */
  function EligibleBelow(cs: seq<Candidate>, i: nat): set<nat>
    requires i <= |cs|
  {
    set j: nat | j < i && cs[j].eligible
  }

  lemma {:induction false} EligibleCount(cs: seq<Candidate>, i: nat)
    requires i <= |cs|
    ensures |Eligible(cs[..i])| == |EligibleBelow(cs, i)|
  {
    if i > 0 {
      EligibleCount(cs, i - 1);
      ScanStep(cs, i - 1);
      if cs[i - 1].eligible {
        assert EligibleBelow(cs, i) == EligibleBelow(cs, i - 1) + {i - 1};
      } else {
        assert EligibleBelow(cs, i) == EligibleBelow(cs, i - 1);
      }
    } else {
      assert EligibleBelow(cs, 0) == {};
      assert cs[..0] == [];
    }
  }

  /** The sample is as large as the limits and the list allow. */
  lemma SampleSize(cs: seq<Candidate>)
    ensures var n := |EligibleBelow(cs, if |cs| < 126 then |cs| else 126)|;
            |Sample(cs)| == if n < 63 then n else 63
  {
    var i := if |cs| < 126 then |cs| else 126;
    EligibleCount(cs, i);
    assert cs[..i] == Take(SCAN_LIMIT, cs);
  }

  lemma {:induction false} EligibleAt(cs: seq<Candidate>, i: nat, k: nat) returns (j: nat)
    requires i <= |cs| && k < |Eligible(cs[..i])|
    ensures j < i && cs[j].eligible && cs[j].penalty == Eligible(cs[..i])[k] && |EligibleBelow(cs, j)| == k
    decreases i
  {
    ScanStep(cs, i - 1);
    if k < |Eligible(cs[..i - 1])| {
      j := EligibleAt(cs, i - 1, k);
    } else {
      EligibleCount(cs, i - 1);
      j := i - 1;
    }
  }

  /** The k-th sampled penalty is that of the k-th eligible task, among the first 126. */
  lemma SampleAt(cs: seq<Candidate>, k: nat) returns (j: nat)
    requires k < |Sample(cs)|
    ensures j < |cs| && j < 126 && cs[j].eligible && cs[j].penalty == Sample(cs)[k]
    ensures |EligibleBelow(cs, j)| == k
  {
    var i := if |cs| < 126 then |cs| else 126;
    assert cs[..i] == Take(SCAN_LIMIT, cs);
    j := EligibleAt(cs, i, k);
  }

  // ----------------------------------------------------------------- refreshing

  /** The penalty a refresh stores: the mean of the sample, but not less than the
      penalty of the task that owns the cache. */
  function RefreshPenalty(own: Word16, cs: seq<Candidate>): (p: Word16)
    ensures p >= own && p >= Mean(|Sample(cs)|, Sum(Sample(cs)))
    ensures p == own || p == Mean(|Sample(cs)|, Sum(Sample(cs)))
  {
    SumFits(Sample(cs));
    MeanAtMost(|Sample(cs)|, Sum(Sample(cs)), 0xFFFF);
    Max(Mean(|Sample(cs)|, Sum(Sample(cs))), own)
  }

  function Refresh(own: Word16, cs: seq<Candidate>, now: Word64): Word64 {
    Pack(now / 0x1_0000, RefreshPenalty(own, cs))
  }

  /** The word after a look-up; the penalty handed out is the one in that word. */
  function Consult(t: Tunables, word: Word64, own: Word16, cs: seq<Candidate>, now: Word64): Word64 {
    if Expired(t, word, now) then Refresh(own, cs, now) else word
  }

  /** A refresh never exceeds a bound on the owner's and the scanned penalties. */
  lemma RefreshAtMost(own: Word16, cs: seq<Candidate>, bound: nat)
    requires own <= bound
    requires forall i :: 0 <= i < |cs| ==> cs[i].penalty <= bound
    ensures RefreshPenalty(own, cs) <= bound
  {
    var ps := Sample(cs);
    forall k | 0 <= k < |ps| ensures ps[k] <= bound {
      var j := SampleFrom(cs, k);
    }
    SumAtMost(ps, bound);
    MeanAtMost(|ps|, Sum(ps), bound);
  }

  lemma RefreshFields(own: Word16, cs: seq<Candidate>, now: Word64)
    ensures PenaltyOf(Refresh(own, cs, now)) == RefreshPenalty(own, cs)
    ensures TimestampOf(Refresh(own, cs, now)) == now / 0x1_0000
  {
    hide RefreshPenalty;
  }

  /** A look-up of an unexpired cache changes nothing; of an expired one it stores
      the time and the larger of the owner's penalty and the mean of the sample. */
  lemma ConsultMeaning(t: Tunables, word: Word64, own: Word16, cs: seq<Candidate>, now: Word64)
    ensures var age := (now - TimestampOf(word) * 0x1_0000) % 0x1_0000_0000_0000_0000;
            var after := Consult(t, word, own, cs, now);
            var mean := Mean(|Sample(cs)|, Sum(Sample(cs)));
            && (age <= t.lifetime ==> after == word)
            && (age > t.lifetime ==>
                  && TimestampOf(after) == now / 0x1_0000
                  && PenaltyOf(after) == if mean < own then own else mean)
  {
    hide Mean, Sample, Sum, TimestampOf, PenaltyOf, Refresh, Expired;
    ExpiredMeaning(t, word, now);
    RefreshFields(own, cs, now);
  }

  /** A look-up hands out at most a bound on everything it can see. */
  lemma ConsultAtMost(t: Tunables, word: Word64, own: Word16, cs: seq<Candidate>, now: Word64, bound: nat)
    requires PenaltyOf(word) <= bound && own <= bound
    requires forall i :: 0 <= i < |cs| ==> cs[i].penalty <= bound
    ensures PenaltyOf(Consult(t, word, own, cs, now)) <= bound
  {
    hide Expired, Refresh, RefreshPenalty, PenaltyOf;
    RefreshAtMost(own, cs, bound);
    RefreshFields(own, cs, now);
  }

  /** The time a cache carries stays in the past. */
  lemma ConsultTime(t: Tunables, word: Word64, own: Word16, cs: seq<Candidate>, now: Word64)
    requires TimestampOf(word) * 0x1_0000 <= now
    ensures TimestampOf(Consult(t, word, own, cs, now)) * 0x1_0000 <= now
  {
    hide Expired, Refresh, TimestampOf;
    RefreshFields(own, cs, now);
  }

  /** The arithmetic of `update_burst_cache` on the counters of a finished scan
      is the refresh. */
  lemma RefreshByReciprocal(own: Word16, cs: seq<Candidate>, now: Word64)
    ensures Sum(Sample(cs)) < 0x1_0000_0000
    ensures var average := AverageByReciprocal(|Sample(cs)|, Sum(Sample(cs)), Reciprocal(|Sample(cs)|));
            Max(average, own) == RefreshPenalty(own, cs)
  {
    SumFits(Sample(cs));
    ReciprocalIsDivision(|Sample(cs)|, Sum(Sample(cs)));
  }

  // -------------------------------------------------------- freshness over runs

  /** A word written at time `written` and looked up at a later `now`: unexpired
      means at most one lifetime old, and anything a 16-bit tick younger than the
      lifetime is unexpired. */
  lemma FreshnessWindow(t: Tunables, word: Word64, written: Word64, now: Word64)
    requires TimestampOf(word) == written / 0x1_0000 && written <= now
    ensures !Expired(t, word, now) ==> now - written <= t.lifetime
    ensures now - written <= t.lifetime - 65535 ==> !Expired(t, word, now)
  {
  }

  /** One look-up of a cache: when, with what penalty of its owner, over what list. */
  datatype Lookup = Lookup(now: Word64, own: Word16, cs: seq<Candidate>)

  predicate NonDecreasing(ls: seq<Lookup>) {
    forall i, j :: 0 <= i < j < |ls| ==> ls[i].now <= ls[j].now
  }

  function WordAfter(t: Tunables, word: Word64, ls: seq<Lookup>): Word64 {
    if ls == [] then word
    else
      var last := ls[|ls| - 1];
      Consult(t, WordAfter(t, word, ls[..|ls| - 1]), last.own, last.cs, last.now)
  }

  /** The times of the look-ups that rescanned the list. */
  function Rescans(t: Tunables, word: Word64, ls: seq<Lookup>): seq<Word64> {
    if ls == [] then []
    else
      var last, before := ls[|ls| - 1], ls[..|ls| - 1];
      Rescans(t, word, before) + (if Expired(t, WordAfter(t, word, before), last.now) then [last.now] else [])
  }

  /** Look-ups one by one: each leaves the word its look-up leaves, and counts as a
      rescan exactly when it finds the word expired. */
  lemma LookupByLookup(t: Tunables, word: Word64, ls: seq<Lookup>, l: Lookup)
    ensures WordAfter(t, word, []) == word && Rescans(t, word, []) == []
    ensures WordAfter(t, word, ls + [l]) == Consult(t, WordAfter(t, word, ls), l.own, l.cs, l.now)
    ensures Rescans(t, word, ls + [l]) ==
            if Expired(t, WordAfter(t, word, ls), l.now)
            then Rescans(t, word, ls) + [l.now] else Rescans(t, word, ls)
  {
    hide Consult, Expired;
    assert (ls + [l])[..|ls|] == ls;
  }

  /** After a rescan the word carries the time of the latest one. */
  lemma {:induction false} WordCarriesLastRescan(t: Tunables, word: Word64, ls: seq<Lookup>)
    requires NonDecreasing(ls) && Rescans(t, word, ls) != []
    ensures var rs := Rescans(t, word, ls);
            && TimestampOf(WordAfter(t, word, ls)) == rs[|rs| - 1] / 0x1_0000
            && rs[|rs| - 1] <= ls[|ls| - 1].now
  {
    hide Expired, Refresh, TimestampOf;
    var last, before := ls[|ls| - 1], ls[..|ls| - 1];
    if Expired(t, WordAfter(t, word, before), last.now) {
      RefreshFields(last.own, last.cs, last.now);
    } else {
      WordCarriesLastRescan(t, word, before);
    }
  }

  /** Over any run of look-ups on a clock that does not go back, an unexpired
      answer was computed at most one lifetime ago. */
  lemma ServedFresh(t: Tunables, word: Word64, ls: seq<Lookup>, now: Word64)
    requires NonDecreasing(ls) && Rescans(t, word, ls) != []
    requires ls[|ls| - 1].now <= now && !Expired(t, WordAfter(t, word, ls), now)
    ensures var rs := Rescans(t, word, ls); now - rs[|rs| - 1] <= t.lifetime
  {
    WordCarriesLastRescan(t, word, ls);
    var rs := Rescans(t, word, ls);
    FreshnessWindow(t, WordAfter(t, word, ls), rs[|rs| - 1], now);
  }

  /** Rescans of one cache are spaced: n of them take at least
      (n - 1) * (lifetime - 65534) nanoseconds. */
  lemma {:induction false} RescansAreSpaced(t: Tunables, word: Word64, ls: seq<Lookup>)
    requires t.lifetime >= 65535 && NonDecreasing(ls)
    ensures var rs := Rescans(t, word, ls);
            rs != [] ==> rs[|rs| - 1] - rs[0] >= (|rs| - 1) * (t.lifetime - 65534)
    decreases |ls|
  {
    if ls != [] {
      var last, before := ls[|ls| - 1], ls[..|ls| - 1];
      RescansAreSpaced(t, word, before);
      var qs := Rescans(t, word, before);
      if qs != [] && Expired(t, WordAfter(t, word, before), last.now) {
        WordCarriesLastRescan(t, word, before);
        FreshnessWindow(t, WordAfter(t, word, before), qs[|qs| - 1], last.now);
        SpacingGrows(|qs|, t.lifetime - 65534);
      }
    }
  }

  lemma SpacingGrows(n: nat, gap: nat)
    ensures n * gap == (n - 1) * gap + gap
  {
  }
}
