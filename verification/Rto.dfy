/**
The MINIP retransmission-timeout estimator: smoothed round-trip time scaled by 8,
variation scaled by 4, both kept in 32-bit fields, against the exact rational
recurrence of sections 2.2 and 2.3 of RFC 6298.
*/
module Rto {

  const U32: nat := 0x1_0000_0000
  const MAX_SAMPLE: nat := 0x2000_0000 - 1

  datatype Estimate = Estimate(srtt: nat, rttvar: nat, rto: nat)

  const INITIAL := Estimate(0, 0, 3000)

  function Abs(x: int): nat {
    if x < 0 then -x else x
  }

  // The signed intermediate values are 64 bits wide; only the stores truncate.
  function Update(e: Estimate, sample: nat): Estimate {
    if e.srtt != 0 then
      var err := sample - e.srtt / 8;
      var srtt := (e.srtt + err) % U32;
      var rttvar := (e.rttvar + (Abs(err) - e.rttvar / 4)) % U32;
      Estimate(srtt, rttvar, (srtt / 8 + rttvar) % U32)
    else
      var srtt := sample * 8 % U32;
      var rttvar := sample * 2 % U32;
      Estimate(srtt, rttvar, (srtt / 8 + rttvar) % U32)
  }

  function History(samples: seq<nat>): Estimate {
    if samples == [] then INITIAL
    else Update(History(samples[..|samples| - 1]), samples[|samples| - 1])
  }

  lemma HistorySnoc(samples: seq<nat>, sample: nat)
    ensures History(samples + [sample]) == Update(History(samples), sample)
  {
    assert (samples + [sample])[..|samples|] == samples;
  }

  /** The recurrence of RFC 6298 over the rationals. */
  datatype Exact = Exact(srtt: real, rttvar: real)

  function RealAbs(x: real): real {
    if x < 0.0 then -x else x
  }

  function ExactFirst(sample: nat): Exact {
    Exact(sample as real, sample as real / 2.0)
  }

  function ExactUpdate(x: Exact, sample: nat): Exact {
    Exact(x.srtt * 0.875 + sample as real * 0.125,
          x.rttvar * 0.75 + RealAbs(x.srtt - sample as real) * 0.25)
  }

  function ExactHistory(samples: seq<nat>): Exact
    requires samples != []
  {
    var last := samples[|samples| - 1];
    if |samples| == 1 then ExactFirst(last)
    else ExactUpdate(ExactHistory(samples[..|samples| - 1]), last)
  }

  ghost predicate Accurate(e: Estimate, x: Exact) {
    && 0.0 <= e.srtt as real - 8.0 * x.srtt <= 7.0
    && -3.5 <= e.rttvar as real - 4.0 * x.rttvar <= 6.5
  }

  ghost predicate AccurateRto(e: Estimate, x: Exact) {
    -8.0 < e.rto as real - (x.srtt + 4.0 * x.rttvar) < 8.0
  }

  /** What the two stores are about to hold, before truncation. */
  function NextSrtt(e: Estimate, sample: nat): nat {
    e.srtt - e.srtt / 8 + sample
  }

  function NextRttvar(e: Estimate, sample: nat): nat {
    e.rttvar - e.rttvar / 4 + Abs(sample - e.srtt / 8)
  }

  // What a caller can check before the call: no store is truncated.
  predicate Fits(e: Estimate, sample: nat) {
    NextSrtt(e, sample) < U32 && NextRttvar(e, sample) < U32
  }

  predicate RtoFits(e: Estimate, sample: nat) {
    NextSrtt(e, sample) / 8 + NextRttvar(e, sample) < U32
  }

  lemma FloorByEight(s: nat) returns (f: nat)
    ensures f < 8 && s == 8 * (s / 8) + f
    ensures s as real == 8.0 * (s / 8) as real + f as real
  {
    f := s % 8;
  }

  lemma FloorByFour(v: nat) returns (g: nat)
    ensures g < 4 && v == 4 * (v / 4) + g
    ensures v as real == 4.0 * (v / 4) as real + g as real
  {
    g := v % 4;
  }

  // The step before truncation.
  lemma UnboundedStep(e: Estimate, x: Exact, sample: nat)
    requires Accurate(e, x)
    ensures Accurate(Estimate(NextSrtt(e, sample), NextRttvar(e, sample), 0), ExactUpdate(x, sample))
  {
    var f := FloorByEight(e.srtt);
    var g := FloorByFour(e.rttvar);
    var q := e.srtt / 8;
    var err := sample - q;
    assert err as real == sample as real - q as real;
    assert Abs(err) as real == RealAbs(err as real);
    assert -0.875 <= q as real - x.srtt <= 0.875;
    assert -0.875 <= RealAbs(err as real) - RealAbs(x.srtt - sample as real) <= 0.875;
    assert NextSrtt(e, sample) as real == e.srtt as real - q as real + sample as real;
    assert NextRttvar(e, sample) as real == e.rttvar as real - (e.rttvar / 4) as real + Abs(err) as real;
  }

  lemma RtoWithin(e: Estimate, x: Exact)
    requires Accurate(e, x)
    requires e.rto == e.srtt / 8 + e.rttvar
    ensures AccurateRto(e, x)
  {
    var f := FloorByEight(e.srtt);
    assert e.rto as real == (e.srtt / 8) as real + e.rttvar as real;
  }

  lemma Truncation(x: nat)
    ensures x < U32 ==> x % U32 == x
    ensures U32 <= x ==> x % U32 <= x - U32
  {
  }

  /** `stored` is `x` as far as 32 bits go. */
  predicate Stores(x: nat, stored: nat) {
    if x < U32 then stored == x else stored <= x - U32
  }

  lemma TruncatedAccurateIff(e: Estimate, t: Estimate, x: Exact)
    requires Accurate(e, x) && Stores(e.srtt, t.srtt) && Stores(e.rttvar, t.rttvar)
    ensures Accurate(t, x) <==> e.srtt < U32 && e.rttvar < U32
  {
    if U32 <= e.srtt {
      assert t.srtt as real <= e.srtt as real - U32 as real;
    }
    if U32 <= e.rttvar {
      assert t.rttvar as real <= e.rttvar as real - U32 as real;
    }
  }

  lemma UpdateIs(e: Estimate, sample: nat)
    requires 0 < e.srtt
    ensures var t := Update(e, sample);
            && t.srtt == NextSrtt(e, sample) % U32 && t.rttvar == NextRttvar(e, sample) % U32
            && t.rto == (t.srtt / 8 + t.rttvar) % U32
  {
  }

  /** What a later sample stores. */
  lemma UpdateStores(e: Estimate, sample: nat)
    requires 0 < e.srtt
    ensures var t := Update(e, sample);
            && Stores(NextSrtt(e, sample), t.srtt) && Stores(NextRttvar(e, sample), t.rttvar)
            && t.rto == (t.srtt / 8 + t.rttvar) % U32 && Stores(t.srtt / 8 + t.rttvar, t.rto)
  {
    UpdateIs(e, sample);
    var t := Update(e, sample);
    Truncation(NextSrtt(e, sample));
    Truncation(NextRttvar(e, sample));
    Truncation(t.srtt / 8 + t.rttvar);
  }

  /** One step keeps the error bounds exactly when no store is truncated. */
  lemma StepAccurateIff(e: Estimate, x: Exact, sample: nat)
    requires Accurate(e, x) && 0 < e.srtt
    ensures Accurate(Update(e, sample), ExactUpdate(x, sample)) <==> Fits(e, sample)
  {
    UpdateStores(e, sample);
    UnboundedStep(e, x, sample);
    var unbounded := Estimate(NextSrtt(e, sample), NextRttvar(e, sample), 0);
    TruncatedAccurateIff(unbounded, Update(e, sample), ExactUpdate(x, sample));
  }

  ghost predicate InRange(samples: seq<nat>, lo: nat, hi: nat) {
    forall i :: 0 <= i < |samples| ==> lo <= samples[i] <= hi
  }

  ghost predicate Within(e: Estimate, lo: nat, hi: nat) {
    && 8 * lo <= e.srtt <= 8 * hi
    && e.rttvar <= 4 * hi
    && lo <= e.rto <= 5 * hi
    && e.rto == e.srtt / 8 + e.rttvar
  }

  lemma RangeArithmetic(q: nat, f: nat, p: nat, g: nat, sample: nat, lo: nat, hi: nat)
    requires f < 8 && g < 4 && 1 <= lo <= sample <= hi
    requires 8 * lo <= 8 * q + f <= 8 * hi && 4 * p + g <= 4 * hi
    ensures lo <= q <= hi
    ensures 8 * lo <= 7 * q + f + sample <= 8 * hi
    ensures 3 * p + g + Abs(sample - q) <= 4 * hi
  {
  }

  lemma RangeStep(e: Estimate, sample: nat, lo: nat, hi: nat)
    requires 1 <= lo <= sample <= hi && 8 * hi < U32
    requires Within(e, lo, hi)
    ensures Fits(e, sample)
    ensures Within(Update(e, sample), lo, hi)
  {
    var f := FloorByEight(e.srtt);
    var g := FloorByFour(e.rttvar);
    RangeArithmetic(e.srtt / 8, f, e.rttvar / 4, g, sample, lo, hi);
    UpdateStores(e, sample);
    var e' := Update(e, sample);
    var f' := FloorByEight(e'.srtt);
  }

  lemma FirstWithin(sample: nat, lo: nat, hi: nat)
    requires 1 <= lo <= sample <= hi && 8 * hi < U32
    ensures Within(Update(INITIAL, sample), lo, hi)
  {
    Truncation(8 * sample);
    Truncation(2 * sample);
    Truncation(sample + 2 * sample);
  }

  lemma {:induction false} HistoryWithin(samples: seq<nat>, lo: nat, hi: nat)
    requires samples != [] && InRange(samples, lo, hi)
    requires 1 <= lo && 8 * hi < U32
    ensures Within(History(samples), lo, hi)
  {
    var n := |samples| - 1;
    var prior := samples[..n];
    assert History(samples) == Update(History(prior), samples[n]);
    if prior != [] {
      HistoryWithin(prior, lo, hi);
      RangeStep(History(prior), samples[n], lo, hi);
    } else {
      FirstWithin(samples[n], lo, hi);
    }
  }

  /**
  Samples between lo and hi keep every field inside a range fixed by lo and hi, nothing is
  truncated, and the first-measurement branch (srtt == 0) is left after the first sample.
  */
  lemma RangeOfHistory(samples: seq<nat>, lo: nat, hi: nat, next: nat)
    requires samples != [] && InRange(samples, lo, hi)
    requires 1 <= lo <= next <= hi && 8 * hi < U32
    ensures Within(History(samples), lo, hi) && Fits(History(samples), next)
  {
    HistoryWithin(samples, lo, hi);
    RangeStep(History(samples), next, lo, hi);
  }

  lemma FirstAccurate(sample: nat)
    requires 1 <= sample <= MAX_SAMPLE
    ensures Accurate(Update(INITIAL, sample), ExactFirst(sample))
  {
    Truncation(8 * sample);
    Truncation(2 * sample);
    assert (8 * sample) as real == 8.0 * sample as real && (2 * sample) as real == 2.0 * sample as real;
  }

  /** Every history of samples below 2^29 milliseconds stays within the error bounds. */
  lemma {:induction false} HistoryIsAccurate(samples: seq<nat>)
    requires samples != [] && InRange(samples, 1, MAX_SAMPLE)
    ensures Accurate(History(samples), ExactHistory(samples))
    ensures AccurateRto(History(samples), ExactHistory(samples))
  {
    var n := |samples| - 1;
    var prior := samples[..n];
    assert History(samples) == Update(History(prior), samples[n]);
    if prior == [] {
      FirstAccurate(samples[n]);
    } else {
      HistoryIsAccurate(prior);
      RangeOfHistory(prior, 1, MAX_SAMPLE, samples[n]);
      StepAccurateIff(History(prior), ExactHistory(prior), samples[n]);
    }
    HistoryWithin(samples, 1, MAX_SAMPLE);
    RtoWithin(History(samples), ExactHistory(samples));
  }

  lemma OverlongFirst(sample: nat)
    requires MAX_SAMPLE < sample
    ensures !Accurate(Update(INITIAL, sample), ExactFirst(sample))
  {
    Truncation(8 * sample);
    assert (8 * sample) as real == 8.0 * sample as real;
    var e := Update(INITIAL, sample);
    assert e.srtt as real <= (8 * sample) as real - U32 as real;
  }

  /** The bound on the first sample is exact. */
  lemma FirstSampleFitsIff(sample: nat)
    requires 0 < sample
    ensures Accurate(Update(INITIAL, sample), ExactFirst(sample)) <==> sample <= MAX_SAMPLE
  {
    if sample <= MAX_SAMPLE {
      FirstAccurate(sample);
    } else {
      OverlongFirst(sample);
    }
  }

  lemma TwoSamples(a: nat, b: nat)
    ensures History([a, b]) == Update(Update(INITIAL, a), b)
  {
    HistorySnoc([], a);
    HistorySnoc([a], b);
    assert [] + [a] == [a] && [a] + [b] == [a, b];
  }

  lemma UpdateFromZero(e: Estimate, sample: nat)
    requires e.srtt == 0
    ensures Update(e, sample) == Update(INITIAL, sample)
  {
  }

  lemma OverlongStored(sample: nat)
    requires sample == MAX_SAMPLE + 1
    ensures Update(INITIAL, sample).srtt == 0
  {
  }

  /** A first sample of 2^29 is stored as srtt 0, and the next one counts as the first again. */
  lemma OverlongStartsAgain(sample: nat)
    ensures History([MAX_SAMPLE + 1, sample]) == Update(INITIAL, sample)
  {
    TwoSamples(MAX_SAMPLE + 1, sample);
    OverlongStored(MAX_SAMPLE + 1);
    UpdateFromZero(Update(INITIAL, MAX_SAMPLE + 1), sample);
  }

  // ---------------------------------------------------------------- exactly when

  ghost predicate AccurateAt(samples: seq<nat>, k: nat)
    requires 0 < k <= |samples|
  {
    Accurate(History(samples[..k]), ExactHistory(samples[..k]))
  }

  ghost predicate AccurateRtoAt(samples: seq<nat>, k: nat)
    requires 0 < k <= |samples|
  {
    AccurateRto(History(samples[..k]), ExactHistory(samples[..k]))
  }

  /** Before sample `k` is taken: no store of it will be truncated. */
  predicate FitsAt(samples: seq<nat>, k: nat)
    requires k < |samples|
  {
    if k == 0 then samples[0] <= MAX_SAMPLE else Fits(History(samples[..k]), samples[k])
  }

  predicate RtoFitsAt(samples: seq<nat>, k: nat)
    requires k < |samples|
  {
    k == 0 || RtoFits(History(samples[..k]), samples[k])
  }

  ghost predicate Positive(samples: seq<nat>) {
    forall i :: 0 <= i < |samples| ==> samples[i] > 0
  }

  lemma {:induction false} ExactPositive(samples: seq<nat>)
    requires samples != [] && Positive(samples)
    ensures ExactHistory(samples).srtt > 0.0
  {
    if |samples| > 1 {
      ExactPositive(samples[..|samples| - 1]);
    }
  }

  lemma PrefixStep(samples: seq<nat>, k: nat)
    requires k < |samples|
    ensures History(samples[..k + 1]) == Update(History(samples[..k]), samples[k])
    ensures ExactHistory(samples[..k + 1]) ==
            if k == 0 then ExactFirst(samples[0]) else ExactUpdate(ExactHistory(samples[..k]), samples[k])
  {
    assert samples[..k + 1][..k] == samples[..k];
  }

  lemma AccurateStep(samples: seq<nat>, k: nat)
    requires k < |samples| && Positive(samples) && (k > 0 ==> AccurateAt(samples, k))
    ensures AccurateAt(samples, k + 1) <==> FitsAt(samples, k)
  {
    PrefixStep(samples, k);
    if k == 0 {
      FirstSampleFitsIff(samples[0]);
    } else {
      ExactPositive(samples[..k]);
      StepAccurateIff(History(samples[..k]), ExactHistory(samples[..k]), samples[k]);
    }
  }

  ghost predicate AccurateUpto(samples: seq<nat>, n: nat)
    requires n <= |samples|
  {
    forall k :: 0 < k <= n ==> AccurateAt(samples, k)
  }

  ghost predicate FitsUpto(samples: seq<nat>, n: nat)
    requires n <= |samples|
  {
    forall k :: 0 <= k < n ==> FitsAt(samples, k)
  }

  lemma {:induction false} UptoIff(samples: seq<nat>, n: nat)
    requires n <= |samples| && Positive(samples)
    ensures AccurateUpto(samples, n) <==> FitsUpto(samples, n)
  {
    if n > 0 {
      UptoIff(samples, n - 1);
      if AccurateUpto(samples, n - 1) {
        AccurateStep(samples, n - 1);
      }
    }
  }

  /** Every history of positive samples keeps the error bounds all along if and only if each
      sample fits when it is taken: the first one below 2^29, the later ones by the guard. */
  lemma HistoryAccurateIff(samples: seq<nat>)
    requires Positive(samples)
    ensures AccurateUpto(samples, |samples|) <==> FitsUpto(samples, |samples|)
  {
    UptoIff(samples, |samples|);
  }

  lemma RtoAccurateIff(e: Estimate, x: Exact)
    requires Accurate(e, x) && e.rto == (e.srtt / 8 + e.rttvar) % U32
    ensures AccurateRto(e, x) <==> e.srtt / 8 + e.rttvar < U32
  {
    var sum := e.srtt / 8 + e.rttvar;
    Truncation(sum);
    RtoWithin(e.(rto := sum), x);
    if U32 <= sum {
      assert e.rto as real <= sum as real - U32 as real;
    }
  }

  lemma FirstFields(sample: nat)
    requires sample <= MAX_SAMPLE
    ensures var t := Update(INITIAL, sample); t.srtt == 8 * sample && t.rttvar == 2 * sample && t.rto == 3 * sample
  {
  }

  lemma AccurateRtoStep(samples: seq<nat>, k: nat)
    requires k < |samples| && Positive(samples) && AccurateAt(samples, k + 1)
    requires k > 0 ==> AccurateAt(samples, k)
    ensures AccurateRtoAt(samples, k + 1) <==> RtoFitsAt(samples, k)
  {
    PrefixStep(samples, k);
    AccurateStep(samples, k);
    var e, t := History(samples[..k]), History(samples[..k + 1]);
    if k == 0 {
      FirstFields(samples[0]);
    } else {
      ExactPositive(samples[..k]);
      UpdateStores(e, samples[k]);
    }
    RtoAccurateIff(t, ExactHistory(samples[..k + 1]));
  }

  ghost predicate RtoAccurateThroughout(samples: seq<nat>) {
    forall k :: 0 < k <= |samples| ==> AccurateAt(samples, k) && AccurateRtoAt(samples, k)
  }

  ghost predicate FitsThroughout(samples: seq<nat>) {
    forall k :: 0 <= k < |samples| ==> FitsAt(samples, k) && RtoFitsAt(samples, k)
  }

  lemma RtoThroughout(samples: seq<nat>)
    requires Positive(samples) && AccurateUpto(samples, |samples|)
    ensures RtoAccurateThroughout(samples) <==> forall k :: 0 <= k < |samples| ==> RtoFitsAt(samples, k)
  {
    forall k | 0 <= k < |samples| ensures AccurateRtoAt(samples, k + 1) <==> RtoFitsAt(samples, k) {
      AccurateRtoStep(samples, k);
    }
    if RtoAccurateThroughout(samples) {
      forall k | 0 <= k < |samples| ensures RtoFitsAt(samples, k) {
        assert AccurateRtoAt(samples, k + 1);
      }
    } else {
      var k :| 0 < k <= |samples| && !AccurateRtoAt(samples, k);
      assert !RtoFitsAt(samples, k - 1);
    }
  }

  /** The timer value too is within 8 ms all along if and only if, besides, the sum the timer
      is set to fits at every sample. */
  lemma RtoThroughoutIff(samples: seq<nat>)
    requires Positive(samples)
    ensures RtoAccurateThroughout(samples) <==> FitsThroughout(samples)
  {
    HistoryAccurateIff(samples);
    if AccurateUpto(samples, |samples|) {
      RtoThroughout(samples);
    } else {
      assert !FitsUpto(samples, |samples|);
    }
  }
}
