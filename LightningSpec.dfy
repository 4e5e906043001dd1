// Pure definitions behind the lightning sensor post-processing: the
// sensor's wrapping counter, the reconciliation of two readings into a
// number of events, the valid update rates and the hourly histogram sums.

module LightningSpec {

  /** Raw counter value at which the sensor's counter resets to zero (overflow). */
  const LightningCountMaxValue: int := 1600

  /** Default expected update rate, in minutes. */
  const DefaultUpdateRate: int := 6

  /** Number of entries in the histogram: 60 minutes / shortest update rate. */
  const HistSize: int := 10

  /** Fraction of valid histogram entries required for a valid hourly result. */
  const DefaultQualityThreshold: real := 0.8

  /** accCount is an unsigned 32-bit field: its arithmetic wraps at this value. */
  const Uint32Modulus: int := 0x1_0000_0000

  /** A value of the sensor's raw event counter. */
  type RawCount = c: int | 0 <= c < LightningCountMaxValue

  /** A uint8_t (the distance of a strike, the update rate). */
  type Byte = b: int | 0 <= b < 256

  /** An int16_t, the type of a histogram entry. */
  type Int16 = i: int | -0x8000 <= i < 0x8000

  // ---------------------------------------------------------------------
  // Update rates and histogram bins
  // ---------------------------------------------------------------------

  /** 60 / rate must be a whole number of bins no larger than the histogram. */
  predicate ValidRate(rate: int)
  {
    0 < rate && 60 % rate == 0 && 60 / rate <= HistSize
  }

  /** Number of histogram bins in use for an update rate. */
  function Bins(rate: int): (n: nat)
    requires ValidRate(rate)
    ensures 1 <= n <= HistSize
    ensures n * rate == 60
  {
    60 / rate
  }

  /** The supported rates are exactly the divisors of 60 from 6 upwards. */
  lemma ValidRates(rate: int)
    ensures ValidRate(rate) <==> rate in {6, 10, 12, 15, 20, 30, 60}
  {
  }

  lemma DefaultRates()
    ensures ValidRate(DefaultUpdateRate) && Bins(DefaultUpdateRate) == HistSize
    ensures ValidRate(12) && Bins(12) == 5
  {
  }

  // ---------------------------------------------------------------------
  // Counter reconciliation
  // ---------------------------------------------------------------------

  /** The sensor reports its startup flag now and did not at the previous reading. */
  predicate StartupTransition(startupPrev: bool, startup: bool)
  {
    startup && !startupPrev
  }

  /**
   * Number of events between the previous raw reading and this one: after a
   * sensor startup the counter restarted from zero; otherwise a reading below
   * the previous one means the counter wrapped at LightningCountMaxValue.
   */
  function Delta(prevCount: RawCount, count: RawCount, startupPrev: bool, startup: bool): (d: int)
    ensures 0 <= d < LightningCountMaxValue
    ensures StartupTransition(startupPrev, startup) ==> d == count
    ensures !StartupTransition(startupPrev, startup) && count < prevCount ==> d > 0
  {
    if StartupTransition(startupPrev, startup) then count
    else if count < prevCount then LightningCountMaxValue - prevCount + count
    else count - prevCount
  }

  /**
   * The amount by which accCount grows in one update: the counts lost when
   * the raw counter overflowed or the sensor restarted.
   */
  function Carry(prevCount: RawCount, count: RawCount, startupPrev: bool, startup: bool): (c: nat)
    ensures c == 0 || c == prevCount || c == LightningCountMaxValue
  {
    if StartupTransition(startupPrev, startup) then prevCount
    else if count < prevCount then LightningCountMaxValue
    else 0
  }

  /**
   * accCount + raw count is the unwrapped running total of events: the carry
   * added to accCount plus the new raw count exceeds the previous raw count
   * by exactly the reconciled number of events.
   */
  lemma CarryAccountsForDelta(prevCount: RawCount, count: RawCount, startupPrev: bool, startup: bool)
    ensures Carry(prevCount, count, startupPrev, startup) + count
         == prevCount + Delta(prevCount, count, startupPrev, startup)
  {
  }

  /**
   * Without a startup, the number of events is the distance the wrapping
   * counter travelled: it is the one value d in [0, LightningCountMaxValue)
   * that moves prevCount to count modulo LightningCountMaxValue.
   */
  lemma DeltaIsCounterDistance(prevCount: RawCount, count: RawCount, startupPrev: bool, d: int)
    requires 0 <= d < LightningCountMaxValue
    ensures (prevCount + d) % LightningCountMaxValue == count
        <==> d == Delta(prevCount, count, startupPrev, false)
  {
    var m := LightningCountMaxValue;
    assert 0 <= prevCount + d < 2 * m;
    if prevCount + d < m {
      assert (prevCount + d) % m == prevCount + d;
    } else {
      assert (prevCount + d) % m == prevCount + d - m;
    }
  }

  /** Unsigned 32-bit addition, which wraps around. */
  function Uint32Add(acc: int, c: nat): (r: int)
    requires 0 <= acc < Uint32Modulus
    ensures 0 <= r < Uint32Modulus
    ensures acc + c < Uint32Modulus ==> r == acc + c
  {
    (acc + c) % Uint32Modulus
  }

  /**
   * Even when accCount wraps around, accCount + raw count grows, modulo 2^32,
   * by the reconciled number of events; and accCount never decreases unless
   * it wraps.
   */
  lemma AccumulatedCountTracksEvents(acc: int, prevCount: RawCount, count: RawCount, startupPrev: bool, startup: bool)
    requires 0 <= acc < Uint32Modulus
    ensures var acc' := Uint32Add(acc, Carry(prevCount, count, startupPrev, startup));
      (acc' + count - (acc + prevCount)) % Uint32Modulus == Delta(prevCount, count, startupPrev, startup)
    ensures acc + Carry(prevCount, count, startupPrev, startup) < Uint32Modulus ==>
      Uint32Add(acc, Carry(prevCount, count, startupPrev, startup)) >= acc
  {
    var m := Uint32Modulus;
    var c := Carry(prevCount, count, startupPrev, startup);
    var d := Delta(prevCount, count, startupPrev, startup);
    CarryAccountsForDelta(prevCount, count, startupPrev, startup);
    if acc + c >= m {
      assert Uint32Add(acc, c) == acc + c - m;
      assert Uint32Add(acc, c) + count - (acc + prevCount) == d - m;
    } else {
      assert Uint32Add(acc, c) + count - (acc + prevCount) == d;
    }
  }

  /** A wrap from 1599 to 1 is two events, not a negative number. */
  lemma OverflowExample()
    ensures Delta(LightningCountMaxValue - 1, 1, false, false) == 2
  {
  }

  /** The last raw reading of a run that starts after prevCount. */
  function Last(prevCount: RawCount, counts: seq<RawCount>): RawCount
  {
    if counts == [] then prevCount else counts[|counts| - 1]
  }

  /** Events summed over a run of readings without a sensor startup. */
  function Accumulated(prevCount: RawCount, counts: seq<RawCount>): (total: nat)
    decreases |counts|
  {
    if counts == [] then 0
    else Delta(prevCount, counts[0], false, false) + Accumulated(counts[0], counts[1..])
  }

  predicate NonDecreasing(prevCount: RawCount, counts: seq<RawCount>)
  {
    (forall i :: 0 <= i < |counts| ==> prevCount <= counts[i]) &&
    (forall i, j :: 0 <= i < j < |counts| ==> counts[i] <= counts[j])
  }

  /** A run that never wraps reports exactly the growth of the raw counter. */
  lemma {:induction false} AccumulatedWithoutWrap(prevCount: RawCount, counts: seq<RawCount>)
    requires NonDecreasing(prevCount, counts)
    decreases |counts|
    ensures Accumulated(prevCount, counts) == Last(prevCount, counts) - prevCount
  {
    if counts != [] {
      AccumulatedWithoutWrap(counts[0], counts[1..]);
      if |counts| > 1 {
        assert Last(counts[0], counts[1..]) == Last(prevCount, counts);
      }
    }
  }

  /** Any run, wraps included, reports events that bring the counter to its last reading. */
  lemma {:induction false} AccumulatedModulo(prevCount: RawCount, counts: seq<RawCount>)
    ensures (prevCount + Accumulated(prevCount, counts)) % LightningCountMaxValue
         == Last(prevCount, counts)
    decreases |counts|
  {
    var m := LightningCountMaxValue;
    if counts != [] {
      var d := Delta(prevCount, counts[0], false, false);
      var rest := Accumulated(counts[0], counts[1..]);
      AccumulatedModulo(counts[0], counts[1..]);
      DeltaIsCounterDistance(prevCount, counts[0], false, d);
      assert (prevCount + d) % m == counts[0];
      if prevCount + d >= m {
        assert prevCount + d == counts[0] + m;
        assert (counts[0] + rest + m) % m == (counts[0] + rest) % m;
      }
      if |counts| > 1 {
        assert Last(counts[0], counts[1..]) == Last(prevCount, counts);
      }
    }
  }

  /**
   * accCount after a run of readings without a sensor startup: each update
   * adds its carry with unsigned 32-bit wrap-around.
   */
  function AccAfterRun(acc: int, prevCount: RawCount, counts: seq<RawCount>): (r: int)
    requires 0 <= acc < Uint32Modulus
    ensures 0 <= r < Uint32Modulus
    decreases |counts|
  {
    if counts == [] then acc
    else AccAfterRun(Uint32Add(acc, Carry(prevCount, counts[0], false, false)), counts[0], counts[1..])
  }

  /**
   * Over a run without a startup, accCount plus the last raw reading grows,
   * modulo 2^32, by exactly the events the run reports.
   */
  lemma {:induction false} AccAfterRunTracksEvents(acc: int, prevCount: RawCount, counts: seq<RawCount>)
    requires 0 <= acc < Uint32Modulus
    ensures (AccAfterRun(acc, prevCount, counts) + Last(prevCount, counts)) % Uint32Modulus
         == (acc + prevCount + Accumulated(prevCount, counts)) % Uint32Modulus
    decreases |counts|
  {
    if counts != [] {
      var m := Uint32Modulus;
      var c0 := counts[0];
      var carry := Carry(prevCount, c0, false, false);
      var d := Delta(prevCount, c0, false, false);
      var acc1 := Uint32Add(acc, carry);
      var rest := Accumulated(c0, counts[1..]);
      AccAfterRunTracksEvents(acc1, c0, counts[1..]);
      CarryAccountsForDelta(prevCount, c0, false, false);
      if |counts| > 1 {
        assert Last(c0, counts[1..]) == Last(prevCount, counts);
      }
      if acc + carry >= m {
        assert acc1 + c0 + rest == acc + prevCount + d + rest - m;
        assert (acc1 + c0 + rest) % m == (acc + prevCount + d + rest) % m;
      } else {
        assert acc1 + c0 + rest == acc + prevCount + d + rest;
      }
    }
  }

  // ---------------------------------------------------------------------
  // Histogram of the past hour
  // ---------------------------------------------------------------------

  /** A histogram whose entries all hold v. */
  function Uniform(n: nat, v: int): (s: seq<int>)
    ensures |s| == n
    ensures forall i :: 0 <= i < n ==> s[i] == v
  {
    seq(n, _ => v)
  }

  /** Number of valid (non-negative) entries. */
  function ValidBins(s: seq<int>): (n: nat)
    ensures n <= |s|
  {
    if s == [] then 0
    else ValidBins(s[..|s| - 1]) + (if s[|s| - 1] >= 0 then 1 else 0)
  }

  /** Sum of the valid (non-negative) entries. */
  function ValidSum(s: seq<int>): (t: int)
    ensures t >= 0
  {
    if s == [] then 0
    else ValidSum(s[..|s| - 1]) + (if s[|s| - 1] >= 0 then s[|s| - 1] else 0)
  }

  lemma {:induction false} ValidBinsAppend(s: seq<int>, t: seq<int>)
    ensures ValidBins(s + t) == ValidBins(s) + ValidBins(t)
    ensures ValidSum(s + t) == ValidSum(s) + ValidSum(t)
    decreases |t|
  {
    if t == [] {
      assert s + t == s;
    } else {
      var u := t[..|t| - 1];
      assert (s + t)[..|s + t| - 1] == s + u;
      ValidBinsAppend(s, u);
    }
  }

  /** Every entry is valid exactly when all of them are counted. */
  lemma {:induction false} AllValid(s: seq<int>)
    ensures ValidBins(s) == |s| <==> forall i :: 0 <= i < |s| ==> s[i] >= 0
  {
    if s != [] {
      var u := s[..|s| - 1];
      AllValid(u);
      if ValidBins(s) == |s| {
        assert ValidBins(u) == |u| && s[|s| - 1] >= 0;
        forall i | 0 <= i < |s| ensures s[i] >= 0 {
          if i < |u| { assert s[i] == u[i]; }
        }
      } else {
        if s[|s| - 1] >= 0 {
          assert ValidBins(u) != |u|;
          var k :| 0 <= k < |u| && u[k] < 0;
          assert s[k] < 0;
        }
      }
    }
  }

  /** No entry is valid exactly when none is counted. */
  lemma {:induction false} NoneValid(s: seq<int>)
    ensures ValidBins(s) == 0 <==> forall i :: 0 <= i < |s| ==> s[i] < 0
    ensures ValidBins(s) == 0 ==> ValidSum(s) == 0
  {
    if s != [] {
      var u := s[..|s| - 1];
      NoneValid(u);
      if ValidBins(s) == 0 {
        forall i | 0 <= i < |s| ensures s[i] < 0 {
          if i < |u| { assert s[i] == u[i]; }
        }
      } else if s[|s| - 1] < 0 {
        var k :| 0 <= k < |u| && u[k] >= 0;
        assert s[k] >= 0;
      }
    }
  }

  /** Quality of an hourly result: the fraction of the bins in use that are valid. */
  function Quality(nbins: nat, bins: nat): (q: real)
    requires nbins <= bins && 0 < bins
    ensures 0.0 <= q <= 1.0
    ensures q == 1.0 <==> nbins == bins
    ensures q == 0.0 <==> nbins == 0
  {
    nbins as real / bins as real
  }

  /** nbins >= qualityThreshold * 60 / updateRate, in exact arithmetic. */
  predicate MeetsThreshold(nbins: int, threshold: real, rate: int)
    requires ValidRate(rate)
  {
    nbins as real >= threshold * 60.0 / rate as real
  }

  /** The threshold on the count of valid bins is a threshold on the quality. */
  lemma ThresholdIsQuality(nbins: nat, threshold: real, rate: int)
    requires ValidRate(rate) && nbins <= Bins(rate)
    ensures MeetsThreshold(nbins, threshold, rate) <==> Quality(nbins, Bins(rate)) >= threshold
  {
    var b := Bins(rate) as real;
    var r := rate as real;
    assert b * r == 60.0;
    assert threshold * 60.0 / r == threshold * b;
    assert Quality(nbins, Bins(rate)) == nbins as real / b;
    if nbins as real >= threshold * b {
      assert nbins as real / b >= threshold * b / b;
    } else {
      assert nbins as real / b < threshold * b / b;
    }
  }

  /** With ten bins, eight valid ones and two invalid ones meet the default threshold. */
  lemma EightOfTenIsValid()
    ensures ValidBins(Uniform(8, 0) + Uniform(2, -1)) == 8
    ensures Quality(8, Bins(DefaultUpdateRate)) == DefaultQualityThreshold
    ensures MeetsThreshold(8, DefaultQualityThreshold, DefaultUpdateRate)
  {
    ValidBinsAppend(Uniform(8, 0), Uniform(2, -1));
    AllValid(Uniform(8, 0));
    NoneValid(Uniform(2, -1));
  }
}
