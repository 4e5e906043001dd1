// The Lightning class: post-processing of a lightning sensor's raw readings
// into events per update cycle, the last lightning event and the number of
// strikes during the past 60 minutes.

module LightningSensor {
  import opened LightningSpec

  /** Timestamp, number of strikes and estimated distance of a lightning event. */
  datatype Strike = Strike(timestamp: int, events: int, distance: Byte)

  datatype Option<T> = None | Some(value: T)

  /**
   * The data that has to survive deep sleep or a reboot (nvLightning_t),
   * kept in RTC RAM or flash by the platform.
   */
  class NvLightning {
    /** Timestamp of the last update. */
    var lastUpdate: int
    /** Sensor startup flag seen at the previous update. */
    var startupPrev: bool
    /** Raw sensor counter seen before the last sensor startup. */
    var preStCount: int
    /** Counts accumulated at counter overflows and sensor startups (uint32_t). */
    var accCount: int
    /** Previous raw counter value; -1 until the first update. */
    var prevCount: int
    /** Number of events reported at the last event. */
    var events: int
    /** Distance at the last event. */
    var distance: Byte
    /** Timestamp of the last event. */
    var timestamp: int
    /** Events per update cycle over the past 60 minutes; -1 marks an invalid bin. */
    const hist: array<int>
    /** Expected update rate in minutes, which fixes the number of bins in use. */
    var updateRate: int

    ghost predicate Valid()
      reads this, hist
    {
      hist.Length == HistSize &&
      ValidRate(updateRate) &&
      0 <= accCount < Uint32Modulus &&
      -1 <= prevCount < LightningCountMaxValue &&
      0 <= preStCount < LightningCountMaxValue &&
      0 <= events < LightningCountMaxValue &&
      forall i :: 0 <= i < hist.Length ==> -1 <= hist[i] < 0x8000
    }

    /** The initial values of the structure: no prior reading, no event, all bins 0. */
    constructor ()
      ensures Valid() && fresh(hist)
      ensures lastUpdate == 0 && !startupPrev && preStCount == 0 && accCount == 0
      ensures prevCount == -1
      ensures events == 0 && distance == 0 && timestamp == 0
      ensures hist[..] == Uniform(HistSize, 0)
      ensures updateRate == DefaultUpdateRate
    {
      lastUpdate := 0;
      startupPrev := false;
      preStCount := 0;
      accCount := 0;
      prevCount := -1;
      events := 0;
      distance := 0;
      timestamp := 0;
      hist := new int[HistSize](_ => 0);
      updateRate := DefaultUpdateRate;
    }

    /** The histogram bins in use for the current update rate. */
    ghost function Window(): (w: seq<int>)
      reads this, hist
      requires Valid()
      ensures |w| == Bins(updateRate)
      ensures forall i :: 0 <= i < |w| ==> w[i] == hist[i]
    {
      hist[..Bins(updateRate)]
    }
  }

  class Lightning {
    /** Fraction of valid bins required for a valid pastHour() result. */
    var qualityThreshold: real
    /** Working copy of the latest raw counter value. */
    var currCount: int
    /** Events of the last update cycle; -1 until the first update. */
    var deltaEvents: int
    /** The non-volatile data. */
    const nv: NvLightning

    /** Whether update() has run since construction. */
    ghost var updated: bool
    /** The last update cycle that reported events, if any since the last reset. */
    ghost var lastStrike: Option<Strike>

    ghost predicate Valid()
      reads this, nv, nv.hist
    {
      nv.Valid() &&
      -1 <= deltaEvents < LightningCountMaxValue &&
      (deltaEvents == -1 <==> !updated) &&
      (lastStrike == None <==> nv.events == 0) &&
      (lastStrike.Some? ==> lastStrike.value == Strike(nv.timestamp, nv.events, nv.distance))
    }

    constructor (qualityThreshold: real := DefaultQualityThreshold)
      ensures Valid() && fresh(nv) && fresh(nv.hist)
      ensures this.qualityThreshold == qualityThreshold
      ensures deltaEvents == -1 && !updated && lastStrike == None
      ensures nv.lastUpdate == 0 && !nv.startupPrev && nv.preStCount == 0 && nv.accCount == 0
      ensures nv.prevCount == -1
      ensures nv.events == 0 && nv.distance == 0 && nv.timestamp == 0
      ensures nv.hist[..] == Uniform(HistSize, 0)
      ensures nv.updateRate == DefaultUpdateRate
    {
      this.qualityThreshold := qualityThreshold;
      currCount := 0;
      deltaEvents := -1;
      nv := new NvLightning();
      updated := false;
      lastStrike := None;
    }

    /**
     * Sets the expected update rate. A rate different from the stored one
     * changes the meaning of the bins, so the histogram is invalidated.
     */
    method SetUpdateRate(rate: Byte := DefaultUpdateRate)
      requires Valid() && ValidRate(rate)
      modifies nv`updateRate, nv.hist
      ensures Valid()
      ensures nv.updateRate == rate
      ensures rate != old(nv.updateRate) ==> nv.hist[..] == Uniform(HistSize, -1)
      ensures rate != old(nv.updateRate) ==> ValidBins(nv.Window()) == 0
      ensures rate == old(nv.updateRate) ==> nv.hist[..] == old(nv.hist[..])
    {
      var updateRatePrev := nv.updateRate;
      nv.updateRate := rate;
      if nv.updateRate != updateRatePrev {
        HistInit();
        NoneValid(nv.Window());
      }
    }

    /** Sets every histogram entry to count (default -1: invalid). */
    method HistInit(count: Int16 := -1)
      requires Valid() && -1 <= count
      modifies nv.hist
      ensures Valid()
      ensures nv.hist[..] == Uniform(HistSize, count)
    {
      var i := 0;
      while i < nv.hist.Length
        invariant 0 <= i <= nv.hist.Length
        invariant forall k :: 0 <= k < i ==> nv.hist[k] == count
        invariant forall k :: i <= k < nv.hist.Length ==> nv.hist[k] == old(nv.hist[k])
      {
        nv.hist[i] := count;
        i := i + 1;
      }
    }

    /**
     * Initializes the non-volatile data: no prior reading, no event, the
     * default update rate and all bins invalid.
     */
    method Reset()
      requires Valid()
      modifies this`lastStrike, nv, nv.hist
      ensures Valid()
      ensures nv.lastUpdate == 0 && !nv.startupPrev && nv.preStCount == 0 && nv.accCount == 0
      ensures nv.prevCount == -1
      ensures nv.events == 0 && nv.distance == 0 && nv.timestamp == 0 && lastStrike == None
      ensures nv.hist[..] == Uniform(HistSize, -1) && ValidBins(nv.Window()) == 0
      ensures nv.updateRate == DefaultUpdateRate
      ensures deltaEvents == old(deltaEvents) && updated == old(updated)
    {
      nv.lastUpdate := 0;
      nv.startupPrev := false;
      nv.preStCount := 0;
      nv.accCount := 0;
      nv.prevCount := -1;
      nv.events := 0;
      nv.distance := 0;
      nv.timestamp := 0;
      nv.updateRate := DefaultUpdateRate;
      lastStrike := None;
      HistInit();
      NoneValid(nv.Window());
    }

    /**
     * Reconciles a new sensor reading. The first reading only sets the
     * baseline. Later readings yield the events since the previous one,
     * correcting for a sensor startup or a counter overflow; that number goes
     * into the histogram bin of the current cycle, `slot`, and, when it is
     * positive, becomes the last event.
     */
    method Update(timestamp: int, count: RawCount, distance: Byte, startup: bool, slot: nat)
      requires Valid() && slot < Bins(nv.updateRate)
      modifies this`currCount, this`deltaEvents, this`updated, this`lastStrike
      modifies nv`prevCount, nv`startupPrev, nv`lastUpdate, nv`preStCount, nv`accCount
      modifies nv`events, nv`distance, nv`timestamp, nv.hist
      ensures Valid() && updated
      ensures nv.prevCount == count && nv.startupPrev == startup && nv.lastUpdate == timestamp
      ensures currCount == count
      ensures nv.updateRate == old(nv.updateRate) && qualityThreshold == old(qualityThreshold)
      // first reading: baseline only
      ensures old(nv.prevCount) == -1 ==>
        deltaEvents == 0 &&
        nv.accCount == old(nv.accCount) && nv.preStCount == old(nv.preStCount) &&
        nv.hist[..] == old(nv.hist[..]) &&
        nv.events == old(nv.events) && nv.distance == old(nv.distance) &&
        nv.timestamp == old(nv.timestamp) && lastStrike == old(lastStrike)
      // later readings: reconcile
      ensures old(nv.prevCount) != -1 ==>
        var d := Delta(old(nv.prevCount), count, old(nv.startupPrev), startup);
        var c := Carry(old(nv.prevCount), count, old(nv.startupPrev), startup);
        deltaEvents == d &&
        nv.accCount == Uint32Add(old(nv.accCount), c) &&
        nv.preStCount == (if StartupTransition(old(nv.startupPrev), startup)
                          then old(nv.prevCount) else old(nv.preStCount)) &&
        nv.hist[..] == old(nv.hist[..])[slot := d] &&
        (d > 0 ==> nv.events == d && nv.distance == distance && nv.timestamp == timestamp &&
                   lastStrike == Some(Strike(timestamp, d, distance))) &&
        (d == 0 ==> nv.events == old(nv.events) && nv.distance == old(nv.distance) &&
                    nv.timestamp == old(nv.timestamp) && lastStrike == old(lastStrike))
    {
      currCount := count;
      if nv.prevCount == -1 {
        nv.prevCount := count;
        nv.startupPrev := startup;
        nv.lastUpdate := timestamp;
        deltaEvents := 0;
        updated := true;
        return;
      }
      var delta := Delta(nv.prevCount, count, nv.startupPrev, startup);
      var carry := Carry(nv.prevCount, count, nv.startupPrev, startup);
      if StartupTransition(nv.startupPrev, startup) {
        nv.preStCount := nv.prevCount;
      }
      nv.accCount := Uint32Add(nv.accCount, carry);
      RecordCycle(timestamp, distance, slot, delta);
      nv.prevCount := count;
      nv.startupPrev := startup;
      nv.lastUpdate := timestamp;
      deltaEvents := delta;
      updated := true;
    }

    /**
     * Stores the events of a reconciled update cycle in the histogram bin of
     * that cycle and, when there were any, as the last event.
     */
    method RecordCycle(timestamp: int, distance: Byte, slot: nat, delta: int)
      requires Valid() && slot < Bins(nv.updateRate) && 0 <= delta < LightningCountMaxValue
      modifies this`lastStrike, nv`events, nv`distance, nv`timestamp, nv.hist
      ensures Valid()
      ensures nv.hist[..] == old(nv.hist[..])[slot := delta]
      ensures delta > 0 ==> nv.events == delta && nv.distance == distance &&
                            nv.timestamp == timestamp && lastStrike == Some(Strike(timestamp, delta, distance))
      ensures delta == 0 ==> nv.events == old(nv.events) && nv.distance == old(nv.distance) &&
                             nv.timestamp == old(nv.timestamp) && lastStrike == old(lastStrike)
    {
      nv.hist[slot] := delta;
      if delta > 0 {
        nv.events := delta;
        nv.distance := distance;
        nv.timestamp := timestamp;
        lastStrike := Some(Strike(timestamp, delta, distance));
      }
    }

    /**
     * Number of events during the past 60 minutes, summed over the valid bins
     * in use, with the number of valid bins, their fraction, and whether that
     * fraction reaches the quality threshold.
     */
    method PastHour() returns (sum: int, valid: bool, nbins: int, quality: real)
      requires Valid()
      ensures sum == ValidSum(nv.Window()) && nbins == ValidBins(nv.Window())
      ensures 0 <= sum && 0 <= nbins <= Bins(nv.updateRate)
      ensures quality == Quality(nbins, Bins(nv.updateRate)) && 0.0 <= quality <= 1.0
      ensures valid == MeetsThreshold(nbins, qualityThreshold, nv.updateRate)
      ensures valid <==> quality >= qualityThreshold
    {
      var bins := 60 / nv.updateRate;
      sum, nbins := 0, 0;
      var i := 0;
      while i < bins
        invariant 0 <= i <= bins
        invariant sum == ValidSum(nv.hist[..i]) && nbins == ValidBins(nv.hist[..i])
      {
        if nv.hist[i] >= 0 {
          sum := sum + nv.hist[i];
          nbins := nbins + 1;
        }
        assert nv.hist[..i + 1][..i] == nv.hist[..i];
        i := i + 1;
      }
      assert nv.hist[..i] == nv.Window();
      quality := nbins as real / bins as real;
      valid := nbins as real >= qualityThreshold * 60.0 / nv.updateRate as real;
      ThresholdIsQuality(nbins, qualityThreshold, nv.updateRate);
    }

    /** Number of events during the last update cycle; -1 before the first update. */
    method LastCycle() returns (n: int)
      requires Valid()
      ensures n == -1 <==> !updated
      ensures n == deltaEvents && n < LightningCountMaxValue
    {
      n := deltaEvents;
    }

    /**
     * Data of the last lightning event: false when no update since the last
     * reset reported events.
     */
    method LastEvent() returns (found: bool, timestamp: int, events: int, distance: Byte)
      requires Valid()
      ensures found <==> lastStrike.Some?
      ensures found ==> lastStrike.value == Strike(timestamp, events, distance)
      ensures found ==> 0 < events < LightningCountMaxValue
    {
      found := nv.events > 0;
      timestamp, events, distance := nv.timestamp, nv.events, nv.distance;
    }
  }

}
