/**
 * The pipeline object `UctZone`: it holds the efficient price path, the exit
 * times with their observed levels, and the reconstructed observed price.  Each
 * stage reads the fields an earlier stage set and raises when they are unset.
 */
module UctZoneModel {
  import opened Common
  import opened ExitTimes
  import opened ObservedPrice

  class UctZone {
    const alpha: real    // tick size
    const eta: real      // aversion to price change
    const horizon: real  // terminal time `T`; only the path simulation uses it

    var x: Option<seq<real>>         // efficient price
    var p: Option<seq<real>>         // observed price
    var tau: Option<seq<nat>>        // indices at which the price left its zone
    var obsPrice: Option<seq<real>>  // observed level after each of those indices

    /** The parameters are admissible and the two parallel lists have the detector's shape. */
    ghost predicate Valid()
      reads this
    {
      alpha > 0.0 && eta >= 0.0 &&
      tau.Some? == obsPrice.Some? &&
      (tau.Some? ==> WellFormed(tau.value, obsPrice.value))
    }

    constructor (alpha: real, eta: real, T: real)
      requires alpha > 0.0 && eta >= 0.0
      ensures Valid()
      ensures this.alpha == alpha && this.eta == eta && horizon == T
      ensures x == None && p == None && tau == None && obsPrice == None
    {
      this.alpha := alpha;
      this.eta := eta;
      horizon := T;
      x := None;
      p := None;
      tau := None;
      obsPrice := None;
    }

    /**
     * Installs an efficient price path.  It stands in for `get_eff_price`, whose
     * simulation is not modelled; like it, it leaves the other fields alone.
     */
    method SetEfficientPrice(path: seq<real>)
      requires Valid()
      modifies this
      ensures Valid()
      ensures x == Some(path)
      ensures p == old(p) && tau == old(tau) && obsPrice == old(obsPrice)
    {
      x := Some(path);
    }

    /**
     * `get_exit_times`: scans `x` and stores the crossing indices and levels.  The
     * inner loop is bounded by the end of the path (the source's `while True`
     * reads past it; see `AsWrittenDetect`).
     */
    method GetExitTimes() returns (r: Result<seq<nat>, Error>)
      requires Valid()
      modifies this
      ensures Valid()
      ensures x == old(x) && p == old(p)
      ensures old(x).None? ==> r == Err(PriceUnavailable) && unchanged(this)
      ensures old(x) == Some([]) ==> r == Err(IndexOutOfRange) && unchanged(this)
      ensures old(x).Some? && |old(x).value| >= 1 ==>
        var c := Detect(old(x).value, alpha, eta);
        r == Ok(c.tau) && tau == Some(c.tau) && obsPrice == Some(c.levels)
    {
      if x.None? {
        return Err(PriceUnavailable);
      }
      var path := x.value;
      if |path| == 0 {
        return Err(IndexOutOfRange);  // x[0] of an empty path
      }
      var ts, obs := ExitTimesOf(path, alpha, eta);
      tau := Some(ts);
      obsPrice := Some(obs);
      r := Ok(ts);
    }

    /**
     * `get_obs_price` with the Beta draws supplied: writes each interval's level
     * at its jump index, forward-fills, and stores the series in `p`.
     */
    method GetObsPrice(draws: seq<real>) returns (r: Result<seq<real>, Error>)
      requires Valid()
      requires Fractions(draws)
      requires tau.Some? ==> |draws| >= |tau.value| - 1
      modifies this
      ensures Valid()
      ensures x == old(x) && tau == old(tau) && obsPrice == old(obsPrice)
      ensures old(x).None? ==> r == Err(PriceUnavailable) && unchanged(this)
      ensures old(x).Some? && old(tau).None? ==> r == Err(ExitTimesUnavailable) && unchanged(this)
      ensures old(x).Some? && old(tau).Some? ==>
        r == Reconstruct(|old(x).value|, old(tau).value, old(obsPrice).value, draws)
      ensures r.Ok? ==> p == Some(r.value)
      ensures r.Err? ==> p == old(p)
    {
      if x.None? {
        return Err(PriceUnavailable);
      }
      if tau.None? {
        return Err(ExitTimesUnavailable);
      }
      var n := |x.value|;
      var ts, obs := tau.value, obsPrice.value;
      r := ObservedSeries(n, ts, obs, draws);
      if r.Ok? {
        p := Some(r.value);
      }
    }
  }
}
