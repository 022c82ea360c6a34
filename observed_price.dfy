/**
 * Observed-price reconstruction (`UctZone.get_obs_price`), on values.
 *
 * One value is posted per interval `[tau[j], tau[j+1]]`: `levels[j]` is written at
 * a jump index chosen inside the interval by the draw `u[j]` (a Beta(2,5) sample
 * in the source, an input here).  Slot 0 holds `levels[0]`; every slot no jump
 * wrote is then filled with its predecessor's value.
 *
 * The source, as written, cannot run: `None * len(self.x)` raises a TypeError,
 * `p[0] = self.obs_price` stores the whole level list in slot 0, and the jump
 * position returned by `select_time` is a float used as a list index.  This
 * model follows the evident intent: `n` unset slots, `p[0] = levels[0]`, and the
 * jump position rounded to the nearest index (ties upward).
 */
module ObservedPrice {
  import opened Common
  import opened ExitTimes

  /** `select_time`: the point a fraction `u` of the way from `a` to `b`. */
  function SelectTime(a: nat, b: nat, u: real): (t: real)
    requires a <= b && 0.0 <= u <= 1.0
    ensures a as real <= t <= b as real
    ensures u == 0.0 ==> t == a as real
    ensures u == 1.0 ==> t == b as real
  {
    MulNonneg(u, (b - a) as real);
    MulNonneg(1.0 - u, (b - a) as real);
    u * (b - a) as real + a as real
  }

  /**
   * The slot the interval's value is written to: `select_time` rounded to the
   * nearest index.  It never leaves the interval, so no clamping is needed.
   */
  function JumpIndex(a: nat, b: nat, u: real): (k: nat)
    requires a <= b && 0.0 <= u <= 1.0
    ensures a <= k <= b
  {
    (SelectTime(a, b, u) + 0.5).Floor
  }

  /** The jump index is the index nearest the selected time (ties go to the later index). */
  lemma JumpIndexNearest(a: nat, b: nat, u: real)
    requires a <= b && 0.0 <= u <= 1.0
    ensures var t := SelectTime(a, b, u);
      t - 0.5 < JumpIndex(a, b, u) as real <= t + 0.5
  {
  }

  /** The draws are fractions of an interval. */
  predicate Fractions(u: seq<real>)
  {
    forall j :: 0 <= j < |u| ==> 0.0 <= u[j] <= 1.0
  }

  /** The jump index of every interval, in interval order. */
  function JumpIndices(tau: seq<nat>, u: seq<real>): (idx: seq<nat>)
    requires |tau| >= 1 && Sorted(tau) && Fractions(u) && |u| >= |tau| - 1
    ensures |idx| == |tau| - 1
    ensures forall j :: 0 <= j < |idx| ==> tau[j] <= idx[j] <= tau[j + 1]
  {
    seq(|tau| - 1, j requires 0 <= j < |tau| - 1 => JumpIndex(tau[j], tau[j + 1], u[j]))
  }

  /** The largest interval `j < m` whose jump index is `k`: the write that stays in slot `k`. */
  function LastWriter(idx: seq<nat>, k: nat, m: nat): (w: Option<nat>)
    requires m <= |idx|
    ensures w.Some? ==> w.value < m && idx[w.value] == k && forall j :: w.value < j < m ==> idx[j] != k
    ensures w.None? ==> forall j :: 0 <= j < m ==> idx[j] != k
  {
    if m == 0 then None
    else if idx[m - 1] == k then Some(m - 1)
    else LastWriter(idx, k, m - 1)
  }

  /** `n` unset slots except slot 0, which holds the initial level. */
  function Initial(n: nat, first: real): (s: seq<Option<real>>)
    requires n >= 1
    ensures |s| == n && s[0] == Some(first)
    ensures forall k :: 1 <= k < n ==> s[k] == None
  {
    [Some(first)] + seq(n - 1, _ => None)
  }

  /** The slots after the first `m` intervals have written their values. */
  function Placed(n: nat, levels: seq<real>, idx: seq<nat>, m: nat): (s: seq<Option<real>>)
    requires n >= 1 && |levels| >= 1 && m <= |idx| && m <= |levels|
    requires forall j :: 0 <= j < m ==> idx[j] < n
    ensures |s| == n && s[0].Some?
  {
    if m == 0 then Initial(n, levels[0])
    else Placed(n, levels, idx, m - 1)[idx[m - 1] := Some(levels[m - 1])]
  }

  /** Last write wins: a slot holds the value of the last interval that wrote it. */
  lemma {:induction false} PlacedSlot(n: nat, levels: seq<real>, idx: seq<nat>, m: nat, k: nat)
    requires n >= 1 && |levels| >= 1 && m <= |idx| && m <= |levels|
    requires forall j :: 0 <= j < m ==> idx[j] < n
    requires k < n
    ensures Placed(n, levels, idx, m)[k] ==
      match LastWriter(idx, k, m)
      case Some(j) => Some(levels[j])
      case None => if k == 0 then Some(levels[0]) else None
  {
    if m > 0 {
      PlacedSlot(n, levels, idx, m - 1, k);
    }
  }

  /** Forward fill: every unset slot takes its predecessor's value. */
  function Fill(s: seq<Option<real>>): (p: seq<real>)
    requires |s| >= 1 && s[0].Some?
    ensures |p| == |s|
    ensures forall k :: 0 <= k < |s| && s[k].Some? ==> p[k] == s[k].value
    ensures forall k :: 1 <= k < |s| && s[k].None? ==> p[k] == p[k - 1]
    decreases |s|
  {
    if |s| == 1 then [s[0].value]
    else
      var q := Fill(s[..|s| - 1]);
      q + [if s[|s| - 1].Some? then s[|s| - 1].value else q[|q| - 1]]
  }

  /** The two fill rules determine the filled series. */
  lemma {:induction false} FillUnique(s: seq<Option<real>>, p: seq<real>)
    requires |s| >= 1 && s[0].Some? && |p| == |s|
    requires forall k :: 0 <= k < |s| && s[k].Some? ==> p[k] == s[k].value
    requires forall k :: 1 <= k < |s| && s[k].None? ==> p[k] == p[k - 1]
    ensures p == Fill(s)
  {
    var f := Fill(s);
    forall k | 0 <= k < |s| ensures p[k] == f[k] {
      FillAgrees(s, p, f, k);
    }
  }

  lemma {:induction false} FillAgrees(s: seq<Option<real>>, p: seq<real>, f: seq<real>, k: nat)
    requires |s| >= 1 && s[0].Some? && |p| == |s| && |f| == |s| && k < |s|
    requires forall k :: 0 <= k < |s| && s[k].Some? ==> p[k] == s[k].value && f[k] == s[k].value
    requires forall k :: 1 <= k < |s| && s[k].None? ==> p[k] == p[k - 1] && f[k] == f[k - 1]
    ensures p[k] == f[k]
  {
    if s[k].None? {
      FillAgrees(s, p, f, k - 1);
    }
  }

  /** Every jump index lies inside a series of `n` slots. */
  predicate AllBelow(idx: seq<nat>, n: nat)
  {
    forall j :: 0 <= j < |idx| ==> idx[j] < n
  }

  /**
   * The observed series of a path of `n` samples, or the IndexError the source
   * raises when slot 0 or a jump index lies past the end of the series.
   */
  function Reconstruct(n: nat, tau: seq<nat>, levels: seq<real>, u: seq<real>): (r: Result<seq<real>, Error>)
    requires |tau| == |levels| >= 1 && Sorted(tau) && Fractions(u) && |u| >= |tau| - 1
    ensures r.Err? ==> r.error == IndexOutOfRange
  {
    var idx := JumpIndices(tau, u);
    if n == 0 || !AllBelow(idx, n) then Err(IndexOutOfRange)
    else Ok(Fill(Placed(n, levels, idx, |idx|)))
  }

  /**
   * The placement and fill loops of `get_obs_price` over an array of optional
   * slots: the series they build is the reconstruction.
   */
  method ObservedSeries(n: nat, ts: seq<nat>, obs: seq<real>, draws: seq<real>) returns (r: Result<seq<real>, Error>)
    requires |ts| == |obs| >= 1 && Sorted(ts) && Fractions(draws) && |draws| >= |ts| - 1
    ensures r == Reconstruct(n, ts, obs, draws)
  {
    if n == 0 {
      return Err(IndexOutOfRange);  // p[0] of an empty series
    }
    // `None * len(self.x)` and `p[0] = self.obs_price` in the source: n unset
    // slots, then the first level in slot 0.
    var slots := new Option<real>[n](_ => None);
    slots[0] := Some(obs[0]);
    assert slots[..] == Initial(n, obs[0]);
    // The jump positions `select_time(tau[j], tau[j+1])`, rounded to an index
    // (the source indexes with the float itself).
    var idx := JumpIndices(ts, draws);
    var ok := PlaceJumps(slots, idx, obs);
    if !ok {
      return Err(IndexOutOfRange);
    }
    ghost var placed := slots[..];
    ForwardFill(slots);
    var series := seq(n, k requires 0 <= k < n reads slots => if slots[k].Some? then slots[k].value else 0.0);
    assert series == Fill(placed);
    r := Ok(series);
  }

  /**
   * The interval loop of `get_obs_price`: writes each interval's level at its
   * jump index, in interval order, and stops with an IndexError at the first
   * index past the end of the series.
   */
  method PlaceJumps(slots: array<Option<real>>, idx: seq<nat>, obs: seq<real>) returns (ok: bool)
    requires |obs| >= 1 && |idx| == |obs| - 1
    requires slots.Length >= 1 && slots[..] == Initial(slots.Length, obs[0])
    modifies slots
    ensures ok <==> AllBelow(idx, slots.Length)
    ensures ok ==> slots[..] == Placed(slots.Length, obs, idx, |idx|)
  {
    var j := 0;
    while j < |idx|
      invariant 0 <= j <= |idx|
      invariant forall m :: 0 <= m < j ==> idx[m] < slots.Length
      invariant slots[..] == Placed(slots.Length, obs, idx, j)
    {
      var jump := idx[j];
      if jump >= slots.Length {
        return false;
      }
      slots[jump] := Some(obs[j]);
      j := j + 1;
    }
    return true;
  }

  /** The fill loop of `get_obs_price`: every slot ends up holding the forward-filled value. */
  method ForwardFill(slots: array<Option<real>>)
    requires slots.Length >= 1 && slots[0].Some?
    modifies slots
    ensures forall k :: 0 <= k < slots.Length ==> slots[k] == Some(Fill(old(slots[..]))[k])
  {
    ghost var placed := slots[..];
    ghost var filled := Fill(placed);
    var i := 0;
    while i < slots.Length
      invariant 0 <= i <= slots.Length
      invariant forall k :: 0 <= k < i ==> slots[k] == Some(filled[k])
      invariant forall k :: i <= k < slots.Length ==> slots[k] == placed[k]
    {
      if slots[i].None? {
        // i >= 1 here: slot 0 is always set, so the source's p[i-1] never wraps to p[-1]
        slots[i] := Some(slots[i - 1].value);
      }
      i := i + 1;
    }
  }

  /** Reconstruction succeeds exactly when the series is non-empty and every jump index lies in it. */
  lemma ReconstructSucceeds(n: nat, tau: seq<nat>, levels: seq<real>, u: seq<real>)
    requires |tau| == |levels| >= 1 && Sorted(tau) && Fractions(u) && |u| >= |tau| - 1
    ensures Reconstruct(n, tau, levels, u).Ok? <==>
      n >= 1 && forall j :: 0 <= j < |tau| - 1 ==> JumpIndex(tau[j], tau[j + 1], u[j]) < n
  {
    var idx := JumpIndices(tau, u);
    assert AllBelow(idx, n) <==> forall j :: 0 <= j < |tau| - 1 ==> JumpIndex(tau[j], tau[j + 1], u[j]) < n by {
      forall j | 0 <= j < |idx| ensures idx[j] == JumpIndex(tau[j], tau[j + 1], u[j]) { }
    }
  }

  /** When every interval ends inside the series, reconstruction succeeds. */
  lemma ReconstructInRange(n: nat, tau: seq<nat>, levels: seq<real>, u: seq<real>)
    requires |tau| == |levels| >= 1 && Sorted(tau) && Fractions(u) && |u| >= |tau| - 1
    requires n >= 1 && forall j :: 0 <= j < |tau| ==> tau[j] < n
    ensures Reconstruct(n, tau, levels, u).Ok?
  {
    var idx := JumpIndices(tau, u);
    forall j | 0 <= j < |idx| ensures idx[j] < n {
      assert idx[j] <= tau[j + 1];
    }
  }

  /**
   * The filled series: `n` values, slot 0 the first level unless a later interval
   * wrote it, every written slot the value of its last writer, and every other
   * slot a copy of its predecessor.
   */
  lemma ReconstructShape(n: nat, tau: seq<nat>, levels: seq<real>, u: seq<real>)
    requires |tau| == |levels| >= 1 && Sorted(tau) && Fractions(u) && |u| >= |tau| - 1
    requires Reconstruct(n, tau, levels, u).Ok?
    ensures var p := Reconstruct(n, tau, levels, u).value;
      var idx := JumpIndices(tau, u);
      |p| == n &&
      (forall k :: 0 <= k < n && LastWriter(idx, k, |idx|).Some? ==> p[k] == levels[LastWriter(idx, k, |idx|).value]) &&
      (LastWriter(idx, 0, |idx|).None? ==> p[0] == levels[0]) &&
      (forall k :: 1 <= k < n && LastWriter(idx, k, |idx|).None? ==> p[k] == p[k - 1])
  {
    var idx := JumpIndices(tau, u);
    var s := Placed(n, levels, idx, |idx|);
    forall k | 0 <= k < n
      ensures s[k] == match LastWriter(idx, k, |idx|)
                      case Some(j) => Some(levels[j])
                      case None => if k == 0 then Some(levels[0]) else None
    {
      PlacedSlot(n, levels, idx, |idx|, k);
    }
  }

  /** When no later crossing shares index 0, slot 0 holds the initial level. */
  lemma ReconstructStart(n: nat, tau: seq<nat>, levels: seq<real>, u: seq<real>)
    requires |tau| == |levels| >= 1 && Sorted(tau) && Fractions(u) && |u| >= |tau| - 1
    requires tau[0] == 0 && forall j :: 1 <= j < |tau| ==> tau[j] >= 1
    requires Reconstruct(n, tau, levels, u).Ok?
    ensures Reconstruct(n, tau, levels, u).value[0] == levels[0]
  {
    var idx := JumpIndices(tau, u);
    ReconstructShape(n, tau, levels, u);
    var w := LastWriter(idx, 0, |idx|);
    assert w.Some? ==> idx[w.value] == 0 && tau[w.value] <= idx[w.value];
  }

  /**
   * Every observed value is a posted level: one of `levels[0..|levels|-1)`, or
   * `levels[0]` when no crossing was recorded.  The last level is never posted,
   * because the interval loop stops one short of it.
   */
  lemma {:induction false} ReconstructValues(n: nat, tau: seq<nat>, levels: seq<real>, u: seq<real>)
    requires |tau| == |levels| >= 1 && Sorted(tau) && Fractions(u) && |u| >= |tau| - 1
    requires Reconstruct(n, tau, levels, u).Ok?
    ensures var p := Reconstruct(n, tau, levels, u).value;
      forall k :: 0 <= k < |p| ==> p[k] in levels[..Max(|levels| - 1, 1)]
  {
    var p := Reconstruct(n, tau, levels, u).value;
    var idx := JumpIndices(tau, u);
    var posted := levels[..Max(|levels| - 1, 1)];
    ReconstructShape(n, tau, levels, u);
    forall k | 0 <= k < |p| ensures p[k] in posted {
      PostedAt(n, tau, levels, u, p, idx, posted, k);
    }
  }

  /** When every level is a grid value, so is every value of the series. */
  lemma ReconstructOnGrid(n: nat, tau: seq<nat>, levels: seq<real>, u: seq<real>, alpha: real)
    requires |tau| == |levels| >= 1 && Sorted(tau) && Fractions(u) && |u| >= |tau| - 1
    requires Reconstruct(n, tau, levels, u).Ok?
    requires forall j :: 0 <= j < |levels| ==> OnGrid(levels[j], alpha)
    ensures var p := Reconstruct(n, tau, levels, u).value;
      forall k :: 0 <= k < |p| ==> OnGrid(p[k], alpha)
  {
    var p := Reconstruct(n, tau, levels, u).value;
    var posted := levels[..Max(|levels| - 1, 1)];
    ReconstructValues(n, tau, levels, u);
    forall k | 0 <= k < |p| ensures OnGrid(p[k], alpha) {
      var j :| 0 <= j < |posted| && posted[j] == p[k];
      assert levels[j] == p[k];
    }
  }

  lemma {:induction false} PostedAt(n: nat, tau: seq<nat>, levels: seq<real>, u: seq<real>,
                                    p: seq<real>, idx: seq<nat>, posted: seq<real>, k: nat)
    requires |tau| == |levels| >= 1 && |idx| == |tau| - 1 && |p| == n && k < n
    requires posted == levels[..Max(|levels| - 1, 1)]
    requires forall k :: 0 <= k < n && LastWriter(idx, k, |idx|).Some? ==> p[k] == levels[LastWriter(idx, k, |idx|).value]
    requires LastWriter(idx, 0, |idx|).None? ==> p[0] == levels[0]
    requires forall k :: 1 <= k < n && LastWriter(idx, k, |idx|).None? ==> p[k] == p[k - 1]
    ensures p[k] in posted
  {
    var w := LastWriter(idx, k, |idx|);
    if w.Some? {
      assert posted[w.value] == levels[w.value];
    } else if k == 0 {
      assert posted[0] == levels[0];
    } else {
      PostedAt(n, tau, levels, u, p, idx, posted, k - 1);
    }
  }

  /**
   * The whole pipeline: the crossings detected on a non-empty path always give
   * a reconstruction, which starts at the initial level and only shows detected
   * levels.
   */
  lemma PipelineSucceeds(x: seq<real>, alpha: real, eta: real, u: seq<real>)
    requires |x| >= 1 && alpha > 0.0 && eta >= 0.0
    requires Fractions(u) && |u| >= |Detect(x, alpha, eta).tau| - 1
    ensures var c := Detect(x, alpha, eta);
      var r := Reconstruct(|x|, c.tau, c.levels, u);
      r.Ok? && |r.value| == |x| && r.value[0] == InitialLevel(x[0], alpha) &&
      forall k :: 0 <= k < |x| ==> r.value[k] in c.levels[..Max(|c.levels| - 1, 1)]
    ensures var c := Detect(x, alpha, eta);
      var r := Reconstruct(|x|, c.tau, c.levels, u);
      r.Ok? && forall k :: 0 <= k < |r.value| ==> OnGrid(r.value[k], alpha)
  {
    var c := Detect(x, alpha, eta);
    ReconstructInRange(|x|, c.tau, c.levels, u);
    ReconstructShape(|x|, c.tau, c.levels, u);
    ReconstructStart(|x|, c.tau, c.levels, u);
    ReconstructValues(|x|, c.tau, c.levels, u);
    DetectOnGrid(x, alpha, eta);
    ReconstructOnGrid(|x|, c.tau, c.levels, u, alpha);
  }
}
