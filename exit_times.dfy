/**
 * Exit-time detection of the uncertainty-zone model (`UctZone.get_exit_times`).
 *
 * The efficient price path `x` is scanned from index 1.  The observed level `last`
 * starts on the tick grid; whenever `x[i]` leaves the zone
 * `[last - w, last + w]` with `w = alpha * (L - 1/2 + eta)`, index `i` is recorded
 * and the level moves by `alpha * L` towards the price.  After a crossing the same
 * index is tested again against the new level with a fresh jump size `L`.
 */
module ExitTimes {
  import opened Common

  /** The crossing sequence: recorded indices and the observed level after each one. */
  datatype Crossings = Crossings(tau: seq<nat>, levels: seq<real>)

  /**
   * Number of ticks the observed price moves at a crossing (`jump_size`).
   * The source draws nothing and always returns 1.
   */
  function JumpSize(): (ticks: int)
    ensures ticks >= 1
  {
    1
  }

  /**
   * Half-width of the uncertainty zone around the last observed level.  For a
   * positive tick, a non-negative aversion and a jump of at least one tick the
   * zone reaches at least half a tick on either side.
   */
  function HalfWidth(alpha: real, eta: real, ticks: int): (w: real)
    ensures alpha > 0.0 && eta >= 0.0 && ticks >= 1 ==> w >= alpha / 2.0
  {
    var w := alpha * (ticks as real - 0.5 + eta);
    if alpha > 0.0 && eta >= 0.0 && ticks >= 1 then
      MulNonneg(alpha, ticks as real - 1.0 + eta);
      assert w == alpha * (ticks as real - 1.0 + eta) + alpha / 2.0;
      w
    else
      w
  }

  /** The ascent test of the scan: it fires only more than half a tick above the level. */
  predicate Ascends(xi: real, last: real, alpha: real, eta: real, ticks: int): (up: bool)
    ensures up && alpha > 0.0 && eta >= 0.0 && ticks >= 1 ==> xi > last + alpha / 2.0
  {
    xi > last + HalfWidth(alpha, eta, ticks)
  }

  /** The descent test of the scan: it fires only more than half a tick below the level. */
  predicate Descends(xi: real, last: real, alpha: real, eta: real, ticks: int): (down: bool)
    ensures down && alpha > 0.0 && eta >= 0.0 && ticks >= 1 ==> xi < last - alpha / 2.0
  {
    xi < last - HalfWidth(alpha, eta, ticks)
  }

  /** Neither test fires: `xi` lies in the closed uncertainty zone of `last`. */
  predicate InZone(xi: real, last: real, alpha: real, eta: real, ticks: int): (quiet: bool)
    ensures quiet <==> last - HalfWidth(alpha, eta, ticks) <= xi <= last + HalfWidth(alpha, eta, ticks)
  {
    !Ascends(xi, last, alpha, eta, ticks) && !Descends(xi, last, alpha, eta, ticks)
  }

  lemma MulNonneg(a: real, b: real)
    requires a >= 0.0 && b >= 0.0
    ensures a * b >= 0.0
  {
  }

  lemma MulPos(a: real, b: real)
    requires a > 0.0 && b > 0.0
    ensures a * b > 0.0
  {
  }

  lemma MulCancel(t: real, c: real, alpha: real)
    requires alpha > 0.0 && t * alpha > c * alpha
    ensures t > c
  {
    if t <= c {
      MulNonneg(c - t, alpha);
    }
  }

  lemma DivOf(d: real, y: real, alpha: real)
    requires alpha > 0.0 && d == y * alpha
    ensures d / alpha == y
  {
  }

  /** The zone is at least half a tick wide on each side, and at least one tick wide in all. */
  lemma HalfWidthBounds(alpha: real, eta: real, ticks: int)
    requires alpha > 0.0 && eta >= 0.0 && ticks >= 1
    ensures HalfWidth(alpha, eta, ticks) >= alpha / 2.0
    ensures 2.0 * HalfWidth(alpha, eta, ticks) >= alpha * ticks as real
  {
    var l := ticks as real;
    MulNonneg(alpha, l - 1.0 + eta);
    MulNonneg(alpha, l - 1.0 + 2.0 * eta);
    assert alpha * (l - 0.5 + eta) == alpha * (l - 1.0 + eta) + alpha / 2.0;
    assert 2.0 * (alpha * (l - 0.5 + eta)) == alpha * l + alpha * (l - 1.0 + 2.0 * eta);
  }

  lemma BelowProduct(x0: real, alpha: real, q: real, k: real)
    requires alpha > 0.0 && x0 == q * alpha && k <= q
    ensures k * alpha <= x0
  {
    MulNonneg(q - k, alpha);
    assert (q - k) * alpha == q * alpha - k * alpha;
  }

  lemma AboveProduct(x0: real, alpha: real, q: real, m: real)
    requires alpha > 0.0 && x0 == q * alpha && q < m
    ensures x0 < m * alpha
  {
    MulPos(m - q, alpha);
    assert (m - q) * alpha == m * alpha - q * alpha;
  }

  /** k * alpha <= x0 < (k + 1) * alpha for k = floor(x0 / alpha). */
  lemma FloorBracket(x0: real, alpha: real)
    requires alpha > 0.0
    ensures (x0 / alpha).Floor as real * alpha <= x0 < ((x0 / alpha).Floor + 1) as real * alpha
  {
    var q := x0 / alpha;
    var k := q.Floor as real;
    assert x0 == q * alpha;
    BelowProduct(x0, alpha, q, k);
    AboveProduct(x0, alpha, q, k + 1.0);
  }

  /**
   * The initial grid level, as the source computes it.  The source compares the
   * SIGNED differences `k*alpha - x0 < (k+1)*alpha - x0`, which reduces to
   * `0 < alpha`, so the lower grid value is always taken, not the nearer one.
   */
  function InitialLevel(x0: real, alpha: real): (level: real)
    requires alpha > 0.0
    ensures level == (x0 / alpha).Floor as real * alpha
    ensures level <= x0 < level + alpha
  {
    var k := (x0 / alpha).Floor;
    FloorBracket(x0, alpha);
    if k as real * alpha - x0 < (k + 1) as real * alpha - x0 then k as real * alpha
    else (k + 1) as real * alpha
  }

  /** A price closer to the upper grid value still gets the lower one. */
  lemma InitialLevelIsNotNearest()
    ensures InitialLevel(0.9, 1.0) == 0.0
    ensures Abs(1.0 - 0.9) < Abs(0.0 - 0.9)
  {
  }

  /**
   * How many grid steps separate `xi` from `last`, rounded: every crossing at the
   * same index lowers it, so re-testing an index after a crossing terminates.
   */
  function ZonePotential(xi: real, last: real, alpha: real): (ticks: nat)
    requires alpha > 0.0
  {
    RoundedTicks((xi - last) / alpha)
  }

  /** A distance of `t` ticks, rounded to the nearest whole number of ticks. */
  function RoundedTicks(t: real): (n: nat)
  {
    (Abs(t) + 0.5).Floor
  }

  function Potential(x: seq<real>, alpha: real, i: nat, last: real): (ticks: nat)
    requires alpha > 0.0
  {
    if i < |x| then ZonePotential(x[i], last, alpha) else 0
  }

  /** A distance beyond `alpha * c` is more than `c` ticks. */
  lemma PastZone(d: real, alpha: real, c: real)
    requires alpha > 0.0 && d > alpha * c
    ensures d / alpha > c
  {
    var t := d / alpha;
    assert d == t * alpha;
    assert alpha * c == c * alpha;
    MulCancel(t, c, alpha);
  }

  /** Moving the level by `l` ticks moves the distance in ticks by `l`. */
  lemma ShiftedTicks(d: real, alpha: real, l: real)
    requires alpha > 0.0
    ensures d - alpha * l == (d / alpha - l) * alpha
  {
    var t := d / alpha;
    assert d == t * alpha;
    assert alpha * l == l * alpha;
  }

  /** An ascent lowers the potential of the price it was tested on. */
  lemma AscentLowersPotential(xi: real, last: real, alpha: real, eta: real, ticks: int)
    requires alpha > 0.0 && eta >= 0.0 && ticks >= 1
    requires Ascends(xi, last, alpha, eta, ticks)
    ensures ZonePotential(xi, last + alpha * ticks as real, alpha) < ZonePotential(xi, last, alpha)
  {
    AscentTicks(xi, last, alpha, eta, ticks);
    FloorStep((xi - last) / alpha, ticks);
  }

  /** Above the zone the price is more than `ticks - 1/2` ticks up, and an ascent takes `ticks` off. */
  lemma AscentTicks(xi: real, last: real, alpha: real, eta: real, ticks: int)
    requires alpha > 0.0 && eta >= 0.0 && ticks >= 1
    requires Ascends(xi, last, alpha, eta, ticks)
    ensures (xi - last) / alpha > ticks as real - 0.5
    ensures (xi - (last + alpha * ticks as real)) / alpha == (xi - last) / alpha - ticks as real
  {
    var l := ticks as real;
    PastZone(xi - last, alpha, l - 0.5 + eta);
    ShiftedTicks(xi - last, alpha, l);
    DivOf(xi - (last + alpha * l), (xi - last) / alpha - l, alpha);
  }

  /** The rounded distance in ticks drops when a crossing moves the level by `ticks`. */
  lemma FloorStep(t: real, ticks: int)
    requires ticks >= 1 && t > ticks as real - 0.5
    ensures RoundedTicks(t - ticks as real) < RoundedTicks(t)
  {
    var l := ticks as real;
    assert Abs(t) == t;
    assert (t + 0.5).Floor >= ticks;
    if t >= l {
      assert (t - l + 0.5).Floor == (t + 0.5).Floor - ticks;
    } else {
      assert Abs(t - l) + 0.5 < 1.0;
    }
  }

  /** Mirroring price and level leaves the potential unchanged. */
  lemma MirroredPotential(xi: real, last: real, alpha: real)
    requires alpha > 0.0
    ensures ZonePotential(-xi, -last, alpha) == ZonePotential(xi, last, alpha)
  {
    var t := (xi - last) / alpha;
    assert xi - last == t * alpha;
    DivOf(-xi - -last, -t, alpha);
    assert RoundedTicks(-t) == RoundedTicks(t);
  }

  /** A descent is an ascent of the mirrored price. */
  lemma DescentLowersPotential(xi: real, last: real, alpha: real, eta: real, ticks: int)
    requires alpha > 0.0 && eta >= 0.0 && ticks >= 1
    requires Descends(xi, last, alpha, eta, ticks)
    ensures ZonePotential(xi, last - alpha * ticks as real, alpha) < ZonePotential(xi, last, alpha)
  {
    var next := last - alpha * ticks as real;
    AscentLowersPotential(-xi, -last, alpha, eta, ticks);
    MirroredPotential(xi, last, alpha);
    assert -next == -last + alpha * ticks as real;
    MirroredPotential(xi, next, alpha);
  }

  /** An ascent at index `i` lowers the scan's potential there. */
  lemma AscentLowersScanPotential(x: seq<real>, alpha: real, eta: real, i: nat, last: real)
    requires alpha > 0.0 && eta >= 0.0 && i < |x| && Ascends(x[i], last, alpha, eta, JumpSize())
    ensures Potential(x, alpha, i, last + alpha * JumpSize() as real) < Potential(x, alpha, i, last)
  {
    AscentLowersPotential(x[i], last, alpha, eta, JumpSize());
  }

  /** A descent at index `i` lowers the scan's potential there. */
  lemma DescentLowersScanPotential(x: seq<real>, alpha: real, eta: real, i: nat, last: real)
    requires alpha > 0.0 && eta >= 0.0 && i < |x| && Descends(x[i], last, alpha, eta, JumpSize())
    ensures Potential(x, alpha, i, last - alpha * JumpSize() as real) < Potential(x, alpha, i, last)
  {
    DescentLowersPotential(x[i], last, alpha, eta, JumpSize());
  }

  /**
   * The scan from index `i` with current level `last`, bounded by the end of the
   * path: the crossings it records, in order.  The jump size is drawn again at
   * every test; since it is constant, this is the same as drawing it after each
   * crossing as the source does.
   */
  function Scan(x: seq<real>, alpha: real, eta: real, i: nat, last: real): (s: Crossings)
    requires alpha > 0.0 && eta >= 0.0
    ensures |s.tau| == |s.levels|
    decreases |x| - i, Potential(x, alpha, i, last)
  {
    if i >= |x| then Crossings([], [])
    else
      var ticks := JumpSize();
      if Ascends(x[i], last, alpha, eta, ticks) then
        var next := last + alpha * ticks as real;
        AscentLowersPotential(x[i], last, alpha, eta, ticks);
        var rest := Scan(x, alpha, eta, i, next);
        Crossings([i] + rest.tau, [next] + rest.levels)
      else if Descends(x[i], last, alpha, eta, ticks) then
        var next := last - alpha * ticks as real;
        DescentLowersPotential(x[i], last, alpha, eta, ticks);
        var rest := Scan(x, alpha, eta, i, next);
        Crossings([i] + rest.tau, [next] + rest.levels)
      else
        Scan(x, alpha, eta, i + 1, last)
  }

  /** One step of the scan at an ascent. */
  lemma ScanAscent(x: seq<real>, alpha: real, eta: real, i: nat, last: real)
    requires alpha > 0.0 && eta >= 0.0 && i < |x| && Ascends(x[i], last, alpha, eta, JumpSize())
    ensures var rest := Scan(x, alpha, eta, i, last + alpha * JumpSize() as real);
      Scan(x, alpha, eta, i, last) == Crossings([i] + rest.tau, [last + alpha * JumpSize() as real] + rest.levels)
  {
  }

  /** One step of the scan at a descent. */
  lemma ScanDescent(x: seq<real>, alpha: real, eta: real, i: nat, last: real)
    requires alpha > 0.0 && eta >= 0.0 && i < |x| && Descends(x[i], last, alpha, eta, JumpSize())
    ensures var rest := Scan(x, alpha, eta, i, last - alpha * JumpSize() as real);
      Scan(x, alpha, eta, i, last) == Crossings([i] + rest.tau, [last - alpha * JumpSize() as real] + rest.levels)
  {
    HalfWidthBounds(alpha, eta, JumpSize());
    assert !Ascends(x[i], last, alpha, eta, JumpSize());
  }

  /** One step of the scan at a price inside the zone. */
  lemma ScanQuiet(x: seq<real>, alpha: real, eta: real, i: nat, last: real)
    requires alpha > 0.0 && eta >= 0.0 && i < |x| && InZone(x[i], last, alpha, eta, JumpSize())
    ensures Scan(x, alpha, eta, i, last) == Scan(x, alpha, eta, i + 1, last)
  {
  }

  /** Glues a recorded prefix to the crossings a scan still has to record. */
  function Resume(tau: seq<nat>, levels: seq<real>, s: Crossings): (c: Crossings)
  {
    Crossings(tau + s.tau, levels + s.levels)
  }

  /** Recording an ascent moves it from the scan still to run to the recorded prefix. */
  lemma ResumeAscent(x: seq<real>, alpha: real, eta: real, i: nat, last: real, tau: seq<nat>, levels: seq<real>)
    requires alpha > 0.0 && eta >= 0.0 && i < |x| && Ascends(x[i], last, alpha, eta, JumpSize())
    ensures var next := last + alpha * JumpSize() as real;
      Resume(tau, levels, Scan(x, alpha, eta, i, last)) == Resume(tau + [i], levels + [next], Scan(x, alpha, eta, i, next))
  {
    var next := last + alpha * JumpSize() as real;
    var rest := Scan(x, alpha, eta, i, next);
    ScanAscent(x, alpha, eta, i, last);
    assert tau + ([i] + rest.tau) == (tau + [i]) + rest.tau;
    assert levels + ([next] + rest.levels) == (levels + [next]) + rest.levels;
  }

  /** Recording a descent moves it from the scan still to run to the recorded prefix. */
  lemma ResumeDescent(x: seq<real>, alpha: real, eta: real, i: nat, last: real, tau: seq<nat>, levels: seq<real>)
    requires alpha > 0.0 && eta >= 0.0 && i < |x| && Descends(x[i], last, alpha, eta, JumpSize())
    ensures var next := last - alpha * JumpSize() as real;
      Resume(tau, levels, Scan(x, alpha, eta, i, last)) == Resume(tau + [i], levels + [next], Scan(x, alpha, eta, i, next))
  {
    var next := last - alpha * JumpSize() as real;
    var rest := Scan(x, alpha, eta, i, next);
    ScanDescent(x, alpha, eta, i, last);
    assert tau + ([i] + rest.tau) == (tau + [i]) + rest.tau;
    assert levels + ([next] + rest.levels) == (levels + [next]) + rest.levels;
  }

  /** At the end of the path nothing is left to record. */
  lemma ResumeEnd(x: seq<real>, alpha: real, eta: real, i: nat, last: real, tau: seq<nat>, levels: seq<real>)
    requires alpha > 0.0 && eta >= 0.0 && i >= |x|
    ensures Resume(tau, levels, Scan(x, alpha, eta, i, last)) == Crossings(tau, levels)
  {
    assert tau + [] == tau && levels + [] == levels;
  }

  ghost predicate Sorted(tau: seq<nat>)
  {
    forall j, k :: 0 <= j <= k < |tau| ==> tau[j] <= tau[k]
  }

  /** The shape every crossing sequence of the pipeline has. */
  ghost predicate WellFormed(tau: seq<nat>, levels: seq<real>)
  {
    |tau| == |levels| >= 1 && tau[0] == 0 && Sorted(tau) &&
    forall j :: 1 <= j < |tau| ==> tau[j] >= 1
  }

  /** The detector's result on a non-empty path (the corrected, bounded scan). */
  function Detect(x: seq<real>, alpha: real, eta: real): (c: Crossings)
    requires |x| >= 1 && alpha > 0.0 && eta >= 0.0
    ensures WellFormed(c.tau, c.levels)
    ensures c.levels[0] == InitialLevel(x[0], alpha)
    ensures forall j :: 0 <= j < |c.tau| ==> c.tau[j] < |x|
  {
    var level := InitialLevel(x[0], alpha);
    var s := Scan(x, alpha, eta, 1, level);
    ScanExplained(x, alpha, eta, 1, level);
    CrossingsFrom(x, alpha, eta, 1, 1, s.tau, [level] + s.levels);
    Reanchor(x, alpha, eta, 1, 1, 1, 0, s.tau, [level] + s.levels);
    Crossings([0] + s.tau, [level] + s.levels)
  }

  /**
   * The scan loop of `get_exit_times`, with the inner loop stopped at the end of
   * the path: the crossings it appends are those of the detector.
   */
  method ExitTimesOf(path: seq<real>, alpha: real, eta: real) returns (ts: seq<nat>, obs: seq<real>)
    requires |path| >= 1 && alpha > 0.0 && eta >= 0.0
    ensures Crossings(ts, obs) == Detect(path, alpha, eta)
  {
    // First grid and grid price; the test always holds (see InitialLevel).
    var k := (path[0] / alpha).Floor;
    var lastObs: real;
    if k as real * alpha - path[0] < (k + 1) as real * alpha - path[0] {
      lastObs := k as real * alpha;
    } else {
      lastObs := (k + 1) as real * alpha;
      k := k + 1;
    }
    assert lastObs == InitialLevel(path[0], alpha);
    ts := [0];
    obs := [lastObs];
    var i: nat := 1;
    while i < |path|
      invariant 1 <= i <= |path|
      invariant Resume(ts, obs, Scan(path, alpha, eta, i, lastObs)) == Detect(path, alpha, eta)
      decreases |path| - i, Potential(path, alpha, i, lastObs)
    {
      ghost var i0, last0 := i, lastObs;
      i, lastObs, ts, obs := NextCrossing(path, alpha, eta, i, lastObs, ts, obs);
      if i == i0 {
        StepLowersPotential(path, alpha, eta, i, last0, lastObs);
      }
    }
    ResumeEnd(path, alpha, eta, i, lastObs, ts, obs);
  }

  /**
   * One pass of the outer loop of `get_exit_times`: the inner loop (`while True`
   * in the source, bounded here by the end of the path) moves past samples inside
   * the zone and records the first crossing.  What it records is taken off the
   * scan still to run: one crossing in the tested direction, or nothing when the
   * path ends first.
   */
  method NextCrossing(path: seq<real>, alpha: real, eta: real, i: nat, lastObs: real, ts: seq<nat>, obs: seq<real>)
    returns (i': nat, lastObs': real, ts': seq<nat>, obs': seq<real>)
    requires alpha > 0.0 && eta >= 0.0 && i < |path|
    ensures i <= i' <= |path|
    ensures Resume(ts', obs', Scan(path, alpha, eta, i', lastObs')) == Resume(ts, obs, Scan(path, alpha, eta, i, lastObs))
    ensures i' < |path| ==> ts' == ts + [i'] && obs' == obs + [lastObs'] && IsStep(path[i'], lastObs, lastObs', alpha, eta)
    ensures i' == |path| ==> lastObs' == lastObs && ts' == ts && obs' == obs
  {
    var L := JumpSize();
    i', lastObs', ts', obs' := i, lastObs, ts, obs;
    while i' < |path|
      invariant i <= i' <= |path| && lastObs' == lastObs && ts' == ts && obs' == obs
      invariant Scan(path, alpha, eta, i', lastObs) == Scan(path, alpha, eta, i, lastObs)
      decreases |path| - i'
    {
      if path[i'] > lastObs + alpha * (L as real - 0.5 + eta) {  // ascend
        assert Ascends(path[i'], lastObs, alpha, eta, L);
        ResumeAscent(path, alpha, eta, i', lastObs, ts, obs);
        ts' := ts + [i'];
        lastObs' := lastObs + alpha * L as real;
        obs' := obs + [lastObs'];
        return;
      } else if path[i'] < lastObs - alpha * (L as real - 0.5 + eta) {  // descend
        assert Descends(path[i'], lastObs, alpha, eta, L);
        ResumeDescent(path, alpha, eta, i', lastObs, ts, obs);
        ts' := ts + [i'];
        lastObs' := lastObs - alpha * L as real;
        obs' := obs + [lastObs'];
        return;
      }
      assert Scan(path, alpha, eta, i' + 1, lastObs) == Scan(path, alpha, eta, i', lastObs) by {
        assert InZone(path[i'], lastObs, alpha, eta, L);
        ScanQuiet(path, alpha, eta, i', lastObs);
      }
      i' := i' + 1;
    }
  }

  /** `levels[j]` is left at index `tau[j + 1]` in the direction the tests dictate. */
  predicate IsStep(xi: real, from: real, to: real, alpha: real, eta: real)
  {
    var ticks := JumpSize();
    (Ascends(xi, from, alpha, eta, ticks) && to == from + alpha * ticks as real) ||
    (Descends(xi, from, alpha, eta, ticks) && to == from - alpha * ticks as real)
  }

  /** A crossing lowers the potential of the scan at its index. */
  lemma StepLowersPotential(x: seq<real>, alpha: real, eta: real, i: nat, from: real, to: real)
    requires alpha > 0.0 && eta >= 0.0 && i < |x| && IsStep(x[i], from, to, alpha, eta)
    ensures Potential(x, alpha, i, to) < Potential(x, alpha, i, from)
  {
    if Ascends(x[i], from, alpha, eta, JumpSize()) && to == from + alpha * JumpSize() as real {
      AscentLowersScanPotential(x, alpha, eta, i, from);
    } else {
      DescentLowersScanPotential(x, alpha, eta, i, from);
    }
  }

  /** Where the zone of `levels[j]` ends: at the next crossing or at the end of the path. */
  function NextIndex(tau: seq<nat>, j: nat, n: nat): (k: nat)
    requires j < |tau|
  {
    if j + 1 < |tau| then tau[j + 1] else n
  }

  /**
   * Declarative reading of the scan, for a scan whose first tested index is
   * `start`: `tau[0]`/`levels[0]` is the anchor; each later entry is a crossing in
   * the right direction at an index in `[start, n)`; and every index tested while
   * `levels[j]` was current (from `max(tau[j], start)` up to the next crossing)
   * lay inside that level's zone.
   */
  ghost predicate Explained(x: seq<real>, alpha: real, eta: real, start: nat, tau: seq<nat>, levels: seq<real>)
  {
    |tau| == |levels| >= 1 && Sorted(tau) &&
    (forall j :: 1 <= j < |tau| ==>
       start <= tau[j] < |x| && IsStep(x[tau[j]], levels[j - 1], levels[j], alpha, eta)) &&
    (forall j, i :: 0 <= j < |tau| && Max(tau[j], start) <= i < NextIndex(tau, j, |x|) && i < |x| ==>
       InZone(x[i], levels[j], alpha, eta, JumpSize()))
  }

  /** `c` is a crossing sequence of the path: anchored at index 0 on the initial level, scanned from 1. */
  ghost predicate Explains(x: seq<real>, alpha: real, eta: real, c: Crossings)
    requires |x| >= 1 && alpha > 0.0
  {
    Explained(x, alpha, eta, 1, c.tau, c.levels) &&
    c.tau[0] == 0 && c.levels[0] == InitialLevel(x[0], alpha)
  }

  /** A recorded crossing followed by an explained rest is explained. */
  lemma ExplainedCons(x: seq<real>, alpha: real, eta: real, start: nat, t0: nat, l0: real,
                      tau: seq<nat>, levels: seq<real>, T: seq<nat>, V: seq<real>)
    requires Explained(x, alpha, eta, start, tau, levels)
    requires t0 <= tau[0] && start <= tau[0] < |x|
    requires IsStep(x[tau[0]], l0, levels[0], alpha, eta)
    requires forall i :: Max(t0, start) <= i < tau[0] ==> InZone(x[i], l0, alpha, eta, JumpSize())
    requires T == [t0] + tau && V == [l0] + levels
    ensures Explained(x, alpha, eta, start, T, V)
  {
    forall j, k | 0 <= j <= k < |T| ensures T[j] <= T[k] {
      if j > 0 { assert T[j] == tau[j - 1] && T[k] == tau[k - 1]; }
      else if k > 0 { assert T[k] == tau[k - 1]; }
    }
    forall j | 1 <= j < |T|
      ensures start <= T[j] < |x| && IsStep(x[T[j]], V[j - 1], V[j], alpha, eta)
    {
      if j > 1 { assert T[j] == tau[j - 1] && V[j - 1] == levels[j - 2] && V[j] == levels[j - 1]; }
    }
    forall j, i | 0 <= j < |T| && Max(T[j], start) <= i < NextIndex(T, j, |x|) && i < |x|
      ensures InZone(x[i], V[j], alpha, eta, JumpSize())
    {
      if j > 0 {
        assert T[j] == tau[j - 1] && V[j] == levels[j - 1];
        assert NextIndex(T, j, |x|) == NextIndex(tau, j - 1, |x|);
      }
    }
  }

  /**
   * Moving the anchor and the first tested index: the later crossings are
   * unchanged, and any index newly counted as tested must lie in the first zone.
   */
  lemma Reanchor(x: seq<real>, alpha: real, eta: real, s1: nat, a1: nat, s2: nat, a2: nat,
                 tau: seq<nat>, levels: seq<real>)
    requires Explained(x, alpha, eta, s1, [a1] + tau, levels)
    requires forall k :: 0 <= k < |tau| ==> s1 <= tau[k] && s2 <= tau[k] && a2 <= tau[k]
    requires forall i :: Max(a2, s2) <= i < Max(a1, s1) && i < NextIndex([a1] + tau, 0, |x|) && i < |x| ==>
               InZone(x[i], levels[0], alpha, eta, JumpSize())
    ensures Explained(x, alpha, eta, s2, [a2] + tau, levels)
  {
    var T1, T2 := [a1] + tau, [a2] + tau;
    forall j, k | 0 <= j <= k < |T2| ensures T2[j] <= T2[k] {
      if j > 0 { assert T2[j] == T1[j] && T2[k] == T1[k]; }
      else if k > 0 { assert T2[k] == tau[k - 1]; }
    }
    forall j | 1 <= j < |T2|
      ensures s2 <= T2[j] < |x| && IsStep(x[T2[j]], levels[j - 1], levels[j], alpha, eta)
    {
      assert T2[j] == T1[j] == tau[j - 1];
    }
    forall j, i | 0 <= j < |T2| && Max(T2[j], s2) <= i < NextIndex(T2, j, |x|) && i < |x|
      ensures InZone(x[i], levels[j], alpha, eta, JumpSize())
    {
      assert NextIndex(T2, j, |x|) == NextIndex(T1, j, |x|);
      if j > 0 {
        assert T2[j] == T1[j] == tau[j - 1];
      } else if i >= Max(a1, s1) {
        assert Max(T1[0], s1) <= i;
      }
    }
  }

  /** The crossings after the anchor lie at or after the first tested index. */
  lemma CrossingsFrom(x: seq<real>, alpha: real, eta: real, start: nat, a: nat, tau: seq<nat>, levels: seq<real>)
    requires Explained(x, alpha, eta, start, [a] + tau, levels)
    ensures forall k :: 0 <= k < |tau| ==> start <= tau[k]
  {
    forall k | 0 <= k < |tau| ensures start <= tau[k] {
      assert ([a] + tau)[k + 1] == tau[k];
    }
  }

  /** Soundness of the scan: what it records is explained, anchored at its start. */
  lemma {:induction false} ScanExplained(x: seq<real>, alpha: real, eta: real, i: nat, last: real)
    requires alpha > 0.0 && eta >= 0.0
    ensures var s := Scan(x, alpha, eta, i, last);
      Explained(x, alpha, eta, i, [i] + s.tau, [last] + s.levels)
    decreases |x| - i, Potential(x, alpha, i, last), 1
  {
    if i >= |x| {
      var T := [i];
      forall j, k | 0 <= j <= k < |T| ensures T[j] <= T[k] { }
      assert Explained(x, alpha, eta, i, T, [last]);
    } else if InZone(x[i], last, alpha, eta, JumpSize()) {
      ScanExplainedQuiet(x, alpha, eta, i, last);
    } else if Ascends(x[i], last, alpha, eta, JumpSize()) {
      ScanExplainedAscent(x, alpha, eta, i, last);
    } else {
      ScanExplainedDescent(x, alpha, eta, i, last);
    }
  }

  /** The soundness step at an ascent. */
  lemma {:induction false} ScanExplainedAscent(x: seq<real>, alpha: real, eta: real, i: nat, last: real)
    requires alpha > 0.0 && eta >= 0.0
    requires i < |x| && Ascends(x[i], last, alpha, eta, JumpSize())
    ensures var s := Scan(x, alpha, eta, i, last);
      Explained(x, alpha, eta, i, [i] + s.tau, [last] + s.levels)
    decreases |x| - i, Potential(x, alpha, i, last), 0
  {
    var next := last + alpha * JumpSize() as real;
    AscentLowersScanPotential(x, alpha, eta, i, last);
    var rest := Scan(x, alpha, eta, i, next);
    ScanAscent(x, alpha, eta, i, last);
    ScanExplained(x, alpha, eta, i, next);
    var s := Scan(x, alpha, eta, i, last);
    assert [i] + s.tau == [i] + ([i] + rest.tau) && [last] + s.levels == [last] + ([next] + rest.levels);
    ExplainedCons(x, alpha, eta, i, i, last, [i] + rest.tau, [next] + rest.levels, [i] + s.tau, [last] + s.levels);
  }

  /** The soundness step at a descent. */
  lemma {:induction false} ScanExplainedDescent(x: seq<real>, alpha: real, eta: real, i: nat, last: real)
    requires alpha > 0.0 && eta >= 0.0
    requires i < |x| && Descends(x[i], last, alpha, eta, JumpSize())
    ensures var s := Scan(x, alpha, eta, i, last);
      Explained(x, alpha, eta, i, [i] + s.tau, [last] + s.levels)
    decreases |x| - i, Potential(x, alpha, i, last), 0
  {
    var next := last - alpha * JumpSize() as real;
    DescentLowersScanPotential(x, alpha, eta, i, last);
    var rest := Scan(x, alpha, eta, i, next);
    ScanDescent(x, alpha, eta, i, last);
    ScanExplained(x, alpha, eta, i, next);
    var s := Scan(x, alpha, eta, i, last);
    assert [i] + s.tau == [i] + ([i] + rest.tau) && [last] + s.levels == [last] + ([next] + rest.levels);
    ExplainedCons(x, alpha, eta, i, i, last, [i] + rest.tau, [next] + rest.levels, [i] + s.tau, [last] + s.levels);
  }

  /** The soundness step at a price inside the zone. */
  lemma {:induction false} ScanExplainedQuiet(x: seq<real>, alpha: real, eta: real, i: nat, last: real)
    requires alpha > 0.0 && eta >= 0.0
    requires i < |x| && InZone(x[i], last, alpha, eta, JumpSize())
    ensures var s := Scan(x, alpha, eta, i, last);
      Explained(x, alpha, eta, i, [i] + s.tau, [last] + s.levels)
    decreases |x| - i, Potential(x, alpha, i, last), 0
  {
    var s := Scan(x, alpha, eta, i + 1, last);
    ScanQuiet(x, alpha, eta, i, last);
    ScanExplained(x, alpha, eta, i + 1, last);
    CrossingsFrom(x, alpha, eta, i + 1, i + 1, s.tau, [last] + s.levels);
    Reanchor(x, alpha, eta, i + 1, i + 1, i, i, s.tau, [last] + s.levels);
  }

  /** Dropping the anchor of an explained sequence leaves one anchored at its first crossing. */
  lemma ExplainedTail(x: seq<real>, alpha: real, eta: real, start: nat, tau: seq<nat>, levels: seq<real>)
    requires Explained(x, alpha, eta, start, tau, levels) && |tau| >= 2
    ensures Explained(x, alpha, eta, start, tau[1..], levels[1..])
  {
    var T, V := tau[1..], levels[1..];
    forall j, k | 0 <= j <= k < |T| ensures T[j] <= T[k] {
      assert T[j] == tau[j + 1] && T[k] == tau[k + 1];
    }
    forall j | 1 <= j < |T|
      ensures start <= T[j] < |x| && IsStep(x[T[j]], V[j - 1], V[j], alpha, eta)
    {
      assert T[j] == tau[j + 1] && V[j - 1] == levels[j] && V[j] == levels[j + 1];
    }
    forall j, i | 0 <= j < |T| && Max(T[j], start) <= i < NextIndex(T, j, |x|) && i < |x|
      ensures InZone(x[i], V[j], alpha, eta, JumpSize())
    {
      assert T[j] == tau[j + 1] && V[j] == levels[j + 1];
      assert NextIndex(T, j, |x|) == NextIndex(tau, j + 1, |x|);
    }
  }

  /** The first crossing after the anchor lies in the tested range. */
  lemma FirstCrossing(x: seq<real>, alpha: real, eta: real, start: nat, tau: seq<nat>, levels: seq<real>)
    requires Explained(x, alpha, eta, start, tau, levels)
    ensures |tau| >= 2 ==> start <= tau[1] < |x|
  {
  }

  /** The two tests of one step never both fire, so a step's direction is determined by the test. */
  lemma StepDirection(xi: real, from: real, to: real, alpha: real, eta: real)
    requires alpha > 0.0 && eta >= 0.0
    requires IsStep(xi, from, to, alpha, eta)
    ensures Ascends(xi, from, alpha, eta, JumpSize()) ==> to == from + alpha * JumpSize() as real
    ensures Descends(xi, from, alpha, eta, JumpSize()) ==> to == from - alpha * JumpSize() as real
  {
    HalfWidthBounds(alpha, eta, JumpSize());
  }

  /** A price outside the current zone must be the next recorded crossing. */
  lemma ExplainedCrossing(x: seq<real>, alpha: real, eta: real, i: nat, tau: seq<nat>, levels: seq<real>)
    requires Explained(x, alpha, eta, i, tau, levels) && tau[0] == i && i < |x|
    requires !InZone(x[i], levels[0], alpha, eta, JumpSize())
    ensures |tau| >= 2 && tau[1] == i && IsStep(x[i], levels[0], levels[1], alpha, eta)
  {
    assert |tau| == 1 || tau[1] > i ==> Max(tau[0], i) <= i < NextIndex(tau, 0, |x|);
    assert tau[0] <= tau[1];
  }

  /** A price inside the current zone is passed over: the scan resumes at the next index. */
  lemma ExplainedQuiet(x: seq<real>, alpha: real, eta: real, i: nat, tau: seq<nat>, levels: seq<real>)
    requires alpha > 0.0 && eta >= 0.0
    requires Explained(x, alpha, eta, i, tau, levels) && tau[0] == i && i < |x|
    requires InZone(x[i], levels[0], alpha, eta, JumpSize())
    ensures Explained(x, alpha, eta, i + 1, [i + 1] + tau[1..], levels)
  {
    NoCrossingInZone(x, alpha, eta, i, tau, levels);
    assert tau == [i] + tau[1..];
    Reanchor(x, alpha, eta, i, i, i + 1, i + 1, tau[1..], levels);
  }

  /** When the anchor's price lies in its zone, every later crossing comes after it. */
  lemma NoCrossingInZone(x: seq<real>, alpha: real, eta: real, i: nat, tau: seq<nat>, levels: seq<real>)
    requires alpha > 0.0 && eta >= 0.0
    requires Explained(x, alpha, eta, i, tau, levels) && tau[0] == i && i < |x|
    requires InZone(x[i], levels[0], alpha, eta, JumpSize())
    ensures forall k :: 0 <= k < |tau[1..]| ==> i + 1 <= tau[1..][k]
  {
    HalfWidthBounds(alpha, eta, JumpSize());
    assert |tau| >= 2 && tau[1] == i ==> IsStep(x[tau[1]], levels[0], levels[1], alpha, eta);
    forall k | 0 <= k < |tau[1..]| ensures i + 1 <= tau[1..][k] {
      assert tau[1..][k] == tau[k + 1] && tau[1] <= tau[k + 1] && i <= tau[1];
    }
  }

  /** Completeness: an explained sequence anchored at `(i, last)` is what the scan records. */
  lemma {:induction false} ExplainedIsScan(x: seq<real>, alpha: real, eta: real, i: nat, last: real,
                                           tau: seq<nat>, levels: seq<real>)
    requires alpha > 0.0 && eta >= 0.0
    requires Explained(x, alpha, eta, i, tau, levels) && tau[0] == i && levels[0] == last
    ensures Crossings(tau[1..], levels[1..]) == Scan(x, alpha, eta, i, last)
    decreases |x| - i, Potential(x, alpha, i, last), 1
  {
    if i >= |x| {
      FirstCrossing(x, alpha, eta, i, tau, levels);
      assert tau[1..] == [] && levels[1..] == [];
    } else if InZone(x[i], last, alpha, eta, JumpSize()) {
      ExplainedIsScanQuiet(x, alpha, eta, i, last, tau, levels);
    } else if Ascends(x[i], last, alpha, eta, JumpSize()) {
      ExplainedIsScanAscent(x, alpha, eta, i, last, tau, levels);
    } else {
      ExplainedIsScanDescent(x, alpha, eta, i, last, tau, levels);
    }
  }

  /** A crossing sequence whose tail is `rest` is `rest` with its head put in front. */
  lemma PrependCrossing(tau: seq<nat>, levels: seq<real>, t0: nat, l0: real, rest: Crossings, s: Crossings)
    requires |tau| >= 1 && |levels| >= 1 && tau[0] == t0 && levels[0] == l0
    requires Crossings(tau[1..], levels[1..]) == rest
    requires s == Crossings([t0] + rest.tau, [l0] + rest.levels)
    ensures Crossings(tau, levels) == s
  {
    assert tau == [t0] + tau[1..] && levels == [l0] + levels[1..];
  }

  /** The completeness step at a price above the zone. */
  lemma {:induction false} ExplainedIsScanAscent(x: seq<real>, alpha: real, eta: real, i: nat, last: real,
      tau: seq<nat>, levels: seq<real>)
    requires alpha > 0.0 && eta >= 0.0
    requires Explained(x, alpha, eta, i, tau, levels) && tau[0] == i && levels[0] == last
    requires i < |x| && Ascends(x[i], last, alpha, eta, JumpSize())
    ensures Crossings(tau[1..], levels[1..]) == Scan(x, alpha, eta, i, last)
    decreases |x| - i, Potential(x, alpha, i, last), 0
  {
    var next := last + alpha * JumpSize() as real;
    ExplainedAscentHead(x, alpha, eta, i, last, tau, levels);
    var t1, l1 := tau[1..], levels[1..];
    AscentLowersScanPotential(x, alpha, eta, i, last);
    ScanAscent(x, alpha, eta, i, last);
    ExplainedIsScan(x, alpha, eta, i, next, t1, l1);
    PrependCrossing(t1, l1, i, next, Scan(x, alpha, eta, i, next), Scan(x, alpha, eta, i, last));
  }

  /** At a price above the zone, the first crossing is at this index, one jump up. */
  lemma ExplainedAscentHead(x: seq<real>, alpha: real, eta: real, i: nat, last: real,
                              tau: seq<nat>, levels: seq<real>)
    requires alpha > 0.0 && eta >= 0.0
    requires Explained(x, alpha, eta, i, tau, levels) && tau[0] == i && levels[0] == last
    requires i < |x| && Ascends(x[i], last, alpha, eta, JumpSize())
    ensures |tau| >= 2 && tau[1] == i && levels[1] == last + alpha * JumpSize() as real
    ensures Explained(x, alpha, eta, i, tau[1..], levels[1..])
  {
    HalfWidthBounds(alpha, eta, JumpSize());
    ExplainedCrossing(x, alpha, eta, i, tau, levels);
    ExplainedTail(x, alpha, eta, i, tau, levels);
    StepDirection(x[i], levels[0], levels[1], alpha, eta);
  }

  /** The completeness step at a price below the zone. */
  lemma {:induction false} ExplainedIsScanDescent(x: seq<real>, alpha: real, eta: real, i: nat, last: real,
      tau: seq<nat>, levels: seq<real>)
    requires alpha > 0.0 && eta >= 0.0
    requires Explained(x, alpha, eta, i, tau, levels) && tau[0] == i && levels[0] == last
    requires i < |x| && Descends(x[i], last, alpha, eta, JumpSize())
    ensures Crossings(tau[1..], levels[1..]) == Scan(x, alpha, eta, i, last)
    decreases |x| - i, Potential(x, alpha, i, last), 0
  {
    var next := last - alpha * JumpSize() as real;
    ExplainedDescentHead(x, alpha, eta, i, last, tau, levels);
    var t1, l1 := tau[1..], levels[1..];
    DescentLowersScanPotential(x, alpha, eta, i, last);
    ScanDescent(x, alpha, eta, i, last);
    ExplainedIsScan(x, alpha, eta, i, next, t1, l1);
    PrependCrossing(t1, l1, i, next, Scan(x, alpha, eta, i, next), Scan(x, alpha, eta, i, last));
  }

  /** At a price below the zone, the first crossing is at this index, one jump down. */
  lemma ExplainedDescentHead(x: seq<real>, alpha: real, eta: real, i: nat, last: real,
                              tau: seq<nat>, levels: seq<real>)
    requires alpha > 0.0 && eta >= 0.0
    requires Explained(x, alpha, eta, i, tau, levels) && tau[0] == i && levels[0] == last
    requires i < |x| && Descends(x[i], last, alpha, eta, JumpSize())
    ensures |tau| >= 2 && tau[1] == i && levels[1] == last - alpha * JumpSize() as real
    ensures Explained(x, alpha, eta, i, tau[1..], levels[1..])
  {
    HalfWidthBounds(alpha, eta, JumpSize());
    ExplainedCrossing(x, alpha, eta, i, tau, levels);
    ExplainedTail(x, alpha, eta, i, tau, levels);
    StepDirection(x[i], levels[0], levels[1], alpha, eta);
  }

  /** The completeness step at a price inside the zone. */
  lemma {:induction false} ExplainedIsScanQuiet(x: seq<real>, alpha: real, eta: real, i: nat, last: real,
                                                tau: seq<nat>, levels: seq<real>)
    requires alpha > 0.0 && eta >= 0.0
    requires Explained(x, alpha, eta, i, tau, levels) && tau[0] == i && levels[0] == last
    requires i < |x| && InZone(x[i], last, alpha, eta, JumpSize())
    ensures Crossings(tau[1..], levels[1..]) == Scan(x, alpha, eta, i, last)
    decreases |x| - i, Potential(x, alpha, i, last), 0
  {
    ExplainedQuiet(x, alpha, eta, i, tau, levels);
    ExplainedIsScan(x, alpha, eta, i + 1, last, [i + 1] + tau[1..], levels);
    assert ([i + 1] + tau[1..])[1..] == tau[1..];
    ScanQuiet(x, alpha, eta, i, last);
  }

  /** The detector's result is a crossing sequence of the path. */
  lemma DetectExplains(x: seq<real>, alpha: real, eta: real)
    requires |x| >= 1 && alpha > 0.0 && eta >= 0.0
    ensures Explains(x, alpha, eta, Detect(x, alpha, eta))
  {
    var level := InitialLevel(x[0], alpha);
    var s := Scan(x, alpha, eta, 1, level);
    ScanExplained(x, alpha, eta, 1, level);
    CrossingsFrom(x, alpha, eta, 1, 1, s.tau, [level] + s.levels);
    Reanchor(x, alpha, eta, 1, 1, 1, 0, s.tau, [level] + s.levels);
  }

  /** ... and the only one: the crossing rule determines `tau` and the levels. */
  lemma ExplainsOnlyDetect(x: seq<real>, alpha: real, eta: real, c: Crossings)
    requires |x| >= 1 && alpha > 0.0 && eta >= 0.0
    requires Explains(x, alpha, eta, c)
    ensures c == Detect(x, alpha, eta)
  {
    var level := InitialLevel(x[0], alpha);
    var rest := c.tau[1..];
    assert c.tau == [0] + rest;
    CrossingsFrom(x, alpha, eta, 1, 0, rest, c.levels);
    Reanchor(x, alpha, eta, 1, 0, 1, 1, rest, c.levels);
    ExplainedIsScan(x, alpha, eta, 1, level, [1] + rest, c.levels);
    assert ([1] + rest)[1..] == rest;
    assert c.levels == [level] + c.levels[1..];
  }

  /** One crossing: the level moves one tick, towards the side the price left the zone by. */
  lemma StepRule(xi: real, from: real, to: real, alpha: real, eta: real)
    requires alpha > 0.0 && eta >= 0.0
    requires IsStep(xi, from, to, alpha, eta)
    ensures to == from + alpha || to == from - alpha
    ensures to == from + alpha <==> xi > from + alpha * (0.5 + eta)
    ensures to == from - alpha <==> xi < from - alpha * (0.5 + eta)
  {
    assert HalfWidth(alpha, eta, JumpSize()) == alpha * (0.5 + eta);
    HalfWidthBounds(alpha, eta, JumpSize());
  }

  /**
   * The crossing rule: the lists are parallel and every crossing lies on the
   * path; each level differs from the previous one by exactly one tick; and a
   * crossing is an ascent exactly when the price at its index is above the
   * previous level's zone, a descent exactly when below.
   */
  ghost predicate CrossingRule(x: seq<real>, alpha: real, eta: real, tau: seq<nat>, levels: seq<real>)
  {
    |levels| == |tau| &&
    forall j :: 1 <= j < |tau| ==>
      tau[j] < |x| &&
      (levels[j] == levels[j - 1] + alpha || levels[j] == levels[j - 1] - alpha) &&
      (levels[j] == levels[j - 1] + alpha <==> x[tau[j]] > levels[j - 1] + alpha * (0.5 + eta)) &&
      (levels[j] == levels[j - 1] - alpha <==> x[tau[j]] < levels[j - 1] - alpha * (0.5 + eta))
  }

  /** The crossing rule holds at every crossing of an explained sequence. */
  lemma ExplainedCrossingRule(x: seq<real>, alpha: real, eta: real, start: nat, tau: seq<nat>, levels: seq<real>)
    requires alpha > 0.0 && eta >= 0.0
    requires Explained(x, alpha, eta, start, tau, levels)
    ensures CrossingRule(x, alpha, eta, tau, levels)
  {
    forall j | 1 <= j < |tau|
      ensures (levels[j] == levels[j - 1] + alpha || levels[j] == levels[j - 1] - alpha) &&
        (levels[j] == levels[j - 1] + alpha <==> x[tau[j]] > levels[j - 1] + alpha * (0.5 + eta)) &&
        (levels[j] == levels[j - 1] - alpha <==> x[tau[j]] < levels[j - 1] - alpha * (0.5 + eta))
    {
      StepRule(x[tau[j]], levels[j - 1], levels[j], alpha, eta);
    }
  }

  /** The detector's result obeys the crossing rule. */
  lemma DetectCrossingRule(x: seq<real>, alpha: real, eta: real)
    requires |x| >= 1 && alpha > 0.0 && eta >= 0.0
    ensures CrossingRule(x, alpha, eta, Detect(x, alpha, eta).tau, Detect(x, alpha, eta).levels)
  {
    var c := Detect(x, alpha, eta);
    DetectExplains(x, alpha, eta);
    ExplainedCrossingRule(x, alpha, eta, 1, c.tau, c.levels);
  }

  /** The `m`-th grid value. */
  function GridValue(m: int, alpha: real): real
  {
    m as real * alpha
  }

  /** `v` is a grid value: an integer multiple of the tick size. */
  ghost predicate OnGrid(v: real, alpha: real)
  {
    exists m: int :: v == GridValue(m, alpha)
  }

  /** Levels that start on the grid and move one tick at a time stay on it. */
  lemma {:induction false} StepsStayOnGrid(levels: seq<real>, alpha: real, j: nat)
    requires j < |levels| && OnGrid(levels[0], alpha)
    requires forall k :: 1 <= k < |levels| ==> levels[k] == levels[k - 1] + alpha || levels[k] == levels[k - 1] - alpha
    ensures OnGrid(levels[j], alpha)
    decreases j
  {
    if j > 0 {
      StepsStayOnGrid(levels, alpha, j - 1);
      var m: int :| levels[j - 1] == GridValue(m, alpha);
      if levels[j] == levels[j - 1] + alpha {
        assert (m + 1) as real * alpha == m as real * alpha + alpha;
        assert levels[j] == GridValue(m + 1, alpha);
      } else {
        assert (m - 1) as real * alpha == m as real * alpha - alpha;
        assert levels[j] == GridValue(m - 1, alpha);
      }
    }
  }

  /** Every observed level the detector records is a grid value. */
  lemma DetectOnGrid(x: seq<real>, alpha: real, eta: real)
    requires |x| >= 1 && alpha > 0.0 && eta >= 0.0
    ensures forall j :: 0 <= j < |Detect(x, alpha, eta).levels| ==> OnGrid(Detect(x, alpha, eta).levels[j], alpha)
  {
    var c := Detect(x, alpha, eta);
    DetectCrossingRule(x, alpha, eta);
    assert c.levels[0] == GridValue((x[0] / alpha).Floor, alpha);
    forall j | 0 <= j < |c.levels| ensures OnGrid(c.levels[j], alpha) {
      StepsStayOnGrid(c.levels, alpha, j);
    }
  }

  /**
   * The band property: every index the scan tested without recording it lay
   * inside the zone of the level then current.
   */
  lemma DetectBand(x: seq<real>, alpha: real, eta: real)
    requires |x| >= 1 && alpha > 0.0 && eta >= 0.0
    ensures var c := Detect(x, alpha, eta);
      forall j, i :: 0 <= j < |c.tau| && Max(c.tau[j], 1) <= i < NextIndex(c.tau, j, |x|) ==>
        c.levels[j] - alpha * (0.5 + eta) <= x[i] <= c.levels[j] + alpha * (0.5 + eta)
  {
    var c := Detect(x, alpha, eta);
    DetectExplains(x, alpha, eta);
    forall j, i | 0 <= j < |c.tau| && Max(c.tau[j], 1) <= i < NextIndex(c.tau, j, |x|)
      ensures InZone(x[i], c.levels[j], alpha, eta, JumpSize())
    {
      assert i < |x|;
    }
  }

  /**
   * An index is recorded twice only when that one sample cleared two zones in the
   * same direction: the zone is at least a tick wide, so a crossing never reverses
   * at the index where it happened.
   */
  lemma RepeatedIndex(x: seq<real>, alpha: real, eta: real, j: nat)
    requires |x| >= 1 && alpha > 0.0 && eta >= 0.0
    requires 1 <= j < |Detect(x, alpha, eta).tau| - 1
    requires Detect(x, alpha, eta).tau[j] == Detect(x, alpha, eta).tau[j + 1]
    ensures var c := Detect(x, alpha, eta);
      (x[c.tau[j]] > c.levels[j - 1] + alpha + alpha * (0.5 + eta) && c.levels[j + 1] == c.levels[j - 1] + 2.0 * alpha) ||
      (x[c.tau[j]] < c.levels[j - 1] - alpha - alpha * (0.5 + eta) && c.levels[j + 1] == c.levels[j - 1] - 2.0 * alpha)
  {
    var c := Detect(x, alpha, eta);
    DetectExplains(x, alpha, eta);
    HalfWidthBounds(alpha, eta, JumpSize());
    assert IsStep(x[c.tau[j]], c.levels[j - 1], c.levels[j], alpha, eta);
    assert IsStep(x[c.tau[j + 1]], c.levels[j], c.levels[j + 1], alpha, eta);
  }

  // ---------------------------------------------------------------------------
  // The scan as the source writes it.  The inner `while True` loop advances `i`
  // with no bound check, and after a crossing the `break` returns to the outer
  // loop with the same `i`, whose guard `i < len(x)` therefore still holds.  The
  // scan can only end by reading `x[len(x)]`.

  function AsWrittenScan(x: seq<real>, alpha: real, eta: real, i: nat, last: real): (r: Result<Crossings, Error>)
    requires alpha > 0.0 && eta >= 0.0
    ensures r.Err? ==> r.error == IndexOutOfRange
    decreases |x| - i, Potential(x, alpha, i, last)
  {
    if i >= |x| then Err(IndexOutOfRange)  // x[i] read past the end of the path
    else
      var ticks := JumpSize();
      if Ascends(x[i], last, alpha, eta, ticks) then
        var next := last + alpha * ticks as real;
        AscentLowersPotential(x[i], last, alpha, eta, ticks);
        match AsWrittenScan(x, alpha, eta, i, next)
        case Ok(rest) => Ok(Crossings([i] + rest.tau, [next] + rest.levels))
        case Err(e) => Err(e)
      else if Descends(x[i], last, alpha, eta, ticks) then
        var next := last - alpha * ticks as real;
        DescentLowersPotential(x[i], last, alpha, eta, ticks);
        match AsWrittenScan(x, alpha, eta, i, next)
        case Ok(rest) => Ok(Crossings([i] + rest.tau, [next] + rest.levels))
        case Err(e) => Err(e)
      else
        AsWrittenScan(x, alpha, eta, i + 1, last)
  }

  /** `get_exit_times` as written, on a non-empty path. */
  function AsWrittenDetect(x: seq<real>, alpha: real, eta: real): (r: Result<Crossings, Error>)
    requires |x| >= 1 && alpha > 0.0 && eta >= 0.0
    ensures r.Err? ==> r.error == IndexOutOfRange
    ensures r.Ok? ==> |r.value.tau| >= 1 && r.value.tau[0] == 0 && |r.value.levels| >= 1 && r.value.levels[0] == InitialLevel(x[0], alpha)
  {
    var level := InitialLevel(x[0], alpha);
    if |x| <= 1 then Ok(Crossings([0], [level]))  // the outer loop is never entered
    else
      match AsWrittenScan(x, alpha, eta, 1, level)
      case Ok(rest) => Ok(Crossings([0] + rest.tau, [level] + rest.levels))
      case Err(e) => Err(e)
  }

  lemma {:induction false} AsWrittenScanFails(x: seq<real>, alpha: real, eta: real, i: nat, last: real)
    requires alpha > 0.0 && eta >= 0.0
    ensures AsWrittenScan(x, alpha, eta, i, last) == Err(IndexOutOfRange)
    decreases |x| - i, Potential(x, alpha, i, last)
  {
    if i < |x| {
      var ticks := JumpSize();
      if Ascends(x[i], last, alpha, eta, ticks) {
        AscentLowersScanPotential(x, alpha, eta, i, last);
        AsWrittenScanFails(x, alpha, eta, i, last + alpha * ticks as real);
      } else if Descends(x[i], last, alpha, eta, ticks) {
        DescentLowersScanPotential(x, alpha, eta, i, last);
        AsWrittenScanFails(x, alpha, eta, i, last - alpha * ticks as real);
      } else {
        AsWrittenScanFails(x, alpha, eta, i + 1, last);
      }
    }
  }

  /**
   * As written, `get_exit_times` raises an IndexError on every path of two or
   * more samples; only a one-sample path returns, and then it agrees with `Detect`.
   */
  lemma AsWrittenDetectCrashes(x: seq<real>, alpha: real, eta: real)
    requires |x| >= 1 && alpha > 0.0 && eta >= 0.0
    ensures |x| >= 2 ==> AsWrittenDetect(x, alpha, eta) == Err(IndexOutOfRange)
    ensures |x| == 1 ==> AsWrittenDetect(x, alpha, eta) == Ok(Detect(x, alpha, eta))
  {
    var level := InitialLevel(x[0], alpha);
    AsWrittenScanFails(x, alpha, eta, 1, level);
    if |x| == 1 {
      assert Scan(x, alpha, eta, 1, level) == Crossings([], []);
      assert [0] + [] == [0] && [level] + [] == [level];
    }
  }

  // ---------------------------------------------------------------------------
  // The source checks neither `alpha > 0` nor `eta >= 0`; the model requires both.
  // With a negative aversion the zone can be narrower than half a tick, and the
  // re-test of one index then never ends.

  /**
   * With `x = [0.0, 0.55]`, `alpha = 1` and `eta = -0.4` the half-width is 0.1.
   * The scan starts at level 0; `x[1]` is above the zone of 0 and below the zone
   * of 1, so the level alternates between 0 and 1 at index 1 forever.
   */
  lemma NegativeAversionCycles()
    ensures InitialLevel(0.0, 1.0) == 0.0
    ensures Ascends(0.55, 0.0, 1.0, -0.4, JumpSize())
    ensures Descends(0.55, 0.0 + 1.0 * JumpSize() as real, 1.0, -0.4, JumpSize())
  {
  }
}
