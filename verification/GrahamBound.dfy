/** Graham's bound for heaviest-first greedy scheduling (`scripts/coverage-partitions.ts`). */
module GrahamBound {
  import opened Assignments

  /** `load` is at most (4/3 - 1/(3m)) times `t`. */
  ghost predicate WithinGraham(m: nat, load: real, t: real) {
    3.0 * m as real * load <= (4.0 * m as real - 1.0) * t
  }

  /** A bound on a rival also bounds each of its prefixes, and each single job. */
  lemma RivalPrefix(ws: seq<real>, c: seq<nat>, m: nat, k: nat, t: real)
    requires m >= 1 && NonNegative(ws) && IsAssignment(c, |ws|, m) && k < |ws| && Fits(ws, c, m, t)
    ensures 0.0 <= ws[k] <= t && Fits(ws[..k + 1], c[..k + 1], m, t)
  {
    var prefix, rival := ws[..k + 1], c[..k + 1];
    forall d: nat | d < m ensures Load(prefix, rival, d) <= t {
      LoadPrefix(ws, c, d, k + 1);
    }
    LoadAppend(ws[..k], c[..k], ws[k], c[k], c[k]);
    LoadPrefix(ws, c, c[k], k);
    assert ws[..k] + [ws[k]] == prefix && c[..k] + [c[k]] == rival;
    assert Load(prefix, rival, c[k]) <= t;
  }

  /** One step of Graham's argument: the job `p` on top of the lightest load `low`. */
  lemma GrahamStep(before: seq<real>, p: real, a: seq<nat>, c: seq<nat>, m: nat, t: real, low: real)
    requires m >= 1 && IsAssignment(a, |before|, m) && IsAssignment(c, |before| + 1, m)
    requires AtLeast(before, p) && 0.0 <= p <= t
    requires Reaches(before, a, m, low) && Fits(before + [p], c, m, t)
    ensures WithinGraham(m, low + p, t)
  {
    if 3.0 * p <= t {
      AverageBound(before, p, a, c, m, t, low);
      assert (m as real - 1.0) * (3.0 * p) <= (m as real - 1.0) * t;
    } else {
      LargeJobFits(before, p, a, c, m, t, low);
      assert m as real * (low + p) <= m as real * t;
    }
    assert (m as real - 1.0) * t >= 0.0;
  }

  lemma EmptyBucketWithin(m: nat, t: real)
    requires m >= 1 && t >= 0.0
    ensures WithinGraham(m, 0.0, t)
  {
    assert (4.0 * m as real - 1.0) * t >= 0.0;
  }

  /**
   * Graham's bound for longest-processing-time-first: no bucket exceeds (4/3 - 1/(3m)) times the makespan
   * of any assignment of the same jobs.
   */
  lemma LptBound(ws: seq<real>, a: seq<nat>, c: seq<nat>, m: nat, b: nat)
    requires m >= 1 && b < m && NonNegative(ws) && Descending(ws)
    requires IsAssignment(a, |ws|, m) && Greedy(ws, a, m) && IsAssignment(c, |ws|, m)
    ensures WithinGraham(m, Load(ws, a, b), Makespan(ws, c, m))
  {
    var t := Makespan(ws, c, m);
    MakespanBounds(ws, c, m);
    var k := LastPlacement(ws, a, b);
    if k == -1 {
      LoadPrefix(ws, c, 0, 0);
      EmptyBucketWithin(m, t);
    } else {
      assert WentToLightest(ws, a, m, k);
      RivalPrefix(ws, c, m, k, t);
      assert ws[..k] + [ws[k]] == ws[..k + 1];
      GrahamStep(ws[..k], ws[k], a[..k], c[..k + 1], m, t, Load(ws[..k], a[..k], b));
    }
  }
}
