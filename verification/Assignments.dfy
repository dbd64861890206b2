/**
 * Assignments of weighted jobs to numbered buckets, and the makespan theory of greedy scheduling.
 * An assignment of n jobs is a sequence of n bucket numbers; the bucket lists that
 * `assignWeightedPartitions` builds, and every rival split, are assignments of the same jobs.
 */
module Assignments {

  ghost predicate IsAssignment(a: seq<nat>, n: nat, m: nat) {
    |a| == n && forall k | 0 <= k < n :: a[k] < m
  }

  /** Total weight that assignment `a` puts into bucket `b`. */
  ghost function Load(ws: seq<real>, a: seq<nat>, b: nat): real
    requires |a| == |ws|
  {
    if ws == [] then 0.0
    else
      var k := |ws| - 1;
      Load(ws[..k], a[..k], b) + (if a[k] == b then ws[k] else 0.0)
  }

  ghost function Sum(ws: seq<real>): real {
    if ws == [] then 0.0 else Sum(ws[..|ws| - 1]) + ws[|ws| - 1]
  }

  /** Sum of the loads of the first `m` buckets. */
  ghost function TotalLoad(ws: seq<real>, a: seq<nat>, m: nat): real
    requires |a| == |ws|
  {
    if m == 0 then 0.0 else TotalLoad(ws, a, m - 1) + Load(ws, a, m - 1)
  }

  /** The heaviest of the first `m` buckets. */
  ghost function Makespan(ws: seq<real>, a: seq<nat>, m: nat): real
    requires |a| == |ws| && m >= 1
  {
    var last := Load(ws, a, m - 1);
    if m == 1 then last
    else
      var rest := Makespan(ws, a, m - 1);
      if last <= rest then rest else last
  }

  /** No bucket exceeds `t`. */
  ghost predicate Fits(ws: seq<real>, a: seq<nat>, m: nat, t: real)
    requires |a| == |ws|
  {
    forall b | 0 <= b < m :: Load(ws, a, b) <= t
  }

  /** Every bucket reaches `low`. */
  ghost predicate Reaches(ws: seq<real>, a: seq<nat>, m: nat, low: real)
    requires |a| == |ws|
  {
    forall b | 0 <= b < m :: Load(ws, a, b) >= low
  }

  ghost predicate NonNegative(ws: seq<real>) {
    forall i | 0 <= i < |ws| :: ws[i] >= 0.0
  }

  ghost predicate Descending(ws: seq<real>) {
    forall i, j | 0 <= i <= j < |ws| :: ws[i] >= ws[j]
  }

  /** Job `k` went to a bucket that was lightest at that moment. */
  ghost predicate WentToLightest(ws: seq<real>, a: seq<nat>, m: nat, k: nat)
    requires IsAssignment(a, |ws|, m) && k < |ws|
  {
    Reaches(ws[..k], a[..k], m, Load(ws[..k], a[..k], a[k]))
  }

  /** Every job went to a bucket that was lightest at that moment. */
  ghost predicate Greedy(ws: seq<real>, a: seq<nat>, m: nat)
    requires IsAssignment(a, |ws|, m)
  {
    forall k | 0 <= k < |ws| :: WentToLightest(ws, a, m, k)
  }

  // ---------- loads ----------

  lemma {:induction false} LoadPrefix(ws: seq<real>, a: seq<nat>, b: nat, k: nat)
    requires |a| == |ws| && k <= |ws| && NonNegative(ws)
    ensures 0.0 <= Load(ws[..k], a[..k], b) <= Load(ws, a, b)
    decreases |ws|, k
  {
    if k == |ws| {
      assert ws[..k] == ws && a[..k] == a;
      if k > 0 { LoadPrefix(ws, a, b, k - 1); }
    } else {
      var n := |ws| - 1;
      LoadPrefix(ws[..n], a[..n], b, k);
      assert ws[..n][..k] == ws[..k] && a[..n][..k] == a[..k];
    }
  }

  /** Either bucket `b` is empty, or its load is the last job placed there on top of what it then held. */
  lemma {:induction false} LastPlacement(ws: seq<real>, a: seq<nat>, b: nat) returns (k: int)
    requires |a| == |ws|
    ensures -1 <= k < |ws|
    ensures k == -1 ==> Load(ws, a, b) == 0.0 && b !in a
    ensures k >= 0 ==> a[k] == b && Load(ws, a, b) == Load(ws[..k], a[..k], b) + ws[k]
  {
    if ws == [] {
      k := -1;
    } else {
      var n := |ws| - 1;
      if a[n] == b {
        k := n;
      } else {
        k := LastPlacement(ws[..n], a[..n], b);
        assert a == a[..n] + [a[n]];
        if k >= 0 {
          assert ws[..n][..k] == ws[..k] && a[..n][..k] == a[..k];
        }
      }
    }
  }

  lemma {:induction false} TotalLoadAppend(ws: seq<real>, a: seq<nat>, w: real, c: nat, m: nat)
    requires |a| == |ws|
    ensures TotalLoad(ws + [w], a + [c], m) == TotalLoad(ws, a, m) + (if c < m then w else 0.0)
  {
    if m > 0 {
      TotalLoadAppend(ws, a, w, c, m - 1);
      assert (ws + [w])[..|ws|] == ws && (a + [c])[..|ws|] == a;
    }
  }

  lemma {:induction false} TotalLoadEmpty(m: nat)
    ensures TotalLoad([], [], m) == 0.0
  {
    if m > 0 { TotalLoadEmpty(m - 1); }
  }

  /** An assignment neither loses nor duplicates weight. */
  lemma {:induction false} LoadsAddUp(ws: seq<real>, a: seq<nat>, m: nat)
    requires IsAssignment(a, |ws|, m)
    ensures TotalLoad(ws, a, m) == Sum(ws)
  {
    if ws == [] {
      TotalLoadEmpty(m);
    } else {
      var n := |ws| - 1;
      LoadsAddUp(ws[..n], a[..n], m);
      TotalLoadAppend(ws[..n], a[..n], ws[n], a[n], m);
      assert ws[..n] + [ws[n]] == ws && a[..n] + [a[n]] == a;
    }
  }

  lemma {:induction false} TotalAtLeast(ws: seq<real>, a: seq<nat>, m: nat, x: real)
    requires |a| == |ws| && Reaches(ws, a, m, x)
    ensures TotalLoad(ws, a, m) >= m as real * x
  {
    if m > 0 {
      TotalAtLeast(ws, a, m - 1, x);
      assert m as real * x == (m - 1) as real * x + x;
    }
  }

  lemma {:induction false} TotalAtMost(ws: seq<real>, a: seq<nat>, m: nat, x: real)
    requires |a| == |ws| && Fits(ws, a, m, x)
    ensures TotalLoad(ws, a, m) <= m as real * x
  {
    if m > 0 {
      TotalAtMost(ws, a, m - 1, x);
      assert m as real * x == (m - 1) as real * x + x;
    }
  }

  lemma {:induction false} MakespanBounds(ws: seq<real>, a: seq<nat>, m: nat)
    requires |a| == |ws| && m >= 1
    ensures Fits(ws, a, m, Makespan(ws, a, m))
    ensures exists b :: 0 <= b < m && Load(ws, a, b) == Makespan(ws, a, m)
  {
    assert 0 <= m - 1 < m;
    if m > 1 { MakespanBounds(ws, a, m - 1); }
  }

  lemma LoadAppend(ws: seq<real>, a: seq<nat>, w: real, c: nat, b: nat)
    requires |a| == |ws|
    ensures Load(ws + [w], a + [c], b) == Load(ws, a, b) + (if c == b then w else 0.0)
  {
    assert (ws + [w])[..|ws|] == ws && (a + [c])[..|ws|] == a;
  }

  // ---------- spread ----------

  /** Greedy keeps any two buckets within the weight of one job. */
  lemma GreedySpread(ws: seq<real>, a: seq<nat>, m: nat, b: nat, c: nat, heaviest: real)
    requires IsAssignment(a, |ws|, m) && NonNegative(ws) && Greedy(ws, a, m)
    requires b < m && c < m && heaviest >= 0.0 && forall i | 0 <= i < |ws| :: ws[i] <= heaviest
    ensures Load(ws, a, b) - Load(ws, a, c) <= heaviest
  {
    var k := LastPlacement(ws, a, b);
    if k == -1 {
      LoadPrefix(ws, a, c, 0);
    } else {
      assert WentToLightest(ws, a, m, k);
      LoadPrefix(ws, a, c, k);
    }
  }

  // ---------- Graham's bound ----------

  /** A job scores two when it cannot share a bucket of capacity `t` with a job of weight `p`. */
  ghost function Scores(ws: seq<real>, p: real, t: real): (ss: seq<real>)
    ensures |ss| == |ws|
    ensures forall i | 0 <= i < |ws| :: ss[i] == if ws[i] > t - p then 2.0 else 1.0
  {
    seq(|ws|, i requires 0 <= i < |ws| => if ws[i] > t - p then 2.0 else 1.0)
  }

  ghost predicate AtLeast(ws: seq<real>, p: real) {
    forall i | 0 <= i < |ws| :: ws[i] >= p
  }

  lemma {:induction false} ScoresAreWhole(ss: seq<real>, a: seq<nat>, b: nat) returns (z: int)
    requires |a| == |ss| && forall i | 0 <= i < |ss| :: ss[i] == 1.0 || ss[i] == 2.0
    ensures Load(ss, a, b) == z as real
  {
    if ss == [] {
      z := 0;
    } else {
      var n := |ss| - 1;
      z := ScoresAreWhole(ss[..n], a[..n], b);
      if a[n] == b { z := z + ss[n].Floor; }
    }
  }

  /** When every job exceeds a third of `t`, a bucket scoring three overflows `t`. */
  lemma {:induction false} ScoreForcesLoad(ws: seq<real>, a: seq<nat>, b: nat, p: real, t: real)
    requires |a| == |ws| && AtLeast(ws, p) && 0.0 <= p && 3.0 * p > t
    ensures var s, l := Load(Scores(ws, p, t), a, b), Load(ws, a, b);
            s >= 0.0 && l >= 0.0 &&
            (s >= 1.0 ==> l >= p) && (s >= 2.0 ==> l > t - p) && (s >= 3.0 ==> l > t)
  {
    if ws != [] {
      var n := |ws| - 1;
      ScoreForcesLoad(ws[..n], a[..n], b, p, t);
      assert Scores(ws, p, t)[..n] == Scores(ws[..n], p, t);
    }
  }

  /** A bucket that would overflow `t` with one more job of weight `p` scores at least two. */
  lemma {:induction false} LoadForcesScore(ws: seq<real>, a: seq<nat>, b: nat, p: real, t: real)
    requires |a| == |ws| && AtLeast(ws, p) && 0.0 <= p <= t
    ensures var s, l := Load(Scores(ws, p, t), a, b), Load(ws, a, b);
            s >= 0.0 && (s < 1.0 ==> l == 0.0) && (l > t - p ==> s >= 2.0)
  {
    if ws != [] {
      var n := |ws| - 1;
      LoadForcesScore(ws[..n], a[..n], b, p, t);
      assert Scores(ws, p, t)[..n] == Scores(ws[..n], p, t);
    }
  }

  /**
   * The last job of a greedy run, lighter than all before it but heavier than a third of what a rival
   * assignment `c` achieves, cannot push its bucket beyond that rival: the rival's buckets score at most
   * two each, while before the job every greedy bucket already scored two.
   */
  lemma {:induction false} LargeJobFits(ws: seq<real>, p: real, a: seq<nat>, c: seq<nat>, m: nat, t: real, low: real)
    requires m >= 1 && IsAssignment(a, |ws|, m) && IsAssignment(c, |ws| + 1, m)
    requires AtLeast(ws, p) && 0.0 <= p <= t && 3.0 * p > t
    requires Reaches(ws, a, m, low)
    requires Fits(ws + [p], c, m, t)
    ensures low + p <= t
  {
    if low + p > t {
      var all := ws + [p];
      var ss, ssAll := Scores(ws, p, t), Scores(all, p, t);
      forall b: nat | b < m ensures Load(ssAll, c, b) <= 2.0 {
        ScoreForcesLoad(all, c, b, p, t);
        var z := ScoresAreWhole(ssAll, c, b);
        assert Load(ssAll, c, b) < 3.0;
      }
      forall b: nat | b < m ensures Load(ss, a, b) >= 2.0 {
        LoadForcesScore(ws, a, b, p, t);
      }
      assert ssAll[..|ws|] == ss;
      TotalAtMost(ssAll, c, m, 2.0);
      TotalAtLeast(ss, a, m, 2.0);
      LoadsAddUp(ssAll, c, m);
      LoadsAddUp(ss, a, m);
    }
  }

  /** Averaging: the job and `m` times its bucket's earlier load fit into the rival's total. */
  lemma AverageBound(ws: seq<real>, p: real, a: seq<nat>, c: seq<nat>, m: nat, t: real, low: real)
    requires m >= 1 && IsAssignment(a, |ws|, m) && IsAssignment(c, |ws| + 1, m)
    requires Reaches(ws, a, m, low)
    requires Fits(ws + [p], c, m, t)
    ensures m as real * low + p <= m as real * t
  {
    TotalAtLeast(ws, a, m, low);
    TotalAtMost(ws + [p], c, m, t);
    LoadsAddUp(ws, a, m);
    LoadsAddUp(ws + [p], c, m);
    assert (ws + [p])[..|ws|] == ws;
  }
}
