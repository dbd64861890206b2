/**
 * Longest-processing-time partitioning of test files (`scripts/coverage-partitions.ts`): the specification
 * of one placement run, and what every greedy run guarantees. The heap code that performs the run is in
 * PartitionHeap.dfy.
 */
module Partitions {
  import opened Assignments
  import opened Collections

  const UNKNOWN_FILE_WEIGHT: real := 1.0

  /** A test file, named by its repository-relative path. */
  datatype File = File(path: string)

  datatype Job = Job(file: File, weight: real)

  /** What a bucket holds: the accumulated weight and the files in placement order. */
  datatype Content = Content(sum: real, files: seq<File>)

  function WeightOf(file: File, weights: map<File, real>): real {
    if file in weights then weights[file] else UNKNOWN_FILE_WEIGHT
  }

  function JobsOf(files: seq<File>, weights: map<File, real>): (jobs: seq<Job>)
    ensures |jobs| == |files|
    ensures forall i | 0 <= i < |files| :: jobs[i] == Job(files[i], WeightOf(files[i], weights))
  {
    seq(|files|, i requires 0 <= i < |files| => Job(files[i], WeightOf(files[i], weights)))
  }

  /** Sum of a partition's file weights, added from the left. */
  function PartitionWeight(files: seq<File>, weights: map<File, real>): real {
    if files == [] then 0.0
    else PartitionWeight(files[..|files| - 1], weights) + WeightOf(files[|files| - 1], weights)
  }

  ghost function WeightsOf(jobs: seq<Job>): (ws: seq<real>)
    ensures |ws| == |jobs| && forall i | 0 <= i < |jobs| :: ws[i] == jobs[i].weight
  {
    seq(|jobs|, i requires 0 <= i < |jobs| => jobs[i].weight)
  }

  ghost function FilesOf(jobs: seq<Job>): (fs: seq<File>)
    ensures |fs| == |jobs| && forall i | 0 <= i < |jobs| :: fs[i] == jobs[i].file
  {
    seq(|jobs|, i requires 0 <= i < |jobs| => jobs[i].file)
  }

  // ---------- ordering jobs ----------

  /** The comparator: heavier first, then the file collation supplied by the runtime. */
  predicate Precedes(x: Job, y: Job, collate: (File, File) -> bool) {
    x.weight > y.weight || (x.weight == y.weight && collate(x.file, y.file))
  }

  function Insert(x: Job, s: seq<Job>, collate: (File, File) -> bool): seq<Job> {
    if s == [] then [x]
    else
      var last := |s| - 1;
      if Precedes(x, s[last], collate) then Insert(x, s[..last], collate) + [s[last]] else s + [x]
  }

  /** The stable sort of `jobs` under `Precedes`. */
  function Sorted(jobs: seq<Job>, collate: (File, File) -> bool): seq<Job> {
    if jobs == [] then []
    else Insert(jobs[|jobs| - 1], Sorted(jobs[..|jobs| - 1], collate), collate)
  }

  ghost predicate HeaviestFirst(jobs: seq<Job>) {
    forall i, j | 0 <= i <= j < |jobs| :: jobs[i].weight >= jobs[j].weight
  }

  lemma {:induction false} InsertPermutes(x: Job, s: seq<Job>, collate: (File, File) -> bool)
    ensures multiset(Insert(x, s, collate)) == multiset(s) + multiset{x}
  {
    var last := |s| - 1;
    if s != [] && Precedes(x, s[last], collate) {
      InsertPermutes(x, s[..last], collate);
      assert s == s[..last] + [s[last]];
    }
  }

  lemma {:induction false} InsertOrders(x: Job, s: seq<Job>, collate: (File, File) -> bool)
    requires HeaviestFirst(s)
    ensures HeaviestFirst(Insert(x, s, collate))
  {
    var last := |s| - 1;
    if s != [] && Precedes(x, s[last], collate) {
      var front := Insert(x, s[..last], collate);
      InsertOrders(x, s[..last], collate);
      InsertPermutes(x, s[..last], collate);
      forall i | 0 <= i < |front| ensures front[i].weight >= s[last].weight {
        assert front[i] in multiset(front);
      }
    }
  }

  lemma {:induction false} SortedPermutes(jobs: seq<Job>, collate: (File, File) -> bool)
    ensures multiset(Sorted(jobs, collate)) == multiset(jobs)
  {
    if jobs != [] {
      var n := |jobs| - 1;
      SortedPermutes(jobs[..n], collate);
      InsertPermutes(jobs[n], Sorted(jobs[..n], collate), collate);
      assert jobs == jobs[..n] + [jobs[n]];
    }
  }

  lemma {:induction false} SortedOrders(jobs: seq<Job>, collate: (File, File) -> bool)
    ensures HeaviestFirst(Sorted(jobs, collate))
  {
    if jobs != [] {
      var n := |jobs| - 1;
      SortedOrders(jobs[..n], collate);
      InsertOrders(jobs[n], Sorted(jobs[..n], collate), collate);
    }
  }

  /** A collation as the runtime's: a file before another is not behind it, nor behind what is not before it. */
  ghost predicate WeakOrder(collate: (File, File) -> bool) {
    (forall x, y | collate(x, y) :: !collate(y, x)) &&
    (forall x, y, z | !collate(x, y) && !collate(y, z) :: !collate(x, z))
  }

  /** Jobs of equal weight follow each other in collation order. */
  ghost predicate TiesCollated(jobs: seq<Job>, collate: (File, File) -> bool) {
    forall i, j | 0 <= i < j < |jobs| && jobs[i].weight == jobs[j].weight :: !collate(jobs[j].file, jobs[i].file)
  }

  lemma {:induction false} InsertCollates(x: Job, s: seq<Job>, collate: (File, File) -> bool)
    requires WeakOrder(collate) && HeaviestFirst(s) && TiesCollated(s, collate)
    ensures TiesCollated(Insert(x, s, collate), collate)
  {
    var last := |s| - 1;
    if s != [] && Precedes(x, s[last], collate) {
      InsertCollates(x, s[..last], collate);
      InsertPermutes(x, s[..last], collate);
      var front := Insert(x, s[..last], collate);
      forall i | 0 <= i < |front| && front[i].weight == s[last].weight ensures !collate(s[last].file, front[i].file) {
        assert front[i] in multiset(front);
        assert front[i] == x || front[i] in s[..last];
      }
    } else if s != [] {
      forall i | 0 <= i < last && s[i].weight == x.weight ensures !collate(x.file, s[i].file) {
        assert s[i].weight >= s[last].weight >= x.weight;
      }
    }
  }

  lemma {:induction false} SortedCollates(jobs: seq<Job>, collate: (File, File) -> bool)
    requires WeakOrder(collate)
    ensures TiesCollated(Sorted(jobs, collate), collate)
  {
    if jobs != [] {
      var n := |jobs| - 1;
      SortedCollates(jobs[..n], collate);
      SortedOrders(jobs[..n], collate);
      InsertCollates(jobs[n], Sorted(jobs[..n], collate), collate);
    }
  }

  /** Sorting is a permutation that puts the heaviest job first, and jobs of equal weight in collation order. */
  lemma SortedFacts(jobs: seq<Job>, collate: (File, File) -> bool)
    ensures var s := Sorted(jobs, collate);
            multiset(s) == multiset(jobs) && |s| == |jobs| && HeaviestFirst(s)
    ensures WeakOrder(collate) ==> TiesCollated(Sorted(jobs, collate), collate)
  {
    if WeakOrder(collate) { SortedCollates(jobs, collate); }
    SortedPermutes(jobs, collate);
    SortedOrders(jobs, collate);
    assert |multiset(Sorted(jobs, collate))| == |multiset(jobs)|;
  }

  lemma {:induction false} InsertFiles(x: Job, s: seq<Job>, collate: (File, File) -> bool)
    ensures multiset(FilesOf(Insert(x, s, collate))) == multiset(FilesOf(s)) + multiset{x.file}
  {
    var last := |s| - 1;
    if s == [] || !Precedes(x, s[last], collate) {
      assert FilesOf(Insert(x, s, collate)) == FilesOf(s) + [x.file];
    } else {
      InsertFiles(x, s[..last], collate);
      assert FilesOf(s) == FilesOf(s[..last]) + [s[last].file];
      assert FilesOf(Insert(x, s, collate)) == FilesOf(Insert(x, s[..last], collate)) + [s[last].file];
    }
  }

  lemma {:induction false} SortedFiles(jobs: seq<Job>, collate: (File, File) -> bool)
    ensures multiset(FilesOf(Sorted(jobs, collate))) == multiset(FilesOf(jobs))
  {
    if jobs != [] {
      var n := |jobs| - 1;
      SortedFiles(jobs[..n], collate);
      InsertFiles(jobs[n], Sorted(jobs[..n], collate), collate);
      assert FilesOf(jobs) == FilesOf(jobs[..n]) + [jobs[n].file];
    }
  }

  /** Two lists of jobs whose assignments load every bucket alike. */
  ghost predicate SameLoads(s: seq<Job>, c: seq<nat>, r: seq<Job>, d: seq<nat>)
    requires |c| == |s| && |d| == |r|
  {
    forall b :: Load(WeightsOf(s), c, b) == Load(WeightsOf(r), d, b)
  }

  lemma SameLoadsAppend(s: seq<Job>, c: seq<nat>, r: seq<Job>, d: seq<nat>, x: Job, k: nat)
    requires |c| == |s| && |d| == |r| && SameLoads(s, c, r, d)
    ensures SameLoads(s + [x], c + [k], r + [x], d + [k])
  {
    assert WeightsOf(s + [x]) == WeightsOf(s) + [x.weight] && WeightsOf(r + [x]) == WeightsOf(r) + [x.weight];
    forall b ensures Load(WeightsOf(s + [x]), c + [k], b) == Load(WeightsOf(r + [x]), d + [k], b) {
      LoadAppend(WeightsOf(s), c, x.weight, k, b);
      LoadAppend(WeightsOf(r), d, x.weight, k, b);
    }
  }

  lemma SameLoadsSwap(s: seq<Job>, c: seq<nat>, x: Job, i: nat, y: Job, j: nat)
    requires |c| == |s|
    ensures SameLoads(s + [x] + [y], c + [i] + [j], s + [y] + [x], c + [j] + [i])
  {
    var xs, ys := s + [x], s + [y];
    assert WeightsOf(xs) == WeightsOf(s) + [x.weight] && WeightsOf(ys) == WeightsOf(s) + [y.weight];
    assert WeightsOf(xs + [y]) == WeightsOf(xs) + [y.weight] && WeightsOf(ys + [x]) == WeightsOf(ys) + [x.weight];
    forall b ensures Load(WeightsOf(xs + [y]), c + [i] + [j], b) == Load(WeightsOf(ys + [x]), c + [j] + [i], b) {
      LoadAppend(WeightsOf(s), c, x.weight, i, b);
      LoadAppend(WeightsOf(s), c, y.weight, j, b);
      LoadAppend(WeightsOf(xs), c + [i], y.weight, j, b);
      LoadAppend(WeightsOf(ys), c + [j], x.weight, i, b);
    }
  }

  /** Inserting a job carries a rival assignment along: every job keeps its bucket. */
  lemma {:induction false} InsertCarries(x: Job, s: seq<Job>,
                                         collate: (File, File) -> bool, k: nat, c: seq<nat>, m: nat)
    returns (d: seq<nat>)
    requires IsAssignment(c, |s|, m) && k < m
    ensures IsAssignment(d, |Insert(x, s, collate)|, m) && SameLoads(s + [x], c + [k], Insert(x, s, collate), d)
  {
    var last := |s| - 1;
    if s == [] || !Precedes(x, s[last], collate) {
      d := c + [k];
      assert Insert(x, s, collate) == s + [x];
    } else {
      var front := Insert(x, s[..last], collate);
      var d0 := InsertCarries(x, s[..last], collate, k, c[..last], m);
      d := d0 + [c[last]];
      SameLoadsAppend(s[..last] + [x], c[..last] + [k], front, d0, s[last], c[last]);
      SameLoadsSwap(s[..last], c[..last], s[last], c[last], x, k);
      assert s == s[..last] + [s[last]] && c == c[..last] + [c[last]];
    }
  }

  /** Every rival assignment of the unsorted jobs is one of the sorted jobs, with equal loads. */
  lemma {:induction false} SortCarries(jobs: seq<Job>, collate: (File, File) -> bool, c: seq<nat>, m: nat)
    returns (d: seq<nat>)
    requires IsAssignment(c, |jobs|, m)
    ensures IsAssignment(d, |Sorted(jobs, collate)|, m) && SameLoads(jobs, c, Sorted(jobs, collate), d)
  {
    if jobs == [] {
      d := [];
    } else {
      var n := |jobs| - 1;
      var s := Sorted(jobs[..n], collate);
      var d0 := SortCarries(jobs[..n], collate, c[..n], m);
      SameLoadsAppend(jobs[..n], c[..n], s, d0, jobs[n], c[n]);
      d := InsertCarries(jobs[n], s, collate, c[n], d0, m);
      assert jobs == jobs[..n] + [jobs[n]] && c == c[..n] + [c[n]];
    }
  }

  // ---------- placement ----------

  /** Order of buckets: total weight, then file count. */
  predicate BucketLess(left: Content, right: Content) {
    if left.sum != right.sum then left.sum < right.sum else |left.files| < |right.files|
  }

  ghost function Place(buckets: seq<Content>, b: nat, job: Job): seq<Content>
    requires b < |buckets|
  {
    buckets[b := Content(buckets[b].sum + job.weight, buckets[b].files + [job.file])]
  }

  ghost function EmptyBuckets(m: nat): (buckets: seq<Content>)
    ensures |buckets| == m && forall b | 0 <= b < m :: buckets[b] == Content(0.0, [])
  {
    seq(m, _ => Content(0.0, []))
  }

  /** The buckets after placing each job where `a` says. */
  ghost function Placed(jobs: seq<Job>, a: seq<nat>, m: nat): (buckets: seq<Content>)
    requires IsAssignment(a, |jobs|, m)
    ensures |buckets| == m
  {
    if jobs == [] then EmptyBuckets(m)
    else
      var k := |jobs| - 1;
      Place(Placed(jobs[..k], a[..k], m), a[k], jobs[k])
  }

  ghost predicate IsLeast(buckets: seq<Content>, b: nat) {
    b < |buckets| && forall c | 0 <= c < |buckets| :: !BucketLess(buckets[c], buckets[b])
  }

  /** Every job went to a bucket that no other bucket was less than at that moment. */
  ghost predicate GreedyRun(jobs: seq<Job>, a: seq<nat>, m: nat) {
    IsAssignment(a, |jobs|, m) &&
    forall k | 0 <= k < |jobs| :: GreedyAt(jobs, a, m, k)
  }

  ghost predicate GreedyAt(jobs: seq<Job>, a: seq<nat>, m: nat, k: nat)
    requires IsAssignment(a, |jobs|, m) && k < |jobs|
  {
    IsLeast(Placed(jobs[..k], a[..k], m), a[k])
  }

  lemma {:induction false} PlacedLoads(jobs: seq<Job>, a: seq<nat>, m: nat, b: nat)
    requires IsAssignment(a, |jobs|, m) && b < m
    ensures Placed(jobs, a, m)[b].sum == Load(WeightsOf(jobs), a, b)
  {
    if jobs != [] {
      var n := |jobs| - 1;
      PlacedLoads(jobs[..n], a[..n], m, b);
      assert WeightsOf(jobs)[..n] == WeightsOf(jobs[..n]);
    }
  }

  lemma GreedyRunIsGreedy(jobs: seq<Job>, a: seq<nat>, m: nat)
    requires GreedyRun(jobs, a, m)
    ensures Greedy(WeightsOf(jobs), a, m)
  {
    var ws := WeightsOf(jobs);
    forall k | 0 <= k < |jobs| ensures WentToLightest(ws, a, m, k) {
      var buckets := Placed(jobs[..k], a[..k], m);
      assert ws[..k] == WeightsOf(jobs[..k]);
      forall b: nat | b < m ensures buckets[b].sum == Load(ws[..k], a[..k], b) {
        PlacedLoads(jobs[..k], a[..k], m, b);
      }
      assert GreedyAt(jobs, a, m, k);
    }
  }

  /** A bucket's recorded sum is the weight of the files it lists. */
  lemma {:induction false} PlacedWeight(jobs: seq<Job>, weights: map<File, real>, a: seq<nat>, m: nat, b: nat)
    requires forall j | j in jobs :: j.weight == WeightOf(j.file, weights)
    requires IsAssignment(a, |jobs|, m) && b < m
    ensures Placed(jobs, a, m)[b].sum == PartitionWeight(Placed(jobs, a, m)[b].files, weights)
  {
    if jobs != [] {
      var n := |jobs| - 1;
      PlacedWeight(jobs[..n], weights, a[..n], m, b);
      var before := Placed(jobs[..n], a[..n], m)[b].files;
      assert (before + [jobs[n].file])[..|before|] == before;
    }
  }

  // ---------- conservation ----------

  ghost function Flatten(lists: seq<seq<File>>): seq<File> {
    if lists == [] then [] else Flatten(lists[..|lists| - 1]) + lists[|lists| - 1]
  }

  ghost function FileLists(buckets: seq<Content>): (lists: seq<seq<File>>)
    ensures |lists| == |buckets| && forall b | 0 <= b < |buckets| :: lists[b] == buckets[b].files
  {
    seq(|buckets|, b requires 0 <= b < |buckets| => buckets[b].files)
  }

  lemma {:induction false} FlattenAppendAt(lists: seq<seq<File>>, b: nat, file: File)
    requires b < |lists|
    ensures multiset(Flatten(lists[b := lists[b] + [file]])) == multiset(Flatten(lists)) + multiset{file}
  {
    var n := |lists| - 1;
    var updated := lists[b := lists[b] + [file]];
    if b == n {
      assert updated[..n] == lists[..n];
      assert Flatten(updated) == Flatten(lists) + [file];
    } else {
      FlattenAppendAt(lists[..n], b, file);
      assert updated[..n] == lists[..n][b := lists[..n][b] + [file]];
    }
  }

  lemma {:induction false} FlattenEmpty(lists: seq<seq<File>>)
    requires forall b | 0 <= b < |lists| :: lists[b] == []
    ensures Flatten(lists) == []
  {
    if lists != [] { FlattenEmpty(lists[..|lists| - 1]); }
  }

  lemma FilesAfterPlace(before: seq<Content>, b: nat, job: Job)
    requires b < |before|
    ensures multiset(Flatten(FileLists(Place(before, b, job)))) ==
              multiset(Flatten(FileLists(before))) + multiset{job.file}
  {
    FlattenAppendAt(FileLists(before), b, job.file);
    assert FileLists(Place(before, b, job)) == FileLists(before)[b := before[b].files + [job.file]];
  }

  /** Every placement run keeps exactly the files it was given. */
  lemma {:induction false} PlacedConserves(jobs: seq<Job>, a: seq<nat>, m: nat)
    requires IsAssignment(a, |jobs|, m)
    ensures multiset(Flatten(FileLists(Placed(jobs, a, m)))) == multiset(FilesOf(jobs))
  {
    if jobs == [] {
      FlattenEmpty(FileLists(Placed(jobs, a, m)));
    } else {
      var n := |jobs| - 1;
      PlacedConserves(jobs[..n], a[..n], m);
      FilesAfterPlace(Placed(jobs[..n], a[..n], m), a[n], jobs[n]);
      assert FilesOf(jobs) == FilesOf(jobs[..n]) + [jobs[n].file];
    }
  }

  // ---------- the linear-scan scheduler ----------

  datatype Key = Key(sum: real, count: nat)

  predicate KeyLess(left: Key, right: Key) {
    left.sum < right.sum || (left.sum == right.sum && left.count < right.count)
  }

  ghost function KeysOf(buckets: seq<Content>): (keys: seq<Key>)
    ensures |keys| == |buckets|
    ensures forall b | 0 <= b < |buckets| :: keys[b] == Key(buckets[b].sum, |buckets[b].files|)
  {
    seq(|buckets|, b requires 0 <= b < |buckets| => Key(buckets[b].sum, |buckets[b].files|))
  }

  /** The first of the least keys, found by scanning. */
  function ScanLeast(keys: seq<Key>): (least: nat)
    requires keys != []
    ensures least < |keys| && forall k | k in keys :: !KeyLess(k, keys[least])
  {
    if |keys| == 1 then 0
    else
      var n := |keys| - 1;
      var best := ScanLeast(keys[..n]);
      assert forall k | k in keys :: k in keys[..n] || k == keys[n];
      if KeyLess(keys[n], keys[best]) then n else best
  }

  /** The naive scheduler: scan all buckets for each job. */
  function ScanSchedule(weights: seq<real>, m: nat): (keys: seq<Key>)
    requires m >= 1
    ensures |keys| == m
  {
    if weights == [] then seq(m, _ => Key(0.0, 0))
    else
      var n := |weights| - 1;
      var keys := ScanSchedule(weights[..n], m);
      var b := ScanLeast(keys);
      keys[b := Key(keys[b].sum + weights[n], keys[b].count + 1)]
  }

  /** Whichever least bucket each placement picks, the keys end up as the naive scheduler's. */
  lemma {:induction false} GreedyRunRefinesScan(jobs: seq<Job>, a: seq<nat>, m: nat)
    requires m >= 1 && GreedyRun(jobs, a, m)
    ensures multiset(KeysOf(Placed(jobs, a, m))) == multiset(ScanSchedule(WeightsOf(jobs), m))
  {
    hide Placed, ScanSchedule, ScanLeast, Place, KeysOf, IsLeast;
    if jobs == [] {
      NothingPlaced(jobs, a, m);
    } else {
      var n := |jobs| - 1;
      GreedyPrefix(jobs, a, m, n);
      GreedyRunRefinesScan(jobs[..n], a[..n], m);
      assert GreedyAt(jobs, a, m, n);
      LastPlaced(jobs, a, m);
      PlacingRefinesScan(Placed(jobs[..n], a[..n], m), a[n], jobs[n], ScanSchedule(WeightsOf(jobs[..n]), m));
    }
  }

  lemma NothingPlaced(jobs: seq<Job>, a: seq<nat>, m: nat)
    requires m >= 1 && IsAssignment(a, |jobs|, m) && jobs == []
    ensures KeysOf(Placed(jobs, a, m)) == ScanSchedule(WeightsOf(jobs), m)
  {
  }

  lemma LastPlaced(jobs: seq<Job>, a: seq<nat>, m: nat)
    requires m >= 1 && IsAssignment(a, |jobs|, m) && jobs != []
    ensures var n := |jobs| - 1;
            var keys := ScanSchedule(WeightsOf(jobs[..n]), m);
            var j := ScanLeast(keys);
            Placed(jobs, a, m) == Place(Placed(jobs[..n], a[..n], m), a[n], jobs[n]) &&
            ScanSchedule(WeightsOf(jobs), m) == keys[j := Key(keys[j].sum + jobs[n].weight, keys[j].count + 1)]
  {
    var n := |jobs| - 1;
    assert WeightsOf(jobs)[..n] == WeightsOf(jobs[..n]);
  }

  /** One placement into a least bucket updates the keys as one scan does. */
  lemma PlacingRefinesScan(before: seq<Content>, b: nat, job: Job, scan: seq<Key>)
    requires IsLeast(before, b) && scan != [] && multiset(KeysOf(before)) == multiset(scan)
    ensures var j := ScanLeast(scan);
            multiset(KeysOf(Place(before, b, job))) ==
              multiset(scan[j := Key(scan[j].sum + job.weight, scan[j].count + 1)])
  {
    hide ScanLeast;
    var mine, j := KeysOf(before), ScanLeast(scan);
    assert forall k | 0 <= k < |before| :: BucketLess(before[k], before[b]) <==> KeyLess(mine[k], mine[b]);
    LeastKeysAgree(mine, b, scan, j);
    var next := Key(mine[b].sum + job.weight, mine[b].count + 1);
    SameUpdate(mine, b, scan, j, next);
    assert KeysOf(Place(before, b, job)) == mine[b := next];
  }

  lemma GreedyPrefix(jobs: seq<Job>, a: seq<nat>, m: nat, k: nat)
    requires GreedyRun(jobs, a, m) && k <= |jobs|
    ensures GreedyRun(jobs[..k], a[..k], m)
  {
    forall i | 0 <= i < k ensures GreedyAt(jobs[..k], a[..k], m, i) {
      assert GreedyAt(jobs, a, m, i);
      assert jobs[..k][..i] == jobs[..i] && a[..k][..i] == a[..i];
    }
  }

  lemma SameUpdate(s: seq<Key>, i: nat, t: seq<Key>, j: nat, next: Key)
    requires multiset(s) == multiset(t) && i < |s| && j < |t| && s[i] == t[j]
    ensures multiset(s[i := next]) == multiset(t[j := next])
  {
  }

  lemma LeastKeysAgree(s: seq<Key>, i: nat, t: seq<Key>, j: nat)
    requires multiset(s) == multiset(t) && i < |s| && j < |t|
    requires forall k | 0 <= k < |s| :: !KeyLess(s[k], s[i])
    requires forall k | k in t :: !KeyLess(k, t[j])
    ensures s[i] == t[j]
  {
    assert s[i] in multiset(s) && t[j] in multiset(t);
    assert s[i] in t && t[j] in s;
  }

  // ---------- empty buckets ----------

  /** A bucket is empty exactly when no job went there. */
  lemma {:induction false} PlacedFiles(jobs: seq<Job>, a: seq<nat>, m: nat, b: nat)
    requires IsAssignment(a, |jobs|, m) && b < m
    ensures var content := Placed(jobs, a, m)[b];
            (content.files == [] <==> b !in a) && (content.files == [] ==> content.sum == 0.0)
  {
    if jobs != [] {
      var n := |jobs| - 1;
      PlacedFiles(jobs[..n], a[..n], m, b);
      assert a == a[..n] + [a[n]];
    }
  }

  /** With non-negative weights no sum is negative. */
  lemma {:induction false} PlacedNonNegative(jobs: seq<Job>, a: seq<nat>, m: nat, b: nat)
    requires IsAssignment(a, |jobs|, m) && NonNegative(WeightsOf(jobs)) && b < m
    ensures Placed(jobs, a, m)[b].sum >= 0.0
  {
    if jobs != [] {
      var n := |jobs| - 1;
      assert WeightsOf(jobs)[..n] == WeightsOf(jobs[..n]) && WeightsOf(jobs)[n] >= 0.0;
      PlacedNonNegative(jobs[..n], a[..n], m, b);
    }
  }

  ghost function Range(s: seq<nat>): set<nat> {
    set b | b in s
  }

  lemma RangeAppend(s: seq<nat>, k: nat)
    requires k < |s|
    ensures Range(s[..k + 1]) == Range(s[..k]) + {s[k]}
  {
    assert s[..k + 1] == s[..k] + [s[k]];
  }

  /** While bucket `b` is empty, greedy next picks an empty bucket, and one that weighs nothing. */
  lemma NextChoiceIsFresh(jobs: seq<Job>, a: seq<nat>, m: nat, b: nat, k: nat)
    requires GreedyRun(jobs, a, m) && k < |jobs| && NonNegative(WeightsOf(jobs[..k])) && b < m && b !in a[..k]
    ensures a[k] !in a[..k] && Placed(jobs[..k], a[..k], m)[a[k]].sum == 0.0
  {
    var before := Placed(jobs[..k], a[..k], m);
    PlacedFiles(jobs[..k], a[..k], m, b);
    PlacedFiles(jobs[..k], a[..k], m, a[k]);
    PlacedNonNegative(jobs[..k], a[..k], m, a[k]);
    assert GreedyAt(jobs, a, m, k) && !BucketLess(before[b], before[a[k]]);
  }

  /** While bucket `b` is empty, greedy never repeats a choice. */
  lemma {:induction false} EmptyBucketPigeonhole(jobs: seq<Job>, a: seq<nat>, m: nat, b: nat)
    requires GreedyRun(jobs, a, m) && NonNegative(WeightsOf(jobs)) && b < m && b !in a
    ensures |Range(a)| == |jobs|
  {
    if jobs != [] {
      var n := |jobs| - 1;
      GreedyPrefix(jobs, a, m, n);
      assert NonNegative(WeightsOf(jobs[..n])) by { assert WeightsOf(jobs)[..n] == WeightsOf(jobs[..n]); }
      assert a == a[..n] + [a[n]];
      EmptyBucketPigeonhole(jobs[..n], a[..n], m, b);
      NextChoiceIsFresh(jobs, a, m, b, n);
      assert Range(a) == Range(a[..n]) + {a[n]};
    }
  }

  ghost function Upto(m: nat): (s: set<nat>)
    ensures |s| == m && forall b: nat :: b in s <==> b < m
  {
    if m == 0 then {} else Upto(m - 1) + {m - 1}
  }

  lemma {:induction false} RangeSize(s: seq<nat>)
    ensures |Range(s)| <= |s|
  {
    if s != [] {
      var n := |s| - 1;
      RangeSize(s[..n]);
      assert s == s[..n] + [s[n]];
      assert Range(s) == Range(s[..n]) + {s[n]};
    }
  }

  ghost predicate NoneEmpty(buckets: seq<Content>) {
    forall b | 0 <= b < |buckets| :: buckets[b].files != []
  }

  lemma NoneEmptyIsAllChosen(jobs: seq<Job>, a: seq<nat>, m: nat)
    requires IsAssignment(a, |jobs|, m)
    ensures NoneEmpty(Placed(jobs, a, m)) <==> |Range(a)| >= m
    ensures |Range(a)| < m ==> exists b: nat :: b < m && b !in a
  {
    forall b: nat | b < m ensures Placed(jobs, a, m)[b].files != [] <==> b in Range(a) {
      PlacedFiles(jobs, a, m, b);
    }
    assert Range(a) <= Upto(m);
    SubsetSize(Range(a), Upto(m));
    if NoneEmpty(Placed(jobs, a, m)) {
      assert Range(a) == Upto(m);
    } else {
      var b :| 0 <= b < m && Placed(jobs, a, m)[b].files == [];
      assert b in Upto(m) && b !in Range(a);
    }
    if |Range(a)| < m {
      var b: nat :| b in Upto(m) && b !in Range(a);
    }
  }

  /** With non-negative weights, in whatever order, no bucket stays empty exactly when there are enough files. */
  lemma NonNegativeLeavesNoneEmpty(jobs: seq<Job>, a: seq<nat>, m: nat)
    requires GreedyRun(jobs, a, m) && NonNegative(WeightsOf(jobs))
    ensures NoneEmpty(Placed(jobs, a, m)) <==> |jobs| >= m
    ensures !NoneEmpty(Placed(jobs, a, m)) ==> |Range(a)| == |jobs|
  {
    NoneEmptyIsAllChosen(jobs, a, m);
    RangeSize(a);
    if b: nat :| b < m && b !in a { EmptyBucketPigeonhole(jobs, a, m, b); }
  }

  /** The jobs whose weight is not negative. */
  ghost function Usual(jobs: seq<Job>): (count: nat)
    ensures count <= |jobs|
  {
    if jobs == [] then 0
    else Usual(jobs[..|jobs| - 1]) + (if jobs[|jobs| - 1].weight >= 0.0 then 1 else 0)
  }

  /** How many buckets the jobs can fill: one for each non-negative weight, and one for all negative weights. */
  ghost function Fillable(jobs: seq<Job>): (count: nat)
    ensures count <= |jobs|
  {
    if Usual(jobs) < |jobs| then Usual(jobs) + 1 else Usual(jobs)
  }

  /** Heaviest first, the non-negative weights come before the negative ones. */
  lemma {:induction false} UsualFirst(jobs: seq<Job>)
    requires HeaviestFirst(jobs)
    ensures forall i | 0 <= i < |jobs| :: jobs[i].weight >= 0.0 <==> i < Usual(jobs)
  {
    if jobs != [] {
      var n := |jobs| - 1;
      UsualFirst(jobs[..n]);
      if jobs[n].weight >= 0.0 {
        forall i | 0 <= i < n ensures jobs[..n][i].weight >= 0.0 { assert jobs[i].weight >= jobs[n].weight; }
        if Usual(jobs[..n]) < n { assert jobs[..n][n - 1].weight >= 0.0; }
      }
    }
  }

  /** Bucket `e` is the only one of negative weight. */
  ghost predicate LoneNegative(buckets: seq<Content>, e: nat) {
    e < |buckets| && buckets[e].sum < 0.0 && forall b | 0 <= b < |buckets| && b != e :: buckets[b].sum >= 0.0
  }

  /** The first job of negative weight takes an empty bucket and makes it the lightest. */
  lemma FirstNegative(jobs: seq<Job>, a: seq<nat>, m: nat, p: nat)
    requires GreedyRun(jobs, a, m) && p < |jobs| && NonNegative(WeightsOf(jobs[..p])) && jobs[p].weight < 0.0 && p < m
    ensures |Range(a[..p + 1])| == p + 1 && LoneNegative(Placed(jobs[..p + 1], a[..p + 1], m), a[p])
  {
    var before, after := Placed(jobs[..p], a[..p], m), Placed(jobs[..p + 1], a[..p + 1], m);
    GreedyPrefix(jobs, a, m, p);
    NonNegativeLeavesNoneEmpty(jobs[..p], a[..p], m);
    NoneEmptyIsAllChosen(jobs[..p], a[..p], m);
    var b: nat :| b < m && b !in a[..p];
    NextChoiceIsFresh(jobs, a, m, b, p);
    RangeAppend(a, p);
    assert jobs[..p + 1][..p] == jobs[..p] && a[..p + 1][..p] == a[..p];
    assert after == Place(before, a[p], jobs[p]);
    forall c: nat | c < m && c != a[p] ensures after[c].sum >= 0.0 {
      PlacedNonNegative(jobs[..p], a[..p], m, c);
    }
  }

  /** All further jobs of negative weight go to that bucket. */
  lemma {:induction false} NegativesPileUp(jobs: seq<Job>, a: seq<nat>, m: nat, p: nat, k: nat)
    requires GreedyRun(jobs, a, m) && p < |jobs| && NonNegative(WeightsOf(jobs[..p])) && p < m && p < k <= |jobs|
    requires forall i | p <= i < |jobs| :: jobs[i].weight < 0.0
    ensures |Range(a[..k])| == p + 1 && LoneNegative(Placed(jobs[..k], a[..k], m), a[p])
    decreases k
  {
    if k == p + 1 {
      FirstNegative(jobs, a, m, p);
    } else {
      NegativesPileUp(jobs, a, m, p, k - 1);
      NextPilesUp(jobs, a, m, p, k - 1);
    }
  }

  lemma NextPilesUp(jobs: seq<Job>, a: seq<nat>, m: nat, p: nat, n: nat)
    requires GreedyRun(jobs, a, m) && p < n < |jobs| && jobs[n].weight < 0.0
    requires LoneNegative(Placed(jobs[..n], a[..n], m), a[p])
    ensures Range(a[..n + 1]) == Range(a[..n]) && LoneNegative(Placed(jobs[..n + 1], a[..n + 1], m), a[p])
  {
    var before := Placed(jobs[..n], a[..n], m);
    assert GreedyAt(jobs, a, m, n) && !BucketLess(before[a[p]], before[a[n]]);
    assert a[..n][p] == a[n];
    RangeAppend(a, n);
    assert jobs[..n + 1][..n] == jobs[..n] && a[..n + 1][..n] == a[..n];
  }

  lemma RangeGrows(a: seq<nat>, k: nat)
    requires k <= |a|
    ensures |Range(a[..k])| <= |Range(a)|
  {
    SubsetSize(Range(a[..k]), Range(a));
  }

  /**
   * Whatever the weights, a heaviest-first run leaves no bucket empty exactly when the files of non-negative
   * weight, and one more if there are others, are at least as many as the buckets.
   */
  lemma NoEmptyBucket(jobs: seq<Job>, a: seq<nat>, m: nat)
    requires GreedyRun(jobs, a, m) && HeaviestFirst(jobs)
    ensures NoneEmpty(Placed(jobs, a, m)) <==> Fillable(jobs) >= m
  {
    var p := Usual(jobs);
    UsualFirst(jobs);
    GreedyPrefix(jobs, a, m, p);
    assert NonNegative(WeightsOf(jobs[..p]));
    NonNegativeLeavesNoneEmpty(jobs[..p], a[..p], m);
    NoneEmptyIsAllChosen(jobs[..p], a[..p], m);
    NoneEmptyIsAllChosen(jobs, a, m);
    RangeGrows(a, p);
    if p == |jobs| {
      assert jobs[..p] == jobs && a[..p] == a;
    } else if p < m {
      NegativesPileUp(jobs, a, m, p, |jobs|);
      assert a[..|jobs|] == a;
    }
  }

  lemma {:induction false} InsertUsual(x: Job, s: seq<Job>, collate: (File, File) -> bool)
    ensures |Insert(x, s, collate)| == |s| + 1
    ensures Usual(Insert(x, s, collate)) == Usual(s) + (if x.weight >= 0.0 then 1 else 0)
  {
    var last := |s| - 1;
    if s != [] && Precedes(x, s[last], collate) { InsertUsual(x, s[..last], collate); }
  }

  /** Sorting does not change which buckets can be filled. */
  lemma {:induction false} SortedFillable(jobs: seq<Job>, collate: (File, File) -> bool)
    ensures |Sorted(jobs, collate)| == |jobs| && Usual(Sorted(jobs, collate)) == Usual(jobs)
    ensures Fillable(Sorted(jobs, collate)) == Fillable(jobs)
  {
    if jobs != [] {
      var n := |jobs| - 1;
      SortedFillable(jobs[..n], collate);
      InsertUsual(jobs[n], Sorted(jobs[..n], collate), collate);
    }
  }

  lemma {:induction false} NonNegativeFillable(jobs: seq<Job>)
    requires NonNegative(WeightsOf(jobs))
    ensures Fillable(jobs) == |jobs|
  {
    if jobs != [] {
      var n := |jobs| - 1;
      assert WeightsOf(jobs)[n] >= 0.0;
      assert WeightsOf(jobs)[..n] == WeightsOf(jobs[..n]);
      NonNegativeFillable(jobs[..n]);
    }
  }

  /** Two files of negative weight starve one of two buckets, although there are as many files as buckets. */
  lemma NegativeWeightStarves()
    ensures var jobs := [Job(File("a"), -1.0), Job(File("b"), -1.0)];
            GreedyRun(jobs, [0, 0], 2) && Placed(jobs, [0, 0], 2)[1].files == [] && Fillable(jobs) == 1
  {
    assert Usual([Job(File("a"), -1.0)]) == 0;
    assert [Job(File("a"), -1.0), Job(File("b"), -1.0)][..1] == [Job(File("a"), -1.0)];
  }
}
