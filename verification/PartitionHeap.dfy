/**
 * The in-place min-heap of bucket indices behind `assignWeightedPartitions` (`scripts/coverage-partitions.ts`),
 * proved to perform a greedy run of Partitions.dfy.
 */
module PartitionHeap {
  import opened Wrappers
  import opened Assignments
  import opened GrahamBound
  import opened Partitions

  class Bucket {
    var sum: real
    var files: seq<File>

    constructor ()
      ensures sum == 0.0 && files == []
    {
      sum, files := 0.0, [];
    }

    ghost function Holds(): Content
      reads this
    {
      Content(sum, files)
    }

    predicate Less(other: Bucket)
      reads this, other
      ensures Less(other) <==> BucketLess(Holds(), other.Holds())
    {
      if sum != other.sum then sum < other.sum else |files| < |other.files|
    }
  }

  ghost predicate Distinct(buckets: seq<Bucket>) {
    forall i, j | 0 <= i < j < |buckets| :: buckets[i] != buckets[j]
  }

  ghost function View(buckets: seq<Bucket>): (contents: seq<Content>)
    reads buckets
    ensures |contents| == |buckets|
    ensures forall b | 0 <= b < |buckets| :: contents[b] == buckets[b].Holds()
  {
    seq(|buckets|, b requires 0 <= b < |buckets| reads buckets => buckets[b].Holds())
  }

  // ---------- heap order ----------

  function Parent(i: nat): nat
    requires i > 0
  {
    (i - 1) / 2
  }

  ghost predicate IndicesInto(heap: seq<nat>, m: nat) {
    forall i | 0 <= i < |heap| :: heap[i] < m
  }

  /** The entry at `i` is not less than the entry at `p`. */
  ghost predicate Above(contents: seq<Content>, heap: seq<nat>, p: nat, i: nat)
    requires IndicesInto(heap, |contents|) && p < |heap| && i < |heap|
  {
    !BucketLess(contents[heap[i]], contents[heap[p]])
  }

  ghost predicate IsHeap(contents: seq<Content>, heap: seq<nat>)
    requires IndicesInto(heap, |contents|)
  {
    forall i | 0 < i < |heap| :: Above(contents, heap, Parent(i), i)
  }

  /** Heap order, except that the entry at `hole` may be too heavy for its children. */
  ghost predicate IsHeapExcept(contents: seq<Content>, heap: seq<nat>, hole: nat)
    requires IndicesInto(heap, |contents|)
  {
    (forall i | 0 < i < |heap| && Parent(i) != hole :: Above(contents, heap, Parent(i), i)) &&
    (forall i | 0 < i < |heap| && Parent(i) == hole && hole > 0 :: Above(contents, heap, Parent(hole), i))
  }

  /** The root of a heap is least. */
  lemma {:induction false} RootIsLeast(contents: seq<Content>, heap: seq<nat>, i: nat)
    requires IndicesInto(heap, |contents|) && IsHeap(contents, heap) && i < |heap|
    ensures Above(contents, heap, 0, i)
  {
    if i > 0 {
      RootIsLeast(contents, heap, Parent(i));
      assert Above(contents, heap, Parent(i), i);
    }
  }

  ghost function Iota(m: nat): (s: seq<nat>)
    ensures |s| == m && forall i | 0 <= i < m :: s[i] == i
  {
    seq(m, i requires 0 <= i < m => i)
  }

  ghost predicate IsPermutation(heap: seq<nat>, m: nat) {
    multiset(heap) == multiset(Iota(m))
  }

  lemma PermutationFacts(heap: seq<nat>, m: nat)
    requires IsPermutation(heap, m)
    ensures |heap| == m && IndicesInto(heap, m)
    ensures forall b: nat | b < m :: b in heap
  {
    assert |multiset(heap)| == |multiset(Iota(m))|;
    forall i | 0 <= i < |heap| ensures heap[i] < m {
      assert heap[i] in multiset(heap);
    }
    forall b: nat | b < m ensures b in heap {
      assert Iota(m)[b] in multiset(Iota(m));
    }
  }

  lemma HeapRootIsLeast(contents: seq<Content>, heap: seq<nat>)
    requires |contents| > 0 && IsPermutation(heap, |contents|) && IndicesInto(heap, |contents|) &&
             IsHeap(contents, heap)
    ensures |heap| == |contents| && IsLeast(contents, heap[0])
  {
    PermutationFacts(heap, |contents|);
    forall c: nat | c < |contents| ensures !BucketLess(contents[c], contents[heap[0]]) {
      assert c in heap;
      var i :| 0 <= i < |heap| && heap[i] == c;
      RootIsLeast(contents, heap, i);
    }
  }

  lemma SwapPermutes(heap: seq<nat>, i: nat, j: nat)
    requires i < |heap| && j < |heap|
    ensures multiset(heap[i := heap[j]][j := heap[i]]) == multiset(heap)
  {
  }

  /** One swap of the hole with its least child moves the hole down. */
  lemma SwapMovesHole(contents: seq<Content>, heap: seq<nat>, hole: nat, child: nat, next: seq<nat>)
    requires IndicesInto(heap, |contents|) && IsHeapExcept(contents, heap, hole)
    requires 0 < child < |heap| && Parent(child) == hole
    requires BucketLess(contents[heap[child]], contents[heap[hole]])
    requires forall i | 0 < i < |heap| && Parent(i) == hole :: Above(contents, heap, child, i)
    requires next == heap[hole := heap[child]][child := heap[hole]]
    ensures IndicesInto(next, |contents|) && IsHeapExcept(contents, next, child)
  {
    forall i | 0 < i < |next| && Parent(i) != child ensures Above(contents, next, Parent(i), i) {
      if i != hole && Parent(i) != hole {
        assert Above(contents, heap, Parent(i), i);
      } else if Parent(i) == hole {
        assert Above(contents, heap, child, i);
      } else {
        assert Above(contents, heap, Parent(hole), child);
      }
    }
    forall i | 0 < i < |next| && Parent(i) == child ensures Above(contents, next, Parent(child), i) {
      assert Above(contents, heap, Parent(i), i);
    }
  }

  /** The lightest of a position and its children; the position itself unless a child is lighter. */
  method LeastOfFamily(buckets: seq<Bucket>, heap: array<nat>, index: nat) returns (smallest: nat)
    requires index < heap.Length && IndicesInto(heap[..], |buckets|)
    ensures smallest == index || (index < smallest < heap.Length && Parent(smallest) == index &&
                                  BucketLess(View(buckets)[heap[smallest]], View(buckets)[heap[index]]))
    ensures smallest < heap.Length
    ensures forall i | 0 < i < heap.Length && Parent(i) == index :: Above(View(buckets), heap[..], smallest, i)
  {
    var size := heap.Length;
    var left, right := 2 * index + 1, 2 * index + 2;
    smallest := index;
    if left < size && buckets[heap[left]].Less(buckets[heap[smallest]]) {
      smallest := left;
    }
    if right < size && buckets[heap[right]].Less(buckets[heap[smallest]]) {
      smallest := right;
    }
    assert forall i | 0 < i < size && Parent(i) == index :: i == left || i == right;
  }

  /** Restore the min-heap after the entry at `start` grew heavier. */
  method SiftDown(buckets: seq<Bucket>, heap: array<nat>, start: nat)
    requires start < heap.Length && IndicesInto(heap[..], |buckets|)
    requires IsHeapExcept(View(buckets), heap[..], start)
    modifies heap
    ensures multiset(heap[..]) == old(multiset(heap[..]))
    ensures IndicesInto(heap[..], |buckets|) && IsHeap(View(buckets), heap[..])
  {
    var index := start;
    ghost var contents := View(buckets);
    while true
      invariant index < heap.Length && View(buckets) == contents
      invariant multiset(heap[..]) == old(multiset(heap[..]))
      invariant IndicesInto(heap[..], |buckets|) && IsHeapExcept(contents, heap[..], index)
      decreases heap.Length - index
    {
      var smallest := LeastOfFamily(buckets, heap, index);
      ghost var before := heap[..];
      if smallest == index {
        return;
      }
      heap[index], heap[smallest] := heap[smallest], heap[index];
      ghost var next := before[index := before[smallest]][smallest := before[index]];
      assert heap[..] == next;
      SwapPermutes(before, index, smallest);
      SwapMovesHole(contents, before, index, smallest, next);
      index := smallest;
    }
  }

  /** A heap stays one, except at its root, when the root's bucket receives a job. */
  lemma RootGrows(contents: seq<Content>, heap: seq<nat>, job: Job)
    requires heap != [] && IsPermutation(heap, |contents|) && IndicesInto(heap, |contents|) && IsHeap(contents, heap)
    ensures IsHeapExcept(Place(contents, heap[0], job), heap, 0)
  {
    var next := Place(contents, heap[0], job);
    forall i | 0 < i < |heap| ensures heap[i] != heap[0] {
      if heap[i] == heap[0] {
        DuplicateCount(heap, 0, i);
        IotaCount(|contents|, heap[0]);
      }
    }
    forall i | 0 < i < |heap| && Parent(i) != 0 ensures Above(next, heap, Parent(i), i) {
      assert Above(contents, heap, Parent(i), i);
    }
  }

  lemma DuplicateCount(s: seq<nat>, i: nat, j: nat)
    requires i < j < |s| && s[i] == s[j]
    ensures multiset(s)[s[i]] >= 2
  {
    assert s == s[..j] + [s[j]] + s[j + 1..];
    assert s[i] == s[..j][i] && s[i] in multiset(s[..j]);
  }

  lemma {:induction false} IotaCount(m: nat, b: nat)
    ensures multiset(Iota(m))[b] <= 1
  {
    if m > 0 {
      IotaCount(m - 1, b);
      assert Iota(m) == Iota(m - 1) + [m - 1];
      assert m - 1 !in Iota(m - 1);
    }
  }

  // ---------- the whole assignment ----------

  /** The largest of some weights, or zero. */
  ghost function Heaviest(ws: seq<real>): (h: real)
    ensures h >= 0.0 && forall i | 0 <= i < |ws| :: ws[i] <= h
    ensures h == 0.0 || h in ws
  {
    if ws == [] then 0.0
    else
      var n := |ws| - 1;
      var h := Heaviest(ws[..n]);
      assert ws == ws[..n] + [ws[n]];
      if ws[n] > h then ws[n] else h
  }

  /** What the bucket lists of a run promise about the inventory they were built from. */
  ghost predicate Promises(files: seq<File>, weights: map<File, real>, m: nat, lists: seq<seq<File>>)
    requires m >= 1
  {
    var jobs := JobsOf(files, weights);
    |lists| == m &&
    multiset(Flatten(lists)) == multiset(files) &&
    ((forall b | 0 <= b < m :: lists[b] != []) <==> Fillable(jobs) >= m) &&
    (NonNegative(WeightsOf(jobs)) ==>
       Fillable(jobs) == |files| &&
       (forall b, c | 0 <= b < m && 0 <= c < m ::
          PartitionWeight(lists[b], weights) - PartitionWeight(lists[c], weights) <= Heaviest(WeightsOf(jobs))) &&
       (forall c, b | IsAssignment(c, |files|, m) && 0 <= b < m ::
          WithinGraham(m, PartitionWeight(lists[b], weights), Makespan(WeightsOf(jobs), c, m))))
  }

  lemma SameMakespan(ws: seq<real>, a: seq<nat>, vs: seq<real>, c: seq<nat>, m: nat)
    requires |a| == |ws| && |c| == |vs| && m >= 1 && forall b :: Load(ws, a, b) == Load(vs, c, b)
    ensures Makespan(ws, a, m) == Makespan(vs, c, m)
  {
  }

  lemma SortedNonNegative(jobs: seq<Job>, sorted: seq<Job>)
    requires multiset(sorted) == multiset(jobs) && NonNegative(WeightsOf(jobs))
    ensures NonNegative(WeightsOf(sorted))
  {
    forall i | 0 <= i < |sorted| ensures sorted[i].weight >= 0.0 {
      assert sorted[i] in multiset(sorted);
      var k :| 0 <= k < |jobs| && jobs[k] == sorted[i];
      assert WeightsOf(jobs)[k] >= 0.0;
    }
  }

  /** Graham's bound, carried back to the unsorted inventory. */
  lemma RunWithinGraham(jobs: seq<Job>, collate: (File, File) -> bool, a: seq<nat>, c: seq<nat>, m: nat, b: nat)
    requires m >= 1 && b < m && NonNegative(WeightsOf(jobs))
    requires GreedyRun(Sorted(jobs, collate), a, m) && IsAssignment(c, |jobs|, m)
    ensures WithinGraham(m, Placed(Sorted(jobs, collate), a, m)[b].sum, Makespan(WeightsOf(jobs), c, m))
  {
    var sorted := Sorted(jobs, collate);
    SortedFacts(jobs, collate);
    SortedNonNegative(jobs, sorted);
    var d := SortCarries(jobs, collate, c, m);
    SameMakespan(WeightsOf(jobs), c, WeightsOf(sorted), d, m);
    GreedyRunIsGreedy(sorted, a, m);
    LptBound(WeightsOf(sorted), a, d, m, b);
    PlacedLoads(sorted, a, m, b);
  }

  /** No two buckets of a run differ by more than the heaviest file. */
  lemma RunSpread(jobs: seq<Job>, collate: (File, File) -> bool, a: seq<nat>, m: nat, b: nat, c: nat)
    requires b < m && c < m && NonNegative(WeightsOf(jobs)) && GreedyRun(Sorted(jobs, collate), a, m)
    ensures var buckets := Placed(Sorted(jobs, collate), a, m);
            buckets[b].sum - buckets[c].sum <= Heaviest(WeightsOf(jobs))
  {
    var sorted := Sorted(jobs, collate);
    SortedFacts(jobs, collate);
    SortedNonNegative(jobs, sorted);
    GreedyRunIsGreedy(sorted, a, m);
    PlacedLoads(sorted, a, m, b);
    PlacedLoads(sorted, a, m, c);
    var ws := WeightsOf(sorted);
    forall i | 0 <= i < |ws| ensures ws[i] <= Heaviest(WeightsOf(jobs)) {
      assert sorted[i] in multiset(sorted);
      var k :| 0 <= k < |jobs| && jobs[k] == sorted[i];
      assert WeightsOf(jobs)[k] == ws[i];
    }
    GreedySpread(ws, a, m, b, c, Heaviest(WeightsOf(jobs)));
  }

  lemma RunKeepsPromises(files: seq<File>, weights: map<File, real>, m: nat, collate: (File, File) -> bool, a: seq<nat>)
    requires m >= 1 && GreedyRun(Sorted(JobsOf(files, weights), collate), a, m)
    ensures Promises(files, weights, m, FileLists(Placed(Sorted(JobsOf(files, weights), collate), a, m)))
  {
    var jobs := JobsOf(files, weights);
    var sorted := Sorted(jobs, collate);
    var buckets := Placed(sorted, a, m);
    var lists := FileLists(buckets);
    SortedFacts(jobs, collate);
    PlacedConserves(sorted, a, m);
    SortedFiles(jobs, collate);
    assert FilesOf(jobs) == files;
    NoEmptyBucket(sorted, a, m);
    SortedFillable(jobs, collate);
    assert (forall b | 0 <= b < m :: lists[b] != []) <==> NoneEmpty(buckets);
    if NonNegative(WeightsOf(jobs)) {
      NonNegativeFillable(jobs);
      SortedWeights(files, weights, sorted);
      forall b: nat | b < m ensures buckets[b].sum == PartitionWeight(lists[b], weights) {
        PlacedWeight(sorted, weights, a, m, b);
      }
      forall b, c | 0 <= b < m && 0 <= c < m
        ensures PartitionWeight(lists[b], weights) - PartitionWeight(lists[c], weights) <= Heaviest(WeightsOf(jobs))
      {
        RunSpread(jobs, collate, a, m, b, c);
      }
      forall c, b | IsAssignment(c, |files|, m) && 0 <= b < m
        ensures WithinGraham(m, PartitionWeight(lists[b], weights), Makespan(WeightsOf(jobs), c, m))
      {
        RunWithinGraham(jobs, collate, a, c, m, b);
      }
    }
  }

  lemma SortedWeights(files: seq<File>, weights: map<File, real>, sorted: seq<Job>)
    requires multiset(sorted) == multiset(JobsOf(files, weights))
    ensures forall j | j in sorted :: j.weight == WeightOf(j.file, weights)
  {
    forall j | j in sorted ensures j.weight == WeightOf(j.file, weights) {
      assert j in multiset(sorted);
      assert j in JobsOf(files, weights);
    }
  }

  /** Placing one more job at a least bucket extends a greedy run. */
  lemma GreedyExtends(jobs: seq<Job>, a: seq<nat>, m: nat, k: nat, b: nat)
    requires k < |jobs| && GreedyRun(jobs[..k], a, m) && IsLeast(Placed(jobs[..k], a, m), b)
    ensures GreedyRun(jobs[..k + 1], a + [b], m)
    ensures Placed(jobs[..k + 1], a + [b], m) == Place(Placed(jobs[..k], a, m), b, jobs[k])
  {
    var next, chosen := jobs[..k + 1], a + [b];
    assert next[..k] == jobs[..k] && chosen[..k] == a;
    forall i | 0 <= i <= k ensures GreedyAt(next, chosen, m, i) {
      if i < k {
        assert GreedyAt(jobs[..k], a, m, i);
        assert next[..i] == jobs[..k][..i] && chosen[..i] == a[..i];
      }
    }
  }

  /** Add one job to the bucket on top of the heap and restore the heap. */
  method PlaceOnTop(buckets: seq<Bucket>, heap: array<nat>, job: Job) returns (top: nat)
    requires buckets != [] && Distinct(buckets) && IsPermutation(heap[..], |buckets|)
    requires IndicesInto(heap[..], |buckets|) && IsHeap(View(buckets), heap[..])
    modifies buckets, heap
    ensures IsPermutation(heap[..], |buckets|) && IndicesInto(heap[..], |buckets|) && IsHeap(View(buckets), heap[..])
    ensures IsLeast(old(View(buckets)), top)
    ensures View(buckets) == Place(old(View(buckets)), top, job)
  {
    HeapRootIsLeast(View(buckets), heap[..]);
    ghost var before := View(buckets);
    top := heap[0];
    var bucket := buckets[top];
    bucket.sum := bucket.sum + job.weight;
    bucket.files := bucket.files + [job.file];
    assert View(buckets) == Place(before, top, job);
    RootGrows(before, heap[..], job);
    SiftDown(buckets, heap, 0);
  }

  /** Fresh empty buckets, one per partition. */
  method NewBuckets(partitions: nat) returns (buckets: seq<Bucket>)
    ensures |buckets| == partitions && Distinct(buckets) && fresh(buckets)
    ensures View(buckets) == EmptyBuckets(partitions)
  {
    buckets := [];
    while |buckets| < partitions
      invariant |buckets| <= partitions && Distinct(buckets) && fresh(buckets)
      invariant forall b | 0 <= b < |buckets| :: buckets[b].Holds() == Content(0.0, [])
    {
      var bucket := new Bucket();
      buckets := buckets + [bucket];
    }
  }

  /** Place every job in order through the heap. */
  method PlaceAll(weighted: seq<Job>, partitions: nat) returns (lists: seq<seq<File>>, ghost choices: seq<nat>)
    requires partitions > 0
    ensures GreedyRun(weighted, choices, partitions)
    ensures lists == FileLists(Placed(weighted, choices, partitions))
  {
    var buckets := NewBuckets(partitions);
    var heap := new nat[partitions](i => i);
    assert heap[..] == Iota(partitions);
    choices := [];
    var k := 0;
    while k < |weighted|
      invariant k <= |weighted| && |buckets| == partitions && Distinct(buckets) && fresh(buckets) && fresh(heap)
      invariant IsPermutation(heap[..], partitions) && IndicesInto(heap[..], partitions)
      invariant IsHeap(View(buckets), heap[..])
      invariant GreedyRun(weighted[..k], choices, partitions)
      invariant View(buckets) == Placed(weighted[..k], choices, partitions)
    {
      var top := PlaceOnTop(buckets, heap, weighted[k]);
      GreedyExtends(weighted, choices, partitions, k, top);
      choices := choices + [top];
      k := k + 1;
    }
    assert weighted[..k] == weighted;
    lists := seq(partitions, b requires 0 <= b < |buckets| reads buckets => buckets[b].files);
    assert lists == FileLists(View(buckets));
  }

  lemma {:induction false} UnknownWeights(files: seq<File>)
    ensures PartitionWeight(files, map[]) == |files| as real
  {
    if files != [] { UnknownWeights(files[..|files| - 1]); }
  }

  /** Without recorded durations the partitions differ by one file at the most. */
  lemma WithoutDurations(files: seq<File>, m: nat, lists: seq<seq<File>>, b: nat, c: nat)
    requires m >= 1 && Promises(files, map[], m, lists) && b < m && c < m
    ensures |lists[b]| - |lists[c]| <= 1
  {
    var ws := WeightsOf(JobsOf(files, map[]));
    assert forall i | 0 <= i < |ws| :: ws[i] == 1.0;
    assert NonNegative(ws) && Heaviest(ws) <= 1.0;
    UnknownWeights(lists[b]);
    UnknownWeights(lists[c]);
  }

  /**
   * Assign files to partitions, heaviest first into the currently lightest one. An inventory with files but
   * no partition to hold them is the error the empty heap raises.
   */
  method AssignWeightedPartitions(files: seq<File>, weights: map<File, real>, partitions: nat,
                                  collate: (File, File) -> bool)
    returns (r: Result<seq<seq<File>>, string>, ghost choices: seq<nat>)
    ensures r.Err? <==> files != [] && partitions == 0
    ensures r.Ok? && partitions == 0 ==> r.value == []
    ensures r.Ok? && partitions > 0 ==>
              Promises(files, weights, partitions, r.value) &&
              GreedyRun(Sorted(JobsOf(files, weights), collate), choices, partitions) &&
              r.value == FileLists(Placed(Sorted(JobsOf(files, weights), collate), choices, partitions))
  {
    var weighted := Sorted(JobsOf(files, weights), collate);
    if files == [] {
      r, choices := Ok(seq(partitions, _ => [])), [];
      if partitions > 0 {
        SortedFacts(JobsOf(files, weights), collate);
        assert r.value == FileLists(Placed(weighted, [], partitions));
        RunKeepsPromises(files, weights, partitions, collate, []);
      }
    } else if partitions == 0 {
      r, choices := Err("coverage partitions: partition heap index is out of bounds."), [];
    } else {
      var lists;
      lists, choices := PlaceAll(weighted, partitions);
      r := Ok(lists);
      RunKeepsPromises(files, weights, partitions, collate, choices);
    }
  }
}
