/** The coverage run around the partitions (`scripts/coverage-partitions.ts`): inventory, checks and verdict. */
module Coordinator {
  import opened Wrappers
  import opened Assignments
  import opened Partitions
  import opened Inventory
  import PartitionHeap

  // ---------- heaviest partition first ----------

  function InsertList(x: seq<File>, lists: seq<seq<File>>, weights: map<File, real>): seq<seq<File>> {
    if lists == [] then [x]
    else
      var last := |lists| - 1;
      if PartitionWeight(x, weights) > PartitionWeight(lists[last], weights)
      then InsertList(x, lists[..last], weights) + [lists[last]]
      else lists + [x]
  }

  /** The stable sort of the bucket lists by recomputed weight, heaviest first. */
  function SortLists(lists: seq<seq<File>>, weights: map<File, real>): seq<seq<File>> {
    if lists == [] then []
    else InsertList(lists[|lists| - 1], SortLists(lists[..|lists| - 1], weights), weights)
  }

  ghost predicate HeaviestListFirst(lists: seq<seq<File>>, weights: map<File, real>) {
    forall i, j | 0 <= i <= j < |lists| :: PartitionWeight(lists[i], weights) >= PartitionWeight(lists[j], weights)
  }

  lemma FlattenAppend(lists: seq<seq<File>>, x: seq<File>)
    ensures Flatten(lists + [x]) == Flatten(lists) + x
  {
  }

  lemma {:induction false} InsertListPermutes(x: seq<File>, lists: seq<seq<File>>, weights: map<File, real>)
    ensures multiset(InsertList(x, lists, weights)) == multiset(lists) + multiset{x}
  {
    var last := |lists| - 1;
    if lists != [] && PartitionWeight(x, weights) > PartitionWeight(lists[last], weights) {
      InsertListPermutes(x, lists[..last], weights);
      assert lists == lists[..last] + [lists[last]];
    }
  }

  lemma {:induction false} InsertListFlattens(x: seq<File>, lists: seq<seq<File>>, weights: map<File, real>)
    ensures multiset(Flatten(InsertList(x, lists, weights))) == multiset(Flatten(lists)) + multiset(x)
  {
    var last := |lists| - 1;
    if lists != [] && PartitionWeight(x, weights) > PartitionWeight(lists[last], weights) {
      InsertListFlattens(x, lists[..last], weights);
      FlattenAppend(InsertList(x, lists[..last], weights), lists[last]);
    } else {
      FlattenAppend(lists, x);
    }
  }

  ghost predicate AllAtLeast(lists: seq<seq<File>>, weights: map<File, real>, low: real) {
    forall i | 0 <= i < |lists| :: PartitionWeight(lists[i], weights) >= low
  }

  lemma {:induction false} InsertListAtLeast(x: seq<File>, lists: seq<seq<File>>, weights: map<File, real>, low: real)
    requires AllAtLeast(lists, weights, low) && PartitionWeight(x, weights) >= low
    ensures AllAtLeast(InsertList(x, lists, weights), weights, low)
  {
    var last := |lists| - 1;
    if lists != [] && PartitionWeight(x, weights) > PartitionWeight(lists[last], weights) {
      InsertListAtLeast(x, lists[..last], weights, low);
    }
  }

  lemma {:induction false} InsertListOrders(x: seq<File>, lists: seq<seq<File>>, weights: map<File, real>)
    requires HeaviestListFirst(lists, weights)
    ensures HeaviestListFirst(InsertList(x, lists, weights), weights)
  {
    var last := |lists| - 1;
    if lists != [] && PartitionWeight(x, weights) > PartitionWeight(lists[last], weights) {
      InsertListOrders(x, lists[..last], weights);
      InsertListAtLeast(x, lists[..last], weights, PartitionWeight(lists[last], weights));
    }
  }

  lemma {:induction false} SortListsPermutes(lists: seq<seq<File>>, weights: map<File, real>)
    ensures multiset(SortLists(lists, weights)) == multiset(lists)
  {
    if lists != [] {
      var n := |lists| - 1;
      SortListsPermutes(lists[..n], weights);
      InsertListPermutes(lists[n], SortLists(lists[..n], weights), weights);
      assert lists == lists[..n] + [lists[n]];
    }
  }

  lemma {:induction false} SortListsFlattens(lists: seq<seq<File>>, weights: map<File, real>)
    ensures multiset(Flatten(SortLists(lists, weights))) == multiset(Flatten(lists))
  {
    if lists != [] {
      var n := |lists| - 1;
      SortListsFlattens(lists[..n], weights);
      InsertListFlattens(lists[n], SortLists(lists[..n], weights), weights);
    }
  }

  lemma {:induction false} SortListsOrders(lists: seq<seq<File>>, weights: map<File, real>)
    ensures HeaviestListFirst(SortLists(lists, weights), weights)
  {
    if lists != [] {
      var n := |lists| - 1;
      SortListsOrders(lists[..n], weights);
      InsertListOrders(lists[n], SortLists(lists[..n], weights), weights);
    }
  }

  /** Re-sorting the partitions keeps the lists, hence the files, and starts the heaviest first. */
  lemma SortListsFacts(lists: seq<seq<File>>, weights: map<File, real>)
    ensures var r := SortLists(lists, weights);
            multiset(r) == multiset(lists) && HeaviestListFirst(r, weights) &&
            multiset(Flatten(r)) == multiset(Flatten(lists)) && |r| == |lists|
  {
    SortListsPermutes(lists, weights);
    SortListsFlattens(lists, weights);
    SortListsOrders(lists, weights);
    assert |multiset(SortLists(lists, weights))| == |multiset(lists)|;
  }

  // ---------- the completeness check of one partition ----------

  function Missing(expected: seq<File>, observed: seq<File>): (r: seq<File>)
    ensures forall f :: f in r <==> f in expected && f !in observed
    ensures r == [] <==> forall f | f in expected :: f in observed
  {
    if expected == [] then []
    else
      var n := |expected| - 1;
      assert expected == expected[..n] + [expected[n]];
      Missing(expected[..n], observed) + (if expected[n] !in observed then [expected[n]] else [])
  }

  /** A report accounts for a partition: nothing missing, nothing unexpected, nothing twice. */
  predicate ReportComplete(expected: seq<File>, actual: seq<File>) {
    Missing(expected, actual) == [] && Missing(actual, expected) == [] && |set f | f in actual| == |actual|
  }

  lemma ReportCompleteMeaning(expected: seq<File>, actual: seq<File>)
    ensures ReportComplete(expected, actual) <==> Members(expected) == Members(actual) && NoDuplicates(actual)
  {
    assert (set f | f in actual) == Members(actual);
    DistinctCount(actual);
    if Members(expected) == Members(actual) {
      forall f ensures f in expected <==> f in actual { assert f in Members(expected) <==> f in Members(actual); }
    }
  }

  /**
   * A complete report never lists more results than the partition has entries, and it is a permutation of
   * the partition exactly when the partition lists no file twice.
   */
  lemma CompleteReportPermutes(expected: seq<File>, actual: seq<File>)
    requires ReportComplete(expected, actual)
    ensures |actual| <= |expected|
    ensures |actual| == |expected| <==> NoDuplicates(expected)
    ensures NoDuplicates(expected) ==> multiset(actual) == multiset(expected)
  {
    ReportCompleteMeaning(expected, actual);
    DistinctCount(actual);
    DistinctCount(expected);
    if NoDuplicates(expected) {
      forall f ensures multiset(actual)[f] == multiset(expected)[f] {
        assert f in Members(actual) <==> f in Members(expected);
      }
    }
  }

  ghost predicate AllComplete(lists: seq<seq<File>>, reports: seq<seq<File>>) {
    |lists| == |reports| && forall i | 0 <= i < |lists| :: ReportComplete(lists[i], reports[i])
  }

  ghost predicate EachWithoutDuplicates(lists: seq<seq<File>>) {
    forall i | 0 <= i < |lists| :: NoDuplicates(lists[i])
  }

  lemma UniquenessSplits(lists: seq<seq<File>>)
    requires lists != []
    ensures EachWithoutDuplicates(lists) <==>
              EachWithoutDuplicates(lists[..|lists| - 1]) && NoDuplicates(lists[|lists| - 1])
  {
  }

  lemma CompleteSplits(lists: seq<seq<File>>, reports: seq<seq<File>>)
    requires AllComplete(lists, reports) && lists != []
    ensures AllComplete(lists[..|lists| - 1], reports[..|lists| - 1])
    ensures |reports[|lists| - 1]| <= |lists[|lists| - 1]|
    ensures |reports[|lists| - 1]| == |lists[|lists| - 1]| <==> NoDuplicates(lists[|lists| - 1])
  {
    CompleteReportPermutes(lists[|lists| - 1], reports[|lists| - 1]);
  }

  lemma {:induction false} CompleteReportsBound(lists: seq<seq<File>>, reports: seq<seq<File>>)
    requires AllComplete(lists, reports)
    ensures |Flatten(reports)| <= |Flatten(lists)|
    ensures |Flatten(reports)| == |Flatten(lists)| ==> EachWithoutDuplicates(lists)
  {
    if lists != [] {
      var n := |lists| - 1;
      CompleteSplits(lists, reports);
      CompleteReportsBound(lists[..n], reports[..n]);
      UniquenessSplits(lists);
    }
  }

  lemma {:induction false} CompleteReportsPermute(lists: seq<seq<File>>, reports: seq<seq<File>>)
    requires AllComplete(lists, reports) && EachWithoutDuplicates(lists)
    ensures multiset(Flatten(reports)) == multiset(Flatten(lists))
  {
    if lists != [] {
      var n := |lists| - 1;
      CompleteReportPermutes(lists[n], reports[n]);
      CompleteReportsPermute(lists[..n], reports[..n]);
    }
  }

  /** Accepted reports together are a permutation of the partitions exactly when no partition repeats a file. */
  lemma ExactlyOnce(lists: seq<seq<File>>, reports: seq<seq<File>>)
    requires AllComplete(lists, reports)
    ensures multiset(Flatten(reports)) == multiset(Flatten(lists)) <==> EachWithoutDuplicates(lists)
  {
    CompleteReportsBound(lists, reports);
    if EachWithoutDuplicates(lists) { CompleteReportsPermute(lists, reports); }
    if multiset(Flatten(reports)) == multiset(Flatten(lists)) {
      assert |multiset(Flatten(reports))| == |multiset(Flatten(lists))|;
    }
  }

  lemma {:induction false} SublistCount(lists: seq<seq<File>>, i: nat, f: File)
    requires i < |lists|
    ensures multiset(lists[i])[f] <= multiset(Flatten(lists))[f]
  {
    var n := |lists| - 1;
    if i < n { SublistCount(lists[..n], i, f); }
  }

  /** A duplicate-free inventory leaves no partition with a repeated file. */
  lemma PartitionsInheritUniqueness(files: seq<File>, lists: seq<seq<File>>)
    requires NoDuplicates(files) && multiset(Flatten(lists)) == multiset(files)
    ensures EachWithoutDuplicates(lists)
  {
    forall i, f | 0 <= i < |lists| ensures multiset(lists[i])[f] <= 1 {
      SublistCount(lists, i, f);
      assert multiset(files)[f] <= 1;
    }
  }

  // ---------- the run ----------

  datatype CommandResult = CommandResult(exitCode: Option<int>, signalCode: Option<string>, error: Option<string>)

  predicate CommandFailed(result: CommandResult) {
    result.exitCode != Some(0) || result.signalCode.Some? || result.error.Some?
  }

  /**
   * What the processes leave behind: their results, the partitions whose blob exists, whether the blob
   * directory holds anything else, and the report of each partition, `None` when it is unreadable or holds
   * a result without a filename.
   */
  datatype Observed = Observed(
    results: seq<CommandResult>, blobs: set<nat>, strayBlobs: bool,
    reports: seq<Option<seq<File>>>, merge: CommandResult)

  ghost function Reported(observed: Observed): (lists: seq<seq<File>>)
    requires forall i | 0 <= i < |observed.reports| :: observed.reports[i].Some?
    ensures |lists| == |observed.reports|
    ensures forall i | 0 <= i < |lists| :: lists[i] == observed.reports[i].value
  {
    seq(|observed.reports|, i requires 0 <= i < |observed.reports| => observed.reports[i].value)
  }

  /** The partition processes and the merge. */
  ghost function Processes(observed: Observed): set<CommandResult> {
    {observed.merge} + set p | p in observed.results
  }

  predicate AnyFailed(observed: Observed) {
    CommandFailed(observed.merge) || exists i | 0 <= i < |observed.results| :: CommandFailed(observed.results[i])
  }

  /** Zero exactly when every process exited with zero, without a signal and without an error. */
  function ExitCode(observed: Observed): (code: int)
    ensures code == 0 || code == 1
    ensures code == 0 <==>
              forall p | p in Processes(observed) :: p.exitCode == Some(0) && p.signalCode == None && p.error == None
  {
    if AnyFailed(observed) then
      assert exists p | p in Processes(observed) :: CommandFailed(p);
      1
    else
      assert forall p | p in Processes(observed) :: !CommandFailed(p);
      0
  }

  /** The partition numbers 1 to `m`. */
  function Numbered(m: nat): (s: set<nat>)
    ensures forall i: nat :: i in s <==> 1 <= i <= m
  {
    if m == 0 then {} else Numbered(m - 1) + {m}
  }

  ghost predicate Accepted(lists: seq<seq<File>>, observed: Observed) {
    (forall i | 0 <= i < |observed.reports| :: observed.reports[i].Some?) && AllComplete(lists, Reported(observed))
  }

  class CoveragePartitionCoordinator {
    const partitions: nat
    const files: seq<File>
    const weights: map<File, real>
    const collate: (File, File) -> bool

    ghost predicate Valid() {
      partitions >= 2
    }

    /** The source refuses fewer than two partitions before a coordinator exists. */
    static method Create(partitions: int, files: seq<File>, weights: map<File, real>, collate: (File, File) -> bool)
      returns (r: Result<CoveragePartitionCoordinator, string>)
      ensures r.Ok? <==> partitions >= 2
      ensures r.Ok? ==> r.value.Valid() && r.value.partitions == partitions
      ensures r.Ok? ==> r.value.files == files && r.value.weights == weights && r.value.collate == collate
    {
      if partitions < 2 {
        return Err("coverage partitions must be an integer greater than 1");
      }
      var coordinator := new CoveragePartitionCoordinator(partitions, files, weights, collate);
      r := Ok(coordinator);
    }

    constructor (partitions: nat, files: seq<File>, weights: map<File, real>, collate: (File, File) -> bool)
      requires partitions >= 2
      ensures Valid() && this.partitions == partitions && this.files == files && this.weights == weights
      ensures this.collate == collate
    {
      this.partitions, this.files, this.weights, this.collate := partitions, files, weights, collate;
    }

    /** The injected inventory when there is one, else the collected one. */
    function Inventory(inventory: seq<File>): seq<File> {
      if files != [] then files else inventory
    }

    /** Distribute the injected inventory, or else the collected one, heaviest partition first. */
    method AssignFiles(inventory: seq<File>, durations: map<File, real>) returns (lists: seq<seq<File>>)
      requires Valid()
      ensures |lists| == partitions
      ensures var fs, ws := if files != [] then files else inventory, if files != [] then weights else durations;
              multiset(Flatten(lists)) == multiset(fs) && HeaviestListFirst(lists, ws) &&
              ([] !in lists <==> Fillable(JobsOf(fs, ws)) >= partitions) &&
              (NonNegative(WeightsOf(JobsOf(fs, ws))) ==> Fillable(JobsOf(fs, ws)) == |fs|) &&
              exists unsorted :: multiset(lists) == multiset(unsorted) &&
                PartitionHeap.Promises(fs, ws, partitions, unsorted)
    {
      var fs, ws := Inventory(inventory), if files != [] then weights else durations;
      var outcome, _ := PartitionHeap.AssignWeightedPartitions(fs, ws, partitions, collate);
      SortListsFacts(outcome.value, ws);
      lists := SortLists(outcome.value, ws);
      SamePermutedEmptiness(lists, outcome.value);
    }

    /** Whether every report accounts for its partition. */
    method CheckReports(lists: seq<seq<File>>, observed: Observed) returns (ok: bool)
      requires |observed.reports| == |lists|
      ensures ok <==> Accepted(lists, observed)
    {
      var i := 0;
      while i < |lists|
        invariant 0 <= i <= |lists|
        invariant forall j | 0 <= j < i ::
                    observed.reports[j].Some? && ReportComplete(lists[j], observed.reports[j].value)
      {
        if observed.reports[i].None? || !ReportComplete(lists[i], observed.reports[i].value) {
          return false;
        }
        i := i + 1;
      }
      ok := true;
    }

    /**
     * Run every partition, verify blobs and reports, then merge. An error is a thrown refusal; the exit code
     * is zero only when every process also succeeded. Accepted reports are a permutation of the inventory
     * exactly when no partition repeats a file, and so for every duplicate-free inventory.
     */
    method Run(inventory: seq<File>, durations: map<File, real>, observed: Observed)
      returns (r: Result<int, string>, lists: seq<seq<File>>)
      requires Valid() && |observed.results| == |observed.reports| == partitions
      ensures |lists| == partitions
      ensures multiset(Flatten(lists)) == multiset(if files != [] then files else inventory)
      ensures r.Ok? <==>
                [] !in lists && !observed.strayBlobs && observed.blobs == Numbered(partitions) &&
                Accepted(lists, observed)
      ensures r == Ok(0) ==>
                forall p | p in Processes(observed) :: p.exitCode == Some(0) && p.signalCode == None && p.error == None
      ensures r.Ok? ==> r.value == 0 || r.value == 1
      ensures r == Ok(1) ==>
                exists p | p in Processes(observed) :: p.exitCode != Some(0) || p.signalCode != None || p.error != None
      ensures r.Ok? ==>
                (multiset(Flatten(Reported(observed))) == multiset(Inventory(inventory)) <==>
                 EachWithoutDuplicates(lists))
      ensures r.Ok? && NoDuplicates(Inventory(inventory)) ==>
                multiset(Flatten(Reported(observed))) == multiset(Inventory(inventory))
    {
      lists := AssignFiles(inventory, durations);
      if [] in lists {
        return Err("coverage partitions: a partition has no files"), lists;
      }
      if observed.strayBlobs || observed.blobs != Numbered(partitions) {
        return Err("coverage partitions produced other blobs than expected"), lists;
      }
      var complete := CheckReports(lists, observed);
      if !complete {
        return Err("coverage partition: missing, unexpected or duplicate files"), lists;
      }
      ExactlyOnce(lists, Reported(observed));
      if NoDuplicates(Inventory(inventory)) {
        PartitionsInheritUniqueness(Inventory(inventory), lists);
      }
      r := Ok(ExitCode(observed));
    }
  }

  lemma SamePermutedEmptiness(s: seq<seq<File>>, t: seq<seq<File>>)
    requires multiset(s) == multiset(t)
    ensures [] !in s <==> (forall i | 0 <= i < |t| :: t[i] != [])
  {
    assert (forall i | 0 <= i < |t| :: t[i] != []) <==> [] !in t;
    assert [] in s <==> [] in multiset(s);
  }

  /** A run of the scheduler on an inventory that lists a file twice. */
  lemma DuplicatesTogether(collate: (File, File) -> bool)
    ensures var a, b := File("a"), File("b");
            var jobs := Sorted(JobsOf([b, a, a], map[b := 2.0, a := 1.0]), collate);
            GreedyRun(jobs, [0, 1, 1], 2) && FileLists(Placed(jobs, [0, 1, 1], 2)) == [[b], [a, a]]
  {
    var a, b := File("a"), File("b");
    var heavy, light := Job(b, 2.0), Job(a, 1.0);
    var unsorted := JobsOf([b, a, a], map[b := 2.0, a := 1.0]);
    var jobs := [heavy, light, light];
    assert unsorted == jobs && jobs[..2] == [heavy, light] && jobs[..2][..1] == [heavy];
    assert Sorted([heavy], collate) == [heavy] && Sorted([heavy, light], collate) == [heavy, light];
    assert Sorted(jobs, collate) == jobs;
    var none: seq<File> := [];
    assert none + [b] == [b] && none + [a] == [a] && [a] + [a] == [a, a];
    assert EmptyBuckets(2) == [Content(0.0, []), Content(0.0, [])];
    assert jobs[..1] == [heavy] && [heavy][..0] == [] && [0][..0] == [];
    assert Placed([heavy], [0], 2) == [Content(2.0, [b]), Content(0.0, [])];
    assert [0, 1, 1][..2] == [0, 1] && [0, 1][..1] == [0];
    assert Placed([heavy, light], [0, 1], 2) == [Content(2.0, [b]), Content(1.0, [a])];
    assert Placed(jobs, [0, 1, 1], 2) == [Content(2.0, [b]), Content(2.0, [a, a])];
    assert GreedyAt(jobs, [0, 1, 1], 2, 0) && GreedyAt(jobs, [0, 1, 1], 2, 1) && GreedyAt(jobs, [0, 1, 1], 2, 2);
  }

  /**
   * With a repeated file the checks can pass although a listed run never happened: of two partitions, one is
   * given both copies and reports one.
   */
  lemma DuplicateEscapesCheck(collate: (File, File) -> bool)
    ensures var a, b := File("a"), File("b");
            var jobs := Sorted(JobsOf([b, a, a], map[b := 2.0, a := 1.0]), collate);
            GreedyRun(jobs, [0, 1, 1], 2) &&
            var lists, reports := FileLists(Placed(jobs, [0, 1, 1], 2)), [[b], [a]];
            AllComplete(lists, reports) && multiset(Flatten(reports)) != multiset(Flatten(lists))
  {
    hide GreedyRun, Sorted, Placed, Flatten, EachWithoutDuplicates;
    DuplicatesTogether(collate);
    var a, b := File("a"), File("b");
    var lists, reports := [[b], [a, a]], [[b], [a]];
    ReportCompleteMeaning([b], [b]);
    ReportCompleteMeaning([a, a], [a]);
    assert Members([a, a]) == Members([a]);
    assert multiset(lists[1])[a] == 2;
    assert !EachWithoutDuplicates(lists) by { RepeatsIn(lists, 1, a); }
    ExactlyOnce(lists, reports);
  }

  lemma RepeatsIn(lists: seq<seq<File>>, i: nat, f: File)
    requires i < |lists| && multiset(lists[i])[f] > 1
    ensures !EachWithoutDuplicates(lists)
  {
    assert !NoDuplicates(lists[i]);
  }
}
