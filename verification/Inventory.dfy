/** The instrumented inventory and its split between projects (`scripts/coverage-partitions.ts`). */
module Inventory {
  import opened Wrappers
  import opened Partitions

  /** No file occurs twice. */
  ghost predicate NoDuplicates(s: seq<File>) {
    forall f :: multiset(s)[f] <= 1
  }

  ghost function Members(s: seq<File>): set<File> {
    set x | x in s
  }

  lemma MembersAppend(s: seq<File>, x: File)
    ensures Members(s + [x]) == Members(s) + {x}
  {
  }

  lemma {:induction false} DistinctCount(s: seq<File>)
    ensures |Members(s)| <= |s|
    ensures |Members(s)| == |s| <==> NoDuplicates(s)
  {
    if s != [] {
      var n := |s| - 1;
      var rest := s[..n];
      assert s == rest + [s[n]];
      DistinctCount(rest);
      MembersAppend(rest, s[n]);
      if s[n] in rest {
        assert Members(s) == Members(rest) && multiset(s)[s[n]] >= 2;
      } else {
        assert forall f :: multiset(s)[f] == multiset(rest)[f] + (if f == s[n] then 1 else 0);
      }
    }
  }

  // ---------- reading the listed entries ----------

  datatype Project = ThreadSafe | ProcessBound

  datatype Entry = Entry(file: File, project: Project)

  /** The files named by the first `k` entries. */
  ghost function Listed(entries: seq<Option<Entry>>, k: nat): set<File>
    requires k <= |entries|
  {
    set i | 0 <= i < k && entries[i].Some? :: entries[i].value.file
  }

  /** Every entry is well formed and names a file no earlier entry names. */
  ghost predicate Readable(entries: seq<Option<Entry>>, k: nat)
    requires k <= |entries|
  {
    forall i | 0 <= i < k :: entries[i].Some? && entries[i].value.file !in Listed(entries, i)
  }

  ghost predicate Owners(entries: seq<Option<Entry>>, projectOf: map<File, Project>) {
    forall i | 0 <= i < |entries| && entries[i].Some? && entries[i].value.file in projectOf ::
      projectOf[entries[i].value.file] == entries[i].value.project
  }

  lemma ListedGrows(entries: seq<Option<Entry>>, k: nat)
    requires k < |entries| && entries[k].Some?
    ensures Listed(entries, k + 1) == Listed(entries, k) + {entries[k].value.file}
    ensures forall i | 0 <= i < k && entries[i].Some? :: entries[i].value.file in Listed(entries, k)
  {
  }

  lemma StillUnique(files: seq<File>, file: File)
    requires NoDuplicates(files) && file !in files
    ensures NoDuplicates(files + [file])
  {
  }

  /** A `None` entry is a record without a file or without one of the two projects. */
  method ReadEntries(entries: seq<Option<Entry>>) returns (r: Result<(seq<File>, map<File, Project>), string>)
    ensures r.Ok? <==> Readable(entries, |entries|)
    ensures r.Ok? ==> NoDuplicates(r.value.0) && Members(r.value.0) == r.value.1.Keys == Listed(entries, |entries|)
    ensures r.Ok? ==> Owners(entries, r.value.1)
  {
    var files: seq<File> := [];
    var projectOf: map<File, Project> := map[];
    var k := 0;
    while k < |entries|
      invariant 0 <= k <= |entries|
      invariant Readable(entries, k) && NoDuplicates(files) && Owners(entries[..k], projectOf)
      invariant Members(files) == projectOf.Keys == Listed(entries, k)
    {
      if entries[k].None? {
        return Err("coverage inventory requires a file and its thread-safe or process-bound project");
      }
      var entry := entries[k].value;
      if entry.file in projectOf {
        return Err("coverage inventory lists a file more than once");
      }
      ListedGrows(entries, k);
      MembersAppend(files, entry.file);
      assert entry.file !in Members(files);
      StillUnique(files, entry.file);
      files := files + [entry.file];
      projectOf := projectOf[entry.file := entry.project];
      k := k + 1;
    }
    assert entries[..k] == entries;
    r := Ok((files, projectOf));
  }

  function InsertString(x: File, s: seq<File>, less: (File, File) -> bool): (r: seq<File>)
    ensures multiset(r) == multiset(s) + multiset{x}
  {
    if s == [] then [x]
    else
      var last := |s| - 1;
      assert s == s[..last] + [s[last]];
      if less(x, s[last]) then InsertString(x, s[..last], less) + [s[last]] else s + [x]
  }

  /** The files outside `exempt`, sorted. */
  function SortedKept(files: seq<File>, exempt: set<File>, less: (File, File) -> bool): (r: seq<File>)
    ensures forall f :: multiset(r)[f] == if f in exempt then 0 else multiset(files)[f]
  {
    if files == [] then []
    else
      var n := |files| - 1;
      assert files == files[..n] + [files[n]];
      var rest := SortedKept(files[..n], exempt, less);
      if files[n] in exempt then rest else InsertString(files[n], rest, less)
  }

  /** The order of the runtime's string sort: total and transitive. */
  ghost predicate StrictOrder(less: (File, File) -> bool) {
    (forall x, y | x != y :: less(x, y) <==> !less(y, x)) &&
    (forall x, y, z | less(x, y) && less(y, z) :: less(x, z)) && forall x :: !less(x, x)
  }

  ghost predicate Ascending(s: seq<File>, less: (File, File) -> bool) {
    forall i, j | 0 <= i < j < |s| :: !less(s[j], s[i])
  }

  lemma {:induction false} InsertStringOrders(x: File, s: seq<File>, less: (File, File) -> bool)
    requires StrictOrder(less) && Ascending(s, less)
    ensures Ascending(InsertString(x, s, less), less)
  {
    var last := |s| - 1;
    if s != [] && less(x, s[last]) {
      InsertStringOrders(x, s[..last], less);
      var front := InsertString(x, s[..last], less);
      forall i | 0 <= i < |front| ensures !less(s[last], front[i]) {
        assert front[i] in multiset(front);
        assert front[i] == x || front[i] in s[..last];
      }
    } else if s != [] {
      forall i | 0 <= i < last ensures !less(x, s[i]) { assert !less(s[last], s[i]); }
    }
  }

  lemma {:induction false} SortedKeptOrders(files: seq<File>, exempt: set<File>, less: (File, File) -> bool)
    requires StrictOrder(less)
    ensures Ascending(SortedKept(files, exempt, less), less)
  {
    if files != [] {
      var n := |files| - 1;
      SortedKeptOrders(files[..n], exempt, less);
      if files[n] !in exempt { InsertStringOrders(files[n], SortedKept(files[..n], exempt, less), less); }
    }
  }

  /** Read the listed entries, refusing malformed records and repeated files, then drop the exempt suites. */
  method ParseFileInventory(entries: seq<Option<Entry>>, exempt: set<File>, less: (File, File) -> bool)
    returns (r: Result<(seq<File>, map<File, Project>), string>)
    ensures r.Ok? <==> Readable(entries, |entries|)
    ensures r.Ok? ==>
              NoDuplicates(r.value.0) && Members(r.value.0) == r.value.1.Keys == Listed(entries, |entries|) - exempt
    ensures r.Ok? ==> Owners(entries, r.value.1)
    ensures r.Ok? && StrictOrder(less) ==> Ascending(r.value.0, less)
  {
    r := ReadEntries(entries);
    if r.Ok? {
      if StrictOrder(less) { SortedKeptOrders(r.value.0, exempt, less); }
      var files, projectOf := r.value.0, r.value.1;
      var kept := SortedKept(files, exempt, less);
      forall f ensures f in kept <==> f in files && f !in exempt {
        assert f in kept <==> f in multiset(kept);
      }
      r := Ok((kept, projectOf - exempt));
      assert Members(kept) == Members(files) - exempt;
    }
  }

  // ---------- the project split ----------

  /** Whether a partition's configuration hands `file` to `project`; files of unknown project count as thread-safe. */
  predicate Belongs(file: File, projectOf: map<File, Project>, project: Project) {
    (file in projectOf && projectOf[file].ProcessBound?) == project.ProcessBound?
  }

  /** The files one project of a partition's configuration includes. */
  function Included(files: seq<File>, projectOf: map<File, Project>, project: Project): (r: seq<File>)
    ensures forall f :: multiset(r)[f] == if Belongs(f, projectOf, project) then multiset(files)[f] else 0
  {
    if files == [] then []
    else
      var n := |files| - 1;
      assert files == files[..n] + [files[n]];
      Included(files[..n], projectOf, project) + (if Belongs(files[n], projectOf, project) then [files[n]] else [])
  }

  lemma IncludedBelongs(files: seq<File>, projectOf: map<File, Project>, project: Project)
    ensures forall f | f in Included(files, projectOf, project) :: Belongs(f, projectOf, project)
  {
    forall f | f in Included(files, projectOf, project) ensures Belongs(f, projectOf, project) {
      assert f in multiset(Included(files, projectOf, project));
    }
  }

  /** The two projects of a partition run each of its files exactly once between them, each in its own project. */
  lemma ProjectsSplitPartition(files: seq<File>, projectOf: map<File, Project>)
    ensures multiset(Included(files, projectOf, ThreadSafe)) + multiset(Included(files, projectOf, ProcessBound)) ==
              multiset(files)
    ensures forall f | f in Included(files, projectOf, ProcessBound) :: f in projectOf && projectOf[f].ProcessBound?
    ensures forall f | f in Included(files, projectOf, ThreadSafe) :: f in projectOf ==> projectOf[f].ThreadSafe?
  {
    IncludedBelongs(files, projectOf, ThreadSafe);
    IncludedBelongs(files, projectOf, ProcessBound);
    var safe, bound := Included(files, projectOf, ThreadSafe), Included(files, projectOf, ProcessBound);
    forall f ensures multiset(safe)[f] + multiset(bound)[f] == multiset(files)[f] {
      assert Belongs(f, projectOf, ThreadSafe) != Belongs(f, projectOf, ProcessBound);
    }
  }
}
