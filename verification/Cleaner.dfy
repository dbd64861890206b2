/** The build output cleaner (`scripts/clean.ts`). */
module Cleaner {
  import opened Wrappers
  import opened FileTree
  import opened Reachability

  const TYPES := Name("types")
  const NODE_MODULES := Name("node_modules")
  const PACKAGE_JSON := Name("package.json")
  const KNOWN_ORPHAN_ENTRIES := {NODE_MODULES, Name("lib"), Name(".typecheck")}

  predicate HasSuffix(s: string, suffix: string) {
    |s| >= |suffix| && s[|s| - |suffix|..] == suffix
  }

  predicate IsBuildInfo(n: Name) {
    HasSuffix(n.text, ".tsbuildinfo")
  }

  predicate IsDescendant(root: Path, path: Path) {
    root < path
  }

  datatype Failure =
    | NoRoot | Unreadable(path: Path) | BadConfig(path: Path) | WrongOutDir(path: Path) | Outside(path: Path)
    | UnsafeOrphans(entries: set<Path>)

  // ---------- build outputs ----------

  /** What the build graph needs of a TypeScript config; configs that cannot be parsed are absent. */
  datatype Config = Config(outDir: Option<Path>, references: seq<Path>)

  type Configs = map<Path, Config>

  function NativeEntryOutput(root: Path): Path {
    root + [Name("native"), Name("system"), Name("packages"), Name("entry"), Name("lib")]
  }

  /** The directory to remove for an `outDir`: its parent when it ends in `types`. */
  function OutputOf(root: Path, outDir: Path): Option<Path> {
    if outDir != [] && outDir[|outDir| - 1] == TYPES then Some(outDir[..|outDir| - 1])
    else if outDir == NativeEntryOutput(root) then Some(outDir)
    else None
  }

  function References(configs: Configs): Path -> set<Path> {
    c => if c in configs then set r | r in configs[c].references else {}
  }

  function RootConfig(root: Path): Path {
    root + [Name("tsconfig.json")]
  }

  ghost predicate InBuild(root: Path, configs: Configs, c: Path) {
    Reaches(References(configs), RootConfig(root), c)
  }

  /** The config parses, and its output, if any, is a known kind of directory below the root. */
  predicate Acceptable(root: Path, configs: Configs, c: Path) {
    c in configs &&
    (configs[c].outDir.Some? ==>
       OutputOf(root, configs[c].outDir.value).Some? &&
       IsDescendant(root, OutputOf(root, configs[c].outDir.value).value))
  }

  predicate Produces(root: Path, configs: Configs, c: Path, output: Path) {
    c in configs && configs[c].outDir.Some? && OutputOf(root, configs[c].outDir.value) == Some(output)
  }

  ghost predicate BuildsAcceptable(root: Path, configs: Configs) {
    forall c | InBuild(root, configs, c) :: Acceptable(root, configs, c)
  }

  /** Some config reachable from the root config has this output. */
  ghost predicate IsBuildOutput(root: Path, configs: Configs, output: Path) {
    exists c :: InBuild(root, configs, c) && Produces(root, configs, c, output)
  }

  /** Everything known so far is in the build, and what a visited config refers to is known. */
  ghost predicate Explored(root: Path, configs: Configs, visited: set<Path>, pending: seq<Path>) {
    (forall c | c in visited :: InBuild(root, configs, c) && Acceptable(root, configs, c)) &&
    (forall c | c in pending :: InBuild(root, configs, c)) &&
    (forall c, d | c in visited && d in References(configs)(c) :: d in visited || d in pending) &&
    (RootConfig(root) in visited || RootConfig(root) in pending)
  }

  ghost predicate OutputsOf(root: Path, configs: Configs, visited: set<Path>, outputs: set<Path>) {
    forall o :: o in outputs <==> exists c :: c in visited && Produces(root, configs, c, o)
  }

  lemma VisitKeepsExplored(root: Path, configs: Configs, visited: set<Path>, pending: seq<Path>, c: Path)
    requires Explored(root, configs, visited, pending + [c]) && Acceptable(root, configs, c)
    ensures Explored(root, configs, visited + {c}, pending + configs[c].references)
  {
    var more := pending + configs[c].references;
    assert (pending + [c])[|pending|] == c;
    assert InBuild(root, configs, c);
    forall d | d in more ensures InBuild(root, configs, d) {
      if d !in pending { ReachesFurther(References(configs), RootConfig(root), c, d); }
      else { assert d in pending + [c]; }
    }
    assert forall d | d in pending + [c] :: d in pending || d == c;
    assert forall d | d in pending :: d in more;
    assert forall d | d in configs[c].references :: d in more;
  }

  lemma SkipKeepsExplored(root: Path, configs: Configs, visited: set<Path>, pending: seq<Path>, c: Path)
    requires Explored(root, configs, visited, pending + [c]) && c in visited
    ensures Explored(root, configs, visited, pending)
  {
  }

  lemma OutputsGrow(root: Path, configs: Configs, visited: set<Path>, outputs: set<Path>, c: Path)
    requires OutputsOf(root, configs, visited, outputs) && Acceptable(root, configs, c)
    ensures var outDir := configs[c].outDir;
            var more := if outDir.Some? then outputs + {OutputOf(root, outDir.value).value} else outputs;
            OutputsOf(root, configs, visited + {c}, more)
  {
  }

  lemma ExploredIsBuild(root: Path, configs: Configs, visited: set<Path>)
    requires Explored(root, configs, visited, [])
    ensures BuildsAcceptable(root, configs)
    ensures forall c :: c in visited <==> InBuild(root, configs, c)
  {
    assert ClosedUnder(References(configs), visited);
    ClosedContainsReachable(References(configs), visited, RootConfig(root));
  }

  /**
   * Finding the build outputs succeeds exactly when every config reachable from the root config through
   * references is acceptable, and then yields the outputs of exactly those configs.
   */
  method BuildOutputDirectories(root: Path, configs: Configs) returns (r: Result<set<Path>, Failure>)
    ensures r.Ok? <==> BuildsAcceptable(root, configs)
    ensures r.Ok? ==> forall o :: o in r.value <==> IsBuildOutput(root, configs, o)
    ensures r.Err? ==> !r.error.UnsafeOrphans?
  {
    var outputs: set<Path> := {};
    var pending := [RootConfig(root)];
    var visited: set<Path> := {};
    ReachesItself(References(configs), RootConfig(root));
    while pending != []
      invariant visited <= configs.Keys
      invariant Explored(root, configs, visited, pending)
      invariant OutputsOf(root, configs, visited, outputs)
      decreases configs.Keys - visited, |pending|
    {
      var configPath := pending[|pending| - 1];
      assert pending == pending[..|pending| - 1] + [configPath];
      assert InBuild(root, configs, configPath);
      pending := pending[..|pending| - 1];
      if configPath in visited {
        SkipKeepsExplored(root, configs, visited, pending, configPath);
        continue;
      }
      if configPath !in configs { return Err(BadConfig(configPath)); }
      var parsed := configs[configPath];
      if parsed.outDir.Some? {
        var output := OutputOf(root, parsed.outDir.value);
        if output.None? { return Err(WrongOutDir(parsed.outDir.value)); }
        if !IsDescendant(root, output.value) { return Err(Outside(output.value)); }
      }
      VisitKeepsExplored(root, configs, visited, pending, configPath);
      OutputsGrow(root, configs, visited, outputs, configPath);
      if parsed.outDir.Some? { outputs := outputs + {OutputOf(root, parsed.outDir.value).value}; }
      visited := visited + {configPath};
      pending := pending + parsed.references;
    }
    ExploredIsBuild(root, configs, visited);
    return Ok(outputs);
  }

  // ---------- what may be removed ----------

  /** The path names nothing, or an entry strictly below the canonical root. */
  predicate Addable(tree: Tree, canonicalRoot: Path, p: Path) {
    var l := Lstat(tree, p);
    l == Enoent || (l.Found? && IsDescendant(canonicalRoot, l.at))
  }

  function Present(tree: Tree, paths: set<Path>): set<Path> {
    set p | p in paths && Lstat(tree, p).Found?
  }

  /** Adds the present ones among `paths`, refusing anything outside the repository. */
  method AddIfPresent(tree: Tree, canonicalRoot: Path, paths: set<Path>, targets: set<Path>)
    returns (r: Result<set<Path>, Failure>)
    ensures r.Ok? <==> forall p | p in paths :: Addable(tree, canonicalRoot, p)
    ensures r.Ok? ==> r.value == targets + Present(tree, paths)
    ensures r.Err? ==> !r.error.UnsafeOrphans?
  {
    var added, todo := targets, paths;
    while todo != {}
      invariant todo <= paths
      invariant forall p | p in paths - todo :: Addable(tree, canonicalRoot, p)
      invariant added == targets + Present(tree, paths - todo)
    {
      var path :| path in todo;
      var location := Lstat(tree, path);
      if location == Enotdir || location == Eloop { return Err(Unreadable(path)); }
      if location.Found? {
        if !IsDescendant(canonicalRoot, location.at) { return Err(Outside(path)); }
        added := added + {path};
      }
      assert paths - (todo - {path}) == (paths - todo) + {path};
      todo := todo - {path};
    }
    assert paths - todo == paths;
    return Ok(added);
  }

  function Fixed(root: Path): set<Path> {
    {root + [Name(".dsh-build")], root + [Name("apps"), Name("desktop"), Name(".desktop-build")],
     root + [Name(".typecheck")], root + [Name("native"), Name("system"), Name("tsconfig.tsbuildinfo")]}
  }

  /** The incremental state files directly in the root. */
  function RootBuildInfo(tree: Tree, root: Path, canonicalRoot: Path): set<Path> {
    set n | n in Entries(tree, canonicalRoot) && IsBuildInfo(n) &&
            canonicalRoot + [n] in tree && tree[canonicalRoot + [n]].File? :: root + [n]
  }

  // ---------- package directories ----------

  /** The names of the directories in a directory; a missing directory has none. */
  function ChildDirectories(tree: Tree, p: Path): Result<set<Path>, Errno> {
    var entries := ReadDir(tree, p);
    if entries.Err? then (if entries.error == Errno(Enoent) then Ok({}) else Err(entries.error))
    else Ok(set n | n in entries.value && Realpath(tree, p).at + [n] in tree &&
                    tree[Realpath(tree, p).at + [n]] == Dir :: p + [n])
  }

  datatype PackageState = Live | Residue | Unsafe(entries: set<Path>) | Broken

  /** A directory with a manifest is live; one without is residue when it holds only known residue. */
  function StateOf(tree: Tree, directory: Path): PackageState {
    var manifest := Lstat(tree, directory + [PACKAGE_JSON]);
    if manifest.Found? then Live
    else if manifest != Enoent then Broken
    else
      var entries := ReadDir(tree, directory);
      if entries.Err? then Broken
      else
        var unknown := set n | n in entries.value && n !in KNOWN_ORPHAN_ENTRIES && !IsBuildInfo(n) :: directory + [n];
        if unknown == {} then Residue else Unsafe(unknown)
  }

  function PackagesDirectory(root: Path): Path {
    root + [Name("packages")]
  }

  predicate GroupsReadable(tree: Tree, groups: set<Path>) {
    forall g | g in groups ::
      ChildDirectories(tree, g).Ok? && forall d | d in ChildDirectories(tree, g).value :: StateOf(tree, d) != Broken
  }

  function PackagesIn(tree: Tree, groups: set<Path>): set<Path> {
    set g, d | g in groups && ChildDirectories(tree, g).Ok? && d in ChildDirectories(tree, g).value :: d
  }

  predicate PackagesReadable(tree: Tree, root: Path) {
    ChildDirectories(tree, PackagesDirectory(root)).Ok? &&
    GroupsReadable(tree, ChildDirectories(tree, PackagesDirectory(root)).value)
  }

  /** All package directories, whether live or not. */
  function Packages(tree: Tree, root: Path): set<Path> {
    var groups := ChildDirectories(tree, PackagesDirectory(root));
    if groups.Ok? then PackagesIn(tree, groups.value) else {}
  }

  function ResidueOf(tree: Tree, packages: set<Path>): set<Path> {
    set d | d in packages && StateOf(tree, d) == Residue
  }

  /** The unknown entries in package directories without a manifest. */
  function OrphansOf(tree: Tree, packages: set<Path>): set<Path> {
    set d, p | d in packages && StateOf(tree, d).Unsafe? && p in StateOf(tree, d).entries :: p
  }

  lemma ResidueGrows(tree: Tree, packages: set<Path>, d: Path)
    ensures ResidueOf(tree, packages + {d}) ==
              ResidueOf(tree, packages) + (if StateOf(tree, d) == Residue then {d} else {})
  {
  }

  lemma OrphansGrow(tree: Tree, packages: set<Path>, d: Path)
    ensures OrphansOf(tree, packages + {d}) ==
              OrphansOf(tree, packages) + (if StateOf(tree, d).Unsafe? then StateOf(tree, d).entries else {})
  {
  }

  /** Sorts the packages of one group directory into residue and unknown entries. */
  method ScanGroup(tree: Tree, directories: set<Path>, stale: set<Path>, orphans: set<Path>)
    returns (ok: bool, allStale: set<Path>, allOrphans: set<Path>)
    ensures ok <==> forall d | d in directories :: StateOf(tree, d) != Broken
    ensures ok ==>
              allStale == stale + ResidueOf(tree, directories) && allOrphans == orphans + OrphansOf(tree, directories)
  {
    allStale, allOrphans := stale, orphans;
    var todo := directories;
    while todo != {}
      invariant todo <= directories
      invariant forall d | d in directories - todo :: StateOf(tree, d) != Broken
      invariant allStale == stale + ResidueOf(tree, directories - todo)
      invariant allOrphans == orphans + OrphansOf(tree, directories - todo)
    {
      var d :| d in todo;
      assert directories - (todo - {d}) == (directories - todo) + {d};
      ResidueGrows(tree, directories - todo, d);
      OrphansGrow(tree, directories - todo, d);
      var state := StateOf(tree, d);
      if state == Broken { return false, {}, {}; }
      if state.Unsafe? {
        allOrphans := allOrphans + state.entries;
      } else if state == Residue {
        allStale := allStale + {d};
      }
      todo := todo - {d};
    }
    assert directories - todo == directories;
    return true, allStale, allOrphans;
  }

  method ScanPackages(tree: Tree, root: Path) returns (ok: bool, stale: set<Path>, orphans: set<Path>)
    ensures ok <==> PackagesReadable(tree, root)
    ensures ok ==> stale == ResidueOf(tree, Packages(tree, root)) && orphans == OrphansOf(tree, Packages(tree, root))
  {
    hide StateOf, ReadDir, Realpath;
    stale, orphans := {}, {};
    var groups := ChildDirectories(tree, PackagesDirectory(root));
    if groups.Err? { return false, {}, {}; }
    var todo := groups.value;
    while todo != {}
      invariant todo <= groups.value
      invariant GroupsReadable(tree, groups.value - todo)
      invariant stale == ResidueOf(tree, PackagesIn(tree, groups.value - todo))
      invariant orphans == OrphansOf(tree, PackagesIn(tree, groups.value - todo))
    {
      var g :| g in todo;
      ghost var done := groups.value - todo;
      assert groups.value - (todo - {g}) == done + {g};
      var directories := ChildDirectories(tree, g);
      if directories.Err? { return false, {}, {}; }
      var groupOk, moreStale, moreOrphans := ScanGroup(tree, directories.value, stale, orphans);
      if !groupOk { return false, {}, {}; }
      assert PackagesIn(tree, done + {g}) == PackagesIn(tree, done) + directories.value;
      stale, orphans := moreStale, moreOrphans;
      todo := todo - {g};
    }
    assert groups.value - todo == groups.value;
    return true, stale, orphans;
  }

  // ---------- links to removed packages ----------

  predicate ModulesBroken(tree: Tree, modules: Path) {
    var entries := ReadDir(tree, modules);
    if entries.Err? then entries.error != Errno(Enoent)
    else exists n | n in entries.value :: IsScopeDirectory(tree, modules, n) && ReadDir(tree, modules + [n]).Err? &&
                                          ReadDir(tree, modules + [n]).error != Errno(Enoent)
  }

  predicate IsScopeDirectory(tree: Tree, modules: Path, n: Name) {
    IsScope(n) && Realpath(tree, modules).Found? && Realpath(tree, modules).at + [n] in tree &&
    tree[Realpath(tree, modules).at + [n]] == Dir
  }

  /** The symbolic links directly in a directory. */
  function LinksIn(tree: Tree, p: Path): set<Path> {
    if ReadDir(tree, p).Ok?
    then set n | n in ReadDir(tree, p).value && Realpath(tree, p).at + [n] in tree &&
                 tree[Realpath(tree, p).at + [n]].Link? :: p + [n]
    else {}
  }

  /** The links directly in a modules directory and in its scope directories. */
  function ModuleLinks(tree: Tree, modules: Path): set<Path> {
    if ReadDir(tree, modules).Ok?
    then LinksIn(tree, modules) +
         set n, l | n in ReadDir(tree, modules).value && IsScopeDirectory(tree, modules, n) &&
           l in LinksIn(tree, modules + [n]) :: l
    else {}
  }

  function ModulesDirectories(root: Path): set<Path> {
    {root + [NODE_MODULES], root + [NODE_MODULES, Name(".pnpm"), NODE_MODULES]}
  }

  /** The modules directory leads to a place inside the repository. */
  predicate IsOwnModules(tree: Tree, canonicalRoot: Path, modules: Path) {
    Realpath(tree, modules).Found? && IsDescendant(canonicalRoot, Realpath(tree, modules).at)
  }

  predicate LinksReadable(tree: Tree, root: Path, canonicalRoot: Path) {
    forall m | m in ModulesDirectories(root) && IsOwnModules(tree, canonicalRoot, m) :: !ModulesBroken(tree, m)
  }

  /** The canonical places the targets lead to. */
  function RemovedPaths(tree: Tree, targets: set<Path>): set<Path> {
    set p | p in targets && Realpath(tree, p).Found? :: Realpath(tree, p).at
  }

  /** A link is residue when it leads nowhere, or to something that is removed. */
  predicate IsResidueLink(tree: Tree, removed: set<Path>, link: Path) {
    var target := Realpath(tree, link);
    !target.Found? || exists p | p in removed :: p == target.at || IsDescendant(p, target.at)
  }

  function ResidueLinks(tree: Tree, root: Path, canonicalRoot: Path, targets: set<Path>): set<Path> {
    set m, l | m in ModulesDirectories(root) && IsOwnModules(tree, canonicalRoot, m) && l in ModuleLinks(tree, m) &&
               IsResidueLink(tree, RemovedPaths(tree, targets), l) :: l
  }

  // ---------- the plan ----------

  /** Targets found without looking at links: fixed places, root state files, build outputs, stale packages. */
  ghost predicate IsFirstTarget(tree: Tree, root: Path, configs: Configs, p: Path) {
    (Lstat(tree, p).Found? &&
     (p in Fixed(root) || IsBuildOutput(root, configs, p) || p in ResidueOf(tree, Packages(tree, root)))) ||
    (Realpath(tree, root).Found? && p in RootBuildInfo(tree, root, Realpath(tree, root).at))
  }

  ghost predicate AreFirstTargets(tree: Tree, root: Path, configs: Configs, first: set<Path>) {
    forall p :: p in first <==> IsFirstTarget(tree, root, configs, p)
  }

  /** The whole plan: the first targets and every present link that leads nowhere or to where one of them leads. */
  ghost predicate ArePlanned(tree: Tree, root: Path, configs: Configs, targets: set<Path>) {
    Realpath(tree, root).Found? &&
    exists first :: AreFirstTargets(tree, root, configs, first) &&
                    targets == first + Present(tree, ResidueLinks(tree, root, Realpath(tree, root).at, first))
  }

  ghost predicate FirstAddable(tree: Tree, root: Path, configs: Configs, canonicalRoot: Path) {
    (forall p | p in Fixed(root) || p in ResidueOf(tree, Packages(tree, root)) :: Addable(tree, canonicalRoot, p)) &&
    (forall p | IsBuildOutput(root, configs, p) :: Addable(tree, canonicalRoot, p))
  }

  ghost predicate LinksAddable(tree: Tree, root: Path, configs: Configs, canonicalRoot: Path) {
    forall first | AreFirstTargets(tree, root, configs, first) ::
      forall l | l in ResidueLinks(tree, root, canonicalRoot, first) :: Addable(tree, canonicalRoot, l)
  }

  /**
   * The checkout can be cleaned: its parts can be read, no target lies outside, and no package directory without
   * a manifest holds an unknown entry.
   */
  ghost predicate Cleanable(tree: Tree, root: Path, configs: Configs) {
    ReadDir(tree, root).Ok? && BuildsAcceptable(root, configs) && PackagesReadable(tree, root) &&
    OrphansOf(tree, Packages(tree, root)) == {} &&
    FirstAddable(tree, root, configs, Realpath(tree, root).at) &&
    LinksReadable(tree, root, Realpath(tree, root).at) &&
    LinksAddable(tree, root, configs, Realpath(tree, root).at)
  }

  /** Every target is an entry strictly below the canonical root. */
  ghost predicate Contained(tree: Tree, canonicalRoot: Path, targets: set<Path>) {
    forall p | p in targets :: Lstat(tree, p).Found? && IsDescendant(canonicalRoot, Lstat(tree, p).at)
  }

  lemma BuildInfoContained(tree: Tree, root: Path, canonicalRoot: Path)
    requires ReadDir(tree, root).Ok? && canonicalRoot == Realpath(tree, root).at
    ensures Contained(tree, canonicalRoot, RootBuildInfo(tree, root, canonicalRoot))
  {
  }

  lemma PresentContained(tree: Tree, canonicalRoot: Path, paths: set<Path>)
    requires forall p | p in paths :: Addable(tree, canonicalRoot, p)
    ensures Contained(tree, canonicalRoot, Present(tree, paths))
  {
  }

  method FirstTargets(tree: Tree, root: Path, configs: Configs, canonicalRoot: Path)
    returns (r: Result<set<Path>, Failure>, orphans: set<Path>)
    requires ReadDir(tree, root).Ok? && canonicalRoot == Realpath(tree, root).at
    ensures r.Ok? <==>
              BuildsAcceptable(root, configs) && PackagesReadable(tree, root) &&
              FirstAddable(tree, root, configs, canonicalRoot)
    ensures r.Ok? ==> AreFirstTargets(tree, root, configs, r.value) && Contained(tree, canonicalRoot, r.value)
    ensures r.Ok? ==> orphans == OrphansOf(tree, Packages(tree, root))
    ensures r.Err? ==> !r.error.UnsafeOrphans?
  {
    orphans := {};
    r := AddIfPresent(tree, canonicalRoot, Fixed(root), RootBuildInfo(tree, root, canonicalRoot));
    if r.Err? { return; }
    var outputs := BuildOutputDirectories(root, configs);
    if outputs.Err? { return outputs, orphans; }
    r := AddIfPresent(tree, canonicalRoot, outputs.value, r.value);
    if r.Err? { return; }
    var ok, stale, found := ScanPackages(tree, root);
    if !ok { return Err(Unreadable(PackagesDirectory(root))), orphans; }
    orphans := found;
    r := AddIfPresent(tree, canonicalRoot, stale, r.value);
    if r.Err? { return; }
    BuildInfoContained(tree, root, canonicalRoot);
    PresentContained(tree, canonicalRoot, Fixed(root));
    PresentContained(tree, canonicalRoot, outputs.value);
    PresentContained(tree, canonicalRoot, stale);
  }

  lemma FirstTargetsUnique(tree: Tree, root: Path, configs: Configs, first: set<Path>, others: set<Path>)
    requires AreFirstTargets(tree, root, configs, first) && AreFirstTargets(tree, root, configs, others)
    ensures first == others
  {
  }

  /** Planning succeeds exactly on a cleanable checkout; the plan stays inside the repository. */
  method Plan(tree: Tree, root: Path, configs: Configs) returns (r: Result<set<Path>, Failure>)
    ensures r.Ok? <==> Cleanable(tree, root, configs)
    ensures r.Ok? ==> ArePlanned(tree, root, configs, r.value) && Contained(tree, Realpath(tree, root).at, r.value)
    ensures r.Err? && r.error.UnsafeOrphans? ==> r.error.entries == OrphansOf(tree, Packages(tree, root)) != {}
  {
    if ReadDir(tree, root).Err? { return Err(NoRoot); }
    var canonicalRoot := Realpath(tree, root).at;
    var first, orphans := FirstTargets(tree, root, configs, canonicalRoot);
    if first.Err? { return first; }
    if !LinksReadable(tree, root, canonicalRoot) { return Err(Unreadable(root + [NODE_MODULES])); }
    var links := ResidueLinks(tree, root, canonicalRoot, first.value);
    r := AddIfPresent(tree, canonicalRoot, links, first.value);
    forall others | AreFirstTargets(tree, root, configs, others) ensures others == first.value {
      FirstTargetsUnique(tree, root, configs, first.value, others);
    }
    if r.Err? { return; }
    if orphans != {} { return Err(UnsafeOrphans(orphans)); }
    PresentContained(tree, canonicalRoot, links);
  }

  // ---------- links left dangling ----------

  /** The places of the entries that the targets name. */
  function Places(tree: Tree, targets: set<Path>): set<Path> {
    set p | p in targets && Lstat(tree, p).Found? :: Lstat(tree, p).at
  }

  /** The link leads nowhere once the targets are taken out. */
  predicate LeftDangling(tree: Tree, targets: set<Path>, link: Path) {
    !Realpath(Without(tree, Places(tree, targets)), link).Found?
  }

  /** When targets are named by their canonical locations, that is the tree in which they were removed one by one. */
  lemma DanglingAfterRemoval(before: Tree, after: Tree, targets: set<Path>, link: Path)
    requires Removing(before, after, targets, targets)
    requires forall p | p in targets :: Lstat(before, p) == Found(p) && p != []
    ensures LeftDangling(before, targets, link) <==> !Realpath(after, link).Found?
  {
    hide Lstat;
    RemovedAtOnce(before, after, targets);
    assert Places(before, targets) == targets;
  }

  /** The way of the link leads through an entry that is taken out. */
  predicate MeetsTarget(tree: Tree, targets: set<Path>, link: Path) {
    Meets(tree, Places(tree, targets), [], link, MAX_LINKS)
  }

  /** The link leads to where a target leads, or below. */
  predicate EndsInTarget(tree: Tree, targets: set<Path>, link: Path) {
    Realpath(tree, link).Found? && AtOrBelow(RemovedPaths(tree, targets), Realpath(tree, link).at)
  }

  lemma ResidueExactly(tree: Tree, targets: set<Path>, link: Path)
    ensures IsResidueLink(tree, RemovedPaths(tree, targets), link) <==>
              !Realpath(tree, link).Found? || EndsInTarget(tree, targets, link)
    ensures LeftDangling(tree, targets, link) <==> !Realpath(tree, link).Found? || MeetsTarget(tree, targets, link)
  {
    var places := Places(tree, targets);
    if Realpath(tree, link).Found? {
      WalkWithout(tree, places, [], link, MAX_LINKS);
    } else {
      WalkInPart(Without(tree, places), tree, [], link, MAX_LINKS);
    }
  }

  /** The links of the modules directories that lie inside the repository. */
  function OwnLinks(tree: Tree, root: Path, canonicalRoot: Path): set<Path> {
    set m, l | m in ModulesDirectories(root) && IsOwnModules(tree, canonicalRoot, m) && l in ModuleLinks(tree, m) :: l
  }

  /** The links that are residue of the targets are those the targets' removal leaves dangling. */
  ghost predicate ResidueIsDangling(tree: Tree, root: Path, canonicalRoot: Path, targets: set<Path>) {
    forall l | l in OwnLinks(tree, root, canonicalRoot) ::
      l in ResidueLinks(tree, root, canonicalRoot, targets) <==> LeftDangling(tree, targets, l)
  }

  /**
   * Links are planned when they lead nowhere or to where a target leads. These are the links that dangle once the
   * targets are gone exactly when the links with a target's entry on their way are those that end in a target.
   */
  lemma LinksPlannedExactly(tree: Tree, root: Path, canonicalRoot: Path, targets: set<Path>)
    ensures ResidueIsDangling(tree, root, canonicalRoot, targets) <==>
              forall l | l in OwnLinks(tree, root, canonicalRoot) && Realpath(tree, l).Found? ::
                EndsInTarget(tree, targets, l) <==> MeetsTarget(tree, targets, l)
  {
    forall l | l in OwnLinks(tree, root, canonicalRoot)
      ensures (l in ResidueLinks(tree, root, canonicalRoot, targets) <==> LeftDangling(tree, targets, l)) <==>
                (Realpath(tree, l).Found? ==> (EndsInTarget(tree, targets, l) <==> MeetsTarget(tree, targets, l)))
    {
      ResidueExactly(tree, targets, l);
    }
  }

  ghost predicate NoTargetIsLink(tree: Tree, targets: set<Path>) {
    forall p | p in targets && Lstat(tree, p).Found? && Lstat(tree, p).at in tree :: !tree[Lstat(tree, p).at].Link?
  }

  /** A target that is no link leads to its own place. */
  lemma TargetLeadsToPlace(tree: Tree, p: Path)
    requires WellFormed(tree) && p != [] && Realpath(tree, p).Found?
    requires Lstat(tree, p).Found? && !tree[Lstat(tree, p).at].Link?
    ensures Realpath(tree, p) == Lstat(tree, p)
  {
    var parent, name := p[..|p| - 1], p[|p| - 1];
    assert p == parent + [name];
    WalkThroughParent(tree, [], parent, name, MAX_LINKS);
    WalkToLast(tree, [], parent, name, MAX_LINKS);
  }

  /**
   * When no target is itself a link, a link that ends in a target meets it. So every planned link dangles, and
   * the plan misses exactly the links that only pass through a target.
   */
  lemma PlannedLinksDangle(tree: Tree, root: Path, canonicalRoot: Path, targets: set<Path>)
    requires WellFormed(tree) && Contained(tree, canonicalRoot, targets) && NoTargetIsLink(tree, targets)
    ensures forall l | l in ResidueLinks(tree, root, canonicalRoot, targets) :: LeftDangling(tree, targets, l)
    ensures ResidueIsDangling(tree, root, canonicalRoot, targets) <==>
              forall l | l in OwnLinks(tree, root, canonicalRoot) && MeetsTarget(tree, targets, l) ::
                IsResidueLink(tree, RemovedPaths(tree, targets), l)
  {
    forall l | l in OwnLinks(tree, root, canonicalRoot) && EndsInTarget(tree, targets, l)
      ensures MeetsTarget(tree, targets, l)
    {
      EndsWhereItMeets(tree, canonicalRoot, targets, l);
    }
    forall l | l in OwnLinks(tree, root, canonicalRoot)
      ensures IsResidueLink(tree, RemovedPaths(tree, targets), l) <==>
                !Realpath(tree, l).Found? || EndsInTarget(tree, targets, l)
      ensures LeftDangling(tree, targets, l) <==> !Realpath(tree, l).Found? || MeetsTarget(tree, targets, l)
    {
      ResidueExactly(tree, targets, l);
    }
  }

  lemma EndsWhereItMeets(tree: Tree, canonicalRoot: Path, targets: set<Path>, link: Path)
    requires WellFormed(tree) && Contained(tree, canonicalRoot, targets) && NoTargetIsLink(tree, targets)
    requires EndsInTarget(tree, targets, link)
    ensures MeetsTarget(tree, targets, link)
  {
    var places, end := Places(tree, targets), Realpath(tree, link).at;
    var removed :| removed in RemovedPaths(tree, targets) && removed <= end;
    var target :| target in targets && Realpath(tree, target) == Found(removed);
    WalkStaysInTree(tree, [], target[..|target| - 1], MAX_LINKS);
    TargetLeadsToPlace(tree, target);
    assert removed in places && AtOrBelow(places, end);
    if !MeetsTarget(tree, targets, link) {
      WalkWithout(tree, places, [], link, MAX_LINKS);
      assert [] in Without(tree, places);
      WalkStaysInTree(Without(tree, places), [], link, MAX_LINKS);
    }
  }

  // the failing inputs

  const BUILD_STATE := Name(".dsh-build")

  /** A link with that name stands in a directory at a canonical location. */
  ghost predicate HasLink(tree: Tree, directory: Path, n: Name, target: Path) {
    WellFormed(tree) && directory in tree && tree[directory] == Dir &&
    directory + [n] in tree && tree[directory + [n]] == Link(target)
  }

  lemma LinkLeads(tree: Tree, directory: Path, n: Name, target: Path)
    requires HasLink(tree, directory, n, target)
    ensures Realpath(tree, directory + [n]) == Walk(tree, [], target, MAX_LINKS - 1)
  {
    WalkFollowsLink(tree, directory, n, target, MAX_LINKS - 1);
  }

  lemma ModuleLinkIsOwn(tree: Tree, root: Path, n: Name, target: Path)
    requires HasLink(tree, root + [NODE_MODULES], n, target)
    ensures root + [NODE_MODULES] + [n] in OwnLinks(tree, root, root)
  {
    var modules := root + [NODE_MODULES];
    assert [] + modules == modules && root < modules;
    WalkCanonical(tree, [], modules, MAX_LINKS);
    assert IsOwnModules(tree, root, modules) && modules in ModulesDirectories(root);
    assert modules + [n] in tree && n in Entries(tree, modules);
    assert modules + [n] in LinksIn(tree, modules);
    assert modules + [n] in ModuleLinks(tree, modules);
  }

  lemma OwnResidue(tree: Tree, root: Path, canonicalRoot: Path, targets: set<Path>, link: Path)
    requires link in OwnLinks(tree, root, canonicalRoot)
    ensures link in ResidueLinks(tree, root, canonicalRoot, targets) <==>
              IsResidueLink(tree, RemovedPaths(tree, targets), link)
  {
  }

  /** In the repository `r` the build state directory is a link to `x`, and a module link leads to `x/d`. */
  function LinkedState(r: Name, x: Name, l: Name, d: Name, state: Name, modules: Name): Tree {
    map[[] := Dir, [r] := Dir, [r, state] := Link([x]), [r, modules] := Dir, [r, modules, l] := Link([x, d]),
        [x] := Dir, [x, d] := Dir]
  }

  lemma LinkedEntry(r: Name, x: Name, l: Name, d: Name, state: Name, modules: Name, tree: Tree, p: Path)
    requires state != modules && p in tree && p != []
    requires tree == LinkedState(r, x, l, d, state, modules) ||
             tree == LinkedState(r, x, l, d, state, modules) - {[r, state]}
    ensures InDirectory(tree, p)
  {
    if |p| == 1 {
      assert p[..0] == [];
    } else if |p| == 2 {
      assert p[..1] == [p[0]];
    } else {
      assert p[..2] == [r, modules];
    }
  }

  lemma LinkedFormed(r: Name, x: Name, l: Name, d: Name, state: Name, modules: Name, tree: Tree)
    requires r != x && state != modules
    requires tree == LinkedState(r, x, l, d, state, modules) ||
             tree == LinkedState(r, x, l, d, state, modules) - {[r, state]}
    ensures HasLink(tree, [r, modules], l, [x, d]) && Walk(tree, [], [x, d], MAX_LINKS - 1) == Found([x, d])
  {
    hide Walk, InDirectory;
    forall p | p in tree && p != [] ensures InDirectory(tree, p) {
      LinkedEntry(r, x, l, d, state, modules, tree, p);
    }
    assert [] + [x, d] == [x, d] && [r, modules] + [l] == [r, modules, l];
    WalkCanonical(tree, [], [x, d], MAX_LINKS - 1);
  }

  lemma LinkedTarget(r: Name, x: Name, l: Name, d: Name, state: Name, modules: Name)
    requires r != x && state != modules
    ensures var tree := LinkedState(r, x, l, d, state, modules);
            RemovedPaths(tree, {[r, state]}) == {[x]} &&
            Without(tree, Places(tree, {[r, state]})) == tree - {[r, state]}
  {
    var tree := LinkedState(r, x, l, d, state, modules);
    LinkedFormed(r, x, l, d, state, modules, tree);
    assert [r] + [state] == [r, state] && [] + [x] == [x];
    LinkLeads(tree, [r], state, [x]);
    WalkCanonical(tree, [], [x], MAX_LINKS - 1);
    LstatCanonical(tree, [r, state]);
    OnePlace(tree, [r, state], [x]);
  }

  lemma OnePlace(tree: Tree, target: Path, end: Path)
    requires Lstat(tree, target) == Found(target) && Realpath(tree, target) == Found(end)
    requires forall p | p in tree && target <= p :: p == target
    ensures RemovedPaths(tree, {target}) == {end} && Places(tree, {target}) == {target}
    ensures Without(tree, Places(tree, {target})) == tree - {target}
  {
    hide Lstat, Realpath;
    assert Places(tree, {target}) == {target};
    assert forall p :: AtOrBelow({target}, p) <==> target <= p;
  }

  /** The module link is planned, although unlinking the build state leaves it alone. */
  lemma LinkedTargetPlansTooMuch(r: Name, x: Name, l: Name, d: Name)
    requires r != x
    ensures var tree, target, link := LinkedState(r, x, l, d, BUILD_STATE, NODE_MODULES), [r, BUILD_STATE],
            [r, NODE_MODULES, l];
            WellFormed(tree) && target in Fixed([r]) && link in ResidueLinks(tree, [r], [r], {target}) &&
            !LeftDangling(tree, {target}, link)
  {
    hide WellFormed, Lstat, ResidueLinks, OwnLinks, LinkedState, RemovedPaths, Without, Places;
    var tree, target, modules := LinkedState(r, x, l, d, BUILD_STATE, NODE_MODULES), [r, BUILD_STATE],
      [r, NODE_MODULES];
    assert BUILD_STATE.text[0] != NODE_MODULES.text[0];
    assert [r] + [BUILD_STATE] == target && [r] + [NODE_MODULES] == modules && modules + [l] == [r, NODE_MODULES, l];
    LinkedFormed(r, x, l, d, BUILD_STATE, NODE_MODULES, tree);
    LinkedFormed(r, x, l, d, BUILD_STATE, NODE_MODULES, tree - {target});
    LinkedTarget(r, x, l, d, BUILD_STATE, NODE_MODULES);
    ModuleLinkIsOwn(tree, [r], l, [x, d]);
    LinkLeads(tree, modules, l, [x, d]);
    LinkLeads(tree - {target}, modules, l, [x, d]);
    OwnResidue(tree, [r], [r], {target}, modules + [l]);
  }

  /** In the repository `r` a module link leads through a link in the build state directory to `r/src`. */
  function Passing(r: Name, l: Name, up: Name, src: Name, state: Name, modules: Name): Tree {
    map[[] := Dir, [r] := Dir, [r, state] := Dir, [r, state, up] := Link([r, src]), [r, src] := Dir,
        [r, modules] := Dir, [r, modules, l] := Link([r, state, up])]
  }

  lemma PassingFormed(r: Name, l: Name, up: Name, src: Name, state: Name, modules: Name)
    requires state != modules && src != state && src != modules
    ensures HasLink(Passing(r, l, up, src, state, modules), [r, modules], l, [r, state, up])
    ensures HasLink(Passing(r, l, up, src, state, modules), [r, state], up, [r, src])
  {
    var tree := Passing(r, l, up, src, state, modules);
    forall p | p in tree && p != [] ensures InDirectory(tree, p) {
      if |p| == 1 {
        assert p[..0] == [];
      } else if |p| == 2 {
        assert p[..1] == [r];
      } else {
        assert p[..2] == [r, p[1]];
      }
    }
    assert [r, modules] + [l] == [r, modules, l] && [r, state] + [up] == [r, state, up];
  }

  lemma PassingTarget(r: Name, l: Name, up: Name, src: Name, state: Name, modules: Name)
    requires state != modules && src != state && src != modules
    ensures var tree := Passing(r, l, up, src, state, modules);
            RemovedPaths(tree, {[r, state]}) == {[r, state]} && Places(tree, {[r, state]}) == {[r, state]}
  {
    var tree := Passing(r, l, up, src, state, modules);
    PassingFormed(r, l, up, src, state, modules);
    LstatCanonical(tree, [r, state]);
    assert [] + [r, state] == [r, state];
    WalkCanonical(tree, [], [r, state], MAX_LINKS);
  }

  /** A module link whose target leads through a directory to another link meets that directory. */
  lemma LinkMeets(tree: Tree, modules: Path, l: Name, through: Path, up: Name, end: Path)
    requires HasLink(tree, modules, l, through + [up]) && HasLink(tree, through, up, end)
    requires modules != [] && through != []
    ensures Meets(tree, {through}, [], modules + [l], MAX_LINKS)
  {
    assert [] + through == through && [] + modules == modules && [l][1..] == [];
    MeetsAcross(tree, {through}, [], through, [up], MAX_LINKS - 1);
    assert (through + [up]) + [] == through + [up];
    assert Meets(tree, {through}, modules, [l], MAX_LINKS);
    MeetsAcross(tree, {through}, [], modules, [l], MAX_LINKS);
  }

  lemma LinkThroughLeads(tree: Tree, modules: Path, l: Name, through: Path, up: Name, end: Path)
    requires HasLink(tree, modules, l, through + [up]) && HasLink(tree, through, up, end)
    requires end in tree && !tree[end].Link?
    ensures Realpath(tree, modules + [l]) == Found(end)
  {
    LinkLeads(tree, modules, l, through + [up]);
    assert [] + through == through && [] + end == end && [up][1..] == [] && end + [] == end;
    WalkAcross(tree, [], through, [up], MAX_LINKS - 1);
    WalkCanonical(tree, [], end, MAX_LINKS - 2);
  }

  /** The module link is not planned, although removing the build state leaves it dangling. */
  lemma PassingLinkIsForgotten(r: Name, l: Name, up: Name, src: Name)
    requires src != BUILD_STATE && src != NODE_MODULES
    ensures var tree, target, link := Passing(r, l, up, src, BUILD_STATE, NODE_MODULES), [r, BUILD_STATE],
            [r, NODE_MODULES, l];
            WellFormed(tree) && target in Fixed([r]) && link in OwnLinks(tree, [r], [r]) &&
            link !in ResidueLinks(tree, [r], [r], {target}) && LeftDangling(tree, {target}, link)
  {
    hide WellFormed, Lstat, ResidueLinks, OwnLinks, RemovedPaths, LeftDangling, Walk, Realpath, Places;
    var tree, target, modules := Passing(r, l, up, src, BUILD_STATE, NODE_MODULES), [r, BUILD_STATE], [r, NODE_MODULES];
    assert BUILD_STATE.text[0] != NODE_MODULES.text[0];
    assert [r] + [BUILD_STATE] == target && [r] + [NODE_MODULES] == modules && modules + [l] == [r, NODE_MODULES, l];
    assert target + [up] == [r, BUILD_STATE, up];
    PassingFormed(r, l, up, src, BUILD_STATE, NODE_MODULES);
    PassingTarget(r, l, up, src, BUILD_STATE, NODE_MODULES);
    LinkMeets(tree, modules, l, target, up, [r, src]);
    LinkThroughLeads(tree, modules, l, target, up, [r, src]);
    ModuleLinkIsOwn(tree, [r], l, target + [up]);
    ResidueExactly(tree, {target}, modules + [l]);
    OwnResidue(tree, [r], [r], {target}, modules + [l]);
  }

  // ---------- cleaning ----------

  class RepositoryCleaner {
    const root: Path
    const configs: Configs
    var tree: Tree

    constructor (root: Path, configs: Configs, tree: Tree)
      ensures this.root == root && this.configs == configs && this.tree == tree
    {
      this.root, this.configs, this.tree := root, configs, tree;
    }

    /** Removes the targets one by one; a target that went with another one is skipped. */
    method RemoveAll(targets: set<Path>, ghost canonicalRoot: Path)
      requires WellFormed(tree) && Contained(tree, canonicalRoot, targets)
      modifies this
      ensures Removing(old(tree), tree, targets, targets)
    {
      ghost var before := tree;
      var todo := targets;
      assert Removable(before, targets);
      while todo != {}
        invariant todo <= targets && Removing(before, tree, targets, targets - todo)
      {
        var target :| target in todo;
        assert targets - (todo - {target}) == (targets - todo) + {target};
        StillRemovable(before, tree, targets, targets - todo, target);
        RemovingGoesOn(before, tree, targets, targets - todo, target);
        tree := Removed(tree, target);
        todo := todo - {target};
      }
      assert targets - todo == targets;
    }

    /**
     * Cleaning happens exactly on a cleanable checkout and then never stops halfway: every target is gone, and
     * nothing but targets and what lies below them, all strictly below the canonical root. Otherwise nothing
     * is removed.
     */
    method Clean() returns (r: Result<set<Path>, Failure>)
      requires WellFormed(tree)
      modifies this
      ensures r.Ok? <==> Cleanable(old(tree), root, configs)
      ensures r.Err? ==> tree == old(tree)
      ensures r.Ok? ==> Cleaned(old(tree), tree, root, configs, r.value)
    {
      r := Plan(tree, root, configs);
      if r.Ok? { RemoveAll(r.value, Realpath(tree, root).at); }
    }
  }

  /** The planned targets, all strictly below the canonical root, are gone and nothing else went. */
  ghost predicate Cleaned(before: Tree, after: Tree, root: Path, configs: Configs, targets: set<Path>) {
    ArePlanned(before, root, configs, targets) && Contained(before, Realpath(before, root).at, targets) &&
    OnlyTargetsGone(before, after, targets) && Gone(after, targets)
  }

  /** What a clean removes lies strictly below the canonical root. */
  lemma RemovalContained(before: Tree, after: Tree, root: Path, configs: Configs, targets: set<Path>, p: Path)
    requires Cleaned(before, after, root, configs, targets) && p in before && p !in after
    ensures Realpath(before, root).Found? && Realpath(before, root).at < p
  {
    var canonicalRoot := Realpath(before, root).at;
    var target :| target in targets && Lstat(before, target).Found? && Lstat(before, target).at <= p;
    assert canonicalRoot < Lstat(before, target).at;
  }

  lemma UnsafePackagePreventsClean(tree: Tree, root: Path, configs: Configs, directory: Path)
    requires directory in Packages(tree, root) && StateOf(tree, directory).Unsafe?
    ensures !Cleanable(tree, root, configs)
  {
  }

  lemma CanonicalDirectory(tree: Tree, p: Path, n: Name)
    requires WellFormed(tree) && p in tree && tree[p] == Dir
    ensures Realpath(tree, p) == Found(p) && ReadDir(tree, p) == Ok(Entries(tree, p))
    ensures n in Entries(tree, p) <==> p + [n] in tree
    ensures p + [n] in tree && tree[p + [n]] == Dir ==> p + [n] in ChildDirectories(tree, p).value
  {
    assert [] + p == p;
    WalkCanonical(tree, [], p, MAX_LINKS);
    if n in Entries(tree, p) {
      var q :| q in tree && |q| == |p| + 1 && p <= q && q[|p|] == n;
      assert q == p + [n];
    }
    if p + [n] in tree { assert p <= p + [n] && (p + [n])[|p|] == n; }
  }

  lemma UnknownIsUnsafe(tree: Tree, directory: Path, n: Name)
    requires WellFormed(tree) && n !in KNOWN_ORPHAN_ENTRIES && !IsBuildInfo(n)
    requires directory in tree && tree[directory] == Dir && directory + [PACKAGE_JSON] !in tree &&
             directory + [n] in tree
    ensures StateOf(tree, directory).Unsafe?
  {
    hide IsBuildInfo;
    CanonicalDirectory(tree, directory, n);
    assert (directory + [PACKAGE_JSON])[..|directory|] == directory;
    var unknown := set m | m in Entries(tree, directory) && m !in KNOWN_ORPHAN_ENTRIES && !IsBuildInfo(m) ::
      directory + [m];
    assert directory + [n] in unknown;
  }

  lemma NestedIsPackage(tree: Tree, root: Path, group: Name, package: Name)
    requires WellFormed(tree)
    requires var directory := PackagesDirectory(root) + [group] + [package]; directory in tree && tree[directory] == Dir
    ensures PackagesDirectory(root) + [group] + [package] in Packages(tree, root)
  {
    var packages := PackagesDirectory(root);
    AncestorIsDir(tree, packages + [group] + [package], packages + [group]);
    AncestorIsDir(tree, packages + [group] + [package], packages);
    CanonicalDirectory(tree, packages, group);
    CanonicalDirectory(tree, packages + [group], package);
  }

  /** One entry that is no known residue, in a package directory without a manifest, prevents the clean as a whole. */
  lemma UnknownEntryPreventsClean(tree: Tree, root: Path, configs: Configs, group: Name, package: Name, n: Name)
    requires WellFormed(tree) && n !in KNOWN_ORPHAN_ENTRIES && !IsBuildInfo(n)
    requires var directory := PackagesDirectory(root) + [group] + [package];
             directory in tree && tree[directory] == Dir && directory + [PACKAGE_JSON] !in tree &&
             directory + [n] in tree
    ensures !Cleanable(tree, root, configs)
  {
    hide Cleanable, Packages, StateOf, PackagesDirectory, IsBuildInfo;
    var directory := PackagesDirectory(root) + [group] + [package];
    NestedIsPackage(tree, root, group, package);
    UnknownIsUnsafe(tree, directory, n);
    UnsafePackagePreventsClean(tree, root, configs, directory);
  }
}
