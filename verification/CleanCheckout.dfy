/**
 * What the cleaner (`scripts/clean.ts`) plans and removes, said of the entries of a checkout: directories, files and
 * links below the canonical root.
 */
module CleanCheckout {
  import opened Wrappers
  import opened FileTree
  import opened Cleaner

  const PACKAGES := Name("packages")

  // ---------- entries below the canonical root ----------

  /** The root leads to a directory there. */
  ghost predicate RootAt(tree: Tree, root: Path, c: Path) {
    WellFormed(tree) && Realpath(tree, root) == Found(c) && c in tree && tree[c] == Dir
  }

  /** A walk goes on from where the first part of the path leads. */
  lemma {:induction false} WalkPast(t: Tree, at: Path, first: Path, rest: Path, links: nat) returns (left: nat)
    requires WellFormed(t) && at in t && Walk(t, at, first, links).Found?
    requires var c := Walk(t, at, first, links).at; c in t && t[c] == Dir
    ensures Walk(t, at, first + rest, links) == Walk(t, Walk(t, at, first, links).at, rest, left)
    decreases links, |first|
  {
    if first == [] {
      assert first + rest == rest;
      left := links;
    } else {
      var next := at + [first[0]];
      TailAppend(first, rest);
      match t[next]
      case Link(target) =>
        assert target + (first[1..] + rest) == (target + first[1..]) + rest;
        left := WalkPast(t, [], target + first[1..], rest, links - 1);
      case Dir => left := WalkPast(t, next, first[1..], rest, links);
    }
  }

  lemma DirectoryBelow(tree: Tree, root: Path, c: Path, rest: Path)
    requires RootAt(tree, root, c) && c + rest in tree && tree[c + rest] == Dir
    ensures Realpath(tree, root + rest) == Found(c + rest) && ReadDir(tree, root + rest) == Ok(Entries(tree, c + rest))
  {
    var left := WalkPast(tree, [], root, rest, MAX_LINKS);
    WalkCanonical(tree, c, rest, left);
  }

  lemma EntriesAre(tree: Tree, d: Path, n: Name)
    ensures n in Entries(tree, d) <==> d + [n] in tree
  {
    if n in Entries(tree, d) {
      var q :| q in tree && |q| == |d| + 1 && d <= q && q[|d|] == n;
      assert q == d + [n];
    }
    if d + [n] in tree { assert d <= d + [n] && (d + [n])[|d|] == n; }
  }

  /** Looking up an entry of a directory below the root. */
  lemma EntryBelow(tree: Tree, root: Path, c: Path, rest: Path, n: Name)
    requires RootAt(tree, root, c) && c + rest in tree && tree[c + rest] == Dir
    ensures Lstat(tree, root + rest + [n]) == if c + rest + [n] in tree then Found(c + rest + [n]) else Enoent
  {
    DirectoryBelow(tree, root, c, rest);
    var p := root + rest + [n];
    assert p[..|p| - 1] == root + rest;
  }

  /** The directories in a directory below the root. */
  lemma ChildrenBelow(tree: Tree, root: Path, c: Path, rest: Path, p: Path)
    requires RootAt(tree, root, c) && c + rest in tree && tree[c + rest] == Dir
    ensures ChildDirectories(tree, root + rest).Ok?
    ensures p in ChildDirectories(tree, root + rest).value <==>
              exists n :: p == root + rest + [n] && c + rest + [n] in tree && tree[c + rest + [n]] == Dir
  {
    DirectoryBelow(tree, root, c, rest);
    forall n ensures n in Entries(tree, c + rest) <==> c + rest + [n] in tree { EntriesAre(tree, c + rest, n); }
  }

  // ---------- package directories ----------

  /** Leftovers of builds and installs: `node_modules`, `lib`, `.typecheck` and incremental state. */
  ghost predicate KnownResidue(n: Name) {
    n == Name("node_modules") || n == Name("lib") || n == Name(".typecheck") || IncrementalState(n)
  }

  ghost predicate IncrementalState(n: Name) {
    exists stem :: n.text == stem + ".tsbuildinfo"
  }

  lemma BuildInfoIs(n: Name)
    ensures IsBuildInfo(n) <==> IncrementalState(n)
  {
    var suffix := ".tsbuildinfo";
    if IsBuildInfo(n) { assert n.text == n.text[..|n.text| - |suffix|] + suffix; }
    if stem :| n.text == stem + suffix { assert n.text[|n.text| - |suffix|..] == suffix; }
  }

  /** A directory two levels below `packages`. */
  ghost predicate IsPackage(tree: Tree, c: Path, g: Name, k: Name) {
    c + [PACKAGES, g, k] in tree && tree[c + [PACKAGES, g, k]] == Dir
  }

  ghost predicate HasManifest(tree: Tree, c: Path, g: Name, k: Name) {
    c + [PACKAGES, g, k] + [Name("package.json")] in tree
  }

  /** A package directory without a manifest in which everything is known residue. */
  ghost predicate IsStale(tree: Tree, c: Path, g: Name, k: Name) {
    IsPackage(tree, c, g, k) && !HasManifest(tree, c, g, k) &&
    forall n | c + [PACKAGES, g, k] + [n] in tree :: KnownResidue(n)
  }

  /** `packages` is a directory, or there is none. */
  ghost predicate PlainPackages(tree: Tree, c: Path) {
    c + [PACKAGES] in tree ==> tree[c + [PACKAGES]] == Dir
  }

  lemma PackageParents(tree: Tree, c: Path, g: Name, k: Name)
    requires WellFormed(tree) && IsPackage(tree, c, g, k)
    ensures c + [PACKAGES] in tree && tree[c + [PACKAGES]] == Dir
    ensures c + [PACKAGES, g] in tree && tree[c + [PACKAGES, g]] == Dir
  {
    AncestorIsDir(tree, c + [PACKAGES, g, k], c + [PACKAGES]);
    AncestorIsDir(tree, c + [PACKAGES, g, k], c + [PACKAGES, g]);
  }

  lemma PackageListed(tree: Tree, root: Path, c: Path, g: Name, k: Name)
    requires RootAt(tree, root, c) && IsPackage(tree, c, g, k)
    ensures root + [PACKAGES, g, k] in Packages(tree, root)
  {
    hide ChildDirectories;
    PackageParents(tree, c, g, k);
    var groups, group := root + [PACKAGES], root + [PACKAGES, g];
    assert groups + [g] == group && c + [PACKAGES] + [g] == c + [PACKAGES, g];
    assert group + [k] == root + [PACKAGES, g, k] && c + [PACKAGES, g] + [k] == c + [PACKAGES, g, k];
    ChildrenBelow(tree, root, c, [PACKAGES], group);
    ChildrenBelow(tree, root, c, [PACKAGES, g], group + [k]);
    assert groups == PackagesDirectory(root);
  }

  lemma ListedIsPackage(tree: Tree, root: Path, c: Path, p: Path) returns (g: Name, k: Name)
    requires RootAt(tree, root, c) && PlainPackages(tree, c) && p in Packages(tree, root)
    ensures p == root + [PACKAGES, g, k] && IsPackage(tree, c, g, k)
  {
    var groups := root + [PACKAGES];
    assert groups == PackagesDirectory(root);
    if c + [PACKAGES] !in tree {
      var left := WalkPast(tree, [], root, [PACKAGES], MAX_LINKS);
      assert false;
    }
    var group :| group in ChildDirectories(tree, groups).value && ChildDirectories(tree, group).Ok? &&
      p in ChildDirectories(tree, group).value;
    ChildrenBelow(tree, root, c, [PACKAGES], group);
    g :| group == groups + [g] && c + [PACKAGES] + [g] in tree && tree[c + [PACKAGES] + [g]] == Dir;
    assert c + [PACKAGES] + [g] == c + [PACKAGES, g] && group == root + [PACKAGES, g];
    ChildrenBelow(tree, root, c, [PACKAGES, g], p);
    k :| p == group + [k] && c + [PACKAGES, g] + [k] in tree && tree[c + [PACKAGES, g] + [k]] == Dir;
    assert c + [PACKAGES, g] + [k] == c + [PACKAGES, g, k];
  }

  /** A package directory is residue exactly when it is stale in this sense. */
  lemma StateIs(tree: Tree, root: Path, c: Path, g: Name, k: Name)
    requires RootAt(tree, root, c) && IsPackage(tree, c, g, k)
    ensures StateOf(tree, root + [PACKAGES, g, k]) == Residue <==> IsStale(tree, c, g, k)
    ensures StateOf(tree, root + [PACKAGES, g, k]) == Live <==> HasManifest(tree, c, g, k)
    ensures Lstat(tree, root + [PACKAGES, g, k]) == Found(c + [PACKAGES, g, k])
  {
    hide Lstat, ReadDir, Entries, IsBuildInfo, KNOWN_ORPHAN_ENTRIES;
    var rest, d, at := [PACKAGES, g, k], root + [PACKAGES, g, k], c + [PACKAGES, g, k];
    PackageParents(tree, c, g, k);
    EntryBelow(tree, root, c, [PACKAGES, g], k);
    assert root + [PACKAGES, g] + [k] == d && c + [PACKAGES, g] + [k] == at;
    EntryBelow(tree, root, c, rest, PACKAGE_JSON);
    DirectoryBelow(tree, root, c, rest);
    EntriesKnown(tree, at, d);
  }

  lemma EntriesKnown(tree: Tree, at: Path, d: Path)
    ensures (set n | n in Entries(tree, at) && n !in KNOWN_ORPHAN_ENTRIES && !IsBuildInfo(n) :: d + [n]) == {} <==>
              forall n | at + [n] in tree :: KnownResidue(n)
  {
    var unknown := set n | n in Entries(tree, at) && n !in KNOWN_ORPHAN_ENTRIES && !IsBuildInfo(n) :: d + [n];
    forall n ensures n in Entries(tree, at) <==> at + [n] in tree
             ensures KnownResidue(n) <==> n in KNOWN_ORPHAN_ENTRIES || IsBuildInfo(n)
    {
      EntriesAre(tree, at, n);
      BuildInfoIs(n);
    }
    if n :| at + [n] in tree && !KnownResidue(n) { assert d + [n] in unknown; }
  }

  // ---------- the first targets ----------

  /** The build state, the packaged desktop build and the incremental state of older configs. */
  ghost predicate IsFixedTarget(root: Path, p: Path) {
    p == root + [Name(".dsh-build")] || p == root + [Name("apps"), Name("desktop"), Name(".desktop-build")] ||
    p == root + [Name(".typecheck")] || p == root + [Name("native"), Name("system"), Name("tsconfig.tsbuildinfo")]
  }

  /**
   * Some config that the root config refers to, directly or not, emits to the directory `types` in it, or it is the
   * output of the native entry package.
   */
  ghost predicate IsEmitted(root: Path, configs: Configs, p: Path) {
    exists config :: InBuild(root, configs, config) && config in configs && configs[config].outDir.Some? &&
                     EmitsTo(root, configs[config].outDir.value, p)
  }

  ghost predicate EmitsTo(root: Path, outDir: Path, p: Path) {
    outDir == p + [Name("types")] ||
    (outDir == p && p == root + [Name("native"), Name("system"), Name("packages"), Name("entry"), Name("lib")])
  }

  lemma OutputIs(root: Path, outDir: Path, p: Path)
    ensures OutputOf(root, outDir) == Some(p) <==> EmitsTo(root, outDir, p)
  {
    if outDir != [] && outDir[|outDir| - 1] == TYPES {
      assert outDir == outDir[..|outDir| - 1] + [TYPES];
      assert NativeEntryOutput(root)[|root| + 4] == Name("lib");
      assert "lib" != "types";
    }
  }

  lemma EmittedIs(root: Path, configs: Configs, p: Path)
    ensures IsBuildOutput(root, configs, p) <==> IsEmitted(root, configs, p)
  {
    forall config | config in configs && configs[config].outDir.Some?
      ensures Produces(root, configs, config, p) <==> EmitsTo(root, configs[config].outDir.value, p)
    {
      OutputIs(root, configs[config].outDir.value, p);
    }
  }

  /** An incremental state file directly in the root. */
  ghost predicate IsRootState(tree: Tree, root: Path, c: Path, p: Path) {
    exists n :: p == root + [n] && IncrementalState(n) && c + [n] in tree && tree[c + [n]].File?
  }

  lemma RootStateIs(tree: Tree, root: Path, c: Path, p: Path)
    ensures p in RootBuildInfo(tree, root, c) <==> IsRootState(tree, root, c, p)
  {
    forall n ensures n in Entries(tree, c) <==> c + [n] in tree
             ensures IsBuildInfo(n) <==> IncrementalState(n)
    {
      EntriesAre(tree, c, n);
      BuildInfoIs(n);
    }
  }

  ghost predicate IsStaleTarget(tree: Tree, root: Path, c: Path, p: Path) {
    exists g, k :: p == root + [PACKAGES, g, k] && IsStale(tree, c, g, k)
  }

  lemma StaleTargetIs(tree: Tree, root: Path, c: Path, p: Path)
    requires RootAt(tree, root, c) && PlainPackages(tree, c)
    ensures p in ResidueOf(tree, Packages(tree, root)) <==> IsStaleTarget(tree, root, c, p)
    ensures IsStaleTarget(tree, root, c, p) ==> Lstat(tree, p).Found?
  {
    if p in ResidueOf(tree, Packages(tree, root)) {
      var g, k := ListedIsPackage(tree, root, c, p);
      StateIs(tree, root, c, g, k);
    }
    if g, k :| p == root + [PACKAGES, g, k] && IsStale(tree, c, g, k) {
      PackageListed(tree, root, c, g, k);
      StateIs(tree, root, c, g, k);
    }
  }

  /**
   * Apart from links, exactly these are removed: fixed places and emitted output, where present, incremental state
   * files in the root, and stale package directories.
   */
  lemma FirstTargetsExactly(tree: Tree, root: Path, c: Path, configs: Configs, p: Path)
    requires RootAt(tree, root, c) && PlainPackages(tree, c)
    ensures IsFirstTarget(tree, root, configs, p) <==>
              (Lstat(tree, p).Found? && (IsFixedTarget(root, p) || IsEmitted(root, configs, p))) ||
              IsRootState(tree, root, c, p) || IsStaleTarget(tree, root, c, p)
  {
    hide Lstat, Realpath, IsEmitted, IsBuildOutput, IsStaleTarget, IsRootState, RootBuildInfo, ResidueOf, Packages;
    EmittedIs(root, configs, p);
    RootStateIs(tree, root, c, p);
    StaleTargetIs(tree, root, c, p);
  }

  // ---------- what a clean does to packages ----------

  /** A removed entry other than a package directory takes this one along. */
  ghost predicate GoesWith(tree: Tree, root: Path, c: Path, configs: Configs, targets: set<Path>, p: Path) {
    exists t :: t in targets && Lstat(tree, t).Found? && Lstat(tree, t).at <= p &&
                (IsFixedTarget(root, t) || IsEmitted(root, configs, t) || IsRootState(tree, root, c, t) ||
                 t in OwnLinks(tree, root, c))
  }

  /** A package with a manifest outlives the clean unless something else that is removed holds it. */
  lemma LivePackageSurvives(before: Tree, after: Tree, root: Path, c: Path, configs: Configs, targets: set<Path>,
                            g: Name, k: Name)
    requires RootAt(before, root, c) && Cleaned(before, after, root, configs, targets)
    requires IsPackage(before, c, g, k) && HasManifest(before, c, g, k)
    ensures var manifest := c + [PACKAGES, g, k] + [Name("package.json")];
            (manifest in after && after[manifest] == before[manifest]) ||
            GoesWith(before, root, c, configs, targets, manifest)
  {
    hide Lstat, Realpath, IsEmitted, IsRootState, IsStaleTarget, ResidueLinks, OwnLinks, IsFirstTarget;
    PackageParents(before, c, g, k);
    var manifest := c + [PACKAGES, g, k] + [Name("package.json")];
    if manifest !in after {
      var t :| t in targets && Lstat(before, t).Found? && Lstat(before, t).at <= manifest;
      var first :| AreFirstTargets(before, root, configs, first) &&
        targets == first + Present(before, ResidueLinks(before, root, c, first));
      if t in first {
        FirstTargetsExactly(before, root, c, configs, t);
        if IsStaleTarget(before, root, c, t) { StaleHoldsNoManifest(before, root, c, t, manifest, g, k); }
      } else {
        ResidueIsOwn(before, root, c, first, t);
      }
      assert GoesWith(before, root, c, configs, targets, manifest);
    }
  }

  lemma StaleHoldsNoManifest(tree: Tree, root: Path, c: Path, t: Path, manifest: Path, g: Name, k: Name)
    requires RootAt(tree, root, c) && IsStaleTarget(tree, root, c, t)
    requires HasManifest(tree, c, g, k) && manifest == c + [PACKAGES, g, k] + [Name("package.json")]
    ensures Lstat(tree, t).Found? && !(Lstat(tree, t).at <= manifest)
  {
    hide Lstat;
    var h, l :| t == root + [PACKAGES, h, l] && IsStale(tree, c, h, l);
    StateIs(tree, root, c, h, l);
    if c + [PACKAGES, h, l] <= manifest { SamePackage(c, g, k, h, l, manifest); }
  }

  lemma SamePackage(c: Path, g: Name, k: Name, h: Name, l: Name, p: Path)
    requires c + [PACKAGES, g, k] <= p && c + [PACKAGES, h, l] <= p
    ensures h == g && l == k
  {
    var one, other := c + [PACKAGES, g, k], c + [PACKAGES, h, l];
    assert one == p[..|c| + 3] == other;
    assert one[|c| + 1] == g && one[|c| + 2] == k && other[|c| + 1] == h && other[|c| + 2] == l;
  }

  lemma ResidueIsOwn(tree: Tree, root: Path, c: Path, targets: set<Path>, link: Path)
    requires link in Present(tree, ResidueLinks(tree, root, c, targets))
    ensures link in OwnLinks(tree, root, c)
  {
  }

  /**
   * A package directory without a manifest that holds nothing but known residue is gone with everything in it, as
   * long as the root still leads there.
   */
  lemma StalePackageGoes(before: Tree, after: Tree, root: Path, c: Path, configs: Configs, targets: set<Path>,
                         g: Name, k: Name, p: Path)
    requires RootAt(before, root, c) && WellFormed(after) && Cleaned(before, after, root, configs, targets)
    requires IsStale(before, c, g, k) && c + [PACKAGES, g, k] <= p
    ensures p in after ==> !Realpath(after, root).Found?
  {
    hide Lstat, Realpath, IsEmitted, IsRootState, ResidueLinks, OwnLinks, IsFirstTarget, WellFormed;
    var t := root + [PACKAGES, g, k];
    PackageParents(before, c, g, k);
    assert IsStaleTarget(before, root, c, t);
    FirstTargetsExactly(before, root, c, configs, t);
    assert t in targets;
    if p in after && Realpath(after, root).Found? { StillThere(before, after, root, c, g, k, p); }
  }

  lemma StillThere(before: Tree, after: Tree, root: Path, c: Path, g: Name, k: Name, p: Path)
    requires RootAt(before, root, c) && WellFormed(after) && PartOf(after, before) && Realpath(after, root).Found?
    requires IsPackage(before, c, g, k) && c + [PACKAGES, g, k] <= p && p in after
    ensures Lstat(after, root + [PACKAGES, g, k]).Found?
  {
    var place := c + [PACKAGES, g, k];
    if place != p { AncestorIsDir(after, p, place); }
    WalkInPart(after, before, [], root, MAX_LINKS);
    AncestorIsDir(after, place, c);
    PackageParents(after, c, g, k);
    EntryBelow(after, root, c, [PACKAGES, g], k);
    assert root + [PACKAGES, g] + [k] == root + [PACKAGES, g, k] && c + [PACKAGES, g] + [k] == place;
  }

  /** A file in the place of `packages` is an error, not a checkout without packages. */
  lemma FileForPackagesRefused(tree: Tree, root: Path, c: Path, configs: Configs)
    requires RootAt(tree, root, c) && c + [PACKAGES] in tree && tree[c + [PACKAGES]].File?
    ensures !Cleanable(tree, root, configs)
  {
    var left := WalkPast(tree, [], root, [PACKAGES], MAX_LINKS);
    WalkCanonical(tree, c, [PACKAGES], left);
    assert root + [PACKAGES] == PackagesDirectory(root);
  }

  // ---------- module links ----------

  ghost predicate IsModules(root: Path, m: Path) {
    m == root + [Name("node_modules")] || m == root + [Name("node_modules"), Name(".pnpm"), Name("node_modules")]
  }

  /** A link directly in the modules directory `m` at `at`, or in a directory there whose name begins with `@`. */
  ghost predicate IsModuleLink(tree: Tree, m: Path, at: Path, l: Path) {
    LinkIn(tree, m, at, l) ||
    exists scope: Name :: scope.text != "" && scope.text[0] == '@' && at + [scope] in tree &&
                          tree[at + [scope]] == Dir && LinkIn(tree, m + [scope], at + [scope], l)
  }

  ghost predicate LinkIn(tree: Tree, m: Path, at: Path, l: Path) {
    exists n :: l == m + [n] && at + [n] in tree && tree[at + [n]].Link?
  }

  lemma LinksInAre(tree: Tree, m: Path, at: Path, l: Path)
    requires RootAt(tree, m, at)
    ensures l in LinksIn(tree, m) <==> LinkIn(tree, m, at, l)
  {
    forall n ensures n in Entries(tree, at) <==> at + [n] in tree { EntriesAre(tree, at, n); }
  }

  lemma ScopeAt(tree: Tree, m: Path, at: Path, scope: Name)
    requires RootAt(tree, m, at) && at + [scope] in tree && tree[at + [scope]] == Dir
    ensures RootAt(tree, m + [scope], at + [scope])
  {
    DirectoryBelow(tree, m, at, [scope]);
  }

  lemma ModuleLinksAre(tree: Tree, m: Path, at: Path, l: Path)
    requires RootAt(tree, m, at)
    ensures l in ModuleLinks(tree, m) <==> IsModuleLink(tree, m, at, l)
  {
    hide LinksIn, LinkIn, WellFormed;
    LinksInAre(tree, m, at, l);
    forall n ensures n in Entries(tree, at) <==> at + [n] in tree { EntriesAre(tree, at, n); }
    forall scope | at + [scope] in tree && tree[at + [scope]] == Dir
      ensures l in LinksIn(tree, m + [scope]) <==> LinkIn(tree, m + [scope], at + [scope], l)
    {
      ScopeAt(tree, m, at, scope);
      LinksInAre(tree, m + [scope], at + [scope], l);
    }
  }

  lemma NoModules(tree: Tree, m: Path, at: Path, l: Path)
    requires WellFormed(tree) && Realpath(tree, m) == Found(at) && at in tree && tree[at] != Dir
    ensures l !in ModuleLinks(tree, m) && !IsModuleLink(tree, m, at, l)
  {
    forall n ensures at + [n] !in tree { if at + [n] in tree { AncestorIsDir(tree, at + [n], at); } }
  }

  /** A modules directory that leads to a file below the root is an error, not one without links. */
  lemma FileForModulesRefused(tree: Tree, root: Path, c: Path, configs: Configs, m: Path, at: Path)
    requires RootAt(tree, root, c) && IsModules(root, m)
    requires Realpath(tree, m) == Found(at) && c < at && at in tree && tree[at].File?
    ensures !Cleanable(tree, root, configs)
  {
    assert m in ModulesDirectories(root) && IsOwnModules(tree, c, m) && ModulesBroken(tree, m);
  }

  /** The links looked at are those of the two modules directories, where these lead below the canonical root. */
  lemma OwnLinksExactly(tree: Tree, root: Path, c: Path, l: Path)
    requires RootAt(tree, root, c)
    ensures l in OwnLinks(tree, root, c) <==>
              exists m, at :: IsModules(root, m) && Realpath(tree, m) == Found(at) && c < at &&
                              IsModuleLink(tree, m, at, l)
  {
    hide ModuleLinks, IsModuleLink, Realpath;
    forall m, at | Realpath(tree, m) == Found(at) ensures l in ModuleLinks(tree, m) <==> IsModuleLink(tree, m, at, l) {
      LeadsIntoTree(tree, m);
      if tree[at] == Dir { ModuleLinksAre(tree, m, at, l); } else { NoModules(tree, m, at, l); }
    }
  }

  lemma LeadsIntoTree(tree: Tree, m: Path)
    requires WellFormed(tree) && Realpath(tree, m).Found?
    ensures Realpath(tree, m).at in tree
  {
    WalkStaysInTree(tree, [], m, MAX_LINKS);
  }
}
