/** Which packages the release benchmark considers (`scripts/benchmark-next-package-dependency.ts`). */
module Candidates {
  import opened Wrappers
  import opened Reachability

  datatype Name = Name(text: string)
  datatype Version = Version(text: string)

  /** `optionalPeers` are the peers whose metadata says they are optional. */
  datatype Manifest = Manifest(
    dependencies: set<Name>, optionalDependencies: set<Name>, peerDependencies: set<Name>, optionalPeers: set<Name>)

  datatype Registry = Registry(index: map<Name, map<Version, Manifest>>, workspaceVersions: map<Name, Version>)

  /** The published manifest of a package at its workspace version. */
  function ManifestOf(r: Registry, name: Name): Option<Manifest> {
    if name in r.workspaceVersions && name in r.index && r.workspaceVersions[name] in r.index[name]
    then Some(r.index[name][r.workspaceVersions[name]]) else None
  }

  /** What installing a package brings along: its dependencies and its peers that are not optional. */
  function Installed(m: Manifest): set<Name> {
    m.dependencies + m.optionalDependencies + (m.peerDependencies - m.optionalPeers)
  }

  function Brings(r: Registry, name: Name): set<Name> {
    var m := ManifestOf(r, name);
    if m.Some? then Installed(m.value) else {}
  }

  function Edges(r: Registry): Name -> set<Name> {
    n => Brings(r, n)
  }

  /** Reached from the target through installed dependencies of published packages. */
  ghost predicate InInstall(r: Registry, target: Name, name: Name) {
    Reaches(Edges(r), target, name) && ManifestOf(r, name).Some?
  }

  predicate IsCandidate(r: Registry, releasePackages: set<Name>, policyPackages: set<Name>, cordis: Name, name: Name) {
    name !in policyPackages && name in releasePackages &&
    ManifestOf(r, name).Some? && exists peer | peer in ManifestOf(r, name).value.peerDependencies :: peer != cordis
  }

  // ---------- the install closure ----------

  /** The registry has this manifest for the package's workspace version. */
  ghost predicate Published(r: Registry, name: Name, m: Manifest) {
    name in r.workspaceVersions && name in r.index && r.workspaceVersions[name] in r.index[name] &&
    m == r.index[name][r.workspaceVersions[name]]
  }

  /** Installing the published `a` installs `b`: as a dependency, optional or not, or as a peer that is not optional. */
  ghost predicate InstalledWith(r: Registry, a: Name, b: Name) {
    exists m :: Published(r, a, m) &&
                (b in m.dependencies || b in m.optionalDependencies ||
                 (b in m.peerDependencies && b !in m.optionalPeers))
  }

  ghost predicate IsInstallChain(r: Registry, path: seq<Name>, target: Name, name: Name) {
    path != [] && path[0] == target && path[|path| - 1] == name &&
    forall i | 0 <= i < |path| - 1 :: InstalledWith(r, path[i], path[i + 1])
  }

  /** A peer other than Cordis is left in the published manifest. */
  ghost predicate HasForeignPeer(r: Registry, cordis: Name, name: Name) {
    exists m, peer :: Published(r, name, m) && peer in m.peerDependencies && peer != cordis
  }

  lemma BringsInstalled(r: Registry, a: Name, b: Name)
    ensures b in Edges(r)(a) <==> InstalledWith(r, a, b)
  {
    if ManifestOf(r, a).Some? { assert Published(r, a, ManifestOf(r, a).value); }
  }

  lemma ReachesByChain(r: Registry, target: Name, name: Name)
    ensures Reaches(Edges(r), target, name) <==> exists path :: IsInstallChain(r, path, target, name)
  {
    forall a, b ensures b in Edges(r)(a) <==> InstalledWith(r, a, b) { BringsInstalled(r, a, b); }
    if path :| IsPath(Edges(r), path) && path[0] == target && path[|path| - 1] == name {
      assert IsInstallChain(r, path, target, name);
    }
    if path :| IsInstallChain(r, path, target, name) { assert IsPath(Edges(r), path); }
  }

  lemma ForeignPeerIs(r: Registry, cordis: Name, name: Name)
    ensures HasForeignPeer(r, cordis, name) <==>
              ManifestOf(r, name).Some? && exists p | p in ManifestOf(r, name).value.peerDependencies :: p != cordis
  {
    if ManifestOf(r, name).Some? { assert Published(r, name, ManifestOf(r, name).value); }
  }

  // ---------- the search ----------

  /** Appends the names not yet reached, in some order. */
  method Enqueue(queue: seq<Name>, names: set<Name>, reached: set<Name>) returns (longer: seq<Name>)
    ensures queue <= longer
    ensures forall n | n in longer :: n in queue || n in names
    ensures forall n | n in names :: n in reached || n in longer
  {
    longer := queue;
    var todo := names;
    while todo != {}
      invariant queue <= longer && todo <= names
      invariant forall n | n in longer :: n in queue || n in names
      invariant forall n | n in names :: n in reached || n in longer || n in todo
    {
      var n :| n in todo;
      todo := todo - {n};
      if n !in reached {
        longer := longer + [n];
        assert longer[|longer| - 1] == n;
      }
    }
  }

  /** Everything looked at so far is reached or unpublished, and what it brings along is queued or reached. */
  ghost predicate Settled(r: Registry, queue: seq<Name>, cursor: nat, reached: set<Name>)
    requires cursor <= |queue|
  {
    (forall i | 0 <= i < cursor :: queue[i] in reached || ManifestOf(r, queue[i]).None?) &&
    (forall n, d | n in reached && d in Brings(r, n) :: d in reached || d in queue)
  }

  lemma SettledIsClosed(r: Registry, queue: seq<Name>, reached: set<Name>, target: Name)
    requires Settled(r, queue, |queue|, reached) && target in queue
    ensures forall n | InInstall(r, target, n) :: n in reached
  {
    var edges, known := Edges(r), (n: Name) => n in reached || ManifestOf(r, n).None?;
    forall k, j | known(k) && j in edges(k) ensures known(j) {
      assert k in reached && j in Brings(r, k);
    }
    ReachableSatisfies(edges, target, known);
  }

  /** The queue holds only reachable names, and only reached names count as seen. */
  ghost predicate Sound(r: Registry, target: Name, queue: seq<Name>, reached: set<Name>) {
    (forall n | n in queue :: Reaches(Edges(r), target, n)) &&
    (forall n | n in reached :: n in queue && ManifestOf(r, n).Some?)
  }

  lemma ExpandKeepsSound(r: Registry, target: Name, queue: seq<Name>, longer: seq<Name>, reached: set<Name>, name: Name)
    requires Sound(r, target, queue, reached) && name in queue && ManifestOf(r, name).Some?
    requires queue <= longer && forall n | n in longer :: n in queue || n in Brings(r, name)
    ensures Sound(r, target, longer, reached + {name})
  {
    forall n | n in longer ensures Reaches(Edges(r), target, n) {
      if n !in queue { ReachesFurther(Edges(r), target, name, n); }
    }
    assert forall n | n in queue :: n in longer;
  }

  lemma ExpandKeepsSettled(r: Registry, queue: seq<Name>, cursor: nat, longer: seq<Name>, reached: set<Name>,
                           name: Name)
    requires cursor < |queue| && queue[cursor] == name && Settled(r, queue, cursor, reached)
    requires queue <= longer && forall n | n in Brings(r, name) :: n in reached + {name} || n in longer
    ensures Settled(r, longer, cursor + 1, reached + {name})
  {
  }

  method ReachInstalled(r: Registry, target: Name) returns (reached: set<Name>)
    ensures forall n :: n in reached <==> InInstall(r, target, n)
  {
    reached := {};
    var queue, cursor := [target], 0;
    ReachesItself(Edges(r), target);
    while cursor < |queue|
      invariant cursor <= |queue| && target in queue
      invariant reached <= r.workspaceVersions.Keys
      invariant Sound(r, target, queue, reached) && Settled(r, queue, cursor, reached)
      decreases r.workspaceVersions.Keys - reached, |queue| - cursor
    {
      var name := queue[cursor];
      if name in reached || ManifestOf(r, name).None? {
        cursor := cursor + 1;
        continue;
      }
      var manifest := ManifestOf(r, name).value;
      var longer := Enqueue(queue, Installed(manifest), reached + {name});
      ExpandKeepsSound(r, target, queue, longer, reached, name);
      ExpandKeepsSettled(r, queue, cursor, longer, reached, name);
      reached := reached + {name};
      queue := longer;
      cursor := cursor + 1;
    }
    SettledIsClosed(r, queue, reached, target);
  }

  /**
   * The candidates are exactly the released packages without a policy in the target's install closure that still
   * have a foreign peer.
   */
  method DiscoverBenchmarkCandidates(r: Registry, target: Name, releasePackages: set<Name>, policyPackages: set<Name>,
                                     cordis: Name)
    returns (candidates: set<Name>)
    ensures forall n :: n in candidates <==>
              InInstall(r, target, n) && IsCandidate(r, releasePackages, policyPackages, cordis, n)
    ensures forall n :: n in candidates <==>
              (exists path :: IsInstallChain(r, path, target, n)) && n in releasePackages && n !in policyPackages &&
              HasForeignPeer(r, cordis, n)
  {
    var reached := ReachInstalled(r, target);
    candidates := set n | n in reached && IsCandidate(r, releasePackages, policyPackages, cordis, n);
    forall n ensures Reaches(Edges(r), target, n) <==> exists path :: IsInstallChain(r, path, target, n)
             ensures IsCandidate(r, releasePackages, policyPackages, cordis, n) <==>
                       n in releasePackages && n !in policyPackages && HasForeignPeer(r, cordis, n)
    {
      ReachesByChain(r, target, n);
      ForeignPeerIs(r, cordis, n);
    }
  }
}
