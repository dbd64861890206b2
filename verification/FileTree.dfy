/** A file tree with symbolic links, keyed by canonical locations. */
module FileTree {
  import opened Collections
  import opened Wrappers

  datatype Name = Name(text: string)

  /** The name of a package scope in a modules directory. */
  predicate IsScope(n: Name) {
    n.text != "" && n.text[0] == '@'
  }

  /** Path segments from the root of the file system, without dots. */
  type Path = seq<Name>

  /** A link's target is taken from the root of the file system. */
  datatype Node = File(content: nat) | Dir | Link(target: Path)

  type Tree = map<Path, Node>

  datatype Resolution = Found(at: Path) | Enoent | Enotdir | Eloop

  /** How many links the system follows before it gives up. */
  const MAX_LINKS: nat := 40

  predicate InDirectory(t: Tree, p: Path)
    requires p != []
  {
    p[..|p| - 1] in t && t[p[..|p| - 1]] == Dir
  }

  /** The root is a directory, and every other entry is in one. */
  ghost predicate WellFormed(t: Tree) {
    [] in t && t[[]] == Dir &&
    forall p {:trigger InDirectory(t, p)} | p in t && p != [] :: InDirectory(t, p)
  }

  /** Follows `rest` from the directory `at`, and at most `links` links. */
  function Walk(t: Tree, at: Path, rest: Path, links: nat): Resolution
    decreases links, |rest|
  {
    if rest == [] then Found(at)
    else
      var next := at + [rest[0]];
      if next !in t then Enoent
      else match t[next]
        case Link(target) => if links == 0 then Eloop else Walk(t, [], target + rest[1..], links - 1)
        case File(_) => if |rest| == 1 then Found(next) else Enotdir
        case Dir => Walk(t, next, rest[1..], links)
  }

  /** The canonical location of what a path leads to. */
  function Realpath(t: Tree, p: Path): Resolution {
    Walk(t, [], p, MAX_LINKS)
  }

  /** The location of the entry a path names: links on the way are followed, the entry itself is not. */
  function Lstat(t: Tree, p: Path): Resolution {
    if p == [] then Found([])
    else
      var parent := Realpath(t, p[..|p| - 1]);
      if !parent.Found? then parent
      else if parent.at !in t || t[parent.at] != Dir then Enotdir
      else if parent.at + [p[|p| - 1]] in t then Found(parent.at + [p[|p| - 1]])
      else Enoent
  }

  function Entries(t: Tree, directory: Path): set<Name> {
    set p | p in t && |p| == |directory| + 1 && directory <= p :: p[|directory|]
  }

  datatype Errno = Errno(resolution: Resolution)

  /** The names in the directory a path leads to. */
  function ReadDir(t: Tree, p: Path): Result<set<Name>, Errno> {
    var r := Realpath(t, p);
    if !r.Found? then Err(Errno(r))
    else if r.at !in t || t[r.at] != Dir then Err(Errno(Enotdir))
    else Ok(Entries(t, r.at))
  }

  /** Everything at `location` and below it taken out. */
  function Remove(t: Tree, location: Path): Tree {
    map p | p in t && !(location <= p) :: t[p]
  }

  /** `s` keeps a part of `t`. */
  ghost predicate PartOf(s: Tree, t: Tree) {
    forall p | p in s :: p in t && s[p] == t[p]
  }

  lemma {:induction false} WalkStaysInTree(t: Tree, at: Path, rest: Path, links: nat)
    requires [] in t && at in t && Walk(t, at, rest, links).Found?
    ensures Walk(t, at, rest, links).at in t
    decreases links, |rest|
  {
    if rest != [] {
      var next := at + [rest[0]];
      match t[next]
      case Link(target) => WalkStaysInTree(t, [], target + rest[1..], links - 1);
      case File(_) =>
      case Dir => WalkStaysInTree(t, next, rest[1..], links);
    }
  }

  /** In a part of a tree a path leads to the same place or nowhere. */
  lemma {:induction false} WalkInPart(s: Tree, t: Tree, at: Path, rest: Path, links: nat)
    requires PartOf(s, t)
    ensures Walk(s, at, rest, links) == Walk(t, at, rest, links) || Walk(s, at, rest, links) == Enoent
    decreases links, |rest|
  {
    if rest != [] {
      var next := at + [rest[0]];
      if next in s {
        match t[next]
        case Link(target) => if links > 0 { WalkInPart(s, t, [], target + rest[1..], links - 1); }
        case File(_) =>
        case Dir => WalkInPart(s, t, next, rest[1..], links);
      }
    }
  }

  lemma LstatInPart(s: Tree, t: Tree, p: Path)
    requires PartOf(s, t) && WellFormed(s)
    ensures Lstat(s, p) == Lstat(t, p) || Lstat(s, p) == Enoent
  {
    if p != [] {
      WalkInPart(s, t, [], p[..|p| - 1], MAX_LINKS);
      var parent := Realpath(s, p[..|p| - 1]);
      if parent.Found? { WalkStaysInTree(s, [], p[..|p| - 1], MAX_LINKS); }
    }
  }

  lemma RemoveFacts(t: Tree, location: Path)
    requires WellFormed(t) && location != []
    ensures WellFormed(Remove(t, location)) && PartOf(Remove(t, location), t)
  {
    var s := Remove(t, location);
    forall p | p in s && p != [] ensures InDirectory(s, p) {
      var parent := p[..|p| - 1];
      assert InDirectory(t, p);
      assert location <= parent ==> location <= p;
    }
  }

  // ---------- canonical locations ----------

  lemma TailAppend(s: Path, t: Path)
    requires s != []
    ensures (s + t)[0] == s[0] && (s + t)[1..] == s[1..] + t
  {
  }

  lemma MoveHead(at: Path, rest: Path)
    requires rest != []
    ensures at + rest == (at + [rest[0]]) + rest[1..]
  {
  }

  /** Everything above an entry is a directory. */
  lemma {:induction false} AncestorIsDir(t: Tree, p: Path, q: Path)
    requires WellFormed(t) && p in t && q < p
    ensures q in t && t[q] == Dir
    decreases |p|
  {
    var parent := p[..|p| - 1];
    assert InDirectory(t, p);
    if q != parent { AncestorIsDir(t, parent, q); }
  }

  /** A canonical location leads to itself. */
  lemma {:induction false} WalkCanonical(t: Tree, at: Path, rest: Path, links: nat)
    requires WellFormed(t) && at + rest in t && !t[at + rest].Link?
    ensures Walk(t, at, rest, links) == Found(at + rest)
    decreases |rest|
  {
    if rest == [] {
      assert at + rest == at;
    } else {
      var next := at + [rest[0]];
      MoveHead(at, rest);
      if rest[1..] == [] { assert next == at + rest; } else { AncestorIsDir(t, at + rest, next); }
      WalkCanonical(t, next, rest[1..], links);
    }
  }

  /** Where a walk ends there is no link. */
  lemma {:induction false} WalkEndsAtNoLink(t: Tree, at: Path, rest: Path, links: nat)
    requires WellFormed(t) && at in t && !t[at].Link? && Walk(t, at, rest, links).Found?
    ensures Walk(t, at, rest, links).at in t && !t[Walk(t, at, rest, links).at].Link?
    decreases links, |rest|
  {
    if rest != [] {
      var next := at + [rest[0]];
      match t[next]
      case Link(target) => WalkEndsAtNoLink(t, [], target + rest[1..], links - 1);
      case File(_) =>
      case Dir => WalkEndsAtNoLink(t, next, rest[1..], links);
    }
  }

  /** A path leads somewhere only through a directory that has its last name. */
  lemma {:induction false} WalkThroughParent(t: Tree, at: Path, rest: Path, name: Name, links: nat)
    requires WellFormed(t) && at in t && Walk(t, at, rest + [name], links).Found?
    ensures var parent := Walk(t, at, rest, links);
            parent.Found? && parent.at in t && t[parent.at] == Dir && parent.at + [name] in t
    decreases links, |rest|
  {
    if rest == [] {
      assert rest + [name] == [name];
      assert InDirectory(t, at + [name]) && (at + [name])[..|at|] == at;
    } else {
      var next := at + [rest[0]];
      TailAppend(rest, [name]);
      match t[next]
      case Link(target) =>
        Associative(target, rest[1..], [name]);
        WalkThroughParent(t, [], target + rest[1..], name, links - 1);
      case File(_) =>
      case Dir => WalkThroughParent(t, next, rest[1..], name, links);
    }
  }

  /** A link in a directory takes the walk to its target and uses up one of the links. */
  lemma WalkFollowsLink(t: Tree, directory: Path, n: Name, target: Path, links: nat)
    requires WellFormed(t) && directory in t && t[directory] == Dir
    requires directory + [n] in t && t[directory + [n]] == Link(target)
    ensures Walk(t, [], directory + [n], links + 1) == Walk(t, [], target, links)
    ensures Walk(t, [], directory + [n], 0) == Eloop
  {
    assert [] + directory == directory;
    WalkAcross(t, [], directory, [n], links + 1);
    WalkAcross(t, [], directory, [n], 0);
    assert [n][1..] == [] && target + [] == target;
  }

  lemma WalkPastFile(t: Tree, file: Path, n: Name, links: nat)
    requires WellFormed(t) && file in t && t[file].File?
    ensures Walk(t, [], file + [n], links) == Enotdir
  {
    var parent, last := file[..|file| - 1], file[|file| - 1];
    assert InDirectory(t, file) && file == parent + [last] && [] + parent == parent;
    WalkAcross(t, [], parent, [last, n], links);
    assert file + [n] == parent + [last, n];
  }

  /** Below a file there is nothing to look up, which is no missing entry. */
  lemma PastFile(t: Tree, file: Path, n: Name)
    requires WellFormed(t) && file in t && t[file].File?
    ensures Lstat(t, file + [n]) == Enotdir && Realpath(t, file + [n]) == Enotdir
    ensures ReadDir(t, file + [n]) == Err(Errno(Enotdir))
  {
    hide WellFormed, Walk;
    assert [] + file == file && (file + [n])[..|file|] == file;
    WalkCanonical(t, [], file, MAX_LINKS);
    WalkPastFile(t, file, n, MAX_LINKS);
  }

  // ---------- removing several targets ----------

  /** Everything gone was at or below the place of a target. */
  ghost predicate OnlyTargetsGone(before: Tree, after: Tree, targets: set<Path>) {
    PartOf(after, before) &&
    forall p | p in before && p !in after ::
      exists target :: target in targets && Lstat(before, target).Found? && Lstat(before, target).at <= p
  }

  ghost predicate Gone(tree: Tree, targets: set<Path>) {
    forall p | p in targets :: Lstat(tree, p) == Enoent
  }

  /** Removing an entry makes its path name nothing, and brings nothing back. */
  lemma RemovedIsGone(now: Tree, target: Path, p: Path)
    requires WellFormed(now) && Lstat(now, target).Found? && Lstat(now, target).at != []
    requires p == target || Lstat(now, p) == Enoent
    ensures Lstat(Remove(now, Lstat(now, target).at), p) == Enoent
  {
    var after := Remove(now, Lstat(now, target).at);
    RemoveFacts(now, Lstat(now, target).at);
    LstatInPart(after, now, p);
    assert Lstat(now, target).at !in after;
  }

  lemma OnlyTargetGone(before: Tree, now: Tree, targets: set<Path>, target: Path)
    requires OnlyTargetsGone(before, now, targets) && target in targets && Lstat(before, target).Found?
    ensures OnlyTargetsGone(before, Remove(now, Lstat(before, target).at), targets)
  {
  }

  /** The tree after `rm` of a path, unless the path cannot be looked up. */
  function Removed(now: Tree, target: Path): Tree {
    if Lstat(now, target).Found? then Remove(now, Lstat(now, target).at) else now
  }

  /** How far a removal of `targets` got: the `done` ones are gone, and nothing else went with them. */
  ghost predicate Removing(before: Tree, now: Tree, targets: set<Path>, done: set<Path>) {
    WellFormed(now) && OnlyTargetsGone(before, now, targets) && Gone(now, done)
  }

  /** Every target names an entry other than the root, or nothing. */
  ghost predicate Removable(t: Tree, targets: set<Path>) {
    forall p | p in targets :: Lstat(t, p) == Enoent || (Lstat(t, p).Found? && Lstat(t, p).at != [])
  }

  /** In the middle of a removal, a removable target is still where it was or went with another one. */
  lemma StillRemovable(before: Tree, now: Tree, targets: set<Path>, done: set<Path>, target: Path)
    requires Removable(before, targets) && Removing(before, now, targets, done) && target in targets
    ensures Removable(now, {target})
  {
    LstatInPart(now, before, target);
  }

  lemma RemovingGoesOn(before: Tree, now: Tree, targets: set<Path>, done: set<Path>, target: Path)
    requires WellFormed(before) && Removing(before, now, targets, done) && target in targets && Removable(now, {target})
    ensures Removing(before, Removed(now, target), targets, done + {target})
  {
    assert target in {target};
    LstatInPart(now, before, target);
    if Lstat(now, target).Found? {
      RemoveFacts(now, Lstat(now, target).at);
      OnlyTargetGone(before, now, targets, target);
      forall p | p in done + {target} ensures Lstat(Removed(now, target), p) == Enoent {
        RemovedIsGone(now, target, p);
      }
    }
  }

  // ---------- taking entries out at once ----------

  /** At one of the places or below. */
  predicate AtOrBelow(places: set<Path>, p: Path) {
    exists place | place in places :: place <= p
  }

  /** Everything at the places and below them taken out. */
  function Without(t: Tree, places: set<Path>): Tree {
    map p | p in t && !AtOrBelow(places, p) :: t[p]
  }

  /** The way of a walk leads through an entry at or below one of the places. */
  predicate Meets(t: Tree, places: set<Path>, at: Path, rest: Path, links: nat)
    decreases links, |rest|
  {
    rest != [] &&
    var next := at + [rest[0]];
    next in t &&
    (AtOrBelow(places, next) ||
     match t[next]
     case Link(target) => links > 0 && Meets(t, places, [], target + rest[1..], links - 1)
     case File(_) => false
     case Dir => Meets(t, places, next, rest[1..], links))
  }

  /** With the places taken out, a path leads where it did unless its way met one of them. */
  lemma {:induction false} WalkWithout(t: Tree, places: set<Path>, at: Path, rest: Path, links: nat)
    requires Walk(t, at, rest, links).Found?
    ensures Walk(Without(t, places), at, rest, links) ==
              if Meets(t, places, at, rest, links) then Enoent else Walk(t, at, rest, links)
    decreases links, |rest|
  {
    if rest != [] {
      var next := at + [rest[0]];
      match t[next]
      case Link(target) => WalkWithout(t, places, [], target + rest[1..], links - 1);
      case File(_) =>
      case Dir => WalkWithout(t, places, next, rest[1..], links);
    }
  }

  /** The way through a directory at a canonical location meets it. */
  lemma {:induction false} MeetsAcross(t: Tree, places: set<Path>, at: Path, middle: Path, rest: Path, links: nat)
    requires WellFormed(t) && at + middle in t && t[at + middle] == Dir && middle != []
    requires at + middle in places || Meets(t, places, at + middle, rest, links)
    ensures Meets(t, places, at, middle + rest, links)
    decreases |middle|
  {
    var next := at + [middle[0]];
    MoveHead(at, middle);
    TailAppend(middle, rest);
    if next != at + middle {
      AncestorIsDir(t, at + middle, next);
      MeetsAcross(t, places, next, middle[1..], rest, links);
    }
  }

  /** A path whose last entry is no link leads to that entry. */
  lemma {:induction false} WalkToLast(t: Tree, at: Path, rest: Path, name: Name, links: nat)
    requires WellFormed(t) && at in t && Walk(t, at, rest + [name], links).Found?
    requires var parent := Walk(t, at, rest, links);
             parent.Found? && parent.at + [name] in t && !t[parent.at + [name]].Link?
    ensures Walk(t, at, rest + [name], links) == Found(Walk(t, at, rest, links).at + [name])
    decreases links, |rest|
  {
    if rest == [] {
      assert rest + [name] == [name];
    } else {
      var next := at + [rest[0]];
      TailAppend(rest, [name]);
      match t[next]
      case Link(target) =>
        Associative(target, rest[1..], [name]);
        WalkToLast(t, [], target + rest[1..], name, links - 1);
      case File(_) =>
      case Dir => WalkToLast(t, next, rest[1..], name, links);
    }
  }

  /** The canonical location of an entry names it. */
  lemma LstatCanonical(t: Tree, p: Path)
    requires WellFormed(t) && p in t && p != []
    ensures Lstat(t, p) == Found(p)
  {
    var parent := p[..|p| - 1];
    assert InDirectory(t, p);
    assert [] + parent == parent && parent + [p[|p| - 1]] == p;
    WalkCanonical(t, [], parent, MAX_LINKS);
  }

  lemma NothingBelowGone(t: Tree, target: Path, p: Path)
    requires WellFormed(t) && target != [] && Lstat(t, target) == Enoent && target <= p
    ensures p !in t
  {
    if p in t {
      if target != p { AncestorIsDir(t, p, target); }
      LstatCanonical(t, target);
    }
  }

  /** When every target is named by its canonical location, removing them one by one takes them all out. */
  lemma RemovedAtOnce(before: Tree, after: Tree, targets: set<Path>)
    requires Removing(before, after, targets, targets)
    requires forall p | p in targets :: Lstat(before, p) == Found(p) && p != []
    ensures after == Without(before, targets)
  {
    hide Lstat, WellFormed;
    forall p | p in before ensures p in after <==> !AtOrBelow(targets, p) {
      if AtOrBelow(targets, p) {
        var target :| target in targets && target <= p;
        NothingBelowGone(after, target, p);
      }
    }
  }

  // ---------- below a directory without links ----------

  ghost predicate LinkFree(t: Tree, base: Path) {
    forall p | p in t && base < p :: !t[p].Link?
  }

  /** Below a directory without links, a path leads to itself or nowhere. */
  lemma {:induction false} WalkLinkFree(t: Tree, base: Path, at: Path, rest: Path, links: nat)
    requires LinkFree(t, base) && base <= at && Walk(t, at, rest, links).Found?
    ensures Walk(t, at, rest, links) == Found(at + rest)
    decreases |rest|
  {
    if rest == [] {
      assert at + rest == at;
    } else {
      var next := at + [rest[0]];
      assert base < next && at + rest == next + rest[1..];
      if t[next] == Dir { WalkLinkFree(t, base, next, rest[1..], links); } else { assert rest == [rest[0]]; }
    }
  }

  /** A walk first gets to any canonical directory on its way. */
  lemma {:induction false} WalkAcross(t: Tree, at: Path, middle: Path, rest: Path, links: nat)
    requires WellFormed(t) && at + middle in t && t[at + middle] == Dir
    ensures Walk(t, at, middle + rest, links) == Walk(t, at + middle, rest, links)
    decreases |middle|
  {
    if middle == [] {
      assert at + middle == at && middle + rest == rest;
    } else {
      var next := at + [middle[0]];
      MoveHead(at, middle);
      TailAppend(middle, rest);
      assert middle + rest != [];
      if next != at + middle { AncestorIsDir(t, at + middle, next); }
      WalkAcross(t, next, middle[1..], rest, links);
    }
  }

  lemma LstatLinkFree(t: Tree, base: Path, p: Path)
    requires WellFormed(t) && base in t && t[base] == Dir && LinkFree(t, base) && base < p && Lstat(t, p).Found?
    ensures Lstat(t, p) == Found(p)
  {
    var parent := p[..|p| - 1];
    var rest := parent[|base|..];
    assert parent == base + rest && [] + base == base;
    WalkAcross(t, [], base, rest, MAX_LINKS);
    WalkLinkFree(t, base, base, rest, MAX_LINKS);
    assert parent + [p[|p| - 1]] == p;
  }
}
