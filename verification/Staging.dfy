/** Making a staged payload free of links (`scripts/build-exe-for-python-sdk-staging.ts`). */
module Staging {
  import opened Wrappers
  import opened FileTree

  const BIN := Name(".bin")
  const NODE_MODULES := Name("node_modules")

  datatype Failure =
    | NoDirectory(path: Path) | Unreachable(path: Path) | CopyIntoSelf(path: Path) | NameTooLong(path: Path)

  // ---------- links below a directory ----------

  predicate IsLinkBelow(t: Tree, base: Path, p: Path) {
    p in t && base < p && t[p].Link?
  }

  ghost function LinksBelow(t: Tree, base: Path): set<Path> {
    set p | p in t && IsLinkBelow(t, base, p)
  }

  ghost function Below(t: Tree, base: Path): set<Path> {
    set p | p in t && base < p
  }

  lemma BelowChild(t: Tree, directory: Path, name: Name)
    requires directory + [name] in t
    ensures Below(t, directory + [name]) < Below(t, directory)
  {
    assert directory + [name] in Below(t, directory) - Below(t, directory + [name]);
  }

  /** A link below a directory is a child of it or lies below a child that is a directory. */
  lemma LinkThroughChild(t: Tree, directory: Path, p: Path)
    requires WellFormed(t) && IsLinkBelow(t, directory, p)
    ensures var child := directory + [p[|directory|]];
            p[|directory|] in Entries(t, directory) &&
              (p == child || (child in t && t[child] == Dir && IsLinkBelow(t, child, p)))
  {
    var child := directory + [p[|directory|]];
    assert child == p[..|directory| + 1];
    if p != child { AncestorIsDir(t, p, child); }
    assert child in t && child[|directory|] == p[|directory|];
  }

  /** Every link below the directory is at or below one of the names. */
  ghost predicate LinksUnder(t: Tree, directory: Path, names: set<Name>) {
    forall p | IsLinkBelow(t, directory, p) :: p[|directory|] in names
  }

  lemma LinksUnderEntries(t: Tree, directory: Path)
    requires WellFormed(t)
    ensures LinksUnder(t, directory, Entries(t, directory))
  {
    forall p | IsLinkBelow(t, directory, p) ensures p[|directory|] in Entries(t, directory) {
      LinkThroughChild(t, directory, p);
    }
  }

  lemma LinkIsThere(t: Tree, base: Path, p: Path)
    requires IsLinkBelow(t, base, p)
    ensures LinksBelow(t, base) != {}
  {
    assert p in LinksBelow(t, base);
  }

  lemma LinkFreeChild(t: Tree, directory: Path, names: set<Name>, name: Name)
    requires WellFormed(t) && LinksUnder(t, directory, names) && directory + [name] in t && !t[directory + [name]].Link?
    requires t[directory + [name]] == Dir ==> LinksBelow(t, directory + [name]) == {}
    ensures LinksUnder(t, directory, names - {name})
  {
    forall p | IsLinkBelow(t, directory, p) ensures p[|directory|] in names - {name} {
      LinkThroughChild(t, directory, p);
      var child := directory + [name];
      if IsLinkBelow(t, child, p) { LinkIsThere(t, child, p); }
    }
  }

  lemma NoLinksLeft(t: Tree, directory: Path)
    requires LinksUnder(t, directory, {})
    ensures LinksBelow(t, directory) == {}
  {
  }

  lemma LinkBelowChild(t: Tree, directory: Path, name: Name, p: Path)
    requires p == directory + [name] || IsLinkBelow(t, directory + [name], p)
    requires p in t && t[p].Link?
    ensures IsLinkBelow(t, directory, p) && LinksBelow(t, directory) != {}
  {
    LinkIsThere(t, directory, p);
  }

  /** Finds some link below the directory, if there is one. */
  method FindSymlink(t: Tree, directory: Path) returns (r: Option<Path>)
    requires WellFormed(t)
    ensures r.None? <==> LinksBelow(t, directory) == {}
    ensures r.Some? ==> IsLinkBelow(t, directory, r.value)
    decreases Below(t, directory)
  {
    var todo := Entries(t, directory);
    LinksUnderEntries(t, directory);
    while todo != {}
      invariant todo <= Entries(t, directory) && LinksUnder(t, directory, todo)
    {
      var name :| name in todo;
      var path := directory + [name];
      ChildInTree(t, directory, name);
      if t[path].Link? {
        LinkBelowChild(t, directory, name, path);
        return Some(path);
      }
      if t[path] == Dir {
        BelowChild(t, directory, name);
        var nested := FindSymlink(t, path);
        if nested.Some? {
          LinkBelowChild(t, directory, name, nested.value);
          return nested;
        }
      }
      LinkFreeChild(t, directory, todo, name);
      todo := todo - {name};
    }
    NoLinksLeft(t, directory);
    return None;
  }

  lemma ChildInTree(t: Tree, directory: Path, name: Name)
    requires name in Entries(t, directory)
    ensures directory + [name] in t
  {
    var p :| p in t && |p| == |directory| + 1 && directory <= p && p[|directory|] == name;
    assert p == directory + [name];
  }

  // ---------- copying with links followed ----------

  /** The path is copied exactly when it leads somewhere and is not skipped, as the file or directory it leads to. */
  ghost predicate CopiedRight(t: Tree, source: Path, skip: set<Name>, copy: Tree, rel: Path) {
    var place := Realpath(t, source + rel);
    (rel in copy <==> (rel != [] ==> rel[0] !in skip) && place.Found?) &&
    (rel in copy ==> place.at in t && copy[rel] == t[place.at])
  }

  /** `copy` has exactly what can be reached from `source` by following links, as files and directories. */
  ghost predicate IsCopy(t: Tree, source: Path, skip: set<Name>, copy: Tree) {
    forall rel :: CopiedRight(t, source, skip, copy, rel)
  }

  /** A directory lists the last name of the path. */
  ghost predicate Listed(t: Tree, source: Path, skip: set<Name>, rel: Path) {
    rel == [] ||
    (rel[0] !in skip && Realpath(t, source + rel[..|rel| - 1]).Found? &&
     Realpath(t, source + rel[..|rel| - 1]).at + [rel[|rel| - 1]] in t)
  }

  /** A listed path that leads nowhere, or to a directory so deep that names in it are too long. */
  ghost predicate Obstacle(t: Tree, source: Path, skip: set<Name>, depth: nat, rel: Path) {
    Listed(t, source, skip, rel) &&
    (Realpath(t, source + rel).Found? ==> |rel| >= depth && LeadsToDirectory(t, source + rel))
  }

  ghost predicate LeadsToDirectory(t: Tree, p: Path) {
    Realpath(t, p).Found? && Realpath(t, p).at in t && t[Realpath(t, p).at] == Dir
  }

  /** Something is in the way of the copy. */
  ghost predicate Blocked(t: Tree, source: Path, skip: set<Name>, depth: nat) {
    exists rel :: Obstacle(t, source, skip, depth, rel)
  }

  lemma BlockedHere(t: Tree, source: Path, skip: set<Name>, depth: nat)
    requires Realpath(t, source).Found? ==> depth == 0 && LeadsToDirectory(t, source)
    ensures Blocked(t, source, skip, depth)
  {
    assert source + [] == source;
    assert Obstacle(t, source, skip, depth, []);
  }

  function Shift(name: Name, copy: Tree): Tree {
    map rel | rel in (set r | r in copy :: [name] + r) && rel != [] && rel[1..] in copy :: copy[rel[1..]]
  }

  lemma ShiftAt(name: Name, copy: Tree, rel: Path)
    ensures rel in Shift(name, copy) <==> rel != [] && rel[0] == name && rel[1..] in copy
    ensures rel in Shift(name, copy) ==> Shift(name, copy)[rel] == copy[rel[1..]]
  {
    if rel != [] { assert rel == [rel[0]] + rel[1..]; }
    forall q ensures ([name] + q)[1..] == q {}
  }

  ghost predicate EntryCopied(t: Tree, source: Path, done: set<Name>, copy: Tree, rel: Path) {
    var place := Realpath(t, source + rel);
    (rel in copy <==> rel == [] || (rel[0] in done && place.Found?)) &&
    (rel in copy ==> place.Found? && place.at in t && copy[rel] == t[place.at])
  }

  /** What has been copied once the entries `done` of a directory are. */
  ghost predicate CopiedSoFar(t: Tree, source: Path, done: set<Name>, copy: Tree) {
    forall rel :: EntryCopied(t, source, done, copy, rel)
  }

  lemma CopyEntry(t: Tree, source: Path, done: set<Name>, copy: Tree, name: Name, sub: Tree)
    requires CopiedSoFar(t, source, done, copy) && IsCopy(t, source + [name], {}, sub)
    ensures CopiedSoFar(t, source, done + {name}, copy + Shift(name, sub))
  {
    forall rel ensures EntryCopied(t, source, done + {name}, copy + Shift(name, sub), rel) {
      ShiftAt(name, sub, rel);
      assert EntryCopied(t, source, done, copy, rel);
      if rel != [] && rel[0] == name {
        assert source + rel == (source + [name]) + rel[1..];
        assert CopiedRight(t, source + [name], {}, sub, rel[1..]);
      }
    }
  }

  lemma CopyDone(t: Tree, source: Path, skip: set<Name>, copy: Tree)
    requires WellFormed(t) && Realpath(t, source).Found? && Realpath(t, source).at in t
    requires CopiedSoFar(t, source, Entries(t, Realpath(t, source).at) - skip, copy)
    ensures IsCopy(t, source, skip, copy)
  {
    forall rel ensures CopiedRight(t, source, skip, copy, rel) {
      assert EntryCopied(t, source, Entries(t, Realpath(t, source).at) - skip, copy, rel);
      if rel == [] {
        assert source + rel == source;
      } else if Realpath(t, source + rel).Found? {
        FirstNameListed(t, source, rel);
      }
    }
  }

  lemma ThroughParent(t: Tree, source: Path, rel: Path)
    requires WellFormed(t) && rel != [] && Realpath(t, source + rel).Found?
    ensures var parent := Realpath(t, source + rel[..|rel| - 1]);
            parent.Found? && parent.at in t && t[parent.at] == Dir && parent.at + [rel[|rel| - 1]] in t
  {
    var n := |rel| - 1;
    assert source + rel == (source + rel[..n]) + [rel[n]];
    WalkThroughParent(t, [], source + rel[..n], rel[n], MAX_LINKS);
  }

  lemma {:induction false} FirstNameListed(t: Tree, source: Path, rel: Path)
    requires WellFormed(t) && rel != [] && Realpath(t, source + rel).Found?
    ensures Realpath(t, source).Found? && rel[0] in Entries(t, Realpath(t, source).at)
    decreases |rel|
  {
    var n := |rel| - 1;
    ThroughParent(t, source, rel);
    if n == 0 {
      assert source + rel[..n] == source;
      var at := Realpath(t, source).at;
      assert (at + [rel[0]])[|at|] == rel[0];
    } else {
      FirstNameListed(t, source, rel[..n]);
    }
  }

  lemma ObstacleInside(t: Tree, source: Path, skip: set<Name>, depth: nat, name: Name, rel: Path)
    requires depth > 0 && name !in skip && Obstacle(t, source + [name], {}, depth - 1, rel)
    requires Realpath(t, source).Found? && Realpath(t, source).at + [name] in t
    ensures Obstacle(t, source, skip, depth, [name] + rel)
  {
    var whole := [name] + rel;
    assert source + whole == (source + [name]) + rel;
    if rel == [] {
      assert source + whole[..|whole| - 1] == source;
    } else {
      assert source + whole[..|whole| - 1] == (source + [name]) + rel[..|rel| - 1];
    }
  }

  lemma BlockedInside(t: Tree, source: Path, skip: set<Name>, depth: nat, name: Name)
    requires depth > 0 && name !in skip && Blocked(t, source + [name], {}, depth - 1)
    requires Realpath(t, source).Found? && name in Entries(t, Realpath(t, source).at)
    ensures Blocked(t, source, skip, depth)
  {
    var rel :| Obstacle(t, source + [name], {}, depth - 1, rel);
    ChildInTree(t, Realpath(t, source).at, name);
    ObstacleInside(t, source, skip, depth, name, rel);
  }

  /** A listed name is an entry of the directory that the source leads to. */
  lemma ListedFirst(t: Tree, source: Path, skip: set<Name>, rel: Path)
    requires WellFormed(t) && rel != [] && Listed(t, source, skip, rel)
    ensures Realpath(t, source).Found? && rel[0] in Entries(t, Realpath(t, source).at) - skip
  {
    var n := |rel| - 1;
    if n == 0 {
      assert source + rel[..n] == source;
      var at := Realpath(t, source).at;
      assert at <= at + [rel[0]] && (at + [rel[0]])[|at|] == rel[0];
    } else {
      FirstNameListed(t, source, rel[..n]);
    }
  }

  lemma FileNotBlocked(t: Tree, source: Path, skip: set<Name>, depth: nat)
    requires WellFormed(t) && Realpath(t, source).Found? && Realpath(t, source).at in t &&
             t[Realpath(t, source).at].File?
    ensures !Blocked(t, source, skip, depth)
  {
    NothingBelowFile(t, Realpath(t, source).at);
    forall rel ensures !Obstacle(t, source, skip, depth, rel) {
      if rel == [] {
        assert source + rel == source;
      } else if Listed(t, source, skip, rel) {
        ListedFirst(t, source, skip, rel);
      }
    }
  }

  lemma ObstacleOutside(t: Tree, source: Path, skip: set<Name>, depth: nat, rel: Path)
    requires depth > 0 && rel != [] && Obstacle(t, source, skip, depth, rel)
    ensures Obstacle(t, source + [rel[0]], {}, depth - 1, rel[1..])
  {
    assert source + rel == (source + [rel[0]]) + rel[1..];
    if |rel| > 1 {
      assert source + rel[..|rel| - 1] == (source + [rel[0]]) + rel[1..][..|rel| - 2];
    }
  }

  lemma DirectoryNotBlocked(t: Tree, source: Path, skip: set<Name>, depth: nat)
    requires WellFormed(t) && depth > 0 && Realpath(t, source).Found?
    requires forall n | n in Entries(t, Realpath(t, source).at) - skip :: !Blocked(t, source + [n], {}, depth - 1)
    ensures !Blocked(t, source, skip, depth)
  {
    forall rel ensures !Obstacle(t, source, skip, depth, rel) {
      if rel == [] {
        assert source + rel == source;
      } else if Obstacle(t, source, skip, depth, rel) {
        ListedFirst(t, source, skip, rel);
        ObstacleOutside(t, source, skip, depth, rel);
      }
    }
  }

  lemma CopyOfFile(t: Tree, source: Path, skip: set<Name>)
    requires WellFormed(t) && Realpath(t, source).Found? && Realpath(t, source).at in t &&
             t[Realpath(t, source).at].File?
    ensures IsCopy(t, source, skip, map[[] := t[Realpath(t, source).at]])
  {
    var copy: Tree := map[[] := t[Realpath(t, source).at]];
    NothingBelowFile(t, Realpath(t, source).at);
    forall rel ensures EntryCopied(t, source, {}, copy, rel) {
      if rel == [] { assert source + rel == source; }
    }
    assert {} - skip == {};
    CopyDone(t, source, skip, map[[] := t[Realpath(t, source).at]]);
  }

  lemma CopyStarted(t: Tree, source: Path)
    requires Realpath(t, source).Found? && Realpath(t, source).at in t && t[Realpath(t, source).at] == Dir
    ensures CopiedSoFar(t, source, {}, map[[] := Dir])
  {
    forall rel ensures EntryCopied(t, source, {}, map[[] := Dir], rel) {
      if rel == [] { assert source + rel == source; }
    }
  }

  /** Copies what a path leads to, following every link, without the skipped entries; `depth` names fit in a path. */
  method CopyDereferenced(t: Tree, source: Path, skip: set<Name>, depth: nat) returns (r: Result<Tree, Failure>)
    requires WellFormed(t)
    ensures r.Ok? ==> IsCopy(t, source, skip, r.value)
    ensures r.Err? <==> Blocked(t, source, skip, depth)
    decreases depth
  {
    var place := Realpath(t, source);
    if !place.Found? {
      BlockedHere(t, source, skip, depth);
      return Err(Unreachable(source));
    }
    var at := place.at;
    WalkEndsAtNoLink(t, [], source, MAX_LINKS);
    if t[at].File? {
      CopyOfFile(t, source, skip);
      FileNotBlocked(t, source, skip, depth);
      return Ok(map[[] := t[at]]);
    }
    if depth == 0 {
      BlockedHere(t, source, skip, depth);
      return Err(NameTooLong(source));
    }
    var copy: Tree := map[[] := Dir];
    var entries := Entries(t, at) - skip;
    var todo := entries;
    CopyStarted(t, source);
    assert entries - todo == {};
    while todo != {}
      invariant todo <= entries && CopiedSoFar(t, source, entries - todo, copy)
      invariant forall n | n in entries - todo :: !Blocked(t, source + [n], {}, depth - 1)
    {
      var name :| name in todo;
      var sub := CopyDereferenced(t, source + [name], {}, depth - 1);
      if sub.Err? {
        BlockedInside(t, source, skip, depth, name);
        return Err(sub.error);
      }
      CopyEntry(t, source, entries - todo, copy, name, sub.value);
      assert entries - (todo - {name}) == (entries - todo) + {name};
      copy := copy + Shift(name, sub.value);
      todo := todo - {name};
    }
    assert entries - todo == entries;
    CopyDone(t, source, skip, copy);
    DirectoryNotBlocked(t, source, skip, depth);
    return Ok(copy);
  }

  lemma NothingBelowFile(t: Tree, p: Path)
    requires WellFormed(t) && p in t && t[p] != Dir
    ensures Entries(t, p) == {}
  {
    forall name | name in Entries(t, p) ensures false {
      ChildInTree(t, p, name);
      AncestorIsDir(t, p + [name], p);
    }
  }

  /** A copy holds no links, and every entry's parent is a copied directory. */
  ghost predicate Graftable(copy: Tree) {
    forall rel | rel in copy ::
      !copy[rel].Link? && (rel != [] ==> rel[..|rel| - 1] in copy && copy[rel[..|rel| - 1]] == Dir)
  }

  lemma CopiedNoLink(t: Tree, source: Path, skip: set<Name>, copy: Tree, rel: Path)
    requires WellFormed(t) && CopiedRight(t, source, skip, copy, rel) && rel in copy
    ensures !copy[rel].Link?
  {
    WalkEndsAtNoLink(t, [], source + rel, MAX_LINKS);
  }

  lemma CopiedParent(t: Tree, source: Path, skip: set<Name>, copy: Tree, rel: Path)
    requires WellFormed(t) && IsCopy(t, source, skip, copy) && rel in copy && rel != []
    ensures rel[..|rel| - 1] in copy && copy[rel[..|rel| - 1]] == Dir
  {
    var parent := rel[..|rel| - 1];
    assert CopiedRight(t, source, skip, copy, rel);
    ThroughParent(t, source, rel);
    assert parent != [] ==> parent[0] == rel[0];
    assert CopiedRight(t, source, skip, copy, parent);
  }

  lemma CopyIsGraftable(t: Tree, source: Path, skip: set<Name>, copy: Tree)
    requires WellFormed(t) && IsCopy(t, source, skip, copy)
    ensures Graftable(copy)
  {
    forall rel | rel in copy
      ensures !copy[rel].Link? && (rel != [] ==> rel[..|rel| - 1] in copy && copy[rel[..|rel| - 1]] == Dir)
    {
      assert CopiedRight(t, source, skip, copy, rel);
      CopiedNoLink(t, source, skip, copy, rel);
      if rel != [] { CopiedParent(t, source, skip, copy, rel); }
    }
  }

  // ---------- putting a copy in place ----------

  function Graft(t: Tree, destination: Path, copy: Tree): Tree {
    t + map p | p in (set rel | rel in copy :: destination + rel) && destination <= p && p[|destination|..] in copy ::
          copy[p[|destination|..]]
  }

  lemma GraftAt(t: Tree, destination: Path, copy: Tree, p: Path)
    ensures destination <= p && p[|destination|..] in copy ==>
              p in Graft(t, destination, copy) && Graft(t, destination, copy)[p] == copy[p[|destination|..]]
    ensures !(destination <= p && p[|destination|..] in copy) ==>
              (p in Graft(t, destination, copy) <==> p in t) && (p in t ==> Graft(t, destination, copy)[p] == t[p])
  {
    if destination <= p { assert p == destination + p[|destination|..]; }
  }

  lemma GraftedParent(t: Tree, destination: Path, copy: Tree, p: Path)
    requires WellFormed(t) && Graftable(copy) && destination < p && p in Graft(t, destination, copy)
    requires forall q | q in t :: !(destination <= q)
    ensures InDirectory(Graft(t, destination, copy), p)
  {
    var parent, rel := p[..|p| - 1], p[|destination|..];
    GraftAt(t, destination, copy, p);
    GraftAt(t, destination, copy, parent);
    assert destination <= parent && parent[|destination|..] == rel[..|rel| - 1];
  }

  lemma ParentElsewhere(t: Tree, destination: Path, copy: Tree, p: Path)
    requires WellFormed(t) && p != [] && InDirectory(t, p)
    requires forall q | q in t :: !(destination <= q)
    ensures InDirectory(Graft(t, destination, copy), p)
  {
  }

  lemma GraftWellFormed(t: Tree, destination: Path, copy: Tree)
    requires WellFormed(t) && destination != [] && Graftable(copy)
    requires forall p | p in t :: !(destination <= p)
    requires InDirectory(t, destination)
    ensures WellFormed(Graft(t, destination, copy))
  {
    var u := Graft(t, destination, copy);
    GraftAt(t, destination, copy, []);
    forall p | p in u && p != [] ensures InDirectory(u, p) {
      if destination < p {
        GraftedParent(t, destination, copy, p);
      } else {
        GraftAt(t, destination, copy, p);
        assert destination <= p ==> p == destination;
        assert InDirectory(t, p);
        ParentElsewhere(t, destination, copy, p);
      }
    }
  }

  // ---------- the .bin directory of a link ----------

  function LastBin(s: Path): (i: int)
    ensures -1 <= i < |s| && (i >= 0 ==> s[i] == BIN)
    ensures forall k | i < k < |s| :: s[k] != BIN
  {
    if s == [] then -1 else if s[|s| - 1] == BIN then |s| - 1 else LastBin(s[..|s| - 1])
  }

  /** The innermost `.bin` directory on the way from `base` to `p`, or at `p`. */
  function BinOf(base: Path, p: Path): Option<Path> {
    if base <= p && LastBin(p[|base|..]) >= 0 then Some(p[..|base| + LastBin(p[|base|..]) + 1]) else None
  }

  lemma BinFacts(base: Path, p: Path, bin: Path)
    requires BinOf(base, p) == Some(bin)
    ensures base < bin <= p && bin[|bin| - 1] == BIN
    ensures forall k | |bin| <= k < |p| :: p[k] != BIN
  {
  }

  /** `bin` is a directory of that name on the path below the base, and there is none further on. */
  ghost predicate IsLastBin(base: Path, p: Path, bin: Path, front: Path, rest: Path) {
    bin == base + front + [Name(".bin")] && p == bin + rest && Name(".bin") !in rest
  }

  lemma LastBinIs(s: Path, k: nat)
    requires k < |s| && s[k] == BIN && forall i | k < i < |s| :: s[i] != BIN
    ensures LastBin(s) == k
  {
    hide LastBin;
    assert !(LastBin(s) < k);
  }

  lemma LastBinAt(front: Path, rest: Path)
    requires BIN !in rest
    ensures LastBin(front + [BIN] + rest) == |front|
  {
    hide LastBin;
    var s, k := front + [BIN] + rest, |front|;
    forall i | k < i < |s| ensures s[i] != BIN { assert s[i] == rest[i - k - 1] && rest[i - k - 1] in rest; }
    LastBinIs(s, k);
  }

  lemma BinIsLast(base: Path, p: Path, bin: Path, front: Path, rest: Path)
    requires IsLastBin(base, p, bin, front, rest)
    ensures BinOf(base, p) == Some(bin)
  {
    hide LastBin;
    LastBinAt(front, rest);
    assert p == base + (front + [BIN] + rest) && p[|base|..] == front + [BIN] + rest;
    assert bin == p[..|base| + |front| + 1];
  }

  /** The `.bin` directory of a path is the last directory of that name on it below the base. */
  lemma BinExactly(base: Path, p: Path, bin: Path)
    ensures BinOf(base, p) == Some(bin) <==> exists front, rest :: IsLastBin(base, p, bin, front, rest)
  {
    hide BinOf;
    if BinOf(base, p) == Some(bin) {
      BinFacts(base, p, bin);
      var n := |bin| - 1;
      var front, rest := bin[|base|..n], p[|bin|..];
      assert bin == bin[..n] + [bin[n]] && bin[..n] == base + front && p == bin + rest;
      assert IsLastBin(base, p, bin, front, rest);
    }
    if front, rest :| IsLastBin(base, p, bin, front, rest) { BinIsLast(base, p, bin, front, rest); }
  }

  /** A path inside the `.bin` directory of one link has its own `.bin` directory in there too. */
  lemma BinNested(base: Path, p: Path, bin: Path, q: Path, other: Path)
    requires BinOf(base, p) == Some(bin) && BinOf(base, q) == Some(other) && bin <= q
    ensures bin <= other
  {
  }

  // ---------- what a run keeps ----------

  ghost predicate Same(t0: Tree, t: Tree, p: Path) {
    (p in t <==> p in t0) && (p in t ==> t[p] == t0[p])
  }

  /** At or below the `.bin` directory of some original link. */
  ghost predicate InLinkedBin(t0: Tree, base: Path, p: Path) {
    exists l :: LinkedBin(t0, base, l, p)
  }

  ghost predicate LinkedBin(t0: Tree, base: Path, l: Path, p: Path) {
    IsLinkBelow(t0, base, l) && BinOf(base, l).Some? && BinOf(base, l).value <= p
  }

  /** At or below some original link outside any `.bin` directory. */
  ghost predicate AtLink(t0: Tree, base: Path, p: Path) {
    exists l :: LinkAbove(t0, base, l, p)
  }

  ghost predicate LinkAbove(t0: Tree, base: Path, l: Path, p: Path) {
    IsLinkBelow(t0, base, l) && BinOf(base, l).None? && l <= p
  }

  /** How an entry may differ from the original while links are being replaced. */
  ghost predicate PathOk(t0: Tree, base: Path, t: Tree, p: Path) {
    if !(base < p) then Same(t0, t, p)
    else
      (p in t ==> Same(t0, t, p) || (!t[p].Link? && AtLink(t0, base, p))) &&
      (p in t0 && !t0[p].Link? && !InLinkedBin(t0, base, p) ==> Same(t0, t, p)) &&
      (IsLinkBelow(t0, base, p) && BinOf(base, p).Some? ==> Same(t0, t, p) || BinOf(base, p).value !in t)
  }

  ghost predicate Progress(t0: Tree, base: Path, t: Tree) {
    WellFormed(t0) && WellFormed(t) && base in t0 && t0[base] == Dir && forall p :: PathOk(t0, base, t, p)
  }

  lemma LinkIsOriginal(t0: Tree, base: Path, t: Tree, l: Path)
    requires Progress(t0, base, t) && IsLinkBelow(t, base, l)
    ensures IsLinkBelow(t0, base, l) && t0[l] == t[l]
  {
    assert PathOk(t0, base, t, l);
  }

  /** Removing the `.bin` directory of a link. */
  lemma DropBinKeepsProgress(t0: Tree, base: Path, t: Tree, l: Path, bin: Path)
    requires Progress(t0, base, t) && IsLinkBelow(t, base, l) && BinOf(base, l) == Some(bin)
    ensures Progress(t0, base, Remove(t, bin))
  {
    var u := Remove(t, bin);
    LinkIsOriginal(t0, base, t, l);
    BinFacts(base, l, bin);
    RemoveFacts(t, bin);
    forall p ensures PathOk(t0, base, u, p) {
      assert PathOk(t0, base, t, p);
      if bin <= p {
        assert LinkedBin(t0, base, l, p);
        if BinOf(base, p).Some? { BinNested(base, l, bin, p, BinOf(base, p).value); }
      }
    }
  }

  lemma NothingBelowLink(t: Tree, l: Path, p: Path)
    requires WellFormed(t) && l in t && t[l].Link? && p in t
    ensures !(l < p)
  {
    if l < p { AncestorIsDir(t, p, l); }
  }

  /** A path that is not at or below the replaced link keeps its relation to the original. */
  lemma ElsewhereOk(t0: Tree, base: Path, t: Tree, l: Path, u: Tree, p: Path)
    requires WellFormed(t0) && IsLinkBelow(t0, base, l) && BinOf(base, l) == None
    requires PathOk(t0, base, t, p) && !(l <= p) && Same(t, u, p)
    requires forall q | !(l <= q) :: q in u ==> q in t
    ensures PathOk(t0, base, u, p)
  {
  }

  lemma AtLinkOk(t0: Tree, base: Path, l: Path, u: Tree, p: Path)
    requires WellFormed(t0) && IsLinkBelow(t0, base, l) && BinOf(base, l) == None
    requires l <= p && (p in u ==> !u[p].Link?)
    ensures PathOk(t0, base, u, p)
  {
    assert LinkAbove(t0, base, l, p);
    if p in t0 {
      NothingBelowLink(t0, l, p);
      assert p == p[..|l|] == l;
    }
  }

  /** Replacing a link outside any `.bin` directory by a copy, or by nothing. */
  lemma ReplaceKeepsProgress(t0: Tree, base: Path, t: Tree, l: Path, copy: Tree)
    requires Progress(t0, base, t) && IsLinkBelow(t, base, l) && BinOf(base, l) == None && Graftable(copy)
    ensures Progress(t0, base, Graft(Remove(t, l), l, copy))
  {
    var s := Remove(t, l);
    var u := Graft(s, l, copy);
    LinkIsOriginal(t0, base, t, l);
    RemoveFacts(t, l);
    assert InDirectory(t, l) && !(l <= l[..|l| - 1]);
    assert InDirectory(s, l);
    GraftWellFormed(s, l, copy);
    forall q | !(l <= q) ensures Same(t, u, q) { GraftAt(s, l, copy, q); }
    forall p ensures PathOk(t0, base, u, p) {
      assert PathOk(t0, base, t, p);
      GraftAt(s, l, copy, p);
      if l <= p { AtLinkOk(t0, base, l, u, p); } else { ElsewhereOk(t0, base, t, l, u, p); }
    }
  }

  lemma FewerLinks(t: Tree, u: Tree, base: Path, l: Path)
    requires IsLinkBelow(t, base, l) && !IsLinkBelow(u, base, l)
    requires forall p :: IsLinkBelow(u, base, p) ==> IsLinkBelow(t, base, p)
    ensures LinksBelow(u, base) < LinksBelow(t, base)
  {
    assert l in LinksBelow(t, base) && l !in LinksBelow(u, base);
  }

  // ---------- one link ----------

  /** The payload root itself, or a directory above it other than the root of the file system. */
  predicate IsPayloadOrAbove(payload: Path, source: Path) {
    payload == source || (source != [] && source < payload)
  }

  predicate CopiesIntoItself(t: Tree, source: Path, destination: Path) {
    source in t && t[source] == Dir && source <= destination
  }

  /**
   * What happens to one link: a link at or below a `.bin` directory takes that directory with it; a link to the
   * payload or above is dropped; any other becomes a copy of what it leads to, without its own `node_modules`.
   */
  ghost predicate LinkStep(t: Tree, payload: Path, base: Path, l: Path, u: Tree) {
    if BinOf(base, l).Some? then u == Remove(t, BinOf(base, l).value)
    else
      var place, unlinked := Realpath(t, l), Remove(t, l);
      place.Found? &&
      if IsPayloadOrAbove(payload, place.at) then u == unlinked
      else
        !CopiesIntoItself(t, place.at, l) &&
        exists copy :: IsCopy(unlinked, place.at, {NODE_MODULES}, copy) && u == Graft(unlinked, l, copy)
  }

  /**
   * Why a link cannot be replaced: it leads nowhere, to a directory it lies in, or to something that cannot be
   * copied.
   */
  ghost predicate LinkStuck(t: Tree, payload: Path, base: Path, l: Path, depth: nat) {
    var place := Realpath(t, l);
    BinOf(base, l).None? &&
    (place.Found? ==>
       (place.at <= payload ==> place.at == [] != payload) &&
       ((place.at in t && t[place.at] == Dir && place.at <= l) ||
        Blocked(Remove(t, l), place.at, {NODE_MODULES}, depth)))
  }

  /**
   * Below the payload or beside it the link led to something that now stands in its place, and that was no directory
   * around the link; if it led to the payload or to a directory above it, nothing is left.
   */
  ghost predicate LinkSettled(t: Tree, payload: Path, l: Path, u: Tree) {
    var place := Realpath(t, l);
    place.Found? && place.at in t &&
    (!(place.at <= payload) ==> l in u && u[l] == t[place.at] && !(t[place.at] == Dir && place.at <= l)) &&
    (place.at != [] && place.at <= payload ==> l !in u)
  }

  lemma StepSettles(t: Tree, payload: Path, base: Path, l: Path, u: Tree)
    requires WellFormed(t) && IsLinkBelow(t, base, l) && LinkStep(t, payload, base, l, u) && BinOf(base, l).None?
    ensures LinkSettled(t, payload, l, u)
  {
    hide IsCopy, Realpath;
    SourceOutlivesLink(t, l);
    if !IsPayloadOrAbove(payload, Realpath(t, l).at) {
      var copy :| IsCopy(Remove(t, l), Realpath(t, l).at, {NODE_MODULES}, copy) && u == Graft(Remove(t, l), l, copy);
      CopyStands(t, l, copy, u);
    }
  }

  lemma RemoveIsGraft(t: Tree, l: Path)
    ensures Graft(Remove(t, l), l, map[]) == Remove(t, l)
  {
  }

  lemma StepKeepsProgress(t0: Tree, payload: Path, base: Path, t: Tree, l: Path, u: Tree)
    requires Progress(t0, base, t) && IsLinkBelow(t, base, l) && LinkStep(t, payload, base, l, u)
    ensures Progress(t0, base, u) && LinksBelow(u, base) < LinksBelow(t, base)
  {
    if BinOf(base, l).Some? {
      var bin := BinOf(base, l).value;
      DropBinKeepsProgress(t0, base, t, l, bin);
      BinFacts(base, l, bin);
      FewerLinks(t, u, base, l);
    } else if IsPayloadOrAbove(payload, Realpath(t, l).at) {
      RemoveIsGraft(t, l);
      ReplaceKeepsProgress(t0, base, t, l, map[]);
      FewerLinks(t, u, base, l);
    } else {
      var unlinked := Remove(t, l);
      RemoveFacts(t, l);
      var copy :| IsCopy(unlinked, Realpath(t, l).at, {NODE_MODULES}, copy) && u == Graft(unlinked, l, copy);
      CopyIsGraftable(unlinked, Realpath(t, l).at, {NODE_MODULES}, copy);
      ReplaceKeepsProgress(t0, base, t, l, copy);
      forall p ensures IsLinkBelow(u, base, p) ==> IsLinkBelow(t, base, p) && p != l { GraftAt(unlinked, l, copy, p); }
      FewerLinks(t, u, base, l);
    }
  }

  /** Below a replaced link, every copied path now stands for itself and holds what its original led to. */
  lemma CopyReadsTheSame(t: Tree, l: Path, source: Path, skip: set<Name>, copy: Tree, rel: Path)
    requires WellFormed(t) && l in t && l != [] && IsCopy(Remove(t, l), source, skip, copy) && rel in copy
    ensures var u := Graft(Remove(t, l), l, copy);
            Realpath(u, l + rel) == Found(l + rel) && l + rel in u &&
            Realpath(t, source + rel).Found? && Realpath(t, source + rel).at in t &&
            u[l + rel] == t[Realpath(t, source + rel).at]
  {
    var s := Remove(t, l);
    RemoveFacts(t, l);
    CopyIsGraftable(s, source, skip, copy);
    assert InDirectory(t, l) && !(l <= l[..|l| - 1]);
    assert InDirectory(s, l);
    GraftWellFormed(s, l, copy);
    assert (l + rel)[|l|..] == rel;
    GraftAt(s, l, copy, l + rel);
    assert CopiedRight(s, source, skip, copy, rel);
    WalkInPart(s, t, [], source + rel, MAX_LINKS);
    var u := Graft(s, l, copy);
    assert [] + (l + rel) == l + rel;
    WalkCanonical(u, [], l + rel, MAX_LINKS);
  }

  // ---------- what stands at a replaced link ----------

  /** The step of link `l` took the tree `s` to `u`, and at and below `l` nothing changed since. */
  ghost predicate ReplacedIn(t0: Tree, payload: Path, base: Path, l: Path, s: Tree, u: Tree, t: Tree) {
    Progress(t0, base, s) && IsLinkBelow(s, base, l) && LinkStep(s, payload, base, l, u) &&
    forall p | l <= p :: Same(u, t, p)
  }

  /**
   * The link was replaced: nothing stands there if it led to the payload or above, else a copy of what it led to
   * in a tree on the way, and it has not been touched since.
   */
  ghost predicate Replaced(t0: Tree, payload: Path, base: Path, l: Path, t: Tree) {
    exists s, u :: ReplacedIn(t0, payload, base, l, s, u, t)
  }

  ghost predicate OutsideBin(t0: Tree, base: Path, l: Path) {
    IsLinkBelow(t0, base, l) && BinOf(base, l).None?
  }

  /** Every original link outside `.bin` directories still stands or was replaced. */
  ghost predicate ReplacedSoFar(t0: Tree, payload: Path, base: Path, t: Tree) {
    forall l | OutsideBin(t0, base, l) :: IsLinkBelow(t, base, l) || Replaced(t0, payload, base, l, t)
  }

  /** A path inside a `.bin` directory of a link has a `.bin` directory itself. */
  lemma InsideBin(base: Path, l: Path, bin: Path, m: Path)
    requires BinOf(base, l) == Some(bin) && bin <= m
    ensures BinOf(base, m).Some?
  {
    BinFacts(base, l, bin);
    var i := |bin| - 1 - |base|;
    assert m[|base|..][i] == BIN;
  }

  /** Taking one link's step leaves alone what stands at another link. */
  lemma StepLeavesOthers(t0: Tree, payload: Path, base: Path, t: Tree, l: Path, u: Tree, m: Path, p: Path)
    requires Progress(t0, base, t) && IsLinkBelow(t, base, l) && LinkStep(t, payload, base, l, u)
    requires BinOf(base, m).None? && !(m <= l) && m <= p && !(l < m)
    ensures Same(t, u, p)
  {
    if BinOf(base, l).Some? {
      var bin := BinOf(base, l).value;
      BinFacts(base, l, bin);
      if bin <= p {
        OneAboveTheOther(bin, m, p);
        if bin <= m { InsideBin(base, l, bin, m); }
      }
    } else {
      if l <= p { OneAboveTheOther(l, m, p); }
      StepElsewhere(t, payload, base, l, u, p);
    }
  }

  lemma OneAboveTheOther(a: Path, b: Path, p: Path)
    requires a <= p && b <= p
    ensures a <= b || b <= a
  {
    if |a| <= |b| { assert b[..|a|] == a; } else { assert a[..|b|] == b; }
  }

  lemma StepElsewhere(t: Tree, payload: Path, base: Path, l: Path, u: Tree, p: Path)
    requires BinOf(base, l).None? && LinkStep(t, payload, base, l, u) && !(l <= p)
    ensures Same(t, u, p)
  {
    hide IsCopy, Realpath, CopiesIntoItself, IsPayloadOrAbove;
    if !IsPayloadOrAbove(payload, Realpath(t, l).at) {
      var copy :| IsCopy(Remove(t, l), Realpath(t, l).at, {NODE_MODULES}, copy) && u == Graft(Remove(t, l), l, copy);
      GraftAt(Remove(t, l), l, copy, p);
    }
  }

  lemma LinkStaysOrIsReplaced(t0: Tree, payload: Path, base: Path, t: Tree, l: Path, u: Tree, m: Path)
    requires Progress(t0, base, t) && IsLinkBelow(t, base, l) && LinkStep(t, payload, base, l, u)
    requires OutsideBin(t0, base, m) && (IsLinkBelow(t, base, m) || Replaced(t0, payload, base, m, t))
    ensures IsLinkBelow(u, base, m) || Replaced(t0, payload, base, m, u)
  {
    hide LinkStep, PathOk, BinOf;
    LinkIsOriginal(t0, base, t, l);
    if m == l {
      assert ReplacedIn(t0, payload, base, l, t, u, u);
    } else {
      NothingBelowLink(t0, l, m);
      NothingBelowLink(t0, m, l);
      if IsLinkBelow(t, base, m) {
        StepLeavesOthers(t0, payload, base, t, l, u, m, m);
      } else {
        var s, r :| ReplacedIn(t0, payload, base, m, s, r, t);
        forall p | m <= p ensures Same(r, u, p) {
          assert Same(r, t, p);
          StepLeavesOthers(t0, payload, base, t, l, u, m, p);
        }
        assert ReplacedIn(t0, payload, base, m, s, r, u);
      }
    }
  }

  lemma StepKeepsReplaced(t0: Tree, payload: Path, base: Path, t: Tree, l: Path, u: Tree)
    requires Progress(t0, base, t) && IsLinkBelow(t, base, l) && LinkStep(t, payload, base, l, u)
    requires ReplacedSoFar(t0, payload, base, t)
    ensures ReplacedSoFar(t0, payload, base, u)
  {
    hide Progress, LinkStep, Replaced;
    forall m | OutsideBin(t0, base, m) ensures IsLinkBelow(u, base, m) || Replaced(t0, payload, base, m, u) {
      LinkStaysOrIsReplaced(t0, payload, base, t, l, u, m);
    }
  }

  // ---------- the whole payload ----------

  /**
   * The modules directory is free of links, every original link outside `.bin` directories was replaced, and
   * everything else about the tree is as it was.
   */
  ghost predicate Staged(t0: Tree, payload: Path, base: Path, t: Tree) {
    LinksBelow(t, base) == {} && (forall p :: StagedPath(t0, base, t, p)) &&
    forall l | OutsideBin(t0, base, l) :: Replaced(t0, payload, base, l, t)
  }

  /**
   * Outside nothing changed. Inside, an entry that was no link is untouched unless it was in the `.bin` directory
   * of a link, and then it is gone; whatever is new stands at or below a former link.
   */
  ghost predicate StagedPath(t0: Tree, base: Path, t: Tree, p: Path) {
    if !(base < p) then Same(t0, t, p)
    else
      (p in t0 && !t0[p].Link? ==> if InLinkedBin(t0, base, p) then p !in t else Same(t0, t, p)) &&
      (p in t ==> Same(t0, t, p) || AtLink(t0, base, p))
  }

  lemma ProgressEnds(t0: Tree, payload: Path, base: Path, t: Tree)
    requires Progress(t0, base, t) && LinksBelow(t, base) == {} && ReplacedSoFar(t0, payload, base, t)
    ensures Staged(t0, payload, base, t)
  {
    forall l ensures !IsLinkBelow(t, base, l) { if IsLinkBelow(t, base, l) { LinkIsThere(t, base, l); } }
    forall p ensures StagedPath(t0, base, t, p) { PathEnds(t0, base, t, p); }
  }

  lemma PathEnds(t0: Tree, base: Path, t: Tree, p: Path)
    requires Progress(t0, base, t) && LinksBelow(t, base) == {}
    ensures StagedPath(t0, base, t, p)
  {
    assert PathOk(t0, base, t, p);
    if base < p && p in t0 && !t0[p].Link? && InLinkedBin(t0, base, p) && p in t {
      var l :| LinkedBin(t0, base, l, p);
      assert PathOk(t0, base, t, l);
      assert l !in LinksBelow(t, base);
      var bin := BinOf(base, l).value;
      if bin != p { AncestorIsDir(t, p, bin); }
    }
  }

  /** What stands at a place and below it. */
  ghost function Subtree(t: Tree, l: Path): Tree {
    map rel | rel in (set p | p in t && l <= p :: p[|l|..]) && l + rel in t :: t[l + rel]
  }

  lemma SubtreeAt(t: Tree, l: Path, rel: Path)
    ensures rel in Subtree(t, l) <==> l + rel in t
    ensures rel in Subtree(t, l) ==> Subtree(t, l)[rel] == t[l + rel]
  {
    assert (l + rel)[|l|..] == rel;
  }

  lemma SubtreeOfCopy(s: Tree, l: Path, copy: Tree, u: Tree, t: Tree)
    requires u == Graft(Remove(s, l), l, copy) && forall p | l <= p :: Same(u, t, p)
    ensures Subtree(t, l) == copy
  {
    forall rel ensures rel in Subtree(t, l) <==> rel in copy
               ensures rel in copy ==> Subtree(t, l)[rel] == copy[rel]
    {
      SubtreeAt(t, l, rel);
      GraftAt(Remove(s, l), l, copy, l + rel);
      assert (l + rel)[|l|..] == rel && Same(u, t, l + rel);
    }
  }

  /**
   * In a tree on the way, the link led to `at`. If that is the payload or a directory above it, other than the root
   * of the file system, nothing is left at the link; else a copy of it stands there, which is no copy of a directory
   * that the link lies in.
   */
  ghost predicate CopiedFrom(t0: Tree, payload: Path, base: Path, s: Tree, l: Path, t: Tree) {
    Progress(t0, base, s) && IsLinkBelow(s, base, l) && Realpath(s, l).Found? &&
    var at := Realpath(s, l).at;
    if at <= payload && (at != [] || payload == []) then forall p | l <= p :: p !in t
    else
      at in s && !(s[at] == Dir && at <= l) && l in t && t[l] == s[at] &&
      IsCopy(Remove(s, l), at, {Name("node_modules")}, Subtree(t, l))
  }

  /** A link never leads to itself or below, so what it leads to is still there once it is unlinked. */
  lemma SourceOutlivesLink(t: Tree, l: Path)
    requires WellFormed(t) && l in t && t[l].Link? && l != [] && Realpath(t, l).Found?
    ensures var at := Realpath(t, l).at;
            at in t && at in Remove(t, l) && !t[at].Link? && Realpath(Remove(t, l), at) == Found(at)
  {
    var at, s := Realpath(t, l).at, Remove(t, l);
    RemoveFacts(t, l);
    WalkEndsAtNoLink(t, [], l, MAX_LINKS);
    if l < at { AncestorIsDir(t, at, l); }
    assert l <= at ==> l == at || l < at;
    assert [] + at == at && at in s;
    WalkCanonical(s, [], at, MAX_LINKS);
  }

  lemma CopyStands(t: Tree, l: Path, copy: Tree, u: Tree)
    requires WellFormed(t) && l in t && t[l].Link? && l != [] && Realpath(t, l).Found?
    requires IsCopy(Remove(t, l), Realpath(t, l).at, {NODE_MODULES}, copy) && u == Graft(Remove(t, l), l, copy)
    ensures Realpath(t, l).at in t && l in u && u[l] == t[Realpath(t, l).at]
  {
    var at := Realpath(t, l).at;
    SourceOutlivesLink(t, l);
    assert CopiedRight(Remove(t, l), at, {NODE_MODULES}, copy, []) && at + [] == at;
    assert l[|l|..] == [];
    GraftAt(Remove(t, l), l, copy, l);
  }

  /** A staged payload holds at every original link outside `.bin` directories what following the links reached. */
  lemma StagedLinkIsCopy(t0: Tree, payload: Path, base: Path, t: Tree, l: Path)
    requires Staged(t0, payload, base, t) && OutsideBin(t0, base, l)
    ensures exists s :: CopiedFrom(t0, payload, base, s, l, t)
  {
    hide Progress, IsCopy, Realpath, Subtree;
    assert Replaced(t0, payload, base, l, t);
    var s, u :| ReplacedIn(t0, payload, base, l, s, u, t);
    var at := Realpath(s, l).at;
    ProgressFormed(t0, base, s);
    SourceOutlivesLink(s, l);
    if IsPayloadOrAbove(payload, at) {
      forall p | l <= p ensures p !in t { assert Same(u, t, p); }
    } else {
      var copy :| IsCopy(Remove(s, l), at, {NODE_MODULES}, copy) && u == Graft(Remove(s, l), l, copy);
      SubtreeOfCopy(s, l, copy, u, t);
      CopyStands(s, l, copy, u);
      assert Same(u, t, l);
    }
    assert CopiedFrom(t0, payload, base, s, l, t);
  }

  lemma ProgressFormed(t0: Tree, base: Path, t: Tree)
    requires Progress(t0, base, t)
    ensures WellFormed(t)
  {
  }

  // ---------- sharing workspace packages ----------

  /** Where one dependency identity is installed; `workspace` tells that it comes from a workspace directory. */
  datatype Dependency = Dependency(workspace: bool, locations: seq<Path>)

  /** A package directly in the modules directory, or in a scope directory there. */
  predicate IsTopLevel(modules: Path, p: Path) {
    modules < p && |p| - |modules| == if IsScope(p[|modules|]) then 2 else 1
  }

  /** The first top-level location, which the other locations share. */
  function RootPackage(modules: Path, locations: seq<Path>): (r: Option<Path>)
    ensures r.Some? ==> r.value in locations && IsTopLevel(modules, r.value)
    ensures r.None? ==> forall p | p in locations :: !IsTopLevel(modules, p)
  {
    if locations == [] then None
    else if IsTopLevel(modules, locations[0]) then Some(locations[0])
    else RootPackage(modules, locations[1..])
  }

  function DuplicatesOf(modules: Path, d: Dependency): set<Path> {
    var root := RootPackage(modules, d.locations);
    if d.workspace && root.Some? then set p | p in d.locations && p != root.value else {}
  }

  function AllDuplicates(modules: Path, dependencies: seq<Dependency>): set<Path> {
    set d, p | d in dependencies && p in DuplicatesOf(modules, d) :: p
  }

  /** All locations lie below the modules directory, and the package to share is a directory. */
  predicate Shareable(t: Tree, modules: Path, d: Dependency) {
    (forall p | p in d.locations :: modules < p) &&
    (d.workspace && RootPackage(modules, d.locations).Some? ==>
       var place := Lstat(t, RootPackage(modules, d.locations).value);
       place.Found? && place.at in t && t[place.at] == Dir)
  }

  /** A forced removal fails on what cannot be looked up, other than because it is missing. */
  predicate IsRemovable(t: Tree, p: Path) {
    Lstat(t, p) == Enoent || (Lstat(t, p).Found? && Lstat(t, p).at != [])
  }

  /** A package directly in the modules directory, or directly in a directory there whose name begins with `@`. */
  ghost predicate InModules(modules: Path, p: Path) {
    (exists n :: p == modules + [n] && (n.text == "" || n.text[0] != '@')) ||
    exists scope, n :: p == modules + [scope, n] && scope.text != "" && scope.text[0] == '@'
  }

  lemma TopLevelExactly(modules: Path, p: Path)
    ensures IsTopLevel(modules, p) <==> InModules(modules, p)
  {
    if IsTopLevel(modules, p) {
      var rest := p[|modules|..];
      assert p == modules + rest;
      if |rest| == 1 { assert rest == [rest[0]]; } else { assert rest == [rest[0], rest[1]]; }
    }
  }

  /** The location at `k` is the first one directly in the modules directory. */
  ghost predicate SharedFrom(modules: Path, locations: seq<Path>, k: nat) {
    k < |locations| && InModules(modules, locations[k]) && forall j | 0 <= j < k :: !InModules(modules, locations[j])
  }

  lemma {:induction false} RootIsFirst(modules: Path, locations: seq<Path>, k: nat)
    requires SharedFrom(modules, locations, k)
    ensures RootPackage(modules, locations) == Some(locations[k])
  {
    TopLevelExactly(modules, locations[0]);
    if k > 0 {
      assert forall j | 0 <= j < k - 1 :: locations[1..][j] == locations[j + 1];
      RootIsFirst(modules, locations[1..], k - 1);
    }
  }

  lemma {:induction false} FirstOfRoot(modules: Path, locations: seq<Path>)
    requires RootPackage(modules, locations).Some?
    ensures exists k: nat :: SharedFrom(modules, locations, k)
  {
    TopLevelExactly(modules, locations[0]);
    if IsTopLevel(modules, locations[0]) {
      assert SharedFrom(modules, locations, 0);
    } else {
      FirstOfRoot(modules, locations[1..]);
      var k: nat :| SharedFrom(modules, locations[1..], k);
      forall j | 0 <= j < k + 1 ensures !InModules(modules, locations[j]) {
        if j > 0 { assert locations[j] == locations[1..][j - 1]; }
      }
      assert locations[1..][k] == locations[k + 1];
      assert SharedFrom(modules, locations, k + 1);
    }
  }

  /** The location is not the one that the dependency of a workspace directory is shared from. */
  ghost predicate IsDuplicate(modules: Path, d: Dependency, p: Path) {
    d.workspace && p in d.locations && exists k: nat :: SharedFrom(modules, d.locations, k) && p != d.locations[k]
  }

  /** Sharing removes exactly the locations of workspace packages other than those they are shared from. */
  lemma DuplicatesExactly(modules: Path, dependencies: seq<Dependency>, p: Path)
    ensures p in AllDuplicates(modules, dependencies) <==> exists d | d in dependencies :: IsDuplicate(modules, d, p)
  {
    forall d | d in dependencies ensures p in DuplicatesOf(modules, d) <==> IsDuplicate(modules, d, p) {
      DuplicatesOfOne(modules, d, p);
    }
  }

  lemma DuplicatesOfOne(modules: Path, d: Dependency, p: Path)
    ensures p in DuplicatesOf(modules, d) <==> IsDuplicate(modules, d, p)
  {
    forall k: nat | SharedFrom(modules, d.locations, k)
      ensures RootPackage(modules, d.locations) == Some(d.locations[k])
    {
      RootIsFirst(modules, d.locations, k);
    }
    if RootPackage(modules, d.locations).Some? { FirstOfRoot(modules, d.locations); }
  }

  lemma AllDuplicatesAppend(modules: Path, dependencies: seq<Dependency>, d: Dependency)
    ensures AllDuplicates(modules, dependencies + [d]) ==
              AllDuplicates(modules, dependencies) + DuplicatesOf(modules, d)
  {
  }

  ghost predicate AllShareable(t: Tree, modules: Path, dependencies: seq<Dependency>) {
    forall d | d in dependencies :: Shareable(t, modules, d)
  }

  datatype ShareFailure = Invalid(dependency: Dependency) | Undeletable(path: Path)

  /** When every recorded location lies below the modules directory, so does every duplicate. */
  lemma DuplicatesBelowModules(modules: Path, dependencies: seq<Dependency>, p: Path)
    requires forall d, q | d in dependencies && q in d.locations :: modules < q
    requires p in AllDuplicates(modules, dependencies)
    ensures modules < p
  {
  }

  /** A shared package outlives the removal of duplicates as long as no duplicate lies at or above it. */
  lemma SharedRootSurvives(before: Tree, after: Tree, duplicates: set<Path>, root: Path)
    requires OnlyTargetsGone(before, after, duplicates) && Lstat(before, root).Found? &&
             Lstat(before, root).at in before
    requires forall p | p in duplicates && Lstat(before, p).Found? :: !(Lstat(before, p).at <= Lstat(before, root).at)
    ensures Lstat(before, root).at in after && after[Lstat(before, root).at] == before[Lstat(before, root).at]
  {
  }

  /** The only proper ancestor of a top-level package below the modules directory is its scope. */
  lemma AboveTopLevel(modules: Path, root: Path, p: Path)
    requires IsTopLevel(modules, root) && modules < p && p <= root
    ensures p == root || (IsScope(root[|modules|]) && p == modules + [root[|modules|]])
  {
    assert root[..|modules|] == modules;
    if p != root { assert |p| == |modules| + 1 && p == root[..|p|]; }
  }

  /**
   * After sharing, the kept package of a workspace dependency is still there exactly when no duplicate of any
   * dependency is recorded at its place or as its scope directory.
   */
  lemma SharedPackageSurvives(before: Tree, after: Tree, modules: Path, dependencies: seq<Dependency>, d: Dependency)
    requires WellFormed(before) && modules in before && before[modules] == Dir && LinkFree(before, modules)
    requires AllShareable(before, modules, dependencies) && WellFormed(after)
    requires OnlyTargetsGone(before, after, AllDuplicates(modules, dependencies)) &&
             Gone(after, AllDuplicates(modules, dependencies))
    requires d in dependencies && d.workspace && RootPackage(modules, d.locations).Some?
    ensures var root, duplicates := RootPackage(modules, d.locations).value, AllDuplicates(modules, dependencies);
            root in after && after[root] == Dir <==>
              root !in duplicates && (IsScope(root[|modules|]) ==> modules + [root[|modules|]] !in duplicates)
  {
    hide AllDuplicates, Lstat, LinkFree, RootPackage;
    var root, duplicates := RootPackage(modules, d.locations).value, AllDuplicates(modules, dependencies);
    assert Shareable(before, modules, d);
    LstatLinkFree(before, modules, root);
    if p :| p in duplicates && p <= root {
      DuplicatesBelowModules(modules, dependencies, p);
      AboveTopLevel(modules, root, p);
      NothingBelowGone(after, p, root);
    } else {
      forall p | p in duplicates && Lstat(before, p).Found? ensures !(Lstat(before, p).at <= root) {
        DuplicatesBelowModules(modules, dependencies, p);
        LstatLinkFree(before, modules, p);
      }
      SharedRootSurvives(before, after, duplicates, root);
      assert IsScope(root[|modules|]) ==> modules + [root[|modules|]] <= root;
    }
  }

  /** In a link-free modules directory, sharing removes nothing but duplicates and what lies below them. */
  lemma SharingStaysInModules(before: Tree, after: Tree, modules: Path, dependencies: seq<Dependency>, p: Path)
    requires WellFormed(before) && modules in before && before[modules] == Dir && LinkFree(before, modules)
    requires AllShareable(before, modules, dependencies)
    requires OnlyTargetsGone(before, after, AllDuplicates(modules, dependencies)) && p in before && p !in after
    ensures modules < p && exists duplicate :: duplicate in AllDuplicates(modules, dependencies) && duplicate <= p
  {
    var target :| target in AllDuplicates(modules, dependencies) && Lstat(before, target).Found? &&
      Lstat(before, target).at <= p;
    DuplicatesBelowModules(modules, dependencies, target);
    LstatLinkFree(before, modules, target);
  }

  /** Checks all metadata and collects what to remove. */
  method CollectDuplicates(t: Tree, modules: Path, dependencies: seq<Dependency>)
    returns (r: Result<set<Path>, ShareFailure>)
    ensures r.Ok? <==> AllShareable(t, modules, dependencies)
    ensures r.Ok? ==> r.value == AllDuplicates(modules, dependencies)
    ensures r.Err? ==> r.error.Invalid? && !Shareable(t, modules, r.error.dependency)
  {
    var duplicates: set<Path> := {};
    for k := 0 to |dependencies|
      invariant AllShareable(t, modules, dependencies[..k])
      invariant duplicates == AllDuplicates(modules, dependencies[..k])
    {
      var d := dependencies[k];
      if !Shareable(t, modules, d) {
        assert d in dependencies;
        return Err(Invalid(d));
      }
      assert dependencies[..k + 1] == dependencies[..k] + [d];
      AllDuplicatesAppend(modules, dependencies[..k], d);
      duplicates := duplicates + DuplicatesOf(modules, d);
    }
    assert dependencies[..|dependencies|] == dependencies;
    return Ok(duplicates);
  }

  class StagedPayload {
    var tree: Tree

    constructor (tree: Tree)
      ensures this.tree == tree
    {
      this.tree := tree;
    }

    method MaterializeLink(payload: Path, modules: Path, link: Path, depth: nat) returns (failure: Option<Failure>)
      requires WellFormed(tree) && IsLinkBelow(tree, modules, link)
      modifies this
      ensures failure.None? ==> LinkStep(old(tree), payload, modules, link, tree)
      ensures failure.Some? ==> LinkStuck(old(tree), payload, modules, link, depth)
      ensures failure.None? && BinOf(modules, link).None? ==> LinkSettled(old(tree), payload, link, tree)
      ensures failure.Some? ==> tree == old(tree) || tree == Remove(old(tree), link)
    {
      var bin := BinOf(modules, link);
      if bin.Some? {
        tree := Remove(tree, bin.value);
        return None;
      }
      var source := Realpath(tree, link);
      if !source.Found? { return Some(Unreachable(link)); }
      if IsPayloadOrAbove(payload, source.at) {
        tree := Remove(tree, link);
        StepSettles(old(tree), payload, modules, link, tree);
        return None;
      }
      var intoItself := CopiesIntoItself(tree, source.at, link);
      RemoveFacts(tree, link);
      tree := Remove(tree, link);
      if intoItself { return Some(CopyIntoSelf(link)); }
      var copy := CopyDereferenced(tree, source.at, {NODE_MODULES}, depth);
      if copy.Err? { return Some(copy.error); }
      tree := Graft(tree, link, copy.value);
      StepSettles(old(tree), payload, modules, link, tree);
      return None;
    }

    /** Replaces links until none is left below the staged `node_modules`. */
    method MaterializeStagedLinks(staging: Path, depth: nat) returns (failure: Option<Failure>)
      requires WellFormed(tree)
      modifies this
      ensures ReadDir(old(tree), staging + [NODE_MODULES]).Err? ==> failure.Some? && tree == old(tree)
      ensures failure.None? ==> Realpath(old(tree), staging).Found?
      ensures failure.None? ==>
                Staged(old(tree), Realpath(old(tree), staging).at,
                  Realpath(old(tree), staging + [Name("node_modules")]).at, tree)
    {
      ghost var before := tree;
      var payload := Realpath(tree, staging);
      if !payload.Found? { return Some(NoDirectory(staging)); }
      if ReadDir(tree, staging + [NODE_MODULES]).Err? { return Some(NoDirectory(staging + [NODE_MODULES])); }
      var modules := Realpath(tree, staging + [NODE_MODULES]).at;
      assert forall p :: PathOk(before, modules, tree, p);
      var remaining := FindSymlink(tree, modules);
      while remaining.Some?
        invariant Progress(before, modules, tree) && ReplacedSoFar(before, payload.at, modules, tree)
        invariant remaining.None? ==> LinksBelow(tree, modules) == {}
        invariant remaining.Some? ==> IsLinkBelow(tree, modules, remaining.value)
        decreases LinksBelow(tree, modules), remaining.Some?
      {
        ghost var now := tree;
        failure := MaterializeLink(payload.at, modules, remaining.value, depth);
        if failure.Some? { return; }
        StepKeepsProgress(before, payload.at, modules, now, remaining.value, tree);
        StepKeepsReplaced(before, payload.at, modules, now, remaining.value, tree);
        remaining := FindSymlink(tree, modules);
      }
      ProgressEnds(before, payload.at, modules, tree);
      return None;
    }

    /**
     * Removes the duplicates of shared workspace packages. All metadata is checked before anything is removed:
     * on invalid metadata the tree is unchanged.
     */
    method DeduplicateWorkspacePackages(modules: Path, dependencies: seq<Dependency>)
      returns (failure: Option<ShareFailure>)
      requires WellFormed(tree)
      modifies this
      ensures (failure.Some? && failure.value.Invalid?) <==> !AllShareable(old(tree), modules, dependencies)
      ensures failure.Some? && failure.value.Invalid? ==> tree == old(tree)
      ensures OnlyTargetsGone(old(tree), tree, AllDuplicates(modules, dependencies)) && WellFormed(tree)
      ensures failure.None? ==> Gone(tree, AllDuplicates(modules, dependencies))
      ensures Removable(old(tree), AllDuplicates(modules, dependencies)) ==> failure.None? || failure.value.Invalid?
    {
      var duplicates := CollectDuplicates(tree, modules, dependencies);
      if duplicates.Err? { return Some(duplicates.error); }
      failure := RemoveDuplicates(duplicates.value);
    }

    method RemoveDuplicates(duplicates: set<Path>) returns (failure: Option<ShareFailure>)
      requires WellFormed(tree)
      modifies this
      ensures OnlyTargetsGone(old(tree), tree, duplicates) && WellFormed(tree)
      ensures failure.None? ==> Gone(tree, duplicates)
      ensures failure.Some? ==> failure.value.Undeletable? && !Removable(old(tree), duplicates)
    {
      ghost var before := tree;
      var todo := duplicates;
      while todo != {}
        invariant todo <= duplicates && Removing(before, tree, duplicates, duplicates - todo)
      {
        var path :| path in todo;
        assert duplicates - (todo - {path}) == (duplicates - todo) + {path};
        if Removable(before, duplicates) { StillRemovable(before, tree, duplicates, duplicates - todo, path); }
        if !IsRemovable(tree, path) { return Some(Undeletable(path)); }
        RemovingGoesOn(before, tree, duplicates, duplicates - todo, path);
        tree := Removed(tree, path);
        todo := todo - {path};
      }
      assert duplicates - todo == duplicates;
      return None;
    }
  }
}
