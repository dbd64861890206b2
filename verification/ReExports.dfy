/** The search for an exported type declaration through re-export chains (`scripts/gen-config-catalog.ts`). */
module ReExports {
  import opened Wrappers
  import opened Reachability

  /** A source file named by its path; a type name. */
  datatype File = File(path: string)
  datatype Name = Name(text: string)

  /** One element of a named re-export: visible as `exported`, declared further on as `local`. */
  datatype Element = Element(exported: Name, local: Name)

  /** A re-export statement of a package-relative `.ts` target; other export statements are skipped. */
  datatype Export = Star(target: File) | Named(elements: seq<Element>, target: File) | Skipped

  datatype Source = Source(declared: set<Name>, exports: seq<Export>)

  type World = map<File, Source>

  datatype Key = Key(file: File, name: Name)

  /** The first element exported as `name` stands for `local`. */
  ghost predicate Renames(elements: seq<Element>, name: Name, local: Name) {
    exists i | 0 <= i < |elements| ::
      elements[i] == Element(name, local) && forall j | 0 <= j < i :: elements[j].exported != name
  }

  /** The name of the first element exported as `name`. */
  function FindElement(elements: seq<Element>, name: Name): (r: Option<Name>)
    ensures forall local :: r == Some(local) <==> Renames(elements, name, local)
  {
    if elements == [] then None
    else if elements[0].exported == name then Some(elements[0].local)
    else FindElement(elements[1..], name)
  }

  /** The statement hands the search for `name` on to this place: all names of a file, or the renamed ones. */
  ghost predicate HandsOn(e: Export, name: Name, k: Key) {
    match e
    case Star(target) => k == Key(target, name)
    case Named(elements, target) => k.file == target && Renames(elements, name, k.name)
    case Skipped => false
  }

  /** Where a statement sends the search for `name`. */
  function Target(e: Export, name: Name): (r: Option<Key>)
    ensures forall k :: r == Some(k) <==> HandsOn(e, name, k)
  {
    match e
    case Star(target) => Some(Key(target, name))
    case Named(elements, target) =>
      (match FindElement(elements, name) case Some(local) => Some(Key(target, local)) case None => None)
    case Skipped => None
  }

  /** The places a name of a file is re-exported from. */
  ghost function Next(w: World): Key -> set<Key> {
    (k: Key) =>
      if k.file in w then set e | e in w[k.file].exports && Target(e, k.name).Some? :: Target(e, k.name).value else {}
  }

  ghost predicate Declares(w: World, k: Key) {
    k.file in w && k.name in w[k.file].declared
  }

  ghost predicate Unreadable(w: World, k: Key) {
    k.file !in w
  }

  /** The file was read, does not declare the name, and every place it re-exports the name from was seen. */
  ghost predicate Finished(w: World, k: Key, seen: set<Key>) {
    k.file in w && k.name !in w[k.file].declared && Next(w)(k) <= seen
  }

  /** A finite set of file and name pairs closed under re-exports. */
  ghost predicate Universe(w: World, all: set<Key>) {
    ClosedUnder(Next(w), all)
  }

  datatype Search = Hit(at: Key) | Exhausted | Thrown(missing: Key)

  /**
   * `findExportedTypeDecl`, depth first with one visited set for the whole search. Reading a missing file throws.
   */
  method FindExported(w: World, key: Key, seen: set<Key>, ghost all: set<Key>) returns (r: Search, after: set<Key>)
    requires Universe(w, all) && key in all && seen <= all
    ensures seen <= after <= all
    ensures r.Hit? ==> Reaches(Next(w), key, r.at) && Declares(w, r.at)
    ensures r.Thrown? ==> Reaches(Next(w), key, r.missing) && Unreadable(w, r.missing)
    ensures r.Exhausted? ==> key in after && forall k | k in after && k !in seen :: Finished(w, k, after)
    decreases all - seen
  {
    after := seen;
    ReachesItself(Next(w), key);
    if key in seen {
      return Exhausted, after;
    }
    if key.file !in w {
      return Thrown(key), after;
    }
    after := after + {key};
    var source := w[key.file];
    if key.name in source.declared {
      return Hit(key), after;
    }
    var i := 0;
    while i < |source.exports|
      invariant 0 <= i <= |source.exports| && seen + {key} <= after <= all
      invariant forall e | e in source.exports[..i] && Target(e, key.name).Some? :: Target(e, key.name).value in after
      invariant forall k | k in after && k !in seen && k != key :: Finished(w, k, after)
    {
      var target := Target(source.exports[i], key.name);
      if target.Some? {
        assert source.exports[i] in source.exports;
        assert target.value in Next(w)(key);
        ghost var before := after;
        r, after := FindExported(w, target.value, after, all);
        if !r.Exhausted? {
          ReachesThrough(w, key, target.value, if r.Hit? then r.at else r.missing);
          return;
        }
        FinishedGrows(w, seen, key, before, after);
      }
      assert source.exports[..i + 1] == source.exports[..i] + [source.exports[i]];
      i := i + 1;
    }
    assert source.exports[..i] == source.exports;
    assert Finished(w, key, after);
    r := Exhausted;
  }

  lemma FinishedGrows(w: World, seen: set<Key>, key: Key, before: set<Key>, after: set<Key>)
    requires before <= after
    requires forall k | k in before && k !in seen && k != key :: Finished(w, k, before)
    requires forall k | k in after && k !in before :: Finished(w, k, after)
    ensures forall k | k in after && k !in seen && k != key :: Finished(w, k, after)
  {
  }

  lemma ReachesThrough(w: World, a: Key, b: Key, c: Key)
    requires b in Next(w)(a) && Reaches(Next(w), b, c)
    ensures Reaches(Next(w), a, c)
  {
    var path :| IsPath(Next(w), path) && path[0] == b && path[|path| - 1] == c;
    var longer := [a] + path;
    forall i | 0 <= i < |longer| - 1 ensures longer[i + 1] in Next(w)(longer[i]) {
      if i > 0 { assert path[i] in Next(w)(path[i - 1]); }
    }
    assert IsPath(Next(w), longer) && longer[0] == a && longer[|longer| - 1] == c;
  }

  /** All files a search may come to, and all names it may look for. */
  ghost function Places(w: World, start: Key): set<Key> {
    var files := w.Keys + {start.file} + set f, e | f in w && e in w[f].exports && !e.Skipped? :: e.target;
    var names := {start.name} + set f, e, x | f in w && e in w[f].exports && e.Named? && x in e.elements :: x.local;
    set f, n | f in files && n in names :: Key(f, n)
  }

  /** Only finitely many places can ever be visited. */
  lemma PlacesAreClosed(w: World, start: Key)
    ensures Universe(w, Places(w, start)) && start in Places(w, start)
  {
  }

  /**
   * The search from an empty visited set: it comes back empty-handed exactly when no chain of re-exports leads
   * to a declaring file or to an unreadable one. So where all chains are readable, it finds a declaration
   * exactly when some chain reaches one.
   */
  method FindFromScratch(w: World, key: Key) returns (r: Search)
    ensures r.Hit? ==> Reaches(Next(w), key, r.at) && Declares(w, r.at)
    ensures r.Thrown? ==> Reaches(Next(w), key, r.missing) && Unreadable(w, r.missing)
    ensures r.Exhausted? <==> forall k | Reaches(Next(w), key, k) :: !Declares(w, k) && !Unreadable(w, k)
    ensures (forall k | Reaches(Next(w), key, k) :: !Unreadable(w, k)) ==>
              (r.Hit? <==> exists k :: Reaches(Next(w), key, k) && Declares(w, k))
  {
    var seen;
    PlacesAreClosed(w, key);
    r, seen := FindExported(w, key, {}, Places(w, key));
    if r.Exhausted? {
      forall k | k in seen ensures Next(w)(k) <= seen { assert Finished(w, k, seen); }
      ClosedContainsReachable(Next(w), seen, key);
      forall k | Reaches(Next(w), key, k) ensures !Declares(w, k) && !Unreadable(w, k) { assert Finished(w, k, seen); }
    }
  }
}
