/**
 * The worklist that pastes a config type and the package-local declarations it refers to
 * (`scripts/gen-config-catalog.ts`).
 */
module PasteClosure {
  import opened Wrappers
  import opened Reachability

  datatype File = File(path: string)
  datatype Name = Name(text: string)

  /** An import of a name: package-relative with its target, or from another module. */
  datatype Import =
    | Relative(target: File, explicitExtension: bool, imported: Name)
    | Foreign(specifier: string, imported: Name)

  /** The type names each declaration refers to, and the imports, of one file. */
  datatype Source = Source(declared: map<Name, seq<Name>>, imports: map<Name, Import>)

  type World = map<File, Source>

  /** A declaration, identified by where it stands. */
  datatype Decl = Decl(file: File, name: Name)

  /** What a name stands for: a declaration in the package, an import, nothing, or a chain of imports that
      leaves the readable files or never ends. */
  datatype Resolution = Local(decl: Decl) | Imported(specifier: string, imported: Name) | Unresolved | Throws

  /**
   * `resolveTypeName`: follow package-local imports of the same, unaliased name. Every further call is for the
   * same name in another file, so a file met twice means the calls never end.
   */
  function Resolve(w: World, file: File, name: Name, visited: set<File>): Resolution
    decreases w.Keys - visited
  {
    if file in visited || file !in w then Throws
    else if name in w[file].declared then Local(Decl(file, name))
    else if name !in w[file].imports then Unresolved
    else
      match w[file].imports[name]
      case Foreign(specifier, imported) => Imported(specifier, imported)
      case Relative(target, explicitExtension, imported) =>
        if !explicitExtension || imported != name then Unresolved
        else Resolve(w, target, name, visited + {file})
  }

  /** A local resolution is a declaration of that name in a file of the world. */
  lemma {:induction false} ResolveLocal(w: World, file: File, name: Name, visited: set<File>)
    requires Resolve(w, file, name, visited).Local?
    ensures var d := Resolve(w, file, name, visited).decl;
            d.name == name && d.file in w && name in w[d.file].declared
    decreases w.Keys - visited
  {
    if name !in w[file].declared {
      ResolveLocal(w, w[file].imports[name].target, name, visited + {file});
    }
  }

  // ---------- chains of package-local imports ----------

  /** The file does not declare the name but imports it, by that name and with the extension, from the other one. */
  ghost predicate PassesOn(w: World, name: Name, file: File, next: File) {
    file in w && name !in w[file].declared && name in w[file].imports &&
    w[file].imports[name] == Relative(next, true, name)
  }

  /** What the name stands for in the file itself, without following an import into the package. */
  ghost predicate MeansHere(w: World, name: Name, file: File, r: Resolution) {
    file in w &&
    match r
    case Local(d) => name in w[file].declared && d == Decl(file, name)
    case Imported(specifier, imported) =>
      name !in w[file].declared && name in w[file].imports && w[file].imports[name] == Foreign(specifier, imported)
    case Unresolved =>
      name !in w[file].declared && (name in w[file].imports ==> w[file].imports[name].Relative?) &&
      forall next :: !PassesOn(w, name, file, next)
    case Throws => false
  }

  /** A chain of `n` imports within the package leads to a file where the name means `r`. */
  ghost predicate Stands(w: World, name: Name, file: File, r: Resolution, n: nat)
    decreases n
  {
    if n == 0 then MeansHere(w, name, file, r)
    else exists next :: PassesOn(w, name, file, next) && Stands(w, name, next, r, n - 1)
  }

  lemma {:induction false} OneLength(w: World, name: Name, file: File, r: Resolution, n: nat, m: nat)
    requires Stands(w, name, file, r, n) && Stands(w, name, file, r, m)
    ensures n == m
    decreases n
  {
    if n > 0 {
      var next :| PassesOn(w, name, file, next) && Stands(w, name, next, r, n - 1);
      assert m > 0;
      OneLength(w, name, next, r, n - 1, m - 1);
    }
  }

  lemma {:induction false} StandsResolves(w: World, name: Name, file: File, r: Resolution, n: nat, visited: set<File>)
    requires Stands(w, name, file, r, n) && forall v, m: nat | v in visited && Stands(w, name, v, r, m) :: m > n
    ensures Resolve(w, file, name, visited) == r
    decreases n
  {
    assert file !in visited;
    if n == 0 {
      if name in w[file].imports && w[file].imports[name].Relative? {
        assert r.Unresolved? ==> !PassesOn(w, name, file, w[file].imports[name].target);
      }
    } else {
      var next :| PassesOn(w, name, file, next) && Stands(w, name, next, r, n - 1);
      forall v, m: nat | v in visited + {file} && Stands(w, name, v, r, m) ensures m > n - 1 {
        if v == file { OneLength(w, name, file, r, n, m); }
      }
      StandsResolves(w, name, next, r, n - 1, visited + {file});
    }
  }

  lemma ResolvedHere(w: World, name: Name, file: File, visited: set<File>)
    requires !Resolve(w, file, name, visited).Throws? && forall next :: !PassesOn(w, name, file, next)
    ensures MeansHere(w, name, file, Resolve(w, file, name, visited))
  {
    if name !in w[file].declared && name in w[file].imports && w[file].imports[name].Relative? {
      assert !PassesOn(w, name, file, w[file].imports[name].target);
    }
  }

  lemma {:induction false} ResolveStands(w: World, name: Name, file: File, visited: set<File>)
    requires !Resolve(w, file, name, visited).Throws?
    ensures exists n: nat :: Stands(w, name, file, Resolve(w, file, name, visited), n)
    decreases w.Keys - visited
  {
    var r := Resolve(w, file, name, visited);
    if next :| PassesOn(w, name, file, next) {
      assert name !in w[file].declared && w[file].imports[name] == Relative(next, true, name);
      ResolveStands(w, name, next, visited + {file});
      var n: nat :| Stands(w, name, next, r, n);
      assert Stands(w, name, file, r, n + 1);
    } else {
      ResolvedHere(w, name, file, visited);
      assert Stands(w, name, file, r, 0);
    }
  }

  /**
   * A name resolves to a declaration, an import or nothing exactly when a chain of package-local imports of the same
   * name leads to a file where it means that; else the chain leaves the readable files or never ends.
   */
  lemma ResolvesExactly(w: World, name: Name, file: File, r: Resolution)
    requires !r.Throws?
    ensures Resolve(w, file, name, {}) == r <==> exists n: nat :: Stands(w, name, file, r, n)
  {
    if n: nat :| Stands(w, name, file, r, n) { StandsResolves(w, name, file, r, n, {}); }
    if Resolve(w, file, name, {}) == r { ResolveStands(w, name, file, {}); }
  }

  /** A name to be resolved as seen from a file. */
  datatype Item = Item(name: Name, from: File)

  function ResolveItem(w: World, item: Item): Resolution {
    Resolve(w, item.from, item.name, {})
  }

  /** The items the mentions of a declaration put on the queue; known globals are skipped. */
  function Queued(names: seq<Name>, file: File, globals: set<Name>): (items: seq<Item>)
    ensures forall i :: i in items <==> i.from == file && i.name in names && i.name !in globals
  {
    if names == [] then []
    else
      var n := |names| - 1;
      assert names == names[..n] + [names[n]];
      Queued(names[..n], file, globals) + (if names[n] in globals then [] else [Item(names[n], file)])
  }

  function ItemsOf(w: World, d: Decl, globals: set<Name>): seq<Item> {
    if d.file in w && d.name in w[d.file].declared then Queued(w[d.file].declared[d.name], d.file, globals) else []
  }

  ghost function Next(w: World, globals: set<Name>): Item -> set<Item> {
    (item: Item) => var r := ResolveItem(w, item); if r.Local? then set i | i in ItemsOf(w, r.decl, globals) else {}
  }

  ghost predicate Needed(w: World, globals: set<Name>, root: Item, item: Item) {
    Reaches(Next(w, globals), root, item)
  }

  /**
   * The fence has one meaning for each name it uses: the config type is declared in the package, every needed
   * name resolves, and the same name always to the same thing.
   */
  ghost predicate Unambiguous(w: World, globals: set<Name>, root: Item) {
    ResolveItem(w, root).Local? &&
    (forall i | Needed(w, globals, root, i) :: ResolveItem(w, i).Local? || ResolveItem(w, i).Imported?) &&
    (forall i, j | Needed(w, globals, root, i) && Needed(w, globals, root, j) && i.name == j.name ::
       ResolveItem(w, i) == ResolveItem(w, j))
  }

  /** The declarations that needed names stand for. */
  ghost predicate NeededDecl(w: World, globals: set<Name>, root: Item, d: Decl) {
    exists i :: Needed(w, globals, root, i) && ResolveItem(w, i) == Local(d)
  }

  // ---------- the walk ----------

  datatype Violation = Violation(item: Item)

  datatype Walk = Walk(pasted: map<Name, Decl>, pastes: seq<Decl>, refs: map<Name, Resolution>,
                       queue: seq<Item>, violations: seq<Violation>)

  ghost predicate Bound(s: Walk, name: Name, r: Resolution) {
    (r.Local? && name in s.pasted && s.pasted[name] == r.decl) || (r.Imported? && name in s.refs && s.refs[name] == r)
  }

  /** Names are bound once; the pastes list the bound declarations without repetition. */
  ghost predicate Bindings(s: Walk) {
    s.pasted.Keys !! s.refs.Keys &&
    (forall n | n in s.pasted :: s.pasted[n].name == n && s.pasted[n] in s.pastes) &&
    (forall d | d in s.pastes :: d.name in s.pasted && s.pasted[d.name] == d) &&
    (forall i, j | 0 <= i < j < |s.pastes| :: s.pastes[i] != s.pastes[j]) &&
    (forall n | n in s.refs :: s.refs[n].Imported?)
  }

  /** Every binding was made for a needed item. */
  ghost predicate Justified(w: World, globals: set<Name>, root: Item, s: Walk) {
    forall n, r | Bound(s, n, r) :: JustifiedBinding(w, globals, root, n, r)
  }

  ghost predicate JustifiedBinding(w: World, globals: set<Name>, root: Item, n: Name, r: Resolution) {
    exists i: Item :: i.name == n && Needed(w, globals, root, i) && ResolveItem(w, i) == r
  }

  /** The processed items are bound, and what pasted declarations mention is processed or queued. */
  ghost predicate Covered(w: World, globals: set<Name>, s: Walk, done: set<Item>) {
    (forall i | i in done :: Bound(s, i.name, ResolveItem(w, i))) &&
    (forall d, i | d in s.pastes && i in ItemsOf(w, d, globals) :: i in done || i in s.queue)
  }

  /** Processed and queued items are needed, and the root is among them. */
  ghost predicate OnlyNeeded(w: World, globals: set<Name>, root: Item, s: Walk, done: set<Item>) {
    (root in done || root in s.queue) && forall i | i in done || i in s.queue :: Needed(w, globals, root, i)
  }

  ghost predicate Invariant(w: World, globals: set<Name>, root: Item, s: Walk, done: set<Item>) {
    Bindings(s) && Justified(w, globals, root, s) && root.name !in s.refs && OnlyNeeded(w, globals, root, s, done) &&
    (s.violations == [] ==> Covered(w, globals, s, done)) &&
    (s.violations != [] ==> !Unambiguous(w, globals, root))
  }

  /** A finite bound on the names that can be queued. */
  ghost predicate NameBound(w: World, names: set<Name>) {
    forall f, n, m | f in w && n in w[f].declared && m in w[f].declared[n] :: m in names
  }

  ghost function Mentioned(w: World, root: Item): set<Name> {
    {root.name} + set f, n, m | f in w && n in w[f].declared && m in w[f].declared[n] :: m
  }

  // what one iteration does to the walk

  ghost function Rest(s: Walk): Walk
    requires s.queue != []
  {
    s.(queue := s.queue[1..])
  }

  ghost function Reject(s: Walk): Walk
    requires s.queue != []
  {
    Rest(s).(violations := s.violations + [Violation(s.queue[0])])
  }

  ghost function PasteHead(w: World, globals: set<Name>, s: Walk, d: Decl): Walk
    requires s.queue != []
  {
    s.(queue := s.queue[1..] + ItemsOf(w, d, globals), pasted := s.pasted[s.queue[0].name := d],
      pastes := s.pastes + [d])
  }

  ghost function BindHead(s: Walk, r: Resolution): Walk
    requires s.queue != []
  {
    s.(queue := s.queue[1..], refs := s.refs[s.queue[0].name := r])
  }

  lemma QueueHead(s: Walk)
    requires s.queue != []
    ensures forall i :: i in s.queue <==> i == s.queue[0] || i in s.queue[1..]
  {
  }

  /** `t` takes the head off `s`, binds its name as it resolves, and adds pastes with the items they mention. */
  ghost predicate Binds(w: World, globals: set<Name>, s: Walk, t: Walk, added: seq<Decl>) {
    s.queue != [] && Bindings(t) && t.violations == s.violations && t.pastes == s.pastes + added &&
    (forall n, q :: Bound(t, n, q) <==> Bound(s, n, q) || (n == s.queue[0].name && q == ResolveItem(w, s.queue[0]))) &&
    Bound(t, s.queue[0].name, ResolveItem(w, s.queue[0])) &&
    (forall d | d in added :: ResolveItem(w, s.queue[0]) == Local(d)) &&
    (forall i :: i in t.queue <==> i in s.queue[1..] || exists d | d in added :: i in ItemsOf(w, d, globals))
  }

  lemma CoveredStep(w: World, globals: set<Name>, s: Walk, t: Walk, added: seq<Decl>, done: set<Item>)
    requires Covered(w, globals, s, done) && Binds(w, globals, s, t, added)
    ensures Covered(w, globals, t, done + {s.queue[0]})
  {
    QueueHead(s);
    forall d, i | d in t.pastes && i in ItemsOf(w, d, globals) ensures i in done + {s.queue[0]} || i in t.queue {
      if d in s.pastes { assert i in done || i in s.queue; }
    }
  }

  lemma NeededStep(w: World, globals: set<Name>, root: Item, s: Walk, t: Walk, added: seq<Decl>, done: set<Item>)
    requires OnlyNeeded(w, globals, root, s, done) && Binds(w, globals, s, t, added)
    ensures OnlyNeeded(w, globals, root, t, done + {s.queue[0]})
  {
    QueueHead(s);
    var head := s.queue[0];
    forall d, i | d in added && i in ItemsOf(w, d, globals) ensures Needed(w, globals, root, i) {
      assert Needed(w, globals, root, head);
      assert i in Next(w, globals)(head);
      ReachesFurther(Next(w, globals), root, head, i);
    }
  }

  lemma JustifiedStep(w: World, globals: set<Name>, root: Item, s: Walk, t: Walk, added: seq<Decl>)
    requires Justified(w, globals, root, s) && Binds(w, globals, s, t, added) && Needed(w, globals, root, s.queue[0])
    ensures Justified(w, globals, root, t)
  {
  }

  lemma StepKeeps(w: World, globals: set<Name>, root: Item, s: Walk, t: Walk, added: seq<Decl>, done: set<Item>)
    requires Invariant(w, globals, root, s, done) && Binds(w, globals, s, t, added) && root.name !in t.refs
    ensures Invariant(w, globals, root, t, done + {s.queue[0]})
  {
    JustifiedStep(w, globals, root, s, t, added);
    NeededStep(w, globals, root, s, t, added, done);
    if s.violations == [] { CoveredStep(w, globals, s, t, added, done); }
  }

  /** The head's name is bound as it resolves: nothing to do. */
  lemma SkipKeeps(w: World, globals: set<Name>, root: Item, s: Walk, done: set<Item>)
    requires s.queue != [] && Invariant(w, globals, root, s, done)
    requires Bound(s, s.queue[0].name, ResolveItem(w, s.queue[0]))
    ensures Invariant(w, globals, root, Rest(s), done + {s.queue[0]})
  {
    assert Binds(w, globals, s, Rest(s), []);
    StepKeeps(w, globals, root, s, Rest(s), [], done);
  }

  lemma BindKeeps(w: World, globals: set<Name>, root: Item, s: Walk, done: set<Item>)
    requires s.queue != [] && Invariant(w, globals, root, s, done)
    requires var head := s.queue[0]; var r := ResolveItem(w, head);
             r.Imported? && head.name != root.name && head.name !in s.pasted &&
               (head.name in s.refs ==> s.refs[head.name] == r)
    ensures Invariant(w, globals, root, BindHead(s, ResolveItem(w, s.queue[0])), done + {s.queue[0]})
  {
    var t := BindHead(s, ResolveItem(w, s.queue[0]));
    assert Bindings(t);
    assert Binds(w, globals, s, t, []);
    StepKeeps(w, globals, root, s, t, [], done);
  }

  lemma PasteKeeps(w: World, globals: set<Name>, root: Item, s: Walk, done: set<Item>, d: Decl)
    requires s.queue != [] && Invariant(w, globals, root, s, done)
    requires var head := s.queue[0];
             ResolveItem(w, head) == Local(d) && d.name == head.name && d.name !in s.pasted && d.name !in s.refs
    ensures Invariant(w, globals, root, PasteHead(w, globals, s, d), done + {s.queue[0]})
  {
    var t := PasteHead(w, globals, s, d);
    assert d !in s.pastes;
    assert Bindings(t);
    assert Binds(w, globals, s, t, [d]) by {
      assert forall i :: i in t.queue <==> i in s.queue[1..] || i in ItemsOf(w, d, globals);
      assert forall i :: (exists e | e in [d] :: i in ItemsOf(w, e, globals)) <==> i in ItemsOf(w, d, globals) by {
        assert d in [d];
      }
    }
    StepKeeps(w, globals, root, s, t, [d], done);
  }

  /** The head is in conflict with what it must agree with: the violation is real. */
  lemma RejectKeeps(w: World, globals: set<Name>, root: Item, s: Walk, done: set<Item>, other: Resolution)
    requires s.queue != [] && Invariant(w, globals, root, s, done)
    requires var head := s.queue[0]; var r := ResolveItem(w, head);
             !(r.Local? || r.Imported?) || (Bound(s, head.name, other) && other != r) ||
               (r.Imported? && head.name == root.name)
    ensures Invariant(w, globals, root, Reject(s), done + {s.queue[0]})
  {
    var head := s.queue[0];
    QueueHead(s);
    assert forall n, q :: Bound(Reject(s), n, q) <==> Bound(s, n, q);
    Conflict(w, globals, root, s, head, other);
  }

  lemma Conflict(w: World, globals: set<Name>, root: Item, s: Walk, head: Item, other: Resolution)
    requires Justified(w, globals, root, s) && Needed(w, globals, root, head)
    requires var r := ResolveItem(w, head);
             !(r.Local? || r.Imported?) || (Bound(s, head.name, other) && other != r) ||
               (r.Imported? && head.name == root.name)
    ensures !Unambiguous(w, globals, root)
  {
    var r := ResolveItem(w, head);
    ReachesItself(Next(w, globals), root);
    assert Needed(w, globals, root, root);
    if Bound(s, head.name, other) && other != r {
      assert JustifiedBinding(w, globals, root, head.name, other);
    }
  }

  /** Everything needed was processed. */
  lemma AllProcessed(w: World, globals: set<Name>, root: Item, s: Walk, done: set<Item>)
    requires Covered(w, globals, s, done) && s.queue == [] && root in done && Bindings(s)
    ensures forall i | Needed(w, globals, root, i) :: i in done
  {
    var next := Next(w, globals);
    forall i | i in done ensures next(i) <= done {
      NextProcessed(w, globals, s, done, i);
    }
    ClosedContainsReachable(next, done, root);
  }

  lemma NextProcessed(w: World, globals: set<Name>, s: Walk, done: set<Item>, i: Item)
    requires Covered(w, globals, s, done) && s.queue == [] && i in done && Bindings(s)
    ensures Next(w, globals)(i) <= done
  {
    assert Bound(s, i.name, ResolveItem(w, i));
  }

  /** An exhausted queue without violations: what was processed is exactly what is needed. */
  lemma WalkDone(w: World, globals: set<Name>, root: Item, s: Walk, done: set<Item>)
    requires Invariant(w, globals, root, s, done) && s.queue == []
    ensures s.violations == [] <==> Unambiguous(w, globals, root)
    ensures s.violations == [] ==> forall d :: d in s.pastes <==> NeededDecl(w, globals, root, d)
    ensures s.violations == [] ==>
              forall i | Needed(w, globals, root, i) :: Bound(s, i.name, ResolveItem(w, i))
  {
    if s.violations == [] {
      AllProcessed(w, globals, root, s, done);
      BoundIsUnambiguous(w, globals, root, s);
      forall d ensures d in s.pastes <==> NeededDecl(w, globals, root, d) {
        PastedIsNeeded(w, globals, root, s, d);
      }
    }
  }

  lemma BoundIsUnambiguous(w: World, globals: set<Name>, root: Item, s: Walk)
    requires Bindings(s) && root.name !in s.refs
    requires forall i | Needed(w, globals, root, i) :: Bound(s, i.name, ResolveItem(w, i))
    ensures Unambiguous(w, globals, root)
  {
    ReachesItself(Next(w, globals), root);
    assert Needed(w, globals, root, root);
  }

  lemma PastedIsNeeded(w: World, globals: set<Name>, root: Item, s: Walk, d: Decl)
    requires Bindings(s) && Justified(w, globals, root, s)
    requires forall i | Needed(w, globals, root, i) :: Bound(s, i.name, ResolveItem(w, i))
    ensures d in s.pastes <==> NeededDecl(w, globals, root, d)
  {
    if d in s.pastes {
      assert Bound(s, d.name, Local(d));
      assert JustifiedBinding(w, globals, root, d.name, Local(d));
    }
    if i :| Needed(w, globals, root, i) && ResolveItem(w, i) == Local(d) {
      assert Bound(s, i.name, ResolveItem(w, i));
    }
  }

  /**
   * Paste the config type and the declarations it needs. No violation is reported exactly when the fence is
   * unambiguous; then the pastes are exactly the needed declarations, each once, and every needed name is
   * bound once, to its declaration or to its import.
   */
  method CollectPastes(w: World, globals: set<Name>, root: Item) returns (r: Result<Walk, Item>)
    ensures r.Err? ==> Needed(w, globals, root, r.error) && ResolveItem(w, r.error) == Throws
    ensures r.Ok? ==> Bindings(r.value) && (r.value.violations == [] <==> Unambiguous(w, globals, root))
    ensures r.Ok? && r.value.violations == [] ==> forall d :: d in r.value.pastes <==> NeededDecl(w, globals, root, d)
    ensures r.Ok? && r.value.violations == [] ==>
              forall i | Needed(w, globals, root, i) :: Bound(r.value, i.name, ResolveItem(w, i))
  {
    var pasted: map<Name, Decl> := map[];
    var pastes: seq<Decl> := [];
    var refs: map<Name, Resolution> := map[];
    var queue := [root];
    var violations: seq<Violation> := [];
    ghost var done: set<Item> := {};
    ghost var names := Mentioned(w, root);
    assert NameBound(w, names);
    ReachesItself(Next(w, globals), root);
    while queue != []
      invariant Invariant(w, globals, root, Walk(pasted, pastes, refs, queue, violations), done)
      invariant forall i | i in queue :: i.name in names
      decreases names - pasted.Keys, |queue|
    {
      ghost var s := Walk(pasted, pastes, refs, queue, violations);
      var item := queue[0];
      QueueHead(s);
      var resolved := ResolveItem(w, item);
      queue := queue[1..];
      if resolved.Throws? {
        return Err(item);
      } else if resolved.Unresolved? {
        RejectKeeps(w, globals, root, s, done, resolved);
        violations := violations + [Violation(item)];
      } else if resolved.Imported? {
        if item.name == root.name || item.name in pasted || (item.name in refs && refs[item.name] != resolved) {
          RejectKeeps(w, globals, root, s, done, if item.name in pasted then Local(pasted[item.name])
                                                 else if item.name in refs then refs[item.name] else resolved);
          violations := violations + [Violation(item)];
        } else {
          BindKeeps(w, globals, root, s, done);
          refs := refs[item.name := resolved];
        }
      } else if item.name in pasted && pasted[item.name] == resolved.decl {
        SkipKeeps(w, globals, root, s, done);
      } else if item.name in pasted || item.name in refs {
        RejectKeeps(w, globals, root, s, done,
          if item.name in pasted then Local(pasted[item.name]) else refs[item.name]);
        violations := violations + [Violation(item)];
      } else {
        ResolveLocal(w, item.from, item.name, {});
        PasteKeeps(w, globals, root, s, done, resolved.decl);
        pasted := pasted[item.name := resolved.decl];
        pastes := pastes + [resolved.decl];
        queue := queue + ItemsOf(w, resolved.decl, globals);
      }
      done := done + {item};
    }
    WalkDone(w, globals, root, Walk(pasted, pastes, refs, queue, violations), done);
    r := Ok(Walk(pasted, pastes, refs, queue, violations));
  }

  /**
   * A package may declare a type under the name of a known global. The walk then skips it: the fence comes
   * out without violations, yet a declaration the config type refers to is not pasted.
   */
  lemma GlobalNameIsSkipped()
    ensures var f, config, date := File("index.ts"), Name("Config"), Name("Date");
            var w := map[f := Source(map[config := [date], date := []], map[])];
            Unambiguous(w, {date}, Item(config, f)) && !NeededDecl(w, {date}, Item(config, f), Decl(f, date)) &&
            NeededDecl(w, {}, Item(config, f), Decl(f, date))
  {
    var f, config, date := File("index.ts"), Name("Config"), Name("Date");
    var w := map[f := Source(map[config := [date], date := []], map[])];
    var root := Item(config, f);
    var next := Next(w, {date});
    assert ResolveItem(w, root) == Local(Decl(f, config));
    assert next(root) == {};
    ClosedContainsReachable(next, {root}, root);
    ReachesItself(Next(w, {}), root);
    assert Queued([date], f, {}) == [Item(date, f)] by { assert [date][..0] == []; }
    assert Item(date, f) in Next(w, {})(root);
    ReachesFurther(Next(w, {}), root, root, Item(date, f));
    assert ResolveItem(w, Item(date, f)) == Local(Decl(f, date));
  }

  // ---------- what skipping the known globals costs ----------

  /** No needed declaration mentions a known global's name that its file resolves to a package declaration. */
  ghost predicate GlobalsStayGlobal(w: World, globals: set<Name>, root: Item) {
    forall i, j | Needed(w, globals, root, i) && j in Next(w, {})(i) && j.name in globals :: !ResolveItem(w, j).Local?
  }

  /** Without skipping, the walk would additionally meet only items that bind no package declaration. */
  lemma NeededBeyondSkipping(w: World, globals: set<Name>, root: Item)
    requires GlobalsStayGlobal(w, globals, root)
    ensures forall i | Needed(w, {}, root, i) :: Needed(w, globals, root, i) || !ResolveItem(w, i).Local?
  {
    var p := (i: Item) => Needed(w, globals, root, i) || !ResolveItem(w, i).Local?;
    var all, filtered := Next(w, {}), Next(w, globals);
    ReachesItself(filtered, root);
    forall i, j | p(i) && j in all(i) ensures p(j) {
      assert ResolveItem(w, i).Local? && Needed(w, globals, root, i);
      if j.name !in globals {
        assert j in filtered(i);
        ReachesFurther(filtered, root, i, j);
      }
    }
    ReachableSatisfies(all, root, p);
  }

  lemma NeededWithoutSkipping(w: World, globals: set<Name>, root: Item)
    ensures forall i | Needed(w, globals, root, i) :: Needed(w, {}, root, i) && (i == root || i.name !in globals)
  {
    var p := (i: Item) => Needed(w, {}, root, i) && (i == root || i.name !in globals);
    var all, filtered := Next(w, {}), Next(w, globals);
    ReachesItself(all, root);
    forall i, j | p(i) && j in filtered(i) ensures p(j) {
      assert j in all(i);
      ReachesFurther(all, root, i, j);
    }
    ReachableSatisfies(filtered, root, p);
  }

  lemma HarmfulGlobal(w: World, globals: set<Name>, root: Item, i: Item, j: Item)
    requires root.name !in globals && Needed(w, globals, root, i)
    requires j in Next(w, {})(i) && j.name in globals && ResolveItem(w, j).Local?
    ensures var d := ResolveItem(w, j).decl; NeededDecl(w, {}, root, d) && !NeededDecl(w, globals, root, d)
  {
    var d := ResolveItem(w, j).decl;
    NeededWithoutSkipping(w, globals, root);
    ReachesFurther(Next(w, {}), root, i, j);
    assert Needed(w, {}, root, j);
    ResolveLocal(w, j.from, j.name, {});
    if k :| Needed(w, globals, root, k) && ResolveItem(w, k) == Local(d) {
      ResolveLocal(w, k.from, k.name, {});
    }
  }

  /**
   * Skipping the known globals loses no declaration the config type refers to exactly when none of them is
   * the name of a package declaration where a needed declaration mentions it.
   */
  lemma SkippingGlobalsIsHarmless(w: World, globals: set<Name>, root: Item)
    requires root.name !in globals
    ensures (forall d :: NeededDecl(w, globals, root, d) <==> NeededDecl(w, {}, root, d)) <==>
              GlobalsStayGlobal(w, globals, root)
  {
    if GlobalsStayGlobal(w, globals, root) {
      NeededBeyondSkipping(w, globals, root);
      NeededWithoutSkipping(w, globals, root);
    } else {
      var i, j :| Needed(w, globals, root, i) && j in Next(w, {})(i) && j.name in globals && ResolveItem(w, j).Local?;
      HarmfulGlobal(w, globals, root, i, j);
    }
  }
}
