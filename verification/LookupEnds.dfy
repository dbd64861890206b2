/** When the schema-path lookup (`scripts/gen-config-catalog.ts`) ends, and how deep its calls nest. */
module LookupEnds {
  import opened Collections
  import opened Wrappers
  import opened TypeLookup

  // ---------- how much stack is enough ----------

  ghost function Size(typ: Type): nat
    decreases typ
  {
    match typ
    case Literal(members) => 1 + MembersSize(members)
    case Wrapped(inner) => 1 + Size(inner)
    case KeyOf(inner) => 1 + Size(inner)
    case Intersection(parts) => 1 + TypesSize(parts)
    case Union(parts) => 1 + TypesSize(parts)
    case ArrayOf(element) => 1 + Size(element)
    case Indexed(owner, _) => 1 + Size(owner)
    case Reference(_, _, arguments) => 1 + TypesSize(arguments)
    case Opaque => 1
  }

  ghost function TypesSize(types: seq<Type>): nat
    decreases types
  {
    if types == [] then 0 else Size(types[0]) + TypesSize(types[1..])
  }

  ghost function PropertySize(m: Property): nat
    decreases m, 1
  {
    if m.Signature? && m.typ.Some? then Size(m.typ.value) else 0
  }

  ghost function MembersSize(members: seq<Property>): nat
    decreases members
  {
    if members == [] then 0 else PropertySize(members[0]) + MembersSize(members[1..])
  }

  ghost function DeclSize(decl: Decl): nat {
    match decl
    case Alias(typ) => Size(typ)
    case Enum => 0
    case Interface(members, _) => MembersSize(members)
  }

  ghost function NodeSize(node: Node): nat {
    match node
    case TypeIn(_, typ) => Size(typ)
    case Declaration(_) => 0
  }

  lemma {:induction false} PartSize(types: seq<Type>, i: nat)
    requires i < |types|
    ensures Size(types[i]) <= TypesSize(types)
  {
    if i > 0 { PartSize(types[1..], i - 1); }
  }

  lemma {:induction false} SignatureSize(members: seq<Property>, name: string)
    ensures var m := FindSignature(members, name);
            m.Some? && m.value.typ.Some? ==> Size(m.value.typ.value) <= MembersSize(members)
  {
    if members != [] { SignatureSize(members[1..], name); }
  }

  ghost function Keys(w: World, bound: nat): set<Key> {
    set id, n | id in w.decls.Keys && 0 <= n <= bound :: Key(id, n)
  }

  ghost function Unseen(w: World, bound: nat, seen: set<Key>): nat {
    |Keys(w, bound) - seen|
  }

  ghost predicate DeclsFit(w: World, largest: nat) {
    forall id | id in w.decls :: DeclSize(w.decls[id].1) <= largest
  }

  /** Enough stack: unseen keys first, then the size of the type still to descend. */
  ghost function StackNeed(w: World, bound: nat, largest: nat, seen: set<Key>, node: Node): nat {
    Unseen(w, bound, seen) * (largest + 1) + NodeSize(node) + 1
  }

  lemma MoreSeen(w: World, bound: nat, largest: nat, seen: set<Key>, more: set<Key>, node: Node)
    requires seen <= more
    ensures StackNeed(w, bound, largest, more, node) <= StackNeed(w, bound, largest, seen, node)
  {
    SubsetSize(Keys(w, bound) - more, Keys(w, bound) - seen);
    MulMonotone(Unseen(w, bound, more), Unseen(w, bound, seen), largest + 1);
  }

  lemma MulMonotone(a: nat, b: nat, c: nat)
    requires a <= b
    ensures a * c <= b * c
  {
  }

  lemma NewKeySeen(w: World, bound: nat, largest: nat, seen: set<Key>, id: DeclId, n: nat, size: nat)
    requires id in w.decls && n <= bound && Key(id, n) !in seen && size <= largest
    ensures Unseen(w, bound, seen + {Key(id, n)}) * (largest + 1) + size + 1 <= Unseen(w, bound, seen) * (largest + 1)
  {
    var rest := Keys(w, bound) - (seen + {Key(id, n)});
    assert Keys(w, bound) - seen == rest + {Key(id, n)};
    assert Unseen(w, bound, seen) == |rest| + 1;
    assert (|rest| + 1) * (largest + 1) == |rest| * (largest + 1) + largest + 1;
  }

  /** Within a type, plans ask smaller types, or declarations. */
  lemma TypeAsksSmaller(w: World, q: Query, m: Query)
    requires q.node.TypeIn? && Asks(w, q, m)
    ensures NodeSize(m.node) < NodeSize(q.node)
  {
    match q.node.typ
    case Literal(members) => SignatureSize(members, q.steps[0].name);
    case Intersection(parts) => SomePartSize(q.node.file, parts, m.node);
    case Union(parts) => SomePartSize(q.node.file, parts, m.node);
    case Reference(_, _, arguments) => if arguments != [] { PartSize(arguments, 0); }
    case Wrapped(_) =>
    case KeyOf(_) =>
    case ArrayOf(_) =>
    case Indexed(_, _) =>
    case Opaque =>
  }

  lemma SomePartSize(file: FileId, parts: seq<Type>, node: Node)
    requires Some(node) in PartNodes(file, parts)
    ensures NodeSize(node) <= TypesSize(parts)
  {
    var i :| 0 <= i < |parts| && PartNodes(file, parts)[i] == Some(node);
    PartSize(parts, i);
  }

  /** A declaration asks the types in it, or other declarations. */
  lemma DeclarationAsksFitting(w: World, q: Query, m: Query)
    requires q.node.Declaration? && Asks(w, q, m)
    ensures Guarded(w, q.node) && NodeSize(m.node) <= DeclSize(w.decls[q.node.id].1)
  {
    match w.decls[q.node.id].1
    case Interface(members, _) => if q.steps[0].Member? { SignatureSize(members, q.steps[0].name); }
    case Alias(_) =>
    case Enum =>
  }

  /** What a plan asks needs less stack, as the visited set has grown or the type is smaller. */
  lemma AskedNeedsLess(w: World, bound: nat, largest: nat, q: Query, m: Query, seen: set<Key>)
    requires DeclsFit(w, largest) && Asks(w, q, m) && |q.steps| <= bound && !Stops(w, q.node, q.steps, seen)
    ensures var grown := Grown(w, q.node, q.steps, seen);
            StackNeed(w, bound, largest, grown, m.node) < StackNeed(w, bound, largest, seen, q.node)
  {
    match q.node
    case TypeIn(_, _) => TypeAsksSmaller(w, q, m);
    case Declaration(id) =>
      DeclarationAsksFitting(w, q, m);
      NewKeySeen(w, bound, largest, seen, id, |q.steps|, NodeSize(m.node));
  }

  // ---------- closed sets of queries ----------

  /** Plans do not lead out of the set, and its paths are at most `bound` long. */
  ghost predicate Closed(w: World, queries: iset<Query>, bound: nat) {
    (forall q | q in queries :: |q.steps| <= bound) &&
    forall q, m | q in queries && Asks(w, q, m) :: m in queries
  }

  /** The lookup answers, and has visited no less than before. */
  ghost predicate Ends(w: World, q: Query, seen: set<Key>, stack: nat) {
    var r := Lookup(w, q.node, q.steps, seen, stack);
    r.Answer? && seen <= r.seen
  }

  ghost predicate AllEnd(w: World, nodes: seq<Option<Node>>, steps: seq<Step>, seen: set<Key>, stack: nat) {
    var r := LookupAll(w, nodes, steps, seen, stack);
    r.Answers? && seen <= r.seen
  }

  lemma EndsAtOnce(w: World, q: Query, seen: set<Key>, stack: nat)
    requires stack > 0 && (q.steps == [] || Stops(w, q.node, q.steps, seen) || PlanNode(w, q.node, q.steps).Now?)
    ensures Ends(w, q, seen, stack)
  {
  }

  lemma EndsByPlan(w: World, q: Query, seen: set<Key>, stack: nat)
    requires stack > 0 && q.steps != [] && !Stops(w, q.node, q.steps, seen)
    requires var grown := Grown(w, q.node, q.steps, seen);
             match PlanNode(w, q.node, q.steps)
             case Now(_) => true
             case As(next, rest) => Ends(w, Query(next, rest), grown, stack - 1)
             case AnyOf(nodes) => AllEnd(w, nodes, q.steps, grown, stack - 1)
             case EachOf(nodes) => AllEnd(w, nodes, q.steps, grown, stack - 1)
    ensures Ends(w, q, seen, stack)
  {
    assert seen <= Grown(w, q.node, q.steps, seen);
  }

  /** Every query of a closed set is answered, within a stack that depends only on the world and the longest path. */
  lemma {:induction false} ClosedEnds(w: World, queries: iset<Query>, bound: nat, largest: nat, q: Query,
                                      seen: set<Key>, stack: nat)
    requires Closed(w, queries, bound) && DeclsFit(w, largest) && q in queries
    requires StackNeed(w, bound, largest, seen, q.node) <= stack
    ensures Ends(w, q, seen, stack)
    decreases stack, 0, 0
  {
    hide DeclsFit, StackNeed, Lookup, LookupAll, Stops, Grown, PlanNode, Ends, AllEnd;
    NeedPositive(w, bound, largest, seen, q.node);
    if q.steps == [] || Stops(w, q.node, q.steps, seen) || PlanNode(w, q.node, q.steps).Now? {
      EndsAtOnce(w, q, seen, stack);
    } else {
      var grown := Grown(w, q.node, q.steps, seen);
      forall m | Asks(w, q, m) ensures m in queries && StackNeed(w, bound, largest, grown, m.node) <= stack - 1 {
        AskedNeedsLess(w, bound, largest, q, m, seen);
      }
      match PlanNode(w, q.node, q.steps) {
        case Now(_) =>
        case As(next, rest) =>
          assert Asks(w, q, Query(next, rest));
          ClosedEnds(w, queries, bound, largest, Query(next, rest), grown, stack - 1);
        case AnyOf(nodes) =>
          forall n | n in nodes && n.Some? ensures Asks(w, q, Query(n.value, q.steps)) {}
          AllClosedEnd(w, queries, bound, largest, nodes, q.steps, grown, stack - 1);
        case EachOf(nodes) =>
          forall n | n in nodes && n.Some? ensures Asks(w, q, Query(n.value, q.steps)) {}
          AllClosedEnd(w, queries, bound, largest, nodes, q.steps, grown, stack - 1);
      }
      EndsByPlan(w, q, seen, stack);
    }
  }

  lemma NeedPositive(w: World, bound: nat, largest: nat, seen: set<Key>, node: Node)
    ensures StackNeed(w, bound, largest, seen, node) >= 1
  {
  }

  lemma {:induction false} AllClosedEnd(w: World, queries: iset<Query>, bound: nat, largest: nat,
                                        nodes: seq<Option<Node>>, steps: seq<Step>, seen: set<Key>, stack: nat)
    requires Closed(w, queries, bound) && DeclsFit(w, largest)
    requires forall n | n in nodes && n.Some? ::
               Query(n.value, steps) in queries && StackNeed(w, bound, largest, seen, n.value) <= stack
    ensures AllEnd(w, nodes, steps, seen, stack)
    decreases stack, 1, |nodes|
  {
    hide DeclsFit, StackNeed, Closed;
    if nodes != [] {
      var after := seen;
      if nodes[0].Some? {
        ClosedEnds(w, queries, bound, largest, Query(nodes[0].value, steps), seen, stack);
        after := Lookup(w, nodes[0].value, steps, seen, stack).seen;
      }
      forall n | n in nodes[1..] && n.Some?
        ensures Query(n.value, steps) in queries && StackNeed(w, bound, largest, after, n.value) <= stack
      {
        assert n in nodes;
        MoreSeen(w, bound, largest, seen, after, n.value);
      }
      AllClosedEnd(w, queries, bound, largest, nodes[1..], steps, after, stack);
    }
  }

  // ---------- ranked declarations ----------

  /**
   * Every reference the lookup may follow stands for a declaration of rank at most `k`, less the indexed accesses
   * around it, plus the members and array elements it lies in: those take a step off the path.
   */
  ghost predicate Ranked(w: World, rank: map<DeclId, nat>, file: FileId, typ: Type, k: nat)
    decreases typ
  {
    match typ
    case Literal(members) =>
      forall m | m in members && m.Signature? && m.typ.Some? :: Ranked(w, rank, file, m.typ.value, k + 1)
    case Wrapped(inner) => Ranked(w, rank, file, inner, k)
    case KeyOf(inner) => Ranked(w, rank, file, inner, k)
    case Intersection(parts) => forall t | t in parts :: Ranked(w, rank, file, t, k)
    case Union(parts) => forall t | t in parts :: Ranked(w, rank, file, t, k)
    case ArrayOf(element) => Ranked(w, rank, file, element, k + 1)
    case Indexed(owner, index) => index.Some? ==> k >= 1 && Ranked(w, rank, file, owner, k - 1)
    case Reference(head, qualified, arguments) =>
      if head in PASSTHROUGH_WRAPPERS && arguments != [] then Ranked(w, rank, file, arguments[0], k)
      else if head in ARRAY_NAMES && arguments != [] then Ranked(w, rank, file, arguments[0], k + 1)
      else !qualified && (file, head) in w.names ==> RankAtMost(rank, w.names[(file, head)], k)
    case Opaque => true
  }

  ghost predicate RankAtMost(rank: map<DeclId, nat>, id: DeclId, k: nat) {
    id in rank && rank[id] <= k
  }

  ghost predicate RankedDecl(w: World, rank: map<DeclId, nat>, file: FileId, decl: Decl, k: nat) {
    match decl
    case Alias(typ) => Ranked(w, rank, file, typ, k)
    case Enum => true
    case Interface(members, bases) =>
      (forall m | m in members && m.Signature? && m.typ.Some? :: Ranked(w, rank, file, m.typ.value, k + 1)) &&
      (forall b | b in bases && b.Named? && (file, b.name) in w.names :: RankAtMost(rank, w.names[(file, b.name)], k))
  }

  /** No indexed access leads back to the declaration it stands in: ranks fall along indexed accesses. */
  ghost predicate RankedWorld(w: World, rank: map<DeclId, nat>) {
    WellFormed(w) && rank.Keys == w.decls.Keys &&
    forall id | id in w.decls :: RankedDecl(w, rank, w.decls[id].0, w.decls[id].1, rank[id])
  }

  ghost predicate RankedNode(w: World, rank: map<DeclId, nat>, node: Node, k: nat) {
    match node
    case TypeIn(file, typ) => Ranked(w, rank, file, typ, k)
    case Declaration(id) => RankAtMost(rank, id, k)
  }

  ghost predicate RankedQuery(w: World, rank: map<DeclId, nat>, bound: nat, q: Query) {
    exists k: nat :: RankedNode(w, rank, q.node, k) && |q.steps| + k <= bound
  }

  ghost function RankedQueries(w: World, rank: map<DeclId, nat>, bound: nat): iset<Query> {
    iset q | RankedQuery(w, rank, bound, q)
  }

  /** What a ranked node asks is ranked, by so much more as the path gets shorter. */
  lemma TypeAsksRanked(w: World, rank: map<DeclId, nat>, q: Query, m: Query, k: nat)
    requires q.node.TypeIn? && RankedNode(w, rank, q.node, k) && Asks(w, q, m)
    ensures |m.steps| <= |q.steps| + k && RankedNode(w, rank, m.node, |q.steps| + k - |m.steps|)
  {
    match q.node.typ
    case Literal(_) =>
    case Intersection(_) =>
    case Union(_) =>
    case Reference(_, _, _) =>
    case Wrapped(_) =>
    case KeyOf(_) =>
    case ArrayOf(_) =>
    case Indexed(_, _) =>
    case Opaque =>
  }

  lemma DeclarationAsksRanked(w: World, rank: map<DeclId, nat>, q: Query, m: Query)
    requires RankedWorld(w, rank) && q.node.Declaration? && q.node.id in w.decls && Asks(w, q, m)
    ensures |m.steps| <= |q.steps| && RankedNode(w, rank, m.node, rank[q.node.id] + |q.steps| - |m.steps|)
  {
    var (file, decl) := w.decls[q.node.id];
    assert RankedDecl(w, rank, file, decl, rank[q.node.id]);
    if decl.Interface? && PlanDecl(w, file, decl, q.steps).AnyOf? {
      var i :| 0 <= i < |decl.bases| && BaseNodes(w, file, decl.bases)[i] == Some(m.node);
      assert decl.bases[i] in decl.bases;
    }
  }

  lemma RankedIsClosed(w: World, rank: map<DeclId, nat>, bound: nat)
    requires RankedWorld(w, rank)
    ensures Closed(w, RankedQueries(w, rank, bound), bound)
  {
    forall q, m | q in RankedQueries(w, rank, bound) && Asks(w, q, m) ensures RankedQuery(w, rank, bound, m) {
      var k: nat :| RankedNode(w, rank, q.node, k) && |q.steps| + k <= bound;
      if q.node.TypeIn? {
        TypeAsksRanked(w, rank, q, m, k);
      } else {
        DeclarationAsksRanked(w, rank, q, m);
      }
    }
  }

  /** The lookup of a schema path on a declaration of a ranked world ends with an answer, given enough stack. */
  lemma RankedLookupEnds(w: World, rank: map<DeclId, nat>, id: DeclId, steps: seq<Step>, largest: nat, stack: nat)
    requires RankedWorld(w, rank) && DeclsFit(w, largest) && id in w.decls
    requires StackNeed(w, |steps| + rank[id], largest, {}, Declaration(id)) <= stack
    ensures Lookup(w, Declaration(id), steps, {}, stack).Answer?
  {
    var bound, q := |steps| + rank[id], Query(Declaration(id), steps);
    hide RankedWorld, DeclsFit, StackNeed, Closed, Lookup;
    RankedIsClosed(w, rank, bound);
    assert RankedNode(w, rank, q.node, rank[id]);
    ClosedEnds(w, RankedQueries(w, rank, bound), bound, largest, q, {}, stack);
  }

  // ---------- indexed access ----------

  /** `interface Node { value: …; copy: Node['value'] }`: an interface that indexes itself inside a member. */
  function SelfIndexWorld(): World {
    World(map[0 := (0, Interface([Signature("value", "value", Some(Opaque)),
                                  Signature("copy", "copy",
                                    Some(Indexed(Reference("Node", false, []), Some("value"))))], []))],
          map[(0, "Node") := 0])
  }

  lemma SelfIndexRanked()
    ensures RankedWorld(SelfIndexWorld(), map[0 := 0])
  {
    var w := SelfIndexWorld();
    assert w.decls[0].1.Interface?;
    assert Ranked(w, map[0 := 0], 0, Reference("Node", false, []), 0);
    assert Ranked(w, map[0 := 0], 0, Indexed(Reference("Node", false, []), Some("value")), 1);
  }

  /** It is ranked, so every lookup on it ends. */
  lemma SelfIndexEnds(steps: seq<Step>)
    ensures RankedWorld(SelfIndexWorld(), map[0 := 0])
    ensures exists stack :: Lookup(SelfIndexWorld(), Declaration(0), steps, {}, stack).Answer?
  {
    hide RankedWorld, Lookup, StackNeed, DeclSize;
    SelfIndexRanked();
    var w := SelfIndexWorld();
    var largest := DeclSize(w.decls[0].1);
    RankedLookupEnds(w, map[0 := 0], 0, steps, largest, StackNeed(w, |steps|, largest, {}, Declaration(0)));
  }

  /** `interface Node { value: { x: … }; copy: Node['value']['x'] }`. */
  function DoubleIndexWorld(): World {
    var members := [Signature("value", "value", Some(VALUE)), Signature("copy", "copy", Some(COPY))];
    World(map[0 := (0, Interface(members, []))], map[(0, "Node") := 0])
  }

  const VALUE: Type := Literal([Signature("x", "x", Some(Opaque))])
  const OWNER: Type := Indexed(Reference("Node", false, []), Some("value"))
  const COPY: Type := Indexed(OWNER, Some("x"))

  /** The queries that paths of at most `n` steps lead to. */
  ghost predicate DoubleIndexQuery(n: nat, q: Query) {
    match q.node
    case Declaration(id) => id == 0 && (|q.steps| <= n || (|q.steps| <= n + 1 && q.steps[0] == Member("value")))
    case TypeIn(file, typ) =>
      file == 0 &&
      ((typ == VALUE && |q.steps| <= n) || (typ == Opaque && |q.steps| <= n) || (typ == COPY && |q.steps| < n) ||
       (typ == OWNER && |q.steps| <= n) ||
       (typ == Reference("Node", false, []) && |q.steps| <= n + 1 && q.steps != [] && q.steps[0] == Member("value")))
  }

  ghost function DoubleIndexQueries(n: nat): iset<Query> {
    iset q | DoubleIndexQuery(n, q)
  }

  lemma DoubleIndexClosed(n: nat)
    ensures Closed(DoubleIndexWorld(), DoubleIndexQueries(n), n + 1)
  {
    var w := DoubleIndexWorld();
    forall q, m | DoubleIndexQuery(n, q) && Asks(w, q, m) ensures DoubleIndexQuery(n, m) { DoubleIndexAsks(n, q, m); }
  }

  lemma DoubleIndexAsks(n: nat, q: Query, m: Query)
    requires DoubleIndexQuery(n, q) && Asks(DoubleIndexWorld(), q, m)
    ensures DoubleIndexQuery(n, m)
  {
    assert |"value"| != |"copy"|;
  }

  /** Every lookup on it ends as well. */
  lemma DoubleIndexEnds(steps: seq<Step>)
    ensures exists stack :: Lookup(DoubleIndexWorld(), Declaration(0), steps, {}, stack).Answer?
  {
    hide Lookup, StackNeed, DeclSize;
    var w, q, n := DoubleIndexWorld(), Query(Declaration(0), steps), |steps|;
    var largest := DeclSize(w.decls[0].1);
    DoubleIndexClosed(n);
    var stack := StackNeed(w, n + 1, largest, {}, q.node);
    ClosedEnds(w, DoubleIndexQueries(n), n + 1, largest, q, {}, stack);
  }

  /** Although it has no ranking. */
  lemma DoubleIndexHasNoRank(rank: map<DeclId, nat>)
    ensures !RankedWorld(DoubleIndexWorld(), rank)
  {
    var w := DoubleIndexWorld();
    if 0 in rank {
      var members := w.decls[0].1.members;
      assert !Ranked(w, rank, 0, OWNER, rank[0]);
      assert members[1] in members && !Ranked(w, rank, 0, COPY, rank[0] + 1);
      assert !RankedDecl(w, rank, 0, w.decls[0].1, rank[0]);
    }
  }

  /** `type T = T['a']`: each indexed access asks for a longer path of the same alias. */
  function CircularWorld(): World {
    World(map[0 := (0, Alias(Indexed(Reference("T", false, []), Some("a"))))], map[(0, "T") := 0])
  }

  /** A circular indexed access exhausts every stack. */
  lemma {:induction false} CircularNeverEnds(steps: seq<Step>, seen: set<Key>, stack: nat)
    requires steps != [] && forall key | key in seen :: key.remaining < |steps|
    ensures Lookup(CircularWorld(), Declaration(0), steps, seen, stack) == Overflow
    decreases stack
  {
    var w := CircularWorld();
    if stack >= 3 {
      var grown := seen + {Key(0, |steps|)};
      var longer := [Member("a")] + steps;
      CircularNeverEnds(longer, grown, stack - 3);
      assert Lookup(w, TypeIn(0, Reference("T", false, [])), longer, grown, stack - 2) == Overflow;
      assert Lookup(w, TypeIn(0, Indexed(Reference("T", false, []), Some("a"))), steps, grown, stack - 1) == Overflow;
    } else if stack == 2 {
      assert Lookup(w, TypeIn(0, Indexed(Reference("T", false, []), Some("a"))), steps, seen + {Key(0, |steps|)},
        1) == Overflow;
    }
  }

  lemma CircularHasNoRank(rank: map<DeclId, nat>)
    ensures !RankedWorld(CircularWorld(), rank)
  {
    var w := CircularWorld();
    if 0 in rank {
      assert !Ranked(w, rank, 0, Indexed(Reference("T", false, []), Some("a")), rank[0]);
      assert !RankedDecl(w, rank, 0, w.decls[0].1, rank[0]);
    }
  }
}
