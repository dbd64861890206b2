/**
 * When the answers of the schema-path lookup (`scripts/gen-config-catalog.ts`) are right: `found` and `missing`
 * against the meaning of the types.
 */
module LookupAnswers {
  import opened Wrappers
  import opened TypeLookup

  /** The query was answered so. */
  ghost predicate Answered(w: World, q: Query, seen: set<Key>, stack: nat, lookup: PathLookup) {
    var r := Lookup(w, q.node, q.steps, seen, stack);
    r.Answer? && r.lookup == lookup
  }

  ghost predicate AnsweredSo(w: World, q: Query, stack: nat, lookup: PathLookup) {
    exists seen :: Answered(w, q, seen, stack, lookup)
  }

  /** Each result of a combination is the answer of its node, for some visited set on the way. */
  lemma {:induction false} ResultOf(w: World, nodes: seq<Option<Node>>, steps: seq<Step>, seen: set<Key>, stack: nat,
                                    i: nat)
    requires i < |nodes| && LookupAll(w, nodes, steps, seen, stack).Answers?
    ensures var result := LookupAll(w, nodes, steps, seen, stack).lookups[i];
            if nodes[i].None? then result == Unknown
            else AnsweredSo(w, Query(nodes[i].value, steps), stack, result)
    decreases |nodes|
  {
    var first := if nodes[0].Some? then Lookup(w, nodes[0].value, steps, seen, stack) else Answer(Unknown, seen);
    if i == 0 {
      if nodes[0].Some? { assert Answered(w, Query(nodes[0].value, steps), seen, stack, first.lookup); }
    } else {
      ResultOf(w, nodes[1..], steps, first.seen, stack, i - 1);
    }
  }

  // ---------- how a query is read ----------

  /** The property signature that the member list of the node has for the next step, by its source text. */
  function ByText(w: World, q: Query): Option<Property> {
    if q.steps != [] && q.steps[0].Member? then FindSignature(MembersOf(w, q.node), q.steps[0].name) else None
  }

  /** The one that declares the next step. */
  function ByName(w: World, q: Query): Option<Property> {
    if q.steps != [] && q.steps[0].Member? then FindNamed(MembersOf(w, q.node), q.steps[0].name) else None
  }

  /** The source text leads to the signature that the name stands for. */
  predicate NamePlain(w: World, q: Query) {
    ByText(w, q) == ByName(w, q)
  }

  /** So it does, or it leads to none where the name ends the path or has no type to look into. */
  predicate NameRead(w: World, q: Query) {
    NamePlain(w, q) || (ByText(w, q).None? && (|q.steps| == 1 || ByName(w, q).value.typ.None?))
  }

  predicate AtKeyOf(q: Query) {
    q.steps != [] && q.node.TypeIn? && q.node.typ.KeyOf?
  }

  /**
   * The lookup overlooks here: it looks through `keyof`, or a member provides the name without a signature of that
   * text.
   */
  ghost predicate Overlooks(w: World, q: Query) {
    AtKeyOf(q) ||
    (q.steps != [] && q.steps[0].Member? && ByText(w, q).None? && Provides(MembersOf(w, q.node), q.steps[0].name))
  }

  ghost predicate AllNamesRead(w: World, q: Query) {
    forall r | Reaches(w, q, r) :: NameRead(w, r)
  }

  ghost predicate NothingOverlooked(w: World, q: Query) {
    forall r | Reaches(w, q, r) :: !Overlooks(w, r)
  }

  /** What holds of all queries reached holds here and behind. */
  lemma ReadBehind(w: World, q: Query, m: Query)
    requires Asks(w, q, m)
    ensures AllNamesRead(w, q) ==> NameRead(w, q) && AllNamesRead(w, m)
    ensures NothingOverlooked(w, q) ==> !Overlooks(w, q) && NothingOverlooked(w, m)
  {
    ReachesItself(w, q);
    forall r | Reaches(w, m, r) ensures Reaches(w, q, r) { ReachesBehind(w, q, m, r); }
  }

  // ---------- `missing` ----------

  /** The query's member list, if it has one, tells what it has for the next step. */
  ghost predicate ReadHere(w: World, q: Query) {
    NameRead(w, q) && !Overlooks(w, q)
  }

  lemma {:induction false} MissingLacks(w: World, q: Query, seen: set<Key>, stack: nat, world: Interpretation,
                                        depth: nat)
    requires AllNamesRead(w, q) && NothingOverlooked(w, q) && Answered(w, q, seen, stack, Missing)
    ensures !Has(w, q.node, q.steps, world, false, depth)
    decreases stack, 0
  {
    ReachesItself(w, q);
    var grown := Grown(w, q.node, q.steps, seen);
    if depth > 0 {
      match PlanNode(w, q.node, q.steps)
      case Now(_) => MissingAtOnce(w, q, world, depth);
      case As(next, rest) =>
        var m := Query(next, rest);
        ReadBehind(w, q, m);
        MissingLacks(w, m, grown, stack - 1, world, depth - 1);
        AsLacks(w, q, m, world, depth);
      case AnyOf(nodes) => PartsMissing(w, q, nodes, seen, stack, world, depth);
      case EachOf(nodes) => PartsMissing(w, q, nodes, seen, stack, world, depth);
    }
  }

  lemma {:induction false} PartsMissing(w: World, q: Query, nodes: seq<Option<Node>>, seen: set<Key>, stack: nat,
                                        world: Interpretation, depth: nat)
    requires AllNamesRead(w, q) && NothingOverlooked(w, q) && Answered(w, q, seen, stack, Missing)
    requires Combines(w, q, nodes) && stack > 0 && depth > 0
    ensures !Has(w, q.node, q.steps, world, false, depth)
    decreases stack - 1, 1
  {
    hide Answered, Reaches, Has, Overlooks, NameRead;
    AllMissing(w, q, seen, stack, nodes);
    forall i | 0 <= i < |nodes| ensures nodes[i].Some? && !Has(w, nodes[i].value, q.steps, world, false, depth - 1) {
      PartMissing(w, q, nodes, Grown(w, q.node, q.steps, seen), stack, i);
      var after :| Answered(w, Query(nodes[i].value, q.steps), after, stack - 1, Missing);
      MissingLacks(w, Query(nodes[i].value, q.steps), after, stack - 1, world, depth - 1);
    }
    ReachesItself(w, q);
    PartsLack(w, q, nodes, world, depth);
  }

  ghost predicate Combines(w: World, q: Query, nodes: seq<Option<Node>>) {
    q.steps != [] && (PlanNode(w, q.node, q.steps) == AnyOf(nodes) || PlanNode(w, q.node, q.steps) == EachOf(nodes))
  }

  ghost predicate AllAre(results: Outcomes, lookup: PathLookup) {
    results.Answers? && forall i | 0 <= i < |results.lookups| :: results.lookups[i] == lookup
  }

  /** A combination is answered `missing` only when each of its results is. */
  lemma AllMissing(w: World, q: Query, seen: set<Key>, stack: nat, nodes: seq<Option<Node>>)
    requires Combines(w, q, nodes) && Answered(w, q, seen, stack, Missing)
    ensures AllAre(LookupAll(w, nodes, q.steps, Grown(w, q.node, q.steps, seen), stack - 1), Missing)
    ensures stack > 0 && (PlanNode(w, q.node, q.steps).EachOf? ==> nodes != [])
  {
    var lookups := LookupAll(w, nodes, q.steps, Grown(w, q.node, q.steps, seen), stack - 1).lookups;
    forall i | 0 <= i < |lookups| ensures lookups[i] == Missing {
      assert lookups[i] in lookups;
      match lookups[i]
      case Found =>
      case Missing =>
      case Unknown =>
    }
  }

  lemma PartMissing(w: World, q: Query, nodes: seq<Option<Node>>, grown: set<Key>, stack: nat, i: nat)
    requires Combines(w, q, nodes) && stack > 0 && i < |nodes|
    requires AllAre(LookupAll(w, nodes, q.steps, grown, stack - 1), Missing)
    ensures nodes[i].Some? && Asks(w, q, Query(nodes[i].value, q.steps))
    ensures AnsweredSo(w, Query(nodes[i].value, q.steps), stack - 1, Missing)
    ensures AllNamesRead(w, q) ==> AllNamesRead(w, Query(nodes[i].value, q.steps))
    ensures NothingOverlooked(w, q) ==> NothingOverlooked(w, Query(nodes[i].value, q.steps))
  {
    ResultOf(w, nodes, q.steps, grown, stack - 1, i);
    assert nodes[i] in nodes;
    ReadBehind(w, q, Query(nodes[i].value, q.steps));
  }

  lemma MissingAtOnce(w: World, q: Query, world: Interpretation, depth: nat)
    requires ReadHere(w, q) && q.steps != [] && PlanNode(w, q.node, q.steps) == Now(Missing)
    ensures !Has(w, q.node, q.steps, world, false, depth)
  {
    if depth > 0 && q.node.TypeIn? { assert !HasInType(w, q.node.file, q.node.typ, q.steps, world, false, depth); }
  }

  lemma AsLacks(w: World, q: Query, m: Query, world: Interpretation, depth: nat)
    requires ReadHere(w, q) && depth > 0 && q.steps != [] && PlanNode(w, q.node, q.steps) == As(m.node, m.steps)
    requires m.steps != [] && !Has(w, m.node, m.steps, world, false, depth - 1)
    ensures !Has(w, q.node, q.steps, world, false, depth)
  {
    if q.node.TypeIn? { assert !HasInType(w, q.node.file, q.node.typ, q.steps, world, false, depth); }
  }

  lemma PartsLack(w: World, q: Query, nodes: seq<Option<Node>>, world: Interpretation, depth: nat)
    requires ReadHere(w, q) && Combines(w, q, nodes) && depth > 0
    requires forall i | 0 <= i < |nodes| :: nodes[i].Some? && !Has(w, nodes[i].value, q.steps, world, false, depth - 1)
    ensures !Has(w, q.node, q.steps, world, false, depth)
  {
  }

  /** The interpretation with every member behind opaque places. */
  const ANYTHING: Interpretation := (_, _) => true

  /** What is overlooked may exist. */
  lemma OverlookedMayExist(w: World, q: Query)
    requires NameRead(w, q) && Overlooks(w, q)
    ensures Has(w, q.node, q.steps, ANYTHING, false, 1)
  {
    if q.node.TypeIn? { assert HasInType(w, q.node.file, q.node.typ, q.steps, ANYTHING, false, 1); }
  }

  /** What may exist where the plan asks may exist here. */
  lemma AskedMayExist(w: World, q: Query, m: Query, depth: nat)
    requires NameRead(w, q) && Asks(w, q, m) && Has(w, m.node, m.steps, ANYTHING, false, depth)
    ensures Has(w, q.node, q.steps, ANYTHING, false, depth + 1)
  {
    match q.node
    case TypeIn(file, typ) => assert HasInType(w, file, typ, q.steps, ANYTHING, false, depth + 1);
    case Declaration(id) =>
      var (file, decl) := w.decls[id];
      if decl.Interface? && PlanNode(w, q.node, q.steps).AnyOf? && ByName(w, q).None? {
        var i :| 0 <= i < |decl.bases| && BaseNodes(w, file, decl.bases)[i] == Some(m.node);
        assert HasFromBase(w, q.node, file, decl.bases[i], q.steps, ANYTHING, false, depth);
      }
  }

  /** What a query answered `missing` asks is answered `missing`. */
  lemma AskedMissing(w: World, q: Query, m: Query, seen: set<Key>, stack: nat)
    requires Asks(w, q, m) && Answered(w, q, seen, stack, Missing)
    ensures stack > 0 && AnsweredSo(w, m, stack - 1, Missing)
  {
    var grown := Grown(w, q.node, q.steps, seen);
    match PlanNode(w, q.node, q.steps)
    case As(_, _) => assert Answered(w, m, grown, stack - 1, Missing);
    case AnyOf(nodes) =>
      AllMissing(w, q, seen, stack, nodes);
      var i :| 0 <= i < |nodes| && nodes[i] == Some(m.node);
      PartMissing(w, q, nodes, grown, stack, i);
    case EachOf(nodes) =>
      AllMissing(w, q, seen, stack, nodes);
      var i :| 0 <= i < |nodes| && nodes[i] == Some(m.node);
      PartMissing(w, q, nodes, grown, stack, i);
  }

  lemma {:induction false} OverlookedBehind(w: World, q: Query, r: Query, n: nat, seen: set<Key>, stack: nat)
    requires AllNamesRead(w, q) && Answered(w, q, seen, stack, Missing) && ReachesIn(w, q, r, n) && Overlooks(w, r)
    ensures exists depth :: Has(w, q.node, q.steps, ANYTHING, false, depth)
    decreases n
  {
    ReachesItself(w, q);
    if n == 0 {
      OverlookedMayExist(w, q);
    } else {
      var m :| Asks(w, q, m) && ReachesIn(w, m, r, n - 1);
      ReadBehind(w, q, m);
      AskedMissing(w, q, m, seen, stack);
      var after :| Answered(w, m, after, stack - 1, Missing);
      OverlookedBehind(w, m, r, n - 1, after, stack - 1);
      var depth :| Has(w, m.node, m.steps, ANYTHING, false, depth);
      AskedMayExist(w, q, m, depth);
    }
  }

  ghost predicate MissingRight(w: World, node: Node, steps: seq<Step>, seen: set<Key>, stack: nat) {
    Answered(w, Query(node, steps), seen, stack, Missing) ==> forall world :: !MayExist(w, node, steps, world)
  }

  /**
   * Where names are read, an answer `missing` is right exactly when the lookup overlooked nothing on its way: it
   * looked through no `keyof`, and no list without a signature of the name's text has a member that provides it.
   */
  lemma MissingExactly(w: World, node: Node, steps: seq<Step>, seen: set<Key>, stack: nat)
    requires Answered(w, Query(node, steps), seen, stack, Missing) && AllNamesRead(w, Query(node, steps))
    ensures MissingRight(w, node, steps, seen, stack) <==> NothingOverlooked(w, Query(node, steps))
  {
    var q := Query(node, steps);
    if NothingOverlooked(w, q) {
      forall world, depth ensures !Has(w, node, steps, world, false, depth) {
        MissingLacks(w, q, seen, stack, world, depth);
      }
    } else {
      var r :| Reaches(w, q, r) && Overlooks(w, r);
      var n: nat :| ReachesIn(w, q, r, n);
      OverlookedBehind(w, q, r, n, seen, stack);
      assert MayExist(w, node, steps, ANYTHING);
    }
  }

  // ---------- `found` ----------

  /** A member of another kind than a property signature provides the last name of the path. */
  ghost predicate Supplied(w: World, q: Query) {
    |q.steps| == 1 && q.steps[0].Member? && ByText(w, q).None? && Covers(MembersOf(w, q.node), q.steps[0].name)
  }

  /**
   * Plans lead to a member, in every branch of a union and in some part of a combination, without crossing a
   * `keyof`.
   */
  ghost predicate Firm(w: World, q: Query, n: nat)
    decreases n
  {
    q.steps == [] ||
    (n > 0 && !AtKeyOf(q) &&
     (Supplied(w, q) ||
      match PlanNode(w, q.node, q.steps)
      case Now(lookup) => lookup == Found
      case As(next, rest) => Firm(w, Query(next, rest), n - 1)
      case AnyOf(nodes) => exists m | m in nodes :: m.Some? && Firm(w, Query(m.value, q.steps), n - 1)
      case EachOf(nodes) => forall m | m in nodes :: m.Some? && Firm(w, Query(m.value, q.steps), n - 1)))
  }

  ghost predicate AllNamesPlain(w: World, q: Query) {
    forall r | Reaches(w, q, r) :: NamePlain(w, r)
  }

  lemma PlainBehind(w: World, q: Query)
    requires AllNamesPlain(w, q)
    ensures NamePlain(w, q) && forall m | Asks(w, q, m) :: AllNamesPlain(w, m)
  {
    ReachesItself(w, q);
    forall m, r | Asks(w, q, m) && Reaches(w, m, r) ensures Reaches(w, q, r) { ReachesBehind(w, q, m, r); }
  }

  lemma {:induction false} FirmHas(w: World, q: Query, world: Interpretation, n: nat)
    requires AllNamesPlain(w, q) && Firm(w, q, n)
    ensures Has(w, q.node, q.steps, world, true, n + 1)
    decreases n
  {
    PlainBehind(w, q);
    if q.steps != [] {
      forall m | Asks(w, q, m) && n > 0 && Firm(w, m, n - 1) ensures Has(w, m.node, m.steps, world, true, n) {
        FirmHas(w, m, world, n - 1);
      }
      FirmStep(w, q, world, n);
    }
  }

  ghost predicate FirmHasBehind(w: World, q: Query, world: Interpretation, n: nat) {
    forall m | Asks(w, q, m) && n > 0 && Firm(w, m, n - 1) :: Has(w, m.node, m.steps, world, true, n)
  }

  lemma FirmStep(w: World, q: Query, world: Interpretation, n: nat)
    requires NamePlain(w, q) && q.steps != [] && Firm(w, q, n) && FirmHasBehind(w, q, world, n)
    ensures Has(w, q.node, q.steps, world, true, n + 1)
  {
    match PlanNode(w, q.node, q.steps)
    case Now(_) => FirmNow(w, q, world, n);
    case As(next, rest) =>
      if !Supplied(w, q) { assert Asks(w, q, Query(next, rest)); }
      FirmAs(w, q, Query(next, rest), world, n);
    case AnyOf(nodes) =>
      if !Supplied(w, q) {
        var i :| 0 <= i < |nodes| && nodes[i].Some? && Firm(w, Query(nodes[i].value, q.steps), n - 1);
        assert Asks(w, q, Query(nodes[i].value, q.steps));
        FirmSome(w, q, nodes, i, world, n);
      } else {
        FirmNow(w, q, world, n);
      }
    case EachOf(nodes) =>
      forall i | 0 <= i < |nodes| ensures Has(w, nodes[i].value, q.steps, world, true, n) {
        assert nodes[i] in nodes && Asks(w, q, Query(nodes[i].value, q.steps));
      }
  }

  /** At the last step of the path, a member list decides by itself. */
  lemma FirmNow(w: World, q: Query, world: Interpretation, n: nat)
    requires NamePlain(w, q) && q.steps != [] && (Supplied(w, q) || PlanNode(w, q.node, q.steps) == Now(Found))
    ensures Has(w, q.node, q.steps, world, true, n + 1)
  {
    if q.node.TypeIn? { assert HasInType(w, q.node.file, q.node.typ, q.steps, world, true, n + 1); }
  }

  lemma FirmAs(w: World, q: Query, m: Query, world: Interpretation, n: nat)
    requires NamePlain(w, q) && q.steps != [] && PlanNode(w, q.node, q.steps) == As(m.node, m.steps) && !AtKeyOf(q)
    requires Supplied(w, q) || Has(w, m.node, m.steps, world, true, n)
    ensures Has(w, q.node, q.steps, world, true, n + 1)
  {
    if q.node.TypeIn? { assert HasInType(w, q.node.file, q.node.typ, q.steps, world, true, n + 1); }
  }

  lemma FirmSome(w: World, q: Query, nodes: seq<Option<Node>>, i: nat, world: Interpretation, n: nat)
    requires NamePlain(w, q) && q.steps != [] && PlanNode(w, q.node, q.steps) == AnyOf(nodes)
    requires i < |nodes| && nodes[i].Some? && Has(w, nodes[i].value, q.steps, world, true, n)
    ensures Has(w, q.node, q.steps, world, true, n + 1)
  {
    if q.node.Declaration? {
      assert HasFromBase(w, q.node, w.decls[q.node.id].0, w.decls[q.node.id].1.bases[i], q.steps, world, true, n);
    } else {
      assert Has(w, TypeIn(q.node.file, q.node.typ.parts[i]), q.steps, world, true, n);
    }
  }

  /** The interpretation without any member behind opaque places. */
  const NOTHING: Interpretation := (_, _) => false

  lemma {:induction false} HasFirm(w: World, q: Query, depth: nat)
    requires AllNamesPlain(w, q) && Has(w, q.node, q.steps, NOTHING, true, depth)
    ensures Firm(w, q, depth)
    decreases depth
  {
    PlainBehind(w, q);
    if q.steps != [] {
      forall m | Asks(w, q, m) && Has(w, m.node, m.steps, NOTHING, true, depth - 1) ensures Firm(w, m, depth - 1) {
        HasFirm(w, m, depth - 1);
      }
      HasStep(w, q, depth);
    }
  }

  lemma HasStep(w: World, q: Query, depth: nat)
    requires NamePlain(w, q) && q.steps != [] && Has(w, q.node, q.steps, NOTHING, true, depth)
    requires forall m | Asks(w, q, m) && Has(w, m.node, m.steps, NOTHING, true, depth - 1) :: Firm(w, m, depth - 1)
    ensures Firm(w, q, depth)
  {
    if q.node.TypeIn? { assert HasInType(w, q.node.file, q.node.typ, q.steps, NOTHING, true, depth); }
    match PlanNode(w, q.node, q.steps)
    case Now(_) =>
    case As(next, rest) => assert Asks(w, q, Query(next, rest));
    case AnyOf(nodes) =>
      if !Supplied(w, q) {
        HasSome(w, q, nodes, depth);
        var i :| 0 <= i < |nodes| && nodes[i].Some? && Has(w, nodes[i].value, q.steps, NOTHING, true, depth - 1);
        assert nodes[i] in nodes && Asks(w, q, Query(nodes[i].value, q.steps));
      }
    case EachOf(nodes) =>
      forall m | m in nodes ensures m.Some? && Firm(w, Query(m.value, q.steps), depth - 1) {
        assert Asks(w, q, Query(m.value, q.steps));
      }
  }

  lemma HasSome(w: World, q: Query, nodes: seq<Option<Node>>, depth: nat)
    requires NamePlain(w, q) && q.steps != [] && Has(w, q.node, q.steps, NOTHING, true, depth) && !Supplied(w, q)
    requires PlanNode(w, q.node, q.steps) == AnyOf(nodes)
    ensures exists i :: 0 <= i < |nodes| && nodes[i].Some? && Has(w, nodes[i].value, q.steps, NOTHING, true, depth - 1)
  {
    match q.node
    case Declaration(id) => HasSomeBase(w, q, id, depth);
    case TypeIn(file, typ) =>
      var i :| 0 <= i < |typ.parts| && Has(w, TypeIn(file, typ.parts[i]), q.steps, NOTHING, true, depth - 1);
      assert nodes[i].Some?;
  }

  lemma HasSomeBase(w: World, q: Query, id: DeclId, depth: nat)
    requires NamePlain(w, q) && q.steps != [] && Has(w, q.node, q.steps, NOTHING, true, depth) && !Supplied(w, q)
    requires q.node == Declaration(id) && PlanNode(w, q.node, q.steps).AnyOf?
    ensures var nodes := BaseNodes(w, w.decls[id].0, w.decls[id].1.bases);
            exists i :: 0 <= i < |nodes| && nodes[i].Some? && Has(w, nodes[i].value, q.steps, NOTHING, true, depth - 1)
  {
    var (file, decl) := w.decls[id];
    assert ByName(w, q).None? && !NOTHING(q.node, q.steps);
    assert !HasMember(w, q.node, file, decl.members, q.steps, NOTHING, true, depth);
    var i :| 0 <= i < |decl.bases| && HasFromBase(w, q.node, file, decl.bases[i], q.steps, NOTHING, true, depth - 1);
    assert decl.bases[i].Named? && (file, decl.bases[i].name) in w.names;
    var nodes := BaseNodes(w, file, decl.bases);
    assert nodes[i] == Some(Declaration(w.names[(file, decl.bases[i].name)]));
  }

  ghost predicate FoundRight(w: World, node: Node, steps: seq<Step>, seen: set<Key>, stack: nat) {
    Answered(w, Query(node, steps), seen, stack, Found) ==> forall world :: Exists(w, node, steps, world)
  }

  /**
   * Where names are plain, an answer `found` is right exactly when plans lead to a member without crossing a
   * `keyof`.
   */
  lemma FoundExactly(w: World, node: Node, steps: seq<Step>, seen: set<Key>, stack: nat)
    requires Answered(w, Query(node, steps), seen, stack, Found) && AllNamesPlain(w, Query(node, steps))
    ensures FoundRight(w, node, steps, seen, stack) <==> exists n: nat :: Firm(w, Query(node, steps), n)
  {
    var q := Query(node, steps);
    if n: nat :| Firm(w, q, n) {
      forall world ensures Exists(w, node, steps, world) { FirmHas(w, q, world, n); }
    }
    if FoundRight(w, node, steps, seen, stack) {
      assert Exists(w, node, steps, NOTHING);
      var depth: nat :| Has(w, node, steps, NOTHING, true, depth);
      HasFirm(w, q, depth);
      assert Firm(w, q, depth);
    }
  }

  /** No `keyof` on the way is answered `found`. */
  ghost predicate KeysNeverFound(w: World, q: Query) {
    forall r, seen, stack | Reaches(w, q, r) && AtKeyOf(r) :: !Answered(w, r, seen, stack, Found)
  }

  lemma KeysNeverFoundBehind(w: World, q: Query)
    requires KeysNeverFound(w, q)
    ensures forall m | Asks(w, q, m) :: KeysNeverFound(w, m)
  {
    forall m, r | Asks(w, q, m) && Reaches(w, m, r) ensures Reaches(w, q, r) { ReachesBehind(w, q, m, r); }
  }

  /** If no `keyof` on the way is answered `found`, an answer `found` is right. */
  lemma {:induction false} FoundFirm(w: World, q: Query, seen: set<Key>, stack: nat)
    requires KeysNeverFound(w, q) && Answered(w, q, seen, stack, Found)
    ensures Firm(w, q, stack)
    decreases stack, 0
  {
    ReachesItself(w, q);
    KeysNeverFoundBehind(w, q);
    if q.steps != [] {
      var grown := Grown(w, q.node, q.steps, seen);
      match PlanNode(w, q.node, q.steps)
      case Now(_) =>
      case As(next, rest) =>
        assert Asks(w, q, Query(next, rest));
        FoundFirm(w, Query(next, rest), grown, stack - 1);
      case AnyOf(nodes) =>
        var lookups := LookupAll(w, nodes, q.steps, grown, stack - 1).lookups;
        var i :| 0 <= i < |lookups| && lookups[i] == Found;
        PartFirm(w, q, nodes, grown, stack, i);
      case EachOf(nodes) =>
        var lookups := LookupAll(w, nodes, q.steps, grown, stack - 1).lookups;
        forall m | m in nodes ensures m.Some? && Firm(w, Query(m.value, q.steps), stack - 1) {
          var i :| 0 <= i < |nodes| && nodes[i] == m;
          assert lookups[i] in lookups;
          PartFirm(w, q, nodes, grown, stack, i);
        }
    }
  }

  lemma {:induction false} PartFirm(w: World, q: Query, nodes: seq<Option<Node>>, grown: set<Key>, stack: nat, i: nat)
    requires KeysNeverFound(w, q) && Combines(w, q, nodes) && stack > 0 && i < |nodes|
    requires var r := LookupAll(w, nodes, q.steps, grown, stack - 1); r.Answers? && r.lookups[i] == Found
    ensures nodes[i] in nodes && nodes[i].Some? && Firm(w, Query(nodes[i].value, q.steps), stack - 1)
    decreases stack - 1, 1
  {
    ResultOf(w, nodes, q.steps, grown, stack - 1, i);
    var m := Query(nodes[i].value, q.steps);
    var after :| Answered(w, m, after, stack - 1, Found);
    KeysNeverFoundBehind(w, q);
    assert nodes[i] in nodes && Asks(w, q, m);
    FoundFirm(w, m, after, stack - 1);
  }

  // ---------- syntax the lookup reads right ----------

  /** Every name is written as it is: no quotes, no computed names. */
  ghost predicate PlainNames(members: seq<Property>) {
    forall m | m in members && m.Signature? :: m.text == m.name
  }

  /** Every name that another kind of member provides also has a property signature. */
  ghost predicate Shadowed(members: seq<Property>) {
    forall name | Covers(members, name) :: FindSignature(members, name).Some?
  }

  ghost predicate ReadMembers(members: seq<Property>, shadowed: bool) {
    PlainNames(members) && (shadowed ==> Shadowed(members))
  }

  /** No path of at least one step is answered `found`. */
  ghost predicate NeverFound(w: World, node: Node, seen: set<Key>, stack: nat) {
    forall steps | steps != [] :: !Answered(w, Query(node, steps), seen, stack, Found)
  }

  /** The lookup of a nonempty path on the type never answers `found`. */
  ghost predicate NeverAnswered(w: World, file: FileId, typ: Type) {
    forall seen, stack :: NeverFound(w, TypeIn(file, typ), seen, stack)
  }

  ghost predicate MembersReadRight(w: World, file: FileId, members: seq<Property>, shadowed: bool)
    decreases members, 1
  {
    ReadMembers(members, shadowed) && forall m | m in members && m.Signature? && m.typ.Some? ::
      ReadRight(w, file, m.typ.value, shadowed)
  }

  /**
   * Anywhere in the type, names are plain and `keyof` stands only over operands that are never answered `found`.
   * With `shadowed` there is no `keyof` and there are property signatures for all members.
   */
  ghost predicate ReadRight(w: World, file: FileId, typ: Type, shadowed: bool)
    decreases typ, 0
  {
    match typ
    case Literal(members) =>
      ReadMembers(members, shadowed) && forall m | m in members && m.Signature? && m.typ.Some? ::
        ReadRight(w, file, m.typ.value, shadowed)
    case Wrapped(inner) => ReadRight(w, file, inner, shadowed)
    case KeyOf(inner) => !shadowed && NeverAnswered(w, file, inner) && ReadRight(w, file, inner, shadowed)
    case Intersection(parts) => forall t | t in parts :: ReadRight(w, file, t, shadowed)
    case Union(parts) => forall t | t in parts :: ReadRight(w, file, t, shadowed)
    case ArrayOf(element) => ReadRight(w, file, element, shadowed)
    case Indexed(owner, _) => ReadRight(w, file, owner, shadowed)
    case Reference(_, _, arguments) => forall t | t in arguments :: ReadRight(w, file, t, shadowed)
    case Opaque => true
  }

  ghost predicate ReadRightDecl(w: World, file: FileId, decl: Decl, shadowed: bool) {
    match decl
    case Interface(members, _) => MembersReadRight(w, file, members, shadowed)
    case Alias(typ) => ReadRight(w, file, typ, shadowed)
    case Enum => true
  }

  ghost predicate ReadRightWorld(w: World, shadowed: bool) {
    forall id | id in w.decls :: ReadRightDecl(w, w.decls[id].0, w.decls[id].1, shadowed)
  }

  ghost predicate ReadRightNode(w: World, node: Node, shadowed: bool) {
    node.TypeIn? ==> ReadRight(w, node.file, node.typ, shadowed)
  }

  lemma {:induction false} PlainlyNamed(members: seq<Property>, name: string)
    requires PlainNames(members)
    ensures FindSignature(members, name) == FindNamed(members, name)
  {
    if members != [] { PlainlyNamed(members[1..], name); }
  }

  lemma AskedReadRight(w: World, q: Query, m: Query, shadowed: bool)
    requires ReadRightWorld(w, shadowed) && ReadRightNode(w, q.node, shadowed) && Asks(w, q, m)
    ensures ReadRightNode(w, m.node, shadowed)
  {
    if q.node.Declaration? && q.node.id in w.decls {
      assert ReadRightDecl(w, w.decls[q.node.id].0, w.decls[q.node.id].1, shadowed);
    }
  }

  lemma {:induction false} ReachedReadRight(w: World, q: Query, r: Query, n: nat, shadowed: bool)
    requires ReadRightWorld(w, shadowed) && ReadRightNode(w, q.node, shadowed) && ReachesIn(w, q, r, n)
    ensures ReadRightNode(w, r.node, shadowed)
    decreases n
  {
    if n > 0 {
      var m :| Asks(w, q, m) && ReachesIn(w, m, r, n - 1);
      AskedReadRight(w, q, m, shadowed);
      ReachedReadRight(w, m, r, n - 1, shadowed);
    }
  }

  lemma ListReadRight(w: World, node: Node, shadowed: bool)
    requires ReadRightWorld(w, shadowed) && ReadRightNode(w, node, shadowed)
    ensures ReadMembers(MembersOf(w, node), shadowed)
  {
    if node.Declaration? && node.id in w.decls {
      assert ReadRightDecl(w, w.decls[node.id].0, w.decls[node.id].1, shadowed);
    }
  }

  lemma NodeReadRight(w: World, q: Query, shadowed: bool)
    requires ReadRightWorld(w, shadowed) && ReadRightNode(w, q.node, shadowed)
    ensures NamePlain(w, q) && (shadowed ==> !Overlooks(w, q))
    ensures AtKeyOf(q) ==> forall seen, stack :: !Answered(w, q, seen, stack, Found)
  {
    ListReadRight(w, q.node, shadowed);
    if q.steps != [] && q.steps[0].Member? { PlainlyNamed(MembersOf(w, q.node), q.steps[0].name); }
    if AtKeyOf(q) {
      forall seen, stack: nat ensures !Answered(w, q, seen, stack, Found) {
        if stack > 0 {
          var operand, below: nat := TypeIn(q.node.file, q.node.typ.inner), stack - 1;
          assert NeverFound(w, operand, seen, below);
          assert !Answered(w, Query(operand, q.steps), seen, below, Found);
        }
      }
    }
  }

  /** In a world read right, every lookup from a node read right is. */
  lemma LookupReadRight(w: World, q: Query, shadowed: bool)
    requires ReadRightWorld(w, shadowed) && ReadRightNode(w, q.node, shadowed)
    ensures AllNamesPlain(w, q) && AllNamesRead(w, q) && KeysNeverFound(w, q)
    ensures shadowed ==> NothingOverlooked(w, q)
  {
    forall r | Reaches(w, q, r)
      ensures NamePlain(w, r) && (shadowed ==> !Overlooks(w, r))
      ensures AtKeyOf(r) ==> forall seen, stack :: !Answered(w, r, seen, stack, Found)
    {
      var n: nat :| ReachesIn(w, q, r, n);
      ReachedReadRight(w, q, r, n, shadowed);
      NodeReadRight(w, r, shadowed);
    }
  }

  /**
   * With plain names only, and `keyof` only over operands never answered `found`, `found` is only answered when the
   * member exists, whatever opaque types mean and unions choose.
   */
  lemma FoundIsSound(w: World, node: Node, steps: seq<Step>, seen: set<Key>, stack: nat, world: Interpretation)
    requires ReadRightWorld(w, false) && ReadRightNode(w, node, false)
    requires Lookup(w, node, steps, seen, stack).Answer? && Lookup(w, node, steps, seen, stack).lookup == Found
    ensures Exists(w, node, steps, world)
  {
    LookupReadRight(w, Query(node, steps), false);
    FoundFirm(w, Query(node, steps), seen, stack);
    assert Firm(w, Query(node, steps), stack);
    FoundExactly(w, node, steps, seen, stack);
    assert FoundRight(w, node, steps, seen, stack);
  }

  /**
   * Without `keyof` and quoted or computed names, and where signatures shadow all other members, `missing` is only
   * answered when no choice has the member.
   */
  lemma MissingIsSound(w: World, node: Node, steps: seq<Step>, seen: set<Key>, stack: nat, world: Interpretation)
    requires ReadRightWorld(w, true) && ReadRightNode(w, node, true)
    requires Lookup(w, node, steps, seen, stack).Answer? && Lookup(w, node, steps, seen, stack).lookup == Missing
    ensures !MayExist(w, node, steps, world)
  {
    LookupReadRight(w, Query(node, steps), true);
    MissingExactly(w, node, steps, seen, stack);
  }

  // ---------- one name in a member list ----------

  /** A type literal, or an interface without bases. */
  ghost predicate IsMemberList(w: World, node: Node, members: seq<Property>) {
    match node
    case TypeIn(_, typ) => typ == Literal(members)
    case Declaration(id) => id in w.decls && w.decls[id].1 == Interface(members, [])
  }

  /** How a member list answers for one name, and what is the case. */
  lemma OneName(w: World, node: Node, members: seq<Property>, name: string, seen: set<Key>, stack: nat,
                world: Interpretation)
    requires IsMemberList(w, node, members) && stack >= 1 && (node.Declaration? ==> Key(node.id, 1) !in seen)
    ensures var r := Lookup(w, node, [Member(name)], seen, stack);
            r.Answer? && r.lookup == if FindSignature(members, name).Some? then Found else Missing
    ensures Exists(w, node, [Member(name)], world) <==> Provides(members, name)
    ensures MayExist(w, node, [Member(name)], world) <==> Provides(members, name)
  {
    var steps := [Member(name)];
    forall depth: nat, every: bool
      ensures Has(w, node, steps, world, every, depth) <==> depth > 0 && Provides(members, name)
    {
      if depth > 0 && node.TypeIn? {
        assert HasInType(w, node.file, node.typ, steps, world, every, depth) <==> Provides(members, name);
      }
    }
    if Provides(members, name) { assert Has(w, node, steps, world, true, 1) && Has(w, node, steps, world, false, 1); }
  }

  /**
   * On a type literal or an interface without bases, `missing` is right for every name exactly when every name that
   * some member provides is the source text of a property signature: methods, index signatures and quoted names
   * without one are overlooked.
   */
  lemma MissIsRight(w: World, node: Node, members: seq<Property>, seen: set<Key>, stack: nat)
    requires IsMemberList(w, node, members) && stack >= 1 && (node.Declaration? ==> Key(node.id, 1) !in seen)
    ensures (forall name :: MissingRight(w, node, [Member(name)], seen, stack)) <==>
              forall name | Provides(members, name) :: FindSignature(members, name).Some?
  {
    forall name ensures MissingRight(w, node, [Member(name)], seen, stack) <==>
                          (Provides(members, name) ==> FindSignature(members, name).Some?)
    {
      OneName(w, node, members, name, seen, stack, NOTHING);
      if FindSignature(members, name).None? {
        var q := Query(node, [Member(name)]);
        ReachesItself(w, q);
        forall r | Reaches(w, q, r) ensures r == q { ReachesOnly(w, q, r); }
        MissingExactly(w, node, [Member(name)], seen, stack);
      }
    }
  }

  /** A query answered at once leads to no other. */
  lemma ReachesOnly(w: World, q: Query, r: Query)
    requires Reaches(w, q, r) && q.steps != [] && PlanNode(w, q.node, q.steps).Now?
    ensures r == q
  {
    var n: nat :| ReachesIn(w, q, r, n);
  }

  /**
   * And `found` is right for every name exactly when the source text of every signature is a name some member
   * provides.
   */
  lemma FindIsRight(w: World, node: Node, members: seq<Property>, seen: set<Key>, stack: nat)
    requires IsMemberList(w, node, members) && stack >= 1 && (node.Declaration? ==> Key(node.id, 1) !in seen)
    ensures (forall name :: FoundRight(w, node, [Member(name)], seen, stack)) <==>
              forall m | m in members && m.Signature? :: Provides(members, m.text)
  {
    forall name ensures FoundRight(w, node, [Member(name)], seen, stack) <==>
                          (FindSignature(members, name).Some? ==> Provides(members, name))
    {
      forall world ensures Exists(w, node, [Member(name)], world) <==> Provides(members, name) {
        OneName(w, node, members, name, seen, stack, world);
      }
      OneName(w, node, members, name, seen, stack, NOTHING);
    }
    if forall name :: FoundRight(w, node, [Member(name)], seen, stack) {
      forall m | m in members && m.Signature? ensures Provides(members, m.text) {
        assert FoundRight(w, node, [Member(m.text)], seen, stack);
      }
    }
  }

  /**
   * On a `keyof` type, passing the lookup through to the operand is right for `found` exactly when the operand
   * never answers `found` for a path of at least one step: whatever the operand declares, its keys do not have.
   */
  lemma KeyOfIsRight(w: World, file: FileId, inner: Type, seen: set<Key>, stack: nat)
    requires stack >= 1
    ensures (forall steps :: FoundRight(w, TypeIn(file, KeyOf(inner)), steps, seen, stack)) <==>
              NeverFound(w, TypeIn(file, inner), seen, stack - 1)
  {
    var node := TypeIn(file, KeyOf(inner));
    forall steps
      ensures FoundRight(w, node, steps, seen, stack) <==>
                steps == [] || !Answered(w, Query(TypeIn(file, inner), steps), seen, stack - 1, Found)
    {
      if steps == [] {
        forall world ensures Exists(w, node, steps, world) { assert Has(w, node, steps, world, true, 1); }
      } else {
        assert Lookup(w, node, steps, seen, stack) == Lookup(w, TypeIn(file, inner), steps, seen, stack - 1);
        forall depth ensures !Has(w, node, steps, NOTHING, true, depth) {
          if depth > 0 { assert !HasInType(w, file, KeyOf(inner), steps, NOTHING, true, depth); }
        }
        assert !Exists(w, node, steps, NOTHING);
      }
    }
    if forall steps :: FoundRight(w, node, steps, seen, stack) {
      var operand, below := TypeIn(file, inner), stack - 1;
      forall steps | steps != [] ensures !Answered(w, Query(operand, steps), seen, below, Found) {
        assert FoundRight(w, node, steps, seen, stack);
      }
    }
  }

  /** Over an operand that lists its members, that is so exactly when none of them is a property signature. */
  lemma KeyOfMembersIsRight(w: World, file: FileId, members: seq<Property>)
    ensures NeverAnswered(w, file, Literal(members)) <==> forall m | m in members :: !m.Signature?
  {
    var node := TypeIn(file, Literal(members));
    if m :| m in members && m.Signature? {
      assert FindSignature(members, m.text).Some?;
      assert Answered(w, Query(node, [Member(m.text)]), {}, 1, Found);
      assert !NeverFound(w, node, {}, 1);
    } else {
      SilentNeverAnswers(w, file, Literal(members));
    }
  }

  /** A declaration without property signatures and without bases. */
  ghost predicate SilentDecl(w: World, id: DeclId) {
    id in w.decls ==>
      match w.decls[id].1
      case Interface(members, bases) => bases == [] && forall m | m in members :: !m.Signature?
      case Alias(_) => false
      case Enum => true
  }

  /** A type in which the lookup meets no property signature: keywords, type parameters, enums, methods. */
  ghost predicate Silent(w: World, file: FileId, typ: Type)
    decreases typ
  {
    match typ
    case Literal(members) => forall m | m in members :: !m.Signature?
    case Wrapped(inner) => Silent(w, file, inner)
    case KeyOf(inner) => Silent(w, file, inner)
    case Intersection(parts) => forall t | t in parts :: Silent(w, file, t)
    case Union(parts) => exists t | t in parts :: Silent(w, file, t)
    case ArrayOf(_) => false
    case Indexed(owner, index) => index.Some? ==> Silent(w, file, owner)
    case Reference(head, qualified, arguments) =>
      if head in PASSTHROUGH_WRAPPERS && arguments != [] then Silent(w, file, arguments[0])
      else if head in ARRAY_NAMES && arguments != [] then false
      else qualified || ((file, head) in w.names ==> SilentDecl(w, w.names[(file, head)]))
    case Opaque => true
  }

  /** The same for the name of an interface without bases. */
  lemma KeyOfNameIsRight(w: World, file: FileId, name: string, arguments: seq<Type>, members: seq<Property>)
    requires (file, name) in w.names && IsMemberList(w, Declaration(w.names[(file, name)]), members)
    requires arguments != [] ==> name !in PASSTHROUGH_WRAPPERS && name !in ARRAY_NAMES
    ensures NeverAnswered(w, file, Reference(name, false, arguments)) <==> forall m | m in members :: !m.Signature?
  {
    var node, decl := TypeIn(file, Reference(name, false, arguments)), Declaration(w.names[(file, name)]);
    if m :| m in members && m.Signature? {
      assert FindSignature(members, m.text).Some?;
      assert Answered(w, Query(decl, [Member(m.text)]), {}, 1, Found);
      assert Answered(w, Query(node, [Member(m.text)]), {}, 2, Found);
      assert !NeverFound(w, node, {}, 2);
    } else {
      SilentNeverAnswers(w, file, node.typ);
    }
  }

  lemma SilentDeclNeverFound(w: World, id: DeclId, steps: seq<Step>, seen: set<Key>, stack: nat)
    requires SilentDecl(w, id) && steps != []
    ensures !Answered(w, Query(Declaration(id), steps), seen, stack, Found)
  {
  }

  lemma {:induction false} SilentNeverFound(w: World, file: FileId, typ: Type, steps: seq<Step>, seen: set<Key>,
                                            stack: nat)
    requires Silent(w, file, typ) && steps != []
    ensures !Answered(w, Query(TypeIn(file, typ), steps), seen, stack, Found)
    decreases typ
  {
    if Answered(w, Query(TypeIn(file, typ), steps), seen, stack, Found) {
      match typ
      case Literal(_) =>
      case Wrapped(inner) => SilentNeverFound(w, file, inner, steps, seen, stack - 1);
      case KeyOf(inner) => SilentNeverFound(w, file, inner, steps, seen, stack - 1);
      case Intersection(parts) =>
        var lookups := LookupAll(w, PartNodes(file, parts), steps, seen, stack - 1).lookups;
        var i :| 0 <= i < |lookups| && lookups[i] == Found;
        SilentPartNotFound(w, file, parts, steps, seen, stack - 1, i);
      case Union(parts) =>
        var i :| 0 <= i < |parts| && Silent(w, file, parts[i]);
        var lookups := LookupAll(w, PartNodes(file, parts), steps, seen, stack - 1).lookups;
        assert lookups[i] in lookups;
        SilentPartNotFound(w, file, parts, steps, seen, stack - 1, i);
      case Indexed(owner, index) =>
        if index.Some? { SilentNeverFound(w, file, owner, [Member(index.value)] + steps, seen, stack - 1); }
      case Reference(head, qualified, arguments) =>
        if head in PASSTHROUGH_WRAPPERS && arguments != [] {
          SilentNeverFound(w, file, arguments[0], steps, seen, stack - 1);
        } else if !qualified && (file, head) in w.names {
          SilentDeclNeverFound(w, w.names[(file, head)], steps, seen, stack - 1);
        }
      case Opaque =>
    }
  }

  lemma {:induction false} SilentPartNotFound(w: World, file: FileId, parts: seq<Type>, steps: seq<Step>,
                                              seen: set<Key>, stack: nat, i: nat)
    requires i < |parts| && Silent(w, file, parts[i]) && steps != []
    requires LookupAll(w, PartNodes(file, parts), steps, seen, stack).Answers?
    ensures LookupAll(w, PartNodes(file, parts), steps, seen, stack).lookups[i] != Found
    decreases parts, 0
  {
    if LookupAll(w, PartNodes(file, parts), steps, seen, stack).lookups[i] == Found {
      ResultOf(w, PartNodes(file, parts), steps, seen, stack, i);
      var after :| Answered(w, Query(TypeIn(file, parts[i]), steps), after, stack, Found);
      SilentNeverFound(w, file, parts[i], steps, after, stack);
    }
  }

  /** A condition on the syntax alone: over a silent operand, `keyof` is read right. */
  lemma SilentNeverAnswers(w: World, file: FileId, typ: Type)
    requires Silent(w, file, typ)
    ensures NeverAnswered(w, file, typ)
  {
    forall steps, seen, stack: nat | steps != []
      ensures !Answered(w, Query(TypeIn(file, typ), steps), seen, stack, Found)
    {
      SilentNeverFound(w, file, typ, steps, seen, stack);
    }
  }

  /** `found` is right at the node for every path. */
  ghost predicate RightAt(w: World, node: Node) {
    forall steps, seen, stack :: FoundRight(w, node, steps, seen, stack)
  }

  /** `found` is right at the type and at every type in it. */
  ghost predicate RightIn(w: World, file: FileId, typ: Type)
    decreases typ
  {
    RightAt(w, TypeIn(file, typ)) &&
    match typ
    case Literal(members) => forall m | m in members && m.Signature? && m.typ.Some? :: RightIn(w, file, m.typ.value)
    case Wrapped(inner) => RightIn(w, file, inner)
    case KeyOf(inner) => RightIn(w, file, inner)
    case Intersection(parts) => forall t | t in parts :: RightIn(w, file, t)
    case Union(parts) => forall t | t in parts :: RightIn(w, file, t)
    case ArrayOf(element) => RightIn(w, file, element)
    case Indexed(owner, _) => RightIn(w, file, owner)
    case Reference(_, _, arguments) => forall t | t in arguments :: RightIn(w, file, t)
    case Opaque => true
  }

  /** `found` is right at every declaration and at every type in one. */
  ghost predicate RightEverywhere(w: World) {
    forall id | id in w.decls ::
      RightAt(w, Declaration(id)) &&
      match w.decls[id].1
      case Interface(members, _) =>
        forall m | m in members && m.Signature? && m.typ.Some? :: RightIn(w, w.decls[id].0, m.typ.value)
      case Alias(typ) => RightIn(w, w.decls[id].0, typ)
      case Enum => true
  }

  ghost predicate PlainType(typ: Type)
    decreases typ
  {
    match typ
    case Literal(members) =>
      PlainNames(members) && forall m | m in members && m.Signature? && m.typ.Some? :: PlainType(m.typ.value)
    case Wrapped(inner) => PlainType(inner)
    case KeyOf(inner) => PlainType(inner)
    case Intersection(parts) => forall t | t in parts :: PlainType(t)
    case Union(parts) => forall t | t in parts :: PlainType(t)
    case ArrayOf(element) => PlainType(element)
    case Indexed(owner, _) => PlainType(owner)
    case Reference(_, _, arguments) => forall t | t in arguments :: PlainType(t)
    case Opaque => true
  }

  /** All names are plain. */
  ghost predicate PlainWorld(w: World) {
    forall id | id in w.decls ::
      match w.decls[id].1
      case Interface(members, _) =>
        PlainNames(members) && forall m | m in members && m.Signature? && m.typ.Some? :: PlainType(m.typ.value)
      case Alias(typ) => PlainType(typ)
      case Enum => true
  }

  lemma ReadRightIsRight(w: World, node: Node)
    requires ReadRightWorld(w, false) && ReadRightNode(w, node, false)
    ensures RightAt(w, node)
  {
    forall steps, seen, stack ensures FoundRight(w, node, steps, seen, stack) {
      if Answered(w, Query(node, steps), seen, stack, Found) {
        forall world ensures Exists(w, node, steps, world) { FoundIsSound(w, node, steps, seen, stack, world); }
      }
    }
  }

  lemma {:induction false} ReadRightIsRightIn(w: World, file: FileId, typ: Type)
    requires ReadRightWorld(w, false) && ReadRight(w, file, typ, false)
    ensures RightIn(w, file, typ)
    decreases typ
  {
    ReadRightIsRight(w, TypeIn(file, typ));
    match typ
    case Literal(members) =>
      forall m | m in members && m.Signature? && m.typ.Some? ensures RightIn(w, file, m.typ.value) {
        ReadRightIsRightIn(w, file, m.typ.value);
      }
    case Wrapped(inner) => ReadRightIsRightIn(w, file, inner);
    case KeyOf(inner) => ReadRightIsRightIn(w, file, inner);
    case Intersection(parts) => forall t | t in parts ensures RightIn(w, file, t) { ReadRightIsRightIn(w, file, t); }
    case Union(parts) => forall t | t in parts ensures RightIn(w, file, t) { ReadRightIsRightIn(w, file, t); }
    case ArrayOf(element) => ReadRightIsRightIn(w, file, element);
    case Indexed(owner, _) => ReadRightIsRightIn(w, file, owner);
    case Reference(_, _, arguments) =>
      forall t | t in arguments ensures RightIn(w, file, t) { ReadRightIsRightIn(w, file, t); }
    case Opaque =>
  }

  lemma RightAtKeys(w: World, file: FileId, inner: Type)
    requires RightAt(w, TypeIn(file, KeyOf(inner)))
    ensures NeverAnswered(w, file, inner)
  {
    var node := TypeIn(file, KeyOf(inner));
    forall seen, stack: nat ensures NeverFound(w, TypeIn(file, inner), seen, stack) {
      var more: nat := stack + 1;
      forall steps ensures FoundRight(w, node, steps, seen, more) {}
      KeyOfIsRight(w, file, inner, seen, more);
    }
  }

  lemma {:induction false} RightInIsReadRight(w: World, file: FileId, typ: Type)
    requires RightIn(w, file, typ) && PlainType(typ)
    ensures ReadRight(w, file, typ, false)
    decreases typ
  {
    match typ
    case Literal(members) =>
      forall m | m in members && m.Signature? && m.typ.Some? ensures ReadRight(w, file, m.typ.value, false) {
        RightInIsReadRight(w, file, m.typ.value);
      }
    case Wrapped(inner) => RightInIsReadRight(w, file, inner);
    case KeyOf(inner) =>
      RightInIsReadRight(w, file, inner);
      RightAtKeys(w, file, inner);
    case Intersection(parts) =>
      forall t | t in parts ensures ReadRight(w, file, t, false) { RightInIsReadRight(w, file, t); }
    case Union(parts) => forall t | t in parts ensures ReadRight(w, file, t, false) { RightInIsReadRight(w, file, t); }
    case ArrayOf(element) => RightInIsReadRight(w, file, element);
    case Indexed(owner, _) => RightInIsReadRight(w, file, owner);
    case Reference(_, _, arguments) =>
      forall t | t in arguments ensures ReadRight(w, file, t, false) { RightInIsReadRight(w, file, t); }
    case Opaque =>
  }

  /**
   * With plain names, `found` is right at every declaration and every type in one exactly when every `keyof` stands
   * over an operand that is never answered `found`. Without any `keyof` that is so.
   */
  lemma FoundExactlyRight(w: World)
    requires PlainWorld(w)
    ensures RightEverywhere(w) <==> ReadRightWorld(w, false)
  {
    if ReadRightWorld(w, false) {
      forall id | id in w.decls ensures RightAt(w, Declaration(id)) { ReadRightIsRight(w, Declaration(id)); }
      forall id | id in w.decls && w.decls[id].1.Alias? ensures RightIn(w, w.decls[id].0, w.decls[id].1.typ) {
        assert ReadRightDecl(w, w.decls[id].0, w.decls[id].1, false);
        ReadRightIsRightIn(w, w.decls[id].0, w.decls[id].1.typ);
      }
      forall id, m | id in w.decls && w.decls[id].1.Interface? && m in w.decls[id].1.members && m.Signature? &&
        m.typ.Some?
        ensures RightIn(w, w.decls[id].0, m.typ.value)
      {
        assert ReadRightDecl(w, w.decls[id].0, w.decls[id].1, false);
        ReadRightIsRightIn(w, w.decls[id].0, m.typ.value);
      }
    }
    if RightEverywhere(w) {
      forall id | id in w.decls ensures ReadRightDecl(w, w.decls[id].0, w.decls[id].1, false) {
        var (file, decl) := w.decls[id];
        match decl
        case Interface(members, _) =>
          forall m | m in members && m.Signature? && m.typ.Some? ensures ReadRight(w, file, m.typ.value, false) {
            RightInIsReadRight(w, file, m.typ.value);
          }
        case Alias(typ) => RightInIsReadRight(w, file, typ);
        case Enum =>
      }
    }
  }

  // the failing inputs

  /** `{ mode: keyof { debug: … } }` is answered `found` for `mode.debug`. */
  lemma KeyOfIsFound()
    ensures var modes := Literal([Signature("debug", "debug", Some(Opaque))]);
            var config := TypeIn(0, Literal([Signature("mode", "mode", Some(KeyOf(modes)))]));
            var path := [Member("mode"), Member("debug")];
            Answered(NO_DECLARATIONS, Query(config, path), {}, 3, Found) &&
              !MayExist(NO_DECLARATIONS, config, path, NOTHING)
  {
    var w, debug := NO_DECLARATIONS, [Member("debug")];
    var modes := Literal([Signature("debug", "debug", Some(Opaque))]);
    var members := [Signature("mode", "mode", Some(KeyOf(modes)))];
    var path := [Member("mode"), Member("debug")];
    assert path[1..] == debug;
    assert Lookup(w, TypeIn(0, modes), debug, {}, 1) == Answer(Found, {});
    assert Lookup(w, TypeIn(0, KeyOf(modes)), debug, {}, 2) == Answer(Found, {});
    forall depth: nat ensures !Has(w, TypeIn(0, Literal(members)), path, NOTHING, false, depth) {
      if depth > 1 { assert !HasInType(w, 0, KeyOf(modes), debug, NOTHING, false, depth - 1); }
      if depth > 0 { assert !HasMember(w, TypeIn(0, Literal(members)), 0, members, path, NOTHING, false, depth); }
    }
  }

  /** `{ 'max-tokens': … }` is answered `missing` for `max-tokens`. */
  lemma QuotedNameIsMissed()
    ensures var config := TypeIn(0, Literal([Signature("'max-tokens'", "max-tokens", Some(Opaque))]));
            Lookup(NO_DECLARATIONS, config, [Member("max-tokens")], {}, 1) == Answer(Missing, {}) &&
            Exists(NO_DECLARATIONS, config, [Member("max-tokens")], NOTHING)
  {
    var members := [Signature("'max-tokens'", "max-tokens", Some(Opaque))];
    var w, config := NO_DECLARATIONS, TypeIn(0, Literal(members));
    assert |"'max-tokens'"| != |"max-tokens"|;
    OneName(w, config, members, "max-tokens", {}, 1, NOTHING);
  }

  /** `{ on(): void }` is answered `missing` for `on`, and `{ [key: string]: … }` for every name. */
  lemma MethodsAndIndexesAreMissed(name: string)
    ensures var method_ := TypeIn(0, Literal([Other(Some("on"))]));
            Lookup(NO_DECLARATIONS, method_, [Member("on")], {}, 1) == Answer(Missing, {}) &&
            Exists(NO_DECLARATIONS, method_, [Member("on")], NOTHING)
    ensures var index := TypeIn(0, Literal([Other(None)]));
            Lookup(NO_DECLARATIONS, index, [Member(name)], {}, 1) == Answer(Missing, {}) &&
            Exists(NO_DECLARATIONS, index, [Member(name)], NOTHING)
  {
    var w, on, index := NO_DECLARATIONS, [Other(Some("on"))], [Other(None)];
    assert on[0] in on && index[0] in index;
    OneName(w, TypeIn(0, Literal(on)), on, "on", {}, 1, NOTHING);
    OneName(w, TypeIn(0, Literal(index)), index, name, {}, 1, NOTHING);
  }

  const NO_DECLARATIONS := World(map[], map[])

}
