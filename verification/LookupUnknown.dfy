/**
 * When the schema-path lookup (`scripts/gen-config-catalog.ts`) leaves the question open: the exact conditions for
 * `unknown`, and the completeness of `found` and `missing`.
 */
module LookupUnknown {
  import opened Wrappers
  import opened TypeLookup
  import opened LookupAnswers

  // ---------- the parts of a combination ----------

  /** What was visited when the part at index `i` is looked up. */
  ghost function Before(w: World, nodes: seq<Option<Node>>, steps: seq<Step>, seen: set<Key>, stack: nat, i: nat):
    set<Key>
    requires i <= |nodes|
    decreases i
  {
    if i == 0 then seen
    else if nodes[0].None? then Before(w, nodes[1..], steps, seen, stack, i - 1)
    else
      var first := Lookup(w, nodes[0].value, steps, seen, stack);
      Before(w, nodes[1..], steps, if first.Answer? then first.seen else seen, stack, i - 1)
  }

  ghost function Part(nodes: seq<Option<Node>>, steps: seq<Step>, i: nat): Query
    requires i < |nodes| && nodes[i].Some?
  {
    Query(nodes[i].value, steps)
  }

  /** The answer to one part; a name that does not resolve is unknown. */
  ghost predicate PartAnswered(w: World, nodes: seq<Option<Node>>, steps: seq<Step>, seen: set<Key>, stack: nat,
                               i: nat, lookup: PathLookup)
    requires i < |nodes|
  {
    if nodes[i].None? then lookup == Unknown
    else Answered(w, Part(nodes, steps, i), Before(w, nodes, steps, seen, stack, i), stack, lookup)
  }

  ghost predicate SomePart(w: World, nodes: seq<Option<Node>>, steps: seq<Step>, seen: set<Key>, stack: nat,
                           lookup: PathLookup) {
    exists i | 0 <= i < |nodes| :: PartAnswered(w, nodes, steps, seen, stack, i, lookup)
  }

  ghost predicate EachPart(w: World, nodes: seq<Option<Node>>, steps: seq<Step>, seen: set<Key>, stack: nat,
                           lookup: PathLookup) {
    forall i | 0 <= i < |nodes| :: PartAnswered(w, nodes, steps, seen, stack, i, lookup)
  }

  lemma {:induction false} PartsInOrder(w: World, nodes: seq<Option<Node>>, steps: seq<Step>, seen: set<Key>,
                                        stack: nat, i: nat)
    requires LookupAll(w, nodes, steps, seen, stack).Answers? && i < |nodes|
    ensures PartAnswered(w, nodes, steps, seen, stack, i, LookupAll(w, nodes, steps, seen, stack).lookups[i])
    decreases i
  {
    var first := if nodes[0].Some? then Lookup(w, nodes[0].value, steps, seen, stack) else Answer(Unknown, seen);
    if i > 0 { PartsInOrder(w, nodes[1..], steps, first.seen, stack, i - 1); }
  }

  lemma {:induction false} BeforeEnd(w: World, nodes: seq<Option<Node>>, steps: seq<Step>, seen: set<Key>, stack: nat)
    requires LookupAll(w, nodes, steps, seen, stack).Answers?
    ensures LookupAll(w, nodes, steps, seen, stack).seen == Before(w, nodes, steps, seen, stack, |nodes|)
    decreases |nodes|
  {
    if nodes != [] {
      var first := if nodes[0].Some? then Lookup(w, nodes[0].value, steps, seen, stack) else Answer(Unknown, seen);
      BeforeEnd(w, nodes[1..], steps, first.seen, stack);
    }
  }

  // ---------- why a lookup leaves the question open ----------

  /** The declaration was looked up with as many steps before. */
  predicate Visited(q: Query, seen: set<Key>) {
    q.node.Declaration? && Key(q.node.id, |q.steps|) in seen
  }

  /** The signature that the text of the next step names has no type to look the rest of the path up in. */
  predicate EndsUntyped(members: seq<Property>, steps: seq<Step>) {
    |steps| > 1 && steps[0].Member? && FindSignature(members, steps[0].name).Some? &&
    FindSignature(members, steps[0].name).value.typ.None?
  }

  /** The utility types that have the members of their argument. */
  predicate LooksThrough(head: string) {
    head == "Partial" || head == "Required" || head == "Readonly" || head == "NonNullable"
  }

  predicate NamesArray(head: string) {
    head == "Array" || head == "ReadonlyArray"
  }

  /**
   * The lookup cannot go into this place: an enum or a keyword, a name that is qualified or resolves to nothing, an
   * array step on members or a member step on an array, an index that is no string, a signature without a type.
   */
  predicate CannotEnter(w: World, q: Query) {
    q.steps != [] &&
    match q.node
    case Declaration(id) =>
      id !in w.decls || w.decls[id].1.Enum? ||
      (w.decls[id].1.Interface? && (q.steps[0].Array? || EndsUntyped(w.decls[id].1.members, q.steps)))
    case TypeIn(file, typ) =>
      match typ
      case Literal(members) => q.steps[0].Array? || EndsUntyped(members, q.steps)
      case ArrayOf(_) => q.steps[0].Member?
      case Indexed(_, index) => index.None?
      case Reference(head, qualified, arguments) =>
        if arguments != [] && NamesArray(head) then q.steps[0].Member?
        else !(arguments != [] && LooksThrough(head)) && (qualified || (file, head) !in w.names)
      case Opaque => true
      case _ => false
  }

  /**
   * The query leads to a place that the lookup cannot enter, to a declaration it has visited, or to a union whose
   * branches do not agree, and no other part of a combination on the way has the member.
   */
  ghost predicate Open(w: World, q: Query, seen: set<Key>, stack: nat)
    decreases stack, 0
  {
    stack > 0 && q.steps != [] &&
    (Visited(q, seen) || CannotEnter(w, q) ||
     var grown := Grown(w, q.node, q.steps, seen);
     match PlanNode(w, q.node, q.steps)
     case Now(_) => false
     case As(next, rest) => Open(w, Query(next, rest), grown, stack - 1)
     case AnyOf(nodes) =>
       !SomePart(w, nodes, q.steps, grown, stack - 1, Found) &&
       SomePartOpen(w, nodes, q.steps, grown, stack - 1)
     case EachOf(nodes) =>
       !EachPart(w, nodes, q.steps, grown, stack - 1, Found) && !EachPart(w, nodes, q.steps, grown, stack - 1, Missing))
  }

  lemma PartsAnswered(w: World, nodes: seq<Option<Node>>, steps: seq<Step>, seen: set<Key>, stack: nat,
                      lookup: PathLookup)
    requires LookupAll(w, nodes, steps, seen, stack).Answers?
    ensures var lookups := LookupAll(w, nodes, steps, seen, stack).lookups;
            (SomePart(w, nodes, steps, seen, stack, lookup) <==>
               exists i | 0 <= i < |lookups| :: lookups[i] == lookup) &&
            (EachPart(w, nodes, steps, seen, stack, lookup) <==>
               forall i | 0 <= i < |lookups| :: lookups[i] == lookup)
  {
    var lookups := LookupAll(w, nodes, steps, seen, stack).lookups;
    forall i | 0 <= i < |nodes|
      ensures PartAnswered(w, nodes, steps, seen, stack, i, lookup) <==> lookups[i] == lookup
    {
      PartsInOrder(w, nodes, steps, seen, stack, i);
    }
  }

  lemma Agreement(results: seq<PathLookup>)
    ensures Agree(results) == Unknown <==>
              (exists i | 0 <= i < |results| :: results[i] != Found) &&
              (exists i | 0 <= i < |results| :: results[i] != Missing)
  {
    forall i | 0 <= i < |results| ensures results[i] in results {}
  }

  ghost predicate StopsHere(w: World, q: Query, seen: set<Key>) {
    q.steps == [] || Visited(q, seen) || CannotEnter(w, q)
  }

  /** Where the lookup stops or the syntax decides at once. */
  lemma OpenAtOnce(w: World, q: Query, seen: set<Key>, stack: nat)
    requires stack > 0 && (StopsHere(w, q, seen) || PlanNode(w, q.node, q.steps).Now?)
    ensures Lookup(w, q.node, q.steps, seen, stack).Answer?
    ensures Answered(w, q, seen, stack, Unknown) <==> Open(w, q, seen, stack)
  {
  }

  /** A part leaves the question open, or is a name that does not resolve. */
  ghost predicate OpenPart(w: World, nodes: seq<Option<Node>>, steps: seq<Step>, seen: set<Key>, stack: nat, i: nat)
    requires i < |nodes|
    decreases stack, 1
  {
    nodes[i].None? || Open(w, Part(nodes, steps, i), Before(w, nodes, steps, seen, stack, i), stack)
  }

  ghost predicate SomePartOpen(w: World, nodes: seq<Option<Node>>, steps: seq<Step>, seen: set<Key>, stack: nat)
    decreases stack, 2
  {
    exists i | 0 <= i < |nodes| :: OpenPart(w, nodes, steps, seen, stack, i)
  }

  /** A lookup that ends answers `unknown` exactly when the question is open in this sense. */
  lemma {:induction false} UnknownExactly(w: World, q: Query, seen: set<Key>, stack: nat)
    requires Lookup(w, q.node, q.steps, seen, stack).Answer?
    ensures Answered(w, q, seen, stack, Unknown) <==> Open(w, q, seen, stack)
    decreases stack, 1
  {
    if StopsHere(w, q, seen) || PlanNode(w, q.node, q.steps).Now? {
      OpenAtOnce(w, q, seen, stack);
    } else {
      hide StopsHere, CannotEnter, PlanNode, Visited, SomePart, EachPart, SomePartOpen, Combine, Agree;
      var grown := Grown(w, q.node, q.steps, seen);
      match PlanNode(w, q.node, q.steps)
      case As(next, rest) => UnknownExactly(w, Query(next, rest), grown, stack - 1);
      case AnyOf(nodes) => PartsOpen(w, nodes, q.steps, grown, stack - 1);
      case EachOf(nodes) => BranchesOpen(w, nodes, q.steps, grown, stack - 1);
    }
  }

  lemma BranchesOpen(w: World, nodes: seq<Option<Node>>, steps: seq<Step>, seen: set<Key>, stack: nat)
    requires LookupAll(w, nodes, steps, seen, stack).Answers?
    ensures Agree(LookupAll(w, nodes, steps, seen, stack).lookups) == Unknown <==>
              !EachPart(w, nodes, steps, seen, stack, Found) && !EachPart(w, nodes, steps, seen, stack, Missing)
  {
    Agreement(LookupAll(w, nodes, steps, seen, stack).lookups);
    PartsAnswered(w, nodes, steps, seen, stack, Found);
    PartsAnswered(w, nodes, steps, seen, stack, Missing);
  }

  lemma {:induction false} PartsOpen(w: World, nodes: seq<Option<Node>>, steps: seq<Step>, seen: set<Key>, stack: nat)
    requires LookupAll(w, nodes, steps, seen, stack).Answers?
    ensures Combine(LookupAll(w, nodes, steps, seen, stack).lookups) == Unknown <==>
              !SomePart(w, nodes, steps, seen, stack, Found) && SomePartOpen(w, nodes, steps, seen, stack)
    decreases stack, 2
  {
    PartsAnswered(w, nodes, steps, seen, stack, Found);
    var lookups := LookupAll(w, nodes, steps, seen, stack).lookups;
    forall i | 0 <= i < |nodes| ensures lookups[i] == Unknown <==> OpenPart(w, nodes, steps, seen, stack, i) {
      PartsInOrder(w, nodes, steps, seen, stack, i);
      if nodes[i].Some? {
        UnknownExactly(w, Part(nodes, steps, i), Before(w, nodes, steps, seen, stack, i), stack);
      }
    }
  }

  // ---------- lookups that visit no declaration twice ----------

  /** The lookup comes to the declaration with so many steps left. */
  ghost predicate ComesTo(w: World, q: Query, k: Key) {
    exists r :: Reaches(w, q, r) && MarkedAs(w, r, k)
  }

  ghost predicate MarkedAs(w: World, r: Query, k: Key) {
    r.steps != [] && Guarded(w, r.node) && k == Key(r.node.id, |r.steps|)
  }

  lemma ComesToBehind(w: World, q: Query, m: Query, k: Key)
    requires Asks(w, q, m) && ComesTo(w, m, k)
    ensures ComesTo(w, q, k)
  {
    var r :| Reaches(w, m, r) && MarkedAs(w, r, k);
    ReachesBehind(w, q, m, r);
  }

  lemma ComesToItself(w: World, q: Query, k: Key)
    requires MarkedAs(w, q, k)
    ensures ComesTo(w, q, k)
  {
    ReachesItself(w, q);
  }

  ghost predicate Fresh(w: World, q: Query, seen: set<Key>) {
    forall k | k in seen :: !ComesTo(w, q, k)
  }

  /** Behind this query no way leads back to its declaration, and no two parts lead to the same one. */
  ghost predicate OnceBehind(w: World, q: Query) {
    (forall m, k | Asks(w, q, m) && MarkedAs(w, q, k) :: !ComesTo(w, m, k)) &&
    (forall nodes: seq<Option<Node>>, i: nat, j: nat |
       Combines(w, q, nodes) && i < j < |nodes| && nodes[i].Some? && nodes[j].Some? ::
       Apart(w, Part(nodes, q.steps, i), Part(nodes, q.steps, j)))
  }

  ghost predicate Apart(w: World, q: Query, r: Query) {
    forall k | ComesTo(w, q, k) :: !ComesTo(w, r, k)
  }

  /** A union has branches. */
  predicate HasBranches(q: Query) {
    q.node.TypeIn? && q.node.typ.Union? ==> q.node.typ.parts != []
  }

  /** All the way, names are plain, nothing is overlooked and unions have branches. */
  ghost predicate ReadWell(w: World, q: Query) {
    forall r | Reaches(w, q, r) :: NamePlain(w, r) && !Overlooks(w, r) && HasBranches(r)
  }

  /** No two ways of the lookup come to the same declaration with as many steps left. */
  ghost predicate VisitsOnce(w: World, q: Query) {
    forall r | Reaches(w, q, r) :: OnceBehind(w, r)
  }

  lemma GoodBehind(w: World, q: Query)
    requires ReadWell(w, q) && VisitsOnce(w, q)
    ensures NamePlain(w, q) && !Overlooks(w, q) && HasBranches(q) && OnceBehind(w, q)
    ensures forall m | Asks(w, q, m) :: ReadWell(w, m) && VisitsOnce(w, m)
  {
    ReachesItself(w, q);
    forall m, r | Asks(w, q, m) && Reaches(w, m, r) ensures Reaches(w, q, r) { ReachesBehind(w, q, m, r); }
  }

  /** What a lookup adds to the visited set are declarations it comes to. */
  lemma {:induction false} MarksOnlyVisited(w: World, q: Query, seen: set<Key>, stack: nat, k: Key)
    requires var r := Lookup(w, q.node, q.steps, seen, stack); r.Answer? && k in r.seen && k !in seen
    ensures ComesTo(w, q, k)
    decreases stack, 0, 0
  {
    var grown := Grown(w, q.node, q.steps, seen);
    if k in grown {
      ComesToItself(w, q, k);
    } else {
      match PlanNode(w, q.node, q.steps)
      case Now(_) =>
      case As(next, rest) =>
        MarksOnlyVisited(w, Query(next, rest), grown, stack - 1, k);
        ComesToBehind(w, q, Query(next, rest), k);
      case AnyOf(nodes) => PartMarks(w, q, nodes, grown, stack - 1, k);
      case EachOf(nodes) => PartMarks(w, q, nodes, grown, stack - 1, k);
    }
  }

  lemma {:induction false} PartMarks(w: World, q: Query, nodes: seq<Option<Node>>, grown: set<Key>, stack: nat, k: Key)
    requires Combines(w, q, nodes)
    requires var r := LookupAll(w, nodes, q.steps, grown, stack); r.Answers? && k in r.seen && k !in grown
    ensures ComesTo(w, q, k)
    decreases stack, 2, 0
  {
    BeforeEnd(w, nodes, q.steps, grown, stack);
    BeforeMarks(w, nodes, q.steps, grown, stack, |nodes|, k);
    var j :| 0 <= j < |nodes| && nodes[j].Some? && ComesTo(w, Part(nodes, q.steps, j), k);
    assert nodes[j] in nodes;
    ComesToBehind(w, q, Part(nodes, q.steps, j), k);
  }

  lemma {:induction false} BeforeMarks(w: World, nodes: seq<Option<Node>>, steps: seq<Step>, seen: set<Key>,
                                       stack: nat, i: nat, k: Key)
    requires LookupAll(w, nodes, steps, seen, stack).Answers? && i <= |nodes|
    requires k in Before(w, nodes, steps, seen, stack, i) && k !in seen
    ensures exists j | 0 <= j < i :: nodes[j].Some? && ComesTo(w, Part(nodes, steps, j), k)
    decreases stack, 1, i
  {
    if nodes[0].None? {
      BeforeMarks(w, nodes[1..], steps, seen, stack, i - 1, k);
      var j :| 0 <= j < i - 1 && nodes[1..][j].Some? && ComesTo(w, Part(nodes[1..], steps, j), k);
      assert nodes[j + 1] == nodes[1..][j];
    } else {
      var first := Lookup(w, nodes[0].value, steps, seen, stack);
      if k in first.seen {
        MarksOnlyVisited(w, Part(nodes, steps, 0), seen, stack, k);
      } else {
        BeforeMarks(w, nodes[1..], steps, first.seen, stack, i - 1, k);
        var j :| 0 <= j < i - 1 && nodes[1..][j].Some? && ComesTo(w, Part(nodes[1..], steps, j), k);
        assert nodes[j + 1] == nodes[1..][j];
      }
    }
  }

  /** Coming to a query for the first time, the lookup comes to what it asks for the first time. */
  lemma FreshBehind(w: World, q: Query, seen: set<Key>, m: Query)
    requires OnceBehind(w, q) && Fresh(w, q, seen) && Asks(w, q, m)
    ensures Fresh(w, m, Grown(w, q.node, q.steps, seen))
  {
    forall k | k in Grown(w, q.node, q.steps, seen) ensures !ComesTo(w, m, k) {
      if k in seen {
        if ComesTo(w, m, k) { ComesToBehind(w, q, m, k); }
      } else {
        assert MarkedAs(w, q, k);
      }
    }
  }

  lemma FreshPart(w: World, q: Query, seen: set<Key>, nodes: seq<Option<Node>>, stack: nat, i: nat)
    requires OnceBehind(w, q) && Fresh(w, q, seen) && Combines(w, q, nodes) && i < |nodes| && nodes[i].Some?
    requires LookupAll(w, nodes, q.steps, Grown(w, q.node, q.steps, seen), stack).Answers?
    ensures var before := Before(w, nodes, q.steps, Grown(w, q.node, q.steps, seen), stack, i);
            Asks(w, q, Part(nodes, q.steps, i)) && Fresh(w, Part(nodes, q.steps, i), before)
  {
    var grown := Grown(w, q.node, q.steps, seen);
    var m := Part(nodes, q.steps, i);
    assert nodes[i] in nodes;
    FreshBehind(w, q, seen, m);
    forall k | k in Before(w, nodes, q.steps, grown, stack, i) ensures !ComesTo(w, m, k) {
      if k !in grown {
        BeforeMarks(w, nodes, q.steps, grown, stack, i, k);
        var j: nat :| j < i && nodes[j].Some? && ComesTo(w, Part(nodes, q.steps, j), k);
        assert Apart(w, Part(nodes, q.steps, j), m);
      }
    }
  }

  lemma FreshNotVisited(w: World, q: Query, seen: set<Key>)
    requires Fresh(w, q, seen) && q.steps != []
    ensures !Stops(w, q.node, q.steps, seen)
  {
    if Stops(w, q.node, q.steps, seen) { ComesToItself(w, q, Key(q.node.id, |q.steps|)); }
  }

  // ---------- what exists is found ----------

  lemma {:induction false} FirmIsFound(w: World, q: Query, seen: set<Key>, stack: nat, n: nat)
    requires ReadWell(w, q) && VisitsOnce(w, q) && Fresh(w, q, seen) && Firm(w, q, n)
    requires Lookup(w, q.node, q.steps, seen, stack).Answer?
    ensures Answered(w, q, seen, stack, Found)
    decreases stack, 0
  {
    hide Reaches, Fresh, OnceBehind, NamePlain, Overlooks, Supplied, Combine;
    GoodBehind(w, q);
    NotSupplied(w, q);
    if q.steps != [] {
      FreshNotVisited(w, q, seen);
      var grown := Grown(w, q.node, q.steps, seen);
      match PlanNode(w, q.node, q.steps)
      case Now(_) =>
      case As(next, rest) =>
        FreshBehind(w, q, seen, Query(next, rest));
        FirmIsFound(w, Query(next, rest), grown, stack - 1, n - 1);
      case AnyOf(nodes) =>
        var i: nat :| i < |nodes| && nodes[i].Some? && Firm(w, Part(nodes, q.steps, i), n - 1);
        FirmPartIsFound(w, q, seen, nodes, stack - 1, i, n - 1);
        OneFound(LookupAll(w, nodes, q.steps, grown, stack - 1).lookups, i);
      case EachOf(nodes) =>
        var lookups := LookupAll(w, nodes, q.steps, grown, stack - 1).lookups;
        forall i: nat | i < |lookups| ensures lookups[i] == Found {
          assert nodes[i] in nodes;
          FirmPartIsFound(w, q, seen, nodes, stack - 1, i, n - 1);
        }
    }
  }

  lemma OneFound(results: seq<PathLookup>, i: nat)
    requires i < |results| && results[i] == Found
    ensures Combine(results) == Found
  {
    assert results[i] in results;
  }

  lemma NotSupplied(w: World, q: Query)
    requires !Overlooks(w, q)
    ensures !Supplied(w, q)
  {
  }

  lemma {:induction false} FirmPartIsFound(w: World, q: Query, seen: set<Key>, nodes: seq<Option<Node>>, stack: nat,
                                           i: nat, n: nat)
    requires ReadWell(w, q) && VisitsOnce(w, q) && Fresh(w, q, seen) && Combines(w, q, nodes)
    requires i < |nodes| && nodes[i].Some? && Firm(w, Part(nodes, q.steps, i), n)
    requires LookupAll(w, nodes, q.steps, Grown(w, q.node, q.steps, seen), stack).Answers?
    ensures LookupAll(w, nodes, q.steps, Grown(w, q.node, q.steps, seen), stack).lookups[i] == Found
    decreases stack, 1
  {
    var grown := Grown(w, q.node, q.steps, seen);
    GoodBehind(w, q);
    FreshPart(w, q, seen, nodes, stack, i);
    PartsInOrder(w, nodes, q.steps, grown, stack, i);
    FirmIsFound(w, Part(nodes, q.steps, i), Before(w, nodes, q.steps, grown, stack, i), stack, n);
  }

  // ---------- what does not exist is missing ----------

  ghost predicate NeverHas(w: World, q: Query) {
    forall depth :: !Has(w, q.node, q.steps, ANYTHING, false, depth)
  }

  /** What does not exist whatever stands behind opaque places does not exist where the plan asks. */
  lemma NeverHasBehind(w: World, q: Query, m: Query)
    requires NamePlain(w, q) && NeverHas(w, q) && Asks(w, q, m)
    ensures NeverHas(w, m)
  {
    forall depth: nat ensures !Has(w, m.node, m.steps, ANYTHING, false, depth) {
      if Has(w, m.node, m.steps, ANYTHING, false, depth) { AskedMayExist(w, q, m, depth); }
    }
  }

  /** Nor does the syntax at hand hold it or leave it open. */
  lemma NeverHasHere(w: World, q: Query)
    requires NamePlain(w, q) && NeverHas(w, q)
    ensures q.steps != [] && !CannotEnter(w, q)
    ensures PlanNode(w, q.node, q.steps).Now? ==> PlanNode(w, q.node, q.steps) == Now(Missing)
  {
    assert !Has(w, q.node, q.steps, ANYTHING, false, 1);
    if q.steps != [] && q.node.TypeIn? {
      assert !HasInType(w, q.node.file, q.node.typ, q.steps, ANYTHING, false, 1);
    }
  }

  lemma UnresolvedMayExist(w: World, q: Query, nodes: seq<Option<Node>>, i: nat)
    requires NamePlain(w, q) && Combines(w, q, nodes) && i < |nodes| && nodes[i].None?
    ensures Has(w, q.node, q.steps, ANYTHING, false, 2)
  {
    var (file, decl) := w.decls[q.node.id];
    assert HasFromBase(w, q.node, file, decl.bases[i], q.steps, ANYTHING, false, 1);
  }

  lemma NeverHasParts(w: World, q: Query, nodes: seq<Option<Node>>, i: nat)
    requires NamePlain(w, q) && NeverHas(w, q) && Combines(w, q, nodes) && i < |nodes|
    ensures nodes[i].Some? && Asks(w, q, Part(nodes, q.steps, i)) && NeverHas(w, Part(nodes, q.steps, i))
  {
    if nodes[i].None? {
      UnresolvedMayExist(w, q, nodes, i);
    } else {
      assert nodes[i] in nodes;
      NeverHasBehind(w, q, Part(nodes, q.steps, i));
    }
  }

  lemma {:induction false} AbsentIsMissing(w: World, q: Query, seen: set<Key>, stack: nat)
    requires ReadWell(w, q) && VisitsOnce(w, q) && Fresh(w, q, seen) && NeverHas(w, q)
    requires Lookup(w, q.node, q.steps, seen, stack).Answer?
    ensures Answered(w, q, seen, stack, Missing)
    decreases stack, 0
  {
    GoodBehind(w, q);
    NeverHasHere(w, q);
    FreshNotVisited(w, q, seen);
    var grown := Grown(w, q.node, q.steps, seen);
    match PlanNode(w, q.node, q.steps)
    case Now(_) =>
    case As(next, rest) =>
      FreshBehind(w, q, seen, Query(next, rest));
      NeverHasBehind(w, q, Query(next, rest));
      AbsentIsMissing(w, Query(next, rest), grown, stack - 1);
    case AnyOf(nodes) => AbsentParts(w, q, seen, nodes, stack - 1);
    case EachOf(nodes) => AbsentParts(w, q, seen, nodes, stack - 1);
  }

  lemma {:induction false} AbsentParts(w: World, q: Query, seen: set<Key>, nodes: seq<Option<Node>>, stack: nat)
    requires ReadWell(w, q) && VisitsOnce(w, q) && Fresh(w, q, seen) && NeverHas(w, q) && Combines(w, q, nodes)
    requires LookupAll(w, nodes, q.steps, Grown(w, q.node, q.steps, seen), stack).Answers?
    ensures var results := LookupAll(w, nodes, q.steps, Grown(w, q.node, q.steps, seen), stack).lookups;
            Combine(results) == Missing && (results != [] ==> Agree(results) == Missing)
    decreases stack, 1
  {
    var grown := Grown(w, q.node, q.steps, seen);
    var results := LookupAll(w, nodes, q.steps, grown, stack).lookups;
    GoodBehind(w, q);
    forall i: nat | i < |nodes| ensures results[i] == Missing {
      NeverHasParts(w, q, nodes, i);
      FreshPart(w, q, seen, nodes, stack, i);
      PartsInOrder(w, nodes, q.steps, grown, stack, i);
      AbsentIsMissing(w, Part(nodes, q.steps, i), Before(w, nodes, q.steps, grown, stack, i), stack);
    }
    if results != [] { assert results[0] in results; }
  }

  /**
   * Where the syntax is read well and no declaration is visited twice, the answer is `found` exactly when the member
   * exists whatever stands behind opaque places and whichever branches unions take, `missing` exactly when it exists
   * in no case, and `unknown` exactly when that depends.
   */
  lemma AnswersExactly(w: World, q: Query, seen: set<Key>, stack: nat)
    requires Lookup(w, q.node, q.steps, seen, stack).Answer?
    requires ReadWell(w, q) && VisitsOnce(w, q) && Fresh(w, q, seen)
    ensures Answered(w, q, seen, stack, Found) <==> Exists(w, q.node, q.steps, NOTHING)
    ensures Answered(w, q, seen, stack, Missing) <==> !MayExist(w, q.node, q.steps, ANYTHING)
    ensures Answered(w, q, seen, stack, Unknown) <==>
              !Exists(w, q.node, q.steps, NOTHING) && MayExist(w, q.node, q.steps, ANYTHING)
  {
    if depth: nat :| Has(w, q.node, q.steps, NOTHING, true, depth) {
      HasFirm(w, q, depth);
      FirmIsFound(w, q, seen, stack, depth);
    }
    if Answered(w, q, seen, stack, Found) {
      FoundFirm(w, q, seen, stack);
      FirmHas(w, q, NOTHING, stack);
    }
    if !MayExist(w, q.node, q.steps, ANYTHING) { AbsentIsMissing(w, q, seen, stack); }
    if Answered(w, q, seen, stack, Missing) {
      forall depth ensures !Has(w, q.node, q.steps, ANYTHING, false, depth) {
        MissingLacks(w, q, seen, stack, ANYTHING, depth);
      }
    }
  }

  // ---------- the failing input ----------

  const NO_MEMBERS: seq<Property> := []

  /** `Config extends A, B`, `A extends Root`, `B extends Root`, all without members. */
  function DiamondWorld(): World {
    World(
      map[0 := (0, Interface(NO_MEMBERS, [Named("A"), Named("B")])), 1 := (0, Interface(NO_MEMBERS, [Named("Root")])),
          2 := (0, Interface(NO_MEMBERS, [Named("Root")])), 3 := (0, Interface(NO_MEMBERS, []))],
      map[(0, "A") := 1, (0, "B") := 2, (0, "Root") := 3])
  }

  /** An interface without members has what its bases have. */
  lemma OnlyFromBases(w: World, id: DeclId, bases: seq<Base>, name: string, depth: nat)
    requires id in w.decls && w.decls[id] == (0, Interface(NO_MEMBERS, bases))
    requires forall b | b in bases :: b.Named? && (0, b.name) in w.names &&
               (depth > 0 ==> !Has(w, Declaration(w.names[(0, b.name)]), [Member(name)], ANYTHING, false, depth - 1))
    ensures !Has(w, Declaration(id), [Member(name)], ANYTHING, false, depth)
  {
    if depth > 0 {
      var node, path := Declaration(id), [Member(name)];
      assert !HasMember(w, node, 0, NO_MEMBERS, path, ANYTHING, false, depth);
      forall i | 0 <= i < |bases| ensures !HasFromBase(w, node, 0, bases[i], path, ANYTHING, false, depth - 1) {
        assert bases[i] in bases;
      }
    }
  }

  lemma DiamondIsEmpty(name: string, depth: nat)
    ensures !Has(DiamondWorld(), Declaration(0), [Member(name)], ANYTHING, false, depth)
  {
    var w := DiamondWorld();
    forall d: nat ensures !Has(w, Declaration(3), [Member(name)], ANYTHING, false, d) {
      OnlyFromBases(w, 3, [], name, d);
    }
    forall d: nat ensures !Has(w, Declaration(1), [Member(name)], ANYTHING, false, d) {
      OnlyFromBases(w, 1, [Named("Root")], name, d);
    }
    forall d: nat ensures !Has(w, Declaration(2), [Member(name)], ANYTHING, false, d) {
      OnlyFromBases(w, 2, [Named("Root")], name, d);
    }
    OnlyFromBases(w, 0, [Named("A"), Named("B")], name, depth);
  }

  lemma OnePart(w: World, node: Node, path: seq<Step>, seen: set<Key>, stack: nat)
    requires Lookup(w, node, path, seen, stack).Answer?
    ensures var r := Lookup(w, node, path, seen, stack);
            LookupAll(w, [Some(node)], path, seen, stack) == Answers([r.lookup], r.seen)
  {
    hide Lookup;
    var r, nodes := Lookup(w, node, path, seen, stack), [Some(node)];
    assert nodes[1..] == [] && LookupAll(w, [], path, r.seen, stack) == Answers([], r.seen);
  }

  lemma TwoParts(w: World, a: Node, b: Node, path: seq<Step>, seen: set<Key>, stack: nat)
    requires Lookup(w, a, path, seen, stack).Answer?
    requires Lookup(w, b, path, Lookup(w, a, path, seen, stack).seen, stack).Answer?
    ensures var first := Lookup(w, a, path, seen, stack);
            var second := Lookup(w, b, path, first.seen, stack);
            LookupAll(w, [Some(a), Some(b)], path, seen, stack) == Answers([first.lookup, second.lookup], second.seen)
  {
    hide Lookup;
    var first, nodes := Lookup(w, a, path, seen, stack), [Some(a), Some(b)];
    OnePart(w, b, path, first.seen, stack);
    assert nodes[1..] == [Some(b)];
  }

  /** An interface without members answers as its bases do together. */
  lemma AnswersFromBases(w: World, id: DeclId, bases: seq<Base>, name: string, seen: set<Key>, stack: nat)
    requires id in w.decls && w.decls[id] == (0, Interface(NO_MEMBERS, bases)) && bases != []
    requires Key(id, 1) !in seen
    requires LookupAll(w, BaseNodes(w, 0, bases), [Member(name)], seen + {Key(id, 1)}, stack).Answers?
    ensures var r := LookupAll(w, BaseNodes(w, 0, bases), [Member(name)], seen + {Key(id, 1)}, stack);
            Lookup(w, Declaration(id), [Member(name)], seen, stack + 1) == Answer(Combine(r.lookups), r.seen)
  {
    hide LookupAll, BaseNodes, Combine;
  }

  /** A member that no base has is answered `unknown`, because the second way comes to `Root` again. */
  lemma DiamondIsUnknown(name: string)
    ensures Answered(DiamondWorld(), Query(Declaration(0), [Member(name)]), {}, 3, Unknown)
    ensures !MayExist(DiamondWorld(), Declaration(0), [Member(name)], ANYTHING)
  {
    hide Lookup, LookupAll, Has;
    var w, path := DiamondWorld(), [Member(name)];
    forall depth: nat ensures !Has(w, Declaration(0), path, ANYTHING, false, depth) { DiamondIsEmpty(name, depth); }
    var a, b := Declaration(1), Declaration(2);
    DiamondSides(name);
    TwoParts(w, a, b, path, {Key(0, 1)}, 2);
    assert BaseNodes(w, 0, [Named("A"), Named("B")]) == [Some(a), Some(b)];
    assert {} + {Key(0, 1)} == {Key(0, 1)};
    AnswersFromBases(w, 0, [Named("A"), Named("B")], name, {}, 2);
  }

  lemma DiamondSides(name: string)
    ensures var w, path, seen := DiamondWorld(), [Member(name)], {Key(0, 1), Key(1, 1), Key(3, 1)};
            Lookup(w, Declaration(1), path, {Key(0, 1)}, 2) == Answer(Missing, seen) &&
            Lookup(w, Declaration(2), path, seen, 2) == Answer(Unknown, seen + {Key(2, 1)})
  {
    var w, path, seen := DiamondWorld(), [Member(name)], {Key(0, 1), Key(1, 1), Key(3, 1)};
    assert {Key(0, 1)} + {Key(1, 1)} + {Key(3, 1)} == seen;
    assert BaseNodes(w, 0, [Named("Root")]) == [Some(Declaration(3))];
    assert Lookup(w, Declaration(3), path, {Key(0, 1)} + {Key(1, 1)}, 1) == Answer(Missing, seen);
    assert Lookup(w, Declaration(3), path, seen + {Key(2, 1)}, 1) == Answer(Unknown, seen + {Key(2, 1)});
    OnePart(w, Declaration(3), path, {Key(0, 1)} + {Key(1, 1)}, 1);
    OnePart(w, Declaration(3), path, seen + {Key(2, 1)}, 1);
    AnswersFromBases(w, 1, [Named("Root")], name, {Key(0, 1)}, 1);
    AnswersFromBases(w, 2, [Named("Root")], name, seen, 1);
  }
}
