/**
 * The three-valued schema-path lookup (`scripts/gen-config-catalog.ts`) over a small syntax of type
 * declarations, against a two-valued meaning of member presence.
 */
module TypeLookup {
  import opened Wrappers

  datatype Step = Member(name: string) | Array

  datatype Type =
    | Reference(head: string, qualified: bool, arguments: seq<Type>)
    | Literal(members: seq<Property>)
    | Wrapped(inner: Type)                        // parentheses or `readonly`
    | KeyOf(inner: Type)
    | Intersection(parts: seq<Type>)
    | Union(parts: seq<Type>)
    | ArrayOf(element: Type)
    | Indexed(owner: Type, index: Option<string>) // `None`: the index is not a string literal
    | Opaque

  /**
   * A member of an interface or literal: a property signature, or any other kind of member. `text` is the name as
   * it stands in the source, with any quotes; `name` is the property it declares.
   */
  datatype Property =
    | Signature(text: string, name: string, typ: Option<Type>)
    | Other(covers: Option<string>)               // a method or accessor of that name; `None`: an index signature

  datatype Base = Named(name: string) | Expression

  datatype Decl =
    | Interface(members: seq<Property>, bases: seq<Base>)
    | Alias(typ: Type)
    | Enum

  type FileId = nat
  type DeclId = nat

  /** All declarations with their files, and the declaration each name of a file resolves to, if any. */
  datatype World = World(decls: map<DeclId, (FileId, Decl)>, names: map<(FileId, string), DeclId>)

  ghost predicate WellFormed(w: World) {
    forall key | key in w.names :: w.names[key] in w.decls
  }

  datatype Node = Declaration(id: DeclId) | TypeIn(file: FileId, typ: Type)

  datatype PathLookup = Found | Missing | Unknown

  /** A declaration looked up with a number of remaining steps. */
  datatype Key = Key(id: DeclId, remaining: nat)

  /** The answer with the grown `seen` set, or the exhaustion of the call stack. */
  datatype Outcome = Answer(lookup: PathLookup, seen: set<Key>) | Overflow

  datatype Outcomes = Answers(lookups: seq<PathLookup>, seen: set<Key>) | OverflowAll

  const PASSTHROUGH_WRAPPERS: set<string> := {"Partial", "Required", "Readonly", "NonNullable"}
  const ARRAY_NAMES: set<string> := {"Array", "ReadonlyArray"}

  /** Any found wins, else any unknown taints, else missing. */
  function Combine(results: seq<PathLookup>): PathLookup {
    if Found in results then Found else if Unknown in results then Unknown else Missing
  }

  /** Presence on a union is definite only when every branch agrees. */
  function Agree(results: seq<PathLookup>): PathLookup {
    if forall r | r in results :: r == Found then Found
    else if forall r | r in results :: r == Missing then Missing
    else Unknown
  }

  /** The first property signature whose source text is that name. */
  function FindSignature(members: seq<Property>, name: string): (r: Option<Property>)
    ensures r.Some? ==> r.value.Signature? && r.value.text == name && r.value in members
    ensures r.None? ==> forall m | m in members && m.Signature? :: m.text != name
  {
    if members == [] then None
    else if members[0].Signature? && members[0].text == name then Some(members[0])
    else FindSignature(members[1..], name)
  }

  /** The node a base or reference name resolves to. */
  function Resolve(w: World, file: FileId, name: string): Option<Node> {
    if (file, name) in w.names then Some(Declaration(w.names[(file, name)])) else None
  }

  /** The nodes of a list of heritage bases; `None` for an expression or an unresolved name. */
  function BaseNodes(w: World, file: FileId, bases: seq<Base>): (nodes: seq<Option<Node>>)
    ensures |nodes| == |bases|
    ensures forall i | 0 <= i < |bases| ::
              nodes[i] == (if bases[i].Named? then Resolve(w, file, bases[i].name) else None)
  {
    seq(|bases|, i requires 0 <= i < |bases| => if bases[i].Named? then Resolve(w, file, bases[i].name) else None)
  }

  function PartNodes(file: FileId, parts: seq<Type>): (nodes: seq<Option<Node>>)
    ensures |nodes| == |parts| && forall i | 0 <= i < |parts| :: nodes[i] == Some(TypeIn(file, parts[i]))
  {
    seq(|parts|, i requires 0 <= i < |parts| => Some(TypeIn(file, parts[i])))
  }

  // ---------- what one node asks of others ----------

  /** How a node answers for a non-empty path: at once, as another node does, or combining several. */
  datatype Plan =
    | Now(lookup: PathLookup)
    | As(node: Node, steps: seq<Step>)
    | AnyOf(nodes: seq<Option<Node>>)      // intersections and heritage: presence in any suffices
    | EachOf(nodes: seq<Option<Node>>)     // unions: presence in each is needed

  /** The member list answers by itself, or not at all. */
  function IntoMembers(file: FileId, members: seq<Property>, steps: seq<Step>): Option<Plan>
    requires steps != [] && steps[0].Member?
  {
    match FindSignature(members, steps[0].name)
    case None => None
    case Some(m) =>
      Some(if |steps| == 1 then Now(Found)
           else if m.typ.Some? then As(TypeIn(file, m.typ.value), steps[1..])
           else Now(Unknown))
  }

  function PlanType(w: World, file: FileId, typ: Type, steps: seq<Step>): Plan
    requires steps != []
  {
    match typ
    case Literal(members) =>
      if steps[0].Array? then Now(Unknown)
      else (match IntoMembers(file, members, steps) case Some(plan) => plan case None => Now(Missing))
    case Wrapped(inner) => As(TypeIn(file, inner), steps)
    case KeyOf(inner) => As(TypeIn(file, inner), steps)
    case Intersection(parts) => AnyOf(PartNodes(file, parts))
    case Union(parts) => EachOf(PartNodes(file, parts))
    case ArrayOf(element) => if steps[0].Array? then As(TypeIn(file, element), steps[1..]) else Now(Unknown)
    case Indexed(owner, index) =>
      if index.Some? then As(TypeIn(file, owner), [Member(index.value)] + steps) else Now(Unknown)
    case Reference(head, qualified, arguments) =>
      if head in PASSTHROUGH_WRAPPERS && arguments != [] then As(TypeIn(file, arguments[0]), steps)
      else if head in ARRAY_NAMES && arguments != [] then
        if steps[0].Array? then As(TypeIn(file, arguments[0]), steps[1..]) else Now(Unknown)
      else if qualified || Resolve(w, file, head).None? then Now(Unknown)
      else As(Resolve(w, file, head).value, steps)
    case Opaque => Now(Unknown)
  }

  function PlanDecl(w: World, file: FileId, decl: Decl, steps: seq<Step>): Plan
    requires steps != []
  {
    match decl
    case Alias(typ) => As(TypeIn(file, typ), steps)
    case Enum => Now(Unknown)
    case Interface(members, bases) =>
      if steps[0].Array? then Now(Unknown)
      else
        match IntoMembers(file, members, steps)
        case Some(plan) => plan
        case None => if bases == [] then Now(Missing) else AnyOf(BaseNodes(w, file, bases))
  }

  function PlanNode(w: World, node: Node, steps: seq<Step>): Plan
    requires steps != []
  {
    match node
    case TypeIn(file, typ) => PlanType(w, file, typ, steps)
    case Declaration(id) =>
      if id in w.decls then PlanDecl(w, w.decls[id].0, w.decls[id].1, steps) else Now(Unknown)
  }

  // ---------- the lookup ----------

  predicate Guarded(w: World, node: Node) {
    node.Declaration? && node.id in w.decls && !w.decls[node.id].1.Enum?
  }

  /** The declaration was looked up with as many steps before. */
  predicate Stops(w: World, node: Node, steps: seq<Step>, seen: set<Key>) {
    Guarded(w, node) && Key(node.id, |steps|) in seen
  }

  function Grown(w: World, node: Node, steps: seq<Step>, seen: set<Key>): set<Key> {
    if Guarded(w, node) then seen + {Key(node.id, |steps|)} else seen
  }

  /**
   * `lookupPath`, with the `seen` set handed on from each branch to the next. `stack` is the number of nested
   * calls the runtime allows.
   */
  function Lookup(w: World, node: Node, steps: seq<Step>, seen: set<Key>, stack: nat): Outcome
    decreases stack, 0, 0
  {
    if stack == 0 then Overflow
    else if steps == [] then Answer(Found, seen)
    else if Stops(w, node, steps, seen) then Answer(Unknown, seen)
    else
      var grown := Grown(w, node, steps, seen);
      match PlanNode(w, node, steps)
      case Now(lookup) => Answer(lookup, grown)
      case As(next, rest) => Lookup(w, next, rest, grown, stack - 1)
      case AnyOf(nodes) =>
        (match LookupAll(w, nodes, steps, grown, stack - 1)
         case Answers(results, after) => Answer(Combine(results), after)
         case OverflowAll => Overflow)
      case EachOf(nodes) =>
        (match LookupAll(w, nodes, steps, grown, stack - 1)
         case Answers(results, after) => Answer(Agree(results), after)
         case OverflowAll => Overflow)
  }

  /** Look the same path up in every node, in order; an unresolved node is unknown. */
  function LookupAll(w: World, nodes: seq<Option<Node>>, steps: seq<Step>, seen: set<Key>, stack: nat): (r: Outcomes)
    ensures r.Answers? ==> |r.lookups| == |nodes|
    decreases stack, 1, |nodes|
  {
    if nodes == [] then Answers([], seen)
    else
      var first := if nodes[0].Some? then Lookup(w, nodes[0].value, steps, seen, stack) else Answer(Unknown, seen);
      if first.Overflow? then OverflowAll
      else
        match LookupAll(w, nodes[1..], steps, first.seen, stack)
        case OverflowAll => OverflowAll
        case Answers(rest, after) => Answers([first.lookup] + rest, after)
  }

  // ---------- meaning ----------

  /** An interpretation decides what the lookup cannot see: presence of a path behind a place it cannot enter. */
  type Interpretation = (Node, seq<Step>) -> bool

  /** The first property signature that declares the name. */
  function FindNamed(members: seq<Property>, name: string): (r: Option<Property>)
    ensures r.Some? ==> r.value.Signature? && r.value.name == name && r.value in members
  {
    if members == [] then None
    else if members[0].Signature? && members[0].name == name then Some(members[0])
    else FindNamed(members[1..], name)
  }

  /** A member of another kind than a property signature provides the name. */
  predicate Covers(members: seq<Property>, name: string) {
    exists m | m in members :: m.Other? && (m.covers == None || m.covers == Some(name))
  }

  /**
   * Whether the type at a node has a member at the path, by a derivation of at most `depth` steps. With `every`,
   * a union has it when each branch does; otherwise when some branch does.
   */
  ghost predicate Has(w: World, node: Node, steps: seq<Step>, world: Interpretation, every: bool, depth: nat)
    decreases depth, 2
  {
    depth > 0 &&
    (steps == [] ||
     match node
     case TypeIn(file, typ) => HasInType(w, file, typ, steps, world, every, depth)
     case Declaration(id) =>
       if id !in w.decls then world(node, steps)
       else
         var (file, decl) := w.decls[id];
         match decl
         case Alias(typ) => Has(w, TypeIn(file, typ), steps, world, every, depth - 1)
         case Enum => world(node, steps)
         case Interface(members, bases) =>
           if steps[0].Array? then world(node, steps)
           else HasMember(w, node, file, members, steps, world, every, depth) ||
                (FindNamed(members, steps[0].name).None? &&
                 exists b | 0 <= b < |bases| :: HasFromBase(w, node, file, bases[b], steps, world, every, depth - 1)))
  }

  /** A member list has the path: a property signature leads there, or another kind of member provides the name. */
  ghost predicate HasMember(w: World, node: Node, file: FileId, members: seq<Property>, steps: seq<Step>,
                            world: Interpretation, every: bool, depth: nat)
    requires steps != [] && steps[0].Member? && depth > 0
    decreases depth, 0
  {
    var rest := steps[1..];
    match FindNamed(members, steps[0].name)
    case Some(Signature(_, _, Some(typ))) => rest == [] || Has(w, TypeIn(file, typ), rest, world, every, depth - 1)
    case Some(_) => rest == [] || world(node, steps)
    case None => Covers(members, steps[0].name) && (rest == [] || world(node, steps))
  }

  /** Inherited presence: from the declaration a heritage name stands for, else as the interpretation says. */
  ghost predicate HasFromBase(w: World, node: Node, file: FileId, base: Base, steps: seq<Step>,
                              world: Interpretation, every: bool, depth: nat)
    decreases depth, 3
  {
    if base.Named? && (file, base.name) in w.names
    then Has(w, Declaration(w.names[(file, base.name)]), steps, world, every, depth)
    else world(node, steps)
  }

  ghost predicate HasInType(w: World, file: FileId, typ: Type, steps: seq<Step>, world: Interpretation, every: bool,
                            depth: nat)
    requires steps != [] && depth > 0
    decreases depth, 1
  {
    var node := TypeIn(file, typ);
    match typ
    case Literal(members) =>
      if steps[0].Array? then world(node, steps) else HasMember(w, node, file, members, steps, world, every, depth)
    case Wrapped(inner) => Has(w, TypeIn(file, inner), steps, world, every, depth - 1)
    case KeyOf(_) => world(node, steps)
    case Intersection(parts) =>
      exists i | 0 <= i < |parts| :: Has(w, TypeIn(file, parts[i]), steps, world, every, depth - 1)
    case Union(parts) =>
      if every then forall i | 0 <= i < |parts| :: Has(w, TypeIn(file, parts[i]), steps, world, every, depth - 1)
      else exists i | 0 <= i < |parts| :: Has(w, TypeIn(file, parts[i]), steps, world, every, depth - 1)
    case ArrayOf(element) => HasInArray(w, node, file, element, steps, world, every, depth)
    case Indexed(owner, Some(name)) => Has(w, TypeIn(file, owner), [Member(name)] + steps, world, every, depth - 1)
    case Indexed(_, None) => world(node, steps)
    case Reference(head, qualified, arguments) =>
      if arguments != [] && head in PASSTHROUGH_WRAPPERS
      then Has(w, TypeIn(file, arguments[0]), steps, world, every, depth - 1)
      else if arguments != [] && head in ARRAY_NAMES
      then HasInArray(w, node, file, arguments[0], steps, world, every, depth)
      else if !qualified && (file, head) in w.names
      then Has(w, Declaration(w.names[(file, head)]), steps, world, every, depth - 1)
      else world(node, steps)
    case Opaque => world(node, steps)
  }

  ghost predicate HasInArray(w: World, node: Node, file: FileId, element: Type, steps: seq<Step>,
                             world: Interpretation, every: bool, depth: nat)
    requires steps != [] && depth > 0
    decreases depth, 0
  {
    if steps[0].Array? then Has(w, TypeIn(file, element), steps[1..], world, every, depth - 1) else world(node, steps)
  }

  /** The member exists whichever branch every union takes. */
  ghost predicate Exists(w: World, node: Node, steps: seq<Step>, world: Interpretation) {
    exists depth :: Has(w, node, steps, world, true, depth)
  }

  /** The member exists for some choice of union branches. */
  ghost predicate MayExist(w: World, node: Node, steps: seq<Step>, world: Interpretation) {
    exists depth :: Has(w, node, steps, world, false, depth)
  }

  // ---------- the queries of a lookup ----------

  /** A node asked for a path. */
  datatype Query = Query(node: Node, steps: seq<Step>)

  /** The plan for one query asks another. */
  ghost predicate Asks(w: World, q: Query, r: Query) {
    q.steps != [] &&
    match PlanNode(w, q.node, q.steps)
    case Now(_) => false
    case As(next, rest) => r == Query(next, rest)
    case AnyOf(nodes) => Some(r.node) in nodes && r.steps == q.steps
    case EachOf(nodes) => Some(r.node) in nodes && r.steps == q.steps
  }

  ghost predicate ReachesIn(w: World, q: Query, r: Query, n: nat)
    decreases n
  {
    if n == 0 then q == r else exists m :: Asks(w, q, m) && ReachesIn(w, m, r, n - 1)
  }

  /** The query leads to the other one through plans. */
  ghost predicate Reaches(w: World, q: Query, r: Query) {
    exists n: nat :: ReachesIn(w, q, r, n)
  }

  lemma ReachesItself(w: World, q: Query)
    ensures Reaches(w, q, q)
  {
    assert ReachesIn(w, q, q, 0);
  }

  lemma ReachesBehind(w: World, q: Query, m: Query, r: Query)
    requires Asks(w, q, m) && Reaches(w, m, r)
    ensures Reaches(w, q, r)
  {
    var n: nat :| ReachesIn(w, m, r, n);
    assert ReachesIn(w, q, r, n + 1);
  }

  /** The member list of a node, if it has one. */
  function MembersOf(w: World, node: Node): seq<Property> {
    if node.TypeIn? then (if node.typ.Literal? then node.typ.members else [])
    else if node.id in w.decls && w.decls[node.id].1.Interface? then w.decls[node.id].1.members else []
  }

  /** Some member provides the name. */
  ghost predicate Provides(members: seq<Property>, name: string) {
    Covers(members, name) || FindNamed(members, name).Some?
  }
}
