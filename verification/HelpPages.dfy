/**
 * The help-graph collector (`scripts/gen-cli-help.ts`): a memoised depth-first visit of a possibly cyclic
 * graph of help pages, with propagation of alias invocations.
 */
module HelpPages {
  import opened Wrappers

  /** Complete help text; a page is identified by it. */
  datatype Output = Output(text: string)

  /** One displayed invocation, such as `dsh web serve`. */
  datatype Invocation = Invocation(line: string)

  /** One argument of a command line. */
  datatype Word = Word(text: string)

  function Extend(i: Invocation, name: Word): Invocation {
    Invocation(i.line + " " + name.text)
  }

  /** The invocation of an argument list. */
  function Join(args: seq<Word>): Invocation {
    if args == [] then Invocation("dsh") else Extend(Join(args[..|args| - 1]), args[|args| - 1])
  }

  lemma SplitLast<T>(s: seq<T>)
    requires s != []
    ensures s == s[..|s| - 1] + [s[|s| - 1]]
  {
  }

  lemma JoinLast(args: seq<Word>)
    requires args != []
    ensures Join(args) == Extend(Join(args[..|args| - 1]), args[|args| - 1])
  {
  }

  // ---------- displayed lines ----------

  /** The words of a command line after `dsh`, each behind a blank. */
  function Arguments(args: seq<Word>): string {
    if args == [] then "" else " " + args[0].text + Arguments(args[1..])
  }

  function CommandLine(args: seq<Word>): string {
    "dsh" + Arguments(args)
  }

  lemma {:induction false} ArgumentsAppend(args: seq<Word>, name: Word)
    ensures Arguments(args + [name]) == Arguments(args) + " " + name.text
  {
    if args == [] {
      assert [] + [name] == [name] && [name][1..] == [];
    } else {
      ArgumentsAppend(args[1..], name);
      var more := args + [name];
      assert more[1..] == args[1..] + [name] && more[0] == args[0];
      assert Arguments(more) == " " + args[0].text + Arguments(more[1..]);
    }
  }

  /** The invocation of an argument list displays `dsh` and the words in order. */
  lemma {:induction false} JoinDisplays(args: seq<Word>)
    ensures Join(args).line == CommandLine(args)
  {
    if args != [] {
      var front, last := args[..|args| - 1], args[|args| - 1];
      JoinDisplays(front);
      ArgumentsAppend(front, last);
      assert args == front + [last];
    }
  }

  /** A line split at its blanks. */
  function Pieces(line: string): (pieces: seq<string>)
    ensures pieces != []
  {
    if line == "" then [""]
    else
      var rest := Pieces(line[1..]);
      if line[0] == ' ' then [""] + rest else [[line[0]] + rest[0]] + rest[1..]
  }

  function Texts(args: seq<Word>): (texts: seq<string>)
    ensures |texts| == |args| && forall i | 0 <= i < |args| :: texts[i] == args[i].text
  {
    seq(|args|, i requires 0 <= i < |args| => args[i].text)
  }

  lemma {:induction false} PieceFirst(word: string, line: string)
    requires ' ' !in word && (line == "" || line[0] == ' ')
    ensures Pieces(word + line) == [word] + Pieces(line)[1..]
  {
    if word == "" {
      assert word + line == line;
    } else {
      PieceFirst(word[1..], line);
      assert (word + line)[1..] == word[1..] + line && word == [word[0]] + word[1..];
    }
  }

  /** Words without blanks are read back from the displayed line. */
  lemma {:induction false} LineReadsBack(args: seq<Word>)
    requires forall a | a in args :: ' ' !in a.text
    ensures Pieces(CommandLine(args)) == ["dsh"] + Texts(args)
  {
    PieceFirst("dsh", Arguments(args));
    ArgumentsReadBack(args);
  }

  lemma TextsFirst(args: seq<Word>)
    requires args != []
    ensures Texts(args) == [args[0].text] + Texts(args[1..])
  {
  }

  lemma BlankFirst(rest: string)
    ensures Pieces(" " + rest) == [""] + Pieces(rest)
  {
    assert (" " + rest)[1..] == rest;
  }

  lemma {:induction false} ArgumentsReadBack(args: seq<Word>)
    requires forall a | a in args :: ' ' !in a.text
    ensures Pieces(Arguments(args))[1..] == Texts(args)
  {
    if args != [] {
      hide Pieces, Texts;
      ArgumentsReadBack(args[1..]);
      var rest := args[0].text + Arguments(args[1..]);
      PieceFirst(args[0].text, Arguments(args[1..]));
      TextsFirst(args);
      assert Arguments(args) == " " + rest;
      BlankFirst(rest);
    }
  }

  // ---------- top-level help ----------

  function TopLevelHelpArgs(sortedProfiles: seq<Word>): seq<seq<Word>> {
    [[], [Word("plugin")], [Word("watch")]] + ProfileArgs(sortedProfiles)
  }

  function ProfileArgs(profiles: seq<Word>): seq<seq<Word>> {
    if profiles == [] then []
    else [[profiles[0]], [Word("--profile"), profiles[0]]] + ProfileArgs(profiles[1..])
  }

  /** The launcher's, the plugin and the watch help, and both forms of every profile. */
  ghost predicate IsTopLevel(sortedProfiles: seq<Word>, args: seq<Word>) {
    args == [] || args == [Word("plugin")] || args == [Word("watch")] ||
    exists p | p in sortedProfiles :: args == [p] || args == [Word("--profile"), p]
  }

  lemma {:induction false} ProfileForms(profiles: seq<Word>, args: seq<Word>)
    ensures args in ProfileArgs(profiles) <==>
              exists p | p in profiles :: args == [p] || args == [Word("--profile"), p]
  {
    if profiles != [] {
      var forms := [[profiles[0]], [Word("--profile"), profiles[0]]];
      ProfileForms(profiles[1..], args);
      assert profiles == [profiles[0]] + profiles[1..];
      assert args in forms + ProfileArgs(profiles[1..]) <==> args in forms || args in ProfileArgs(profiles[1..]);
    }
  }

  /** The lists visited first are exactly these. */
  lemma TopLevelExactly(sortedProfiles: seq<Word>, args: seq<Word>)
    ensures args in TopLevelHelpArgs(sortedProfiles) <==> IsTopLevel(sortedProfiles, args)
  {
    ProfileForms(sortedProfiles, args);
    var fixed := [[], [Word("plugin")], [Word("watch")]];
    assert args in fixed + ProfileArgs(sortedProfiles) <==> args in fixed || args in ProfileArgs(sortedProfiles);
  }

  lemma {:induction false} ProfileFormsInOrder(profiles: seq<Word>, i: nat)
    requires i < |profiles|
    ensures |ProfileArgs(profiles)| == 2 * |profiles|
    ensures ProfileArgs(profiles)[2 * i] == [profiles[i]]
    ensures ProfileArgs(profiles)[2 * i + 1] == [Word("--profile"), profiles[i]]
  {
    var rest := profiles[1..];
    if i > 0 {
      ProfileFormsInOrder(rest, i - 1);
      assert ProfileArgs(profiles)[2 * i] == ProfileArgs(rest)[2 * (i - 1)];
      assert ProfileArgs(profiles)[2 * i + 1] == ProfileArgs(rest)[2 * (i - 1) + 1];
    } else if rest != [] {
      ProfileFormsInOrder(rest, 0);
    }
  }

  /** First the launcher's, the plugin and the watch help, then each profile's shorthand before its explicit form. */
  lemma TopLevelInOrder(sortedProfiles: seq<Word>, i: nat)
    requires i < |sortedProfiles|
    ensures var top := TopLevelHelpArgs(sortedProfiles);
            |top| == 3 + 2 * |sortedProfiles| && top[..3] == [[], [Word("plugin")], [Word("watch")]] &&
            top[3 + 2 * i] == [sortedProfiles[i]] && top[4 + 2 * i] == [Word("--profile"), sortedProfiles[i]]
  {
    ProfileFormsInOrder(sortedProfiles, i);
  }

  // ---------- the page graph ----------

  datatype Child = Child(name: Word, page: HelpPage)

  class HelpPage {
    const output: Output
    var invocations: seq<Invocation>
    /** An insertion-ordered map from command name to page. */
    var children: seq<Child>

    constructor (output: Output, invocation: Invocation)
      ensures this.output == output && invocations == [invocation] && children == []
    {
      this.output, invocations, children := output, [invocation], [];
    }

    /** `children.set(name, page)`. */
    method SetChild(name: Word, page: HelpPage)
      modifies `children
      ensures children == PutChild(old(children), name, page)
    {
      children := PutChild(children, name, page);
    }
  }

  function PutChild(children: seq<Child>, name: Word, page: HelpPage): (r: seq<Child>)
    ensures Child(name, page) in r
    ensures forall c | c in r :: c == Child(name, page) || c in children
    ensures forall c | c in children :: c.name == name || c in r
  {
    if children == [] then [Child(name, page)]
    else if children[0].name == name then [Child(name, page)] + children[1..]
    else
      var rest := PutChild(children[1..], name, page);
      assert children == [children[0]] + children[1..];
      [children[0]] + rest
  }

  ghost function Elements(children: seq<Child>): set<Child> {
    set c | c in children
  }

  /** A page as the graph sees it: its invocations in order, and its children. */
  datatype Node = Node(invocations: seq<Invocation>, children: set<Child>)

  type PageGraph = map<HelpPage, Node>

  /** The children whose visits are under way, by the page they are commands of. */
  type UnderWay = map<HelpPage, Child>

  /**
   * The graph of the pages. While the commands of a page are visited, the child under way is in `pending` and not
   * yet among the page's children; the graph counts it as a child.
   */
  ghost function View(all: set<HelpPage>, pending: UnderWay): (g: PageGraph)
    reads all
    ensures g.Keys == all
  {
    map p | p in all ::
      Node(p.invocations, if p in pending then Elements(p.children) + {pending[p]} else Elements(p.children))
  }

  lemma Pending(all: set<HelpPage>, pending: UnderWay, p: HelpPage, c: Child)
    requires p in all && p !in pending
    ensures View(all, pending[p := c]) == Link(View(all, pending), p, c)
  {
  }

  lemma NewInView(all: set<HelpPage>, pending: UnderWay, p: HelpPage, i: Invocation)
    requires p !in all && p !in pending && p.invocations == [i] && p.children == []
    ensures View(all + {p}, pending) == View(all, pending)[p := Node([i], {})]
  {
    assert Elements(p.children) == {};
  }

  lemma ViewRecords(all: set<HelpPage>, pending: UnderWay, p: HelpPage, i: Invocation)
    requires p in all && i in p.invocations
    ensures Recorded(View(all, pending), p, i)
  {
  }

  type Record = (HelpPage, Invocation)

  ghost predicate Recorded(g: PageGraph, older p: HelpPage, i: Invocation) {
    p in g && i in g[p].invocations
  }

  ghost predicate Edge(g: PageGraph, older p: HelpPage, older c: Child) {
    p in g && c in g[p].children
  }

  ghost predicate Closed(g: PageGraph) {
    forall p, c | Edge(g, p, c) :: c.page in g
  }

  /** The record `(p, i)` extends the record `(q, j)` by the name under which `q` lists `p` as a child. */
  ghost predicate FromParent(g: PageGraph, older q: HelpPage, j: Invocation, older c: Child, p: HelpPage,
                             i: Invocation) {
    Recorded(g, q, j) && Edge(g, q, c) && c.page == p && i == Extend(j, c.name)
  }

  ghost predicate Extends(g: PageGraph, older q: HelpPage, j: Invocation, p: HelpPage, i: Invocation) {
    exists c :: FromParent(g, q, j, c, p, i)
  }

  /** The record `(p, i)` comes from `(q, j)` by `n` + 1 extensions from page to child, all recorded on the way. */
  ghost predicate Leads(g: PageGraph, q: HelpPage, j: Invocation, p: HelpPage, i: Invocation, n: nat)
    decreases n
  {
    if n == 0 then Extends(g, q, j, p, i)
    else exists r, l :: Extends(g, r, l, p, i) && Leads(g, q, j, r, l, n - 1)
  }

  /** The record `(p, i)` comes from some record of `q`. */
  ghost predicate ComesFrom(g: PageGraph, q: HelpPage, p: HelpPage, i: Invocation) {
    exists j: Invocation, n: nat :: Leads(g, q, j, p, i, n)
  }

  /** Followed from page to child, an earlier invocation of the page came back to it as this one. */
  ghost predicate CameBack(g: PageGraph, p: HelpPage, i: Invocation) {
    ComesFrom(g, p, p, i)
  }

  /** Each child carries the invocation extended by the child's name. */
  ghost predicate Extended(g: PageGraph, p: HelpPage, i: Invocation) {
    forall c | Edge(g, p, c) :: Recorded(g, c.page, Extend(i, c.name))
  }

  /**
   * Alias closure: apart from the owed records, every invocation came back to its page or is extended to all
   * children.
   */
  ghost predicate Closure(g: PageGraph, owed: set<Record>) {
    forall p, i {:trigger CameBack(g, p, i)} {:trigger Extended(g, p, i)} | Recorded(g, p, i) && (p, i) !in owed ::
      CameBack(g, p, i) || Extended(g, p, i)
  }

  /** The invocation is one asked for at top level, or extends one of a page that lists this page as a child. */
  ghost predicate Derived(g: PageGraph, roots: set<Record>, p: HelpPage, i: Invocation) {
    (p, i) in roots || exists q, j :: Extends(g, q, j, p, i)
  }

  /** Every record outside `roots` is derived from a parent. */
  ghost predicate Sound(g: PageGraph, roots: set<Record>) {
    forall p, i {:trigger Derived(g, roots, p, i)} | Recorded(g, p, i) :: Derived(g, roots, p, i)
  }

  /** On the current path, only a page's first invocation has not come back to it. */
  ghost predicate PathCameBack(g: PageGraph, path: set<HelpPage>) {
    forall p, i {:trigger CameBack(g, p, i)} | p in path && Recorded(g, p, i) ::
      i == g[p].invocations[0] || CameBack(g, p, i)
  }

  /** The record comes from every page of the path. */
  ghost predicate AlongPath(g: PageGraph, path: set<HelpPage>, p: HelpPage, i: Invocation) {
    forall q {:trigger ComesFrom(g, q, p, i)} | q in path :: ComesFrom(g, q, p, i)
  }

  /** `h` has the pages, records and edges of `g` and perhaps more. */
  ghost predicate Within(g: PageGraph, h: PageGraph) {
    g.Keys <= h.Keys && forall p | p in g :: g[p].invocations <= h[p].invocations && g[p].children <= h[p].children
  }

  /** `h` has the records of `g` and perhaps more, and the same edges from every page of `g`. */
  ghost predicate Grows(g: PageGraph, h: PageGraph) {
    g.Keys <= h.Keys && forall p | p in g :: g[p].invocations <= h[p].invocations && g[p].children == h[p].children
  }

  ghost predicate HasChild(g: PageGraph, older q: HelpPage, p: HelpPage) {
    exists c :: Edge(g, q, c) && c.page == p
  }

  /** `p` is a child of `q`, of a child of `q`, and so on. */
  ghost predicate Below(g: PageGraph, q: HelpPage, p: HelpPage, n: nat)
    decreases n
  {
    if n == 0 then HasChild(g, q, p) else exists r :: HasChild(g, r, p) && Below(g, q, r, n - 1)
  }

  lemma {:induction false} LeadsBelow(g: PageGraph, q: HelpPage, j: Invocation, p: HelpPage, i: Invocation, n: nat)
    requires Leads(g, q, j, p, i, n)
    ensures Below(g, q, p, n)
    decreases n
  {
    if n == 0 {
      var c :| FromParent(g, q, j, c, p, i);
    } else {
      var r, l :| Extends(g, r, l, p, i) && Leads(g, q, j, r, l, n - 1);
      var c :| FromParent(g, r, l, c, p, i);
      LeadsBelow(g, q, j, r, l, n - 1);
      assert HasChild(g, r, p);
    }
  }

  // ---------- facts about growing graphs ----------

  lemma ExtendsWithin(g: PageGraph, h: PageGraph, q: HelpPage, j: Invocation, p: HelpPage, i: Invocation)
    requires Within(g, h) && Extends(g, q, j, p, i)
    ensures Extends(h, q, j, p, i)
  {
    var c :| FromParent(g, q, j, c, p, i);
    assert FromParent(h, q, j, c, p, i);
  }

  lemma {:induction false} LeadsWithin(g: PageGraph, h: PageGraph, q: HelpPage, j: Invocation, p: HelpPage,
                                       i: Invocation, n: nat)
    requires Within(g, h) && Leads(g, q, j, p, i, n)
    ensures Leads(h, q, j, p, i, n)
    decreases n
  {
    if n == 0 {
      ExtendsWithin(g, h, q, j, p, i);
    } else {
      var r, l :| Extends(g, r, l, p, i) && Leads(g, q, j, r, l, n - 1);
      ExtendsWithin(g, h, r, l, p, i);
      LeadsWithin(g, h, q, j, r, l, n - 1);
    }
  }

  lemma ComesFromWithin(g: PageGraph, h: PageGraph, q: HelpPage, p: HelpPage, i: Invocation)
    requires Within(g, h) && ComesFrom(g, q, p, i)
    ensures ComesFrom(h, q, p, i)
  {
    var j: Invocation, n: nat :| Leads(g, q, j, p, i, n);
    LeadsWithin(g, h, q, j, p, i, n);
  }

  lemma ComesFurther(g: PageGraph, q: HelpPage, r: HelpPage, l: Invocation, p: HelpPage, i: Invocation)
    requires Extends(g, r, l, p, i) && (q == r || ComesFrom(g, q, r, l))
    ensures ComesFrom(g, q, p, i)
  {
    if q == r {
      assert Leads(g, q, l, p, i, 0);
    } else {
      var j: Invocation, n: nat :| Leads(g, q, j, r, l, n);
      assert Leads(g, q, j, p, i, n + 1);
    }
  }

  /** What comes along the path to a page goes on to its children, along the path and the page. */
  lemma PathExtends(g: PageGraph, path: set<HelpPage>, page: HelpPage, i: Invocation, c: Child)
    requires Recorded(g, page, i) && Edge(g, page, c) && AlongPath(g, path - {page}, page, i)
    ensures AlongPath(g, path + {page}, c.page, Extend(i, c.name))
  {
    assert FromParent(g, page, i, c, c.page, Extend(i, c.name));
    forall q | q in path + {page} ensures ComesFrom(g, q, c.page, Extend(i, c.name)) {
      ComesFurther(g, q, page, i, c.page, Extend(i, c.name));
    }
  }

  lemma AlongPathWithin(g: PageGraph, h: PageGraph, path: set<HelpPage>, p: HelpPage, i: Invocation)
    requires Within(g, h) && AlongPath(g, path, p, i)
    ensures AlongPath(h, path, p, i)
  {
    forall q | q in path ensures ComesFrom(h, q, p, i) { ComesFromWithin(g, h, q, p, i); }
  }

  lemma DerivedWithin(g: PageGraph, h: PageGraph, roots: set<Record>, more: set<Record>, p: HelpPage, i: Invocation)
    requires Within(g, h) && Derived(g, roots, p, i) && roots <= more
    ensures Derived(h, more, p, i)
  {
    if (p, i) !in roots {
      var q, j :| Extends(g, q, j, p, i);
      ExtendsWithin(g, h, q, j, p, i);
    }
  }

  /** Adding one record to a page. */
  ghost function Push(g: PageGraph, p: HelpPage, i: Invocation): PageGraph
    requires p in g
  {
    g[p := g[p].(invocations := g[p].invocations + [i])]
  }

  lemma PushFacts(g: PageGraph, p: HelpPage, i: Invocation)
    requires p in g
    ensures Grows(g, Push(g, p, i)) && Within(g, Push(g, p, i)) && Push(g, p, i).Keys == g.Keys
    ensures forall q, j :: Recorded(Push(g, p, i), q, j) <==> Recorded(g, q, j) || (q == p && j == i)
    ensures forall q, c :: Edge(Push(g, p, i), q, c) <==> Edge(g, q, c)
  {
  }

  /** A record that is excused or extended stays so while no page gets a new child. */
  lemma RecordKept(g: PageGraph, h: PageGraph, p: HelpPage, i: Invocation)
    requires Grows(g, h) && p in g && (CameBack(g, p, i) || Extended(g, p, i))
    ensures CameBack(h, p, i) || Extended(h, p, i)
  {
    if CameBack(g, p, i) {
      ComesFromWithin(g, h, p, p, i);
    } else {
      forall c | Edge(h, p, c) ensures Recorded(h, c.page, Extend(i, c.name)) { assert Edge(g, p, c); }
    }
  }

  lemma PushKeepsClosure(g: PageGraph, p: HelpPage, i: Invocation, owed: set<Record>)
    requires p in g && Closure(g, owed)
    ensures Closure(Push(g, p, i), owed + {(p, i)})
    ensures CameBack(g, p, i) ==> Closure(Push(g, p, i), owed)
  {
    var h := Push(g, p, i);
    PushFacts(g, p, i);
    if CameBack(g, p, i) { ComesFromWithin(g, h, p, p, i); }
    forall q, j | Recorded(h, q, j) && (q, j) !in owed
      ensures (q, j) == (p, i) || CameBack(h, q, j) || Extended(h, q, j)
    {
      if Recorded(g, q, j) { RecordKept(g, h, q, j); }
    }
  }

  lemma PushKeepsSound(g: PageGraph, p: HelpPage, i: Invocation, roots: set<Record>)
    requires p in g && Sound(g, roots)
    ensures Sound(Push(g, p, i), roots + {(p, i)})
  {
    var h := Push(g, p, i);
    PushFacts(g, p, i);
    forall q, j | Recorded(h, q, j) ensures Derived(h, roots + {(p, i)}, q, j) {
      if (q, j) != (p, i) { DerivedWithin(g, h, roots, roots + {(p, i)}, q, j); }
    }
  }

  /** A root record that turns out to have a parent need not be a root. */
  lemma DropRoot(g: PageGraph, roots: set<Record>, q: HelpPage, j: Invocation, c: Child)
    requires Recorded(g, q, j) && Edge(g, q, c) && Sound(g, roots + {(c.page, Extend(j, c.name))})
    ensures Sound(g, roots)
  {
    assert FromParent(g, q, j, c, c.page, Extend(j, c.name));
    assert Extends(g, q, j, c.page, Extend(j, c.name));
    forall p, i | Recorded(g, p, i) ensures Derived(g, roots, p, i) {
      assert Derived(g, roots + {(c.page, Extend(j, c.name))}, p, i);
    }
  }

  lemma PathCameBackWithin(g: PageGraph, h: PageGraph, path: set<HelpPage>, p: HelpPage, i: Invocation)
    requires Within(g, h) && PathCameBack(g, path) && p in path && Recorded(g, p, i)
    ensures i == h[p].invocations[0] || CameBack(h, p, i)
  {
    if CameBack(g, p, i) { ComesFromWithin(g, h, p, p, i); }
  }

  lemma PushOnPath(g: PageGraph, p: HelpPage, i: Invocation, path: set<HelpPage>)
    requires p in g && PathCameBack(g, path) && (p in path ==> CameBack(g, p, i))
    ensures PathCameBack(Push(g, p, i), path)
  {
    var h := Push(g, p, i);
    PushFacts(g, p, i);
    forall q, j | q in path && Recorded(h, q, j) ensures j == h[q].invocations[0] || CameBack(h, q, j) {
      if Recorded(g, q, j) { PathCameBackWithin(g, h, path, q, j); } else { ComesFromWithin(g, h, p, p, i); }
    }
  }

  // ---------- alias propagation ----------

  /** No page lists an invocation twice. */
  ghost predicate EachOnce(g: PageGraph) {
    forall p, i, j | p in g && 0 <= i < j < |g[p].invocations| :: g[p].invocations[i] != g[p].invocations[j]
  }

  ghost predicate Invariant(g: PageGraph, owed: set<Record>, roots: set<Record>, path: set<HelpPage>) {
    Closed(g) && Closure(g, owed) && Sound(g, roots) && PathCameBack(g, path) &&
    path <= g.Keys && (forall p | p in g :: g[p].invocations != []) && EachOnce(g)
  }

  lemma PushInvariant(g: PageGraph, p: HelpPage, i: Invocation, owed: set<Record>, roots: set<Record>,
                      path: set<HelpPage>)
    requires p in g && Invariant(g, owed, roots, path) && (p in path ==> CameBack(g, p, i)) && !Recorded(g, p, i)
    ensures Invariant(Push(g, p, i), owed + {(p, i)}, roots + {(p, i)}, path)
    ensures CameBack(g, p, i) ==> Invariant(Push(g, p, i), owed, roots + {(p, i)}, path)
  {
    PushFacts(g, p, i);
    PushKeepsClosure(g, p, i, owed);
    PushKeepsSound(g, p, i, roots);
    PushOnPath(g, p, i, path);
  }

  /**
   * Record an invocation on a page and, unless the page is on the path, the extended invocations on its
   * children. The invocation comes along the path; `dfs` holds the pages whose expansion is under way.
   */
  method AddAlias(page: HelpPage, invocation: Invocation, path: set<HelpPage>, ghost all: set<HelpPage>,
                  ghost pending: UnderWay, ghost owed: set<Record>, ghost roots: set<Record>, ghost dfs: set<HelpPage>)
    requires page in all && pending.Keys <= dfs <= path <= all && Invariant(View(all, pending), owed, roots, dfs)
    requires AlongPath(View(all, pending), path, page, invocation)
    modifies all`invocations
    ensures Grows(old(View(all, pending)), View(all, pending))
    ensures Invariant(View(all, pending), owed, roots + {(page, invocation)}, dfs)
    ensures invocation in page.invocations
    ensures invocation in old(page.invocations) ==> View(all, pending) == old(View(all, pending))
    ensures page !in path && invocation !in old(page.invocations) ==>
              ExtendedTo(View(all, pending), page.children, invocation)
    decreases all - path, 0
  {
    hide Invariant, Grows, ComesFrom, Extended;
    ghost var before := View(all, pending);
    GrowsTransitive(before, before, before);
    if invocation in page.invocations {
      InvariantWithMore(before, owed, roots, dfs, (page, invocation));
      return;
    }
    RecordInvocation(page, invocation, all, pending);
    ghost var pushed := View(all, pending);
    PushInvariant(before, page, invocation, owed, roots, dfs);
    PushFacts(before, page, invocation);
    if page in path {
      assert CameBack(before, page, invocation);
    } else {
      AlongPathWithin(before, pushed, path, page, invocation);
      AliasChildren(page, invocation, path, all, pending, owed + {(page, invocation)}, roots + {(page, invocation)},
        dfs);
      PayDebt(View(all, pending), page, invocation, owed, roots + {(page, invocation)}, dfs);
      GrowsTransitive(before, pushed, View(all, pending));
      GrowsKeepsRecord(pushed, View(all, pending), page, invocation);
    }
  }

  method RecordInvocation(page: HelpPage, invocation: Invocation, ghost all: set<HelpPage>, ghost pending: UnderWay)
    requires page in all
    modifies page`invocations
    ensures View(all, pending) == Push(old(View(all, pending)), page, invocation)
  {
    page.invocations := page.invocations + [invocation];
  }

  /** The loop of `addAlias` over the children of a page it has just recorded an invocation on. */
  method AliasChildren(page: HelpPage, invocation: Invocation, path: set<HelpPage>, ghost all: set<HelpPage>,
                       ghost pending: UnderWay, ghost owed: set<Record>, ghost roots: set<Record>,
                         ghost dfs: set<HelpPage>)
    requires page in all && page !in path && pending.Keys <= dfs <= path <= all
    requires Invariant(View(all, pending), owed, roots, dfs)
    requires Recorded(View(all, pending), page, invocation) && AlongPath(View(all, pending), path, page, invocation)
    modifies all`invocations
    ensures Grows(old(View(all, pending)), View(all, pending))
    ensures Invariant(View(all, pending), owed, roots, dfs)
    ensures ExtendedTo(View(all, pending), page.children, invocation) && Extended(View(all, pending), page, invocation)
    decreases all - (path + {page}), 1
  {
    hide Invariant, Grows, AlongPath, Extended;
    var children, childPath := page.children, path + {page};
    ghost var before := View(all, pending);
    GrowsTransitive(before, before, before);
    var k := 0;
    while k < |children|
      invariant 0 <= k <= |children| && page.children == children
      invariant Grows(before, View(all, pending)) && Invariant(View(all, pending), owed, roots, dfs)
      invariant ExtendedTo(View(all, pending), children[..k], invocation)
    {
      var child := children[k];
      ghost var g := View(all, pending);
      NextChild(before, g, page, invocation, child, path, owed, roots, dfs);
      AddAlias(child.page, Extend(invocation, child.name), childPath, all, pending, owed, roots, dfs);
      AfterChild(before, g, View(all, pending), page, invocation, children[..k], child, owed, roots, dfs);
      assert children[..k + 1] == children[..k] + [child];
      k := k + 1;
    }
    assert children[..k] == children;
    ExtendedToAll(View(all, pending), page, children, invocation);
  }

  lemma ExtendedToAll(g: PageGraph, page: HelpPage, children: seq<Child>, i: Invocation)
    requires page in g && g[page].children == Elements(children) && ExtendedTo(g, children, i)
    ensures Extended(g, page, i)
  {
  }

  ghost predicate ExtendedTo(g: PageGraph, children: seq<Child>, i: Invocation) {
    forall c | c in children :: Recorded(g, c.page, Extend(i, c.name))
  }

  lemma GrowsTransitive(f: PageGraph, g: PageGraph, h: PageGraph)
    requires (f == g || Grows(f, g)) && (g == h || Grows(g, h))
    ensures Grows(f, h)
  {
  }

  lemma GrowsKeepsRecord(g: PageGraph, h: PageGraph, p: HelpPage, i: Invocation)
    requires Grows(g, h) && Recorded(g, p, i)
    ensures Recorded(h, p, i)
  {
  }

  /** What the recursive call on the next child may assume. */
  lemma NextChild(before: PageGraph, g: PageGraph, page: HelpPage, invocation: Invocation, child: Child,
                  path: set<HelpPage>,
                  owed: set<Record>, roots: set<Record>, dfs: set<HelpPage>)
    requires Grows(before, g) && Invariant(g, owed, roots, dfs) && Edge(g, page, child) && page !in path
    requires Recorded(before, page, invocation) && AlongPath(before, path, page, invocation)
    ensures child.page in g && AlongPath(g, path + {page}, child.page, Extend(invocation, child.name))
  {
    assert path - {page} == path;
    AlongPathWithin(before, g, path, page, invocation);
    PathExtends(g, path, page, invocation, child);
  }

  /** The child's record is derived from its parent's, and the earlier children keep theirs. */
  lemma AfterChild(before: PageGraph, g: PageGraph, h: PageGraph, page: HelpPage, invocation: Invocation,
                   done: seq<Child>, child: Child, owed: set<Record>, roots: set<Record>, dfs: set<HelpPage>)
    requires Grows(before, g) && Grows(g, h) && Recorded(before, page, invocation) && Edge(g, page, child)
    requires ExtendedTo(g, done, invocation) && Recorded(h, child.page, Extend(invocation, child.name))
    requires Invariant(h, owed, roots + {(child.page, Extend(invocation, child.name))}, dfs)
    ensures Invariant(h, owed, roots, dfs) && ExtendedTo(h, done + [child], invocation) && Grows(before, h)
  {
    DropRoot(h, roots, page, invocation, child);
  }

  lemma PayDebt(g: PageGraph, page: HelpPage, invocation: Invocation, owed: set<Record>, roots: set<Record>,
                dfs: set<HelpPage>)
    requires page in g && Invariant(g, owed + {(page, invocation)}, roots, dfs) && Extended(g, page, invocation)
    ensures Invariant(g, owed, roots, dfs)
  {
  }

  lemma InvariantWithMore(g: PageGraph, owed: set<Record>, roots: set<Record>, dfs: set<HelpPage>, record: Record)
    requires Invariant(g, owed, roots, dfs)
    ensures Invariant(g, owed, roots + {record}, dfs)
  {
    forall p, i | Recorded(g, p, i) ensures Derived(g, roots + {record}, p, i) { assert Derived(g, roots, p, i); }
  }

  // ---------- new pages and new edges ----------

  lemma NewPage(g: PageGraph, p: HelpPage, i: Invocation, roots: set<Record>, path: set<HelpPage>)
    requires p !in g && Invariant(g, {}, roots, path)
    ensures var h := g[p := Node([i], {})];
            Grows(g, h) && Invariant(h, {}, roots + {(p, i)}, path + {p}) && Recorded(h, p, i)
  {
    var h := g[p := Node([i], {})];
    forall q, j | Recorded(h, q, j)
      ensures Derived(h, roots + {(p, i)}, q, j) && (CameBack(h, q, j) || Extended(h, q, j))
    {
      if q != p {
        assert Recorded(g, q, j);
        DerivedWithin(g, h, roots, roots + {(p, i)}, q, j);
        RecordKept(g, h, q, j);
      }
    }
    forall q, j | q in path + {p} && Recorded(h, q, j) ensures j == h[q].invocations[0] || CameBack(h, q, j) {
      if q != p { PathCameBackWithin(g, h, path, q, j); }
    }
    forall q, c | Edge(h, q, c) ensures c.page in h {
      assert Edge(g, q, c);
    }
  }

  /** The graph with one more child of a page. */
  ghost function Link(g: PageGraph, p: HelpPage, c: Child): PageGraph
    requires p in g
  {
    g[p := Node(g[p].invocations, g[p].children + {c})]
  }

  /**
   * A page under expansion gets a child: only its first invocation may lack the extension to it, since all others
   * came back to the page.
   */
  lemma NewEdge(g: PageGraph, p: HelpPage, c: Child, roots: set<Record>, path: set<HelpPage>)
    requires p in path && c.page in g && Invariant(g, {}, roots, path)
    ensures g[p].invocations != [] && Within(g, Link(g, p, c))
    ensures Invariant(Link(g, p, c), {(p, g[p].invocations[0])}, roots, path)
  {
    var h, first := Link(g, p, c), g[p].invocations[0];
    forall q, j | Recorded(h, q, j)
      ensures Derived(h, roots, q, j) && ((q, j) == (p, first) || CameBack(h, q, j) || Extended(h, q, j))
    {
      assert Recorded(g, q, j);
      DerivedWithin(g, h, roots, roots, q, j);
      if q == p {
        PathCameBackWithin(g, h, path, q, j);
      } else if CameBack(g, q, j) {
        ComesFromWithin(g, h, q, q, j);
      } else {
        forall d | Edge(h, q, d) ensures Recorded(h, d.page, Extend(j, d.name)) { assert Edge(g, q, d); }
      }
    }
    forall q, j | q in path && Recorded(h, q, j) ensures j == h[q].invocations[0] || CameBack(h, q, j) {
      PathCameBackWithin(g, h, path, q, j);
    }
    forall q, d | Edge(h, q, d) ensures d.page in h {
      if d != c { assert Edge(g, q, d); }
    }
  }

  /** Once the new child carries the extended first invocation, nothing is owed. */
  lemma EdgePaid(g: PageGraph, h: PageGraph, p: HelpPage, c: Child, roots: set<Record>, path: set<HelpPage>)
    requires p in path && p in g && g[p].invocations != [] && Grows(Link(g, p, c), h)
    requires var first := g[p].invocations[0];
             Recorded(h, c.page, Extend(first, c.name)) && Extended(g, p, first) &&
             Invariant(h, {(p, first)}, roots + {(c.page, Extend(first, c.name))}, path)
    ensures Invariant(h, {}, roots, path)
  {
    var first := g[p].invocations[0];
    forall d | Edge(h, p, d) ensures Recorded(h, d.page, Extend(first, d.name)) {
      if d != c { assert Edge(g, p, d) && Recorded(g, d.page, Extend(first, d.name)); }
    }
    assert {(p, first)} == {} + {(p, first)};
    PayDebt(h, p, first, {}, roots + {(c.page, Extend(first, c.name))}, path);
    DropRoot(h, roots, p, first, c);
  }

  // ---------- the collector ----------

  ghost function Names(children: set<Child>): set<Word> {
    set c | c in children :: c.name
  }

  ghost function Listed(commands: seq<Word>): set<Word> {
    set name | name in commands
  }

  lemma ListedNext(commands: seq<Word>, k: nat)
    requires k < |commands|
    ensures Listed(commands[..k + 1]) == Listed(commands[..k]) + {commands[k]}
  {
  }

  /** `h` keeps the records of `g` and the edges of every page but `p`, which may have more. */
  ghost predicate GrowsBut(g: PageGraph, h: PageGraph, p: HelpPage) {
    Within(g, h) && forall q | q in g && q != p :: g[q].children == h[q].children
  }

  ghost predicate SingleOutputs(all: set<HelpPage>) {
    forall p, q | p in all && q in all && p.output == q.output :: p == q
  }

  /** Where a visit comes from: the page whose command it is, unless it is a top-level visit. */
  datatype Caller = TopLevel | CommandOf(page: HelpPage)

  /** The children under way once a visit has found its page. */
  ghost function Follow(pending: UnderWay, caller: Caller, args: seq<Word>, page: HelpPage): UnderWay
  {
    if caller.CommandOf? && args != [] then pending[caller.page := Child(args[|args| - 1], page)] else pending
  }

  ghost function RootsOf(roots: set<Record>, caller: Caller, page: HelpPage, i: Invocation): set<Record> {
    if caller.TopLevel? then roots + {(page, i)} else roots
  }

  class HelpCollector {
    /** The complete help of an argument list; `None` when the read rejects or its output is blank. */
    const read: seq<Word> -> Option<Output>
    /** The names and aliases in the `Commands:` section of an output. */
    const commandsOf: Output -> seq<Word>
    /** A finite bound on the outputs that reads can return. */
    ghost const universe: set<Output>
    var pages: map<Output, HelpPage>
    /** The pages of the map. */
    ghost var repr: set<HelpPage>
    /** The argument lists whose help was read. */
    ghost var asked: set<seq<Word>>

    constructor (read: seq<Word> -> Option<Output>, commandsOf: Output -> seq<Word>, ghost universe: set<Output>)
      requires forall args | read(args).Some? :: read(args).value in universe
      ensures Valid() && pages == map[] && repr == {} && asked == {} && this.read == read &&
              this.commandsOf == commandsOf
    {
      this.read, this.commandsOf, this.universe, pages, repr, asked := read, commandsOf, universe, map[], {}, {};
    }

    ghost predicate Valid()
      reads `pages, `repr
    {
      (forall args | read(args).Some? :: read(args).value in universe) &&
      pages.Keys <= universe &&
      (forall o | o in pages :: pages[o] in repr && pages[o].output == o) &&
      (forall p | p in repr :: p.output in pages && pages[p.output] == p)
    }

    ghost function Graph(pending: UnderWay): (g: PageGraph)
      reads `repr, repr
      ensures g.Keys == repr
    {
      View(repr, pending)
    }

    // ---------- what is asked ----------

    /** A list is asked for at top level, or is a command listed by the help of a list asked for. */
    ghost predicate ListedFor(top: seq<seq<Word>>, lists: set<seq<Word>>, args: seq<Word>) {
      args in top ||
      (args != [] && args[..|args| - 1] in lists && read(args[..|args| - 1]).Some? &&
       args[|args| - 1] in commandsOf(read(args[..|args| - 1]).value))
    }

    /** Everything asked so far was listed, and was answered. */
    ghost predicate AllAnswered(top: seq<seq<Word>>, lists: set<seq<Word>>) {
      forall args | args in lists :: ListedFor(top, lists, args) && read(args).Some?
    }

    /** One list more was asked, and its read failed. */
    ghost predicate OneFailed(top: seq<seq<Word>>, lists: set<seq<Word>>) {
      exists args, before ::
        AllAnswered(top, before) && lists == before + {args} && ListedFor(top, before, args) && read(args).None?
    }

    /** The list was answered: it was one of those asked. */
    ghost predicate Outcome(top: seq<seq<Word>>, before: set<seq<Word>>, after: set<seq<Word>>, ok: bool) {
      before <= after && if ok then AllAnswered(top, after) else OneFailed(top, after)
    }

    lemma OutcomeMeans(top: seq<seq<Word>>, before: set<seq<Word>>, after: set<seq<Word>>, ok: bool)
      requires Outcome(top, before, after, ok)
      ensures Outcome(top, {}, after, ok) && (ok ==> AllAnswered(top, after))
      ensures ok <==> forall args | args in after :: read(args).Some?
    {
    }

    lemma AskedOne(top: seq<seq<Word>>, lists: set<seq<Word>>, args: seq<Word>)
      requires AllAnswered(top, lists) && ListedFor(top, lists, args)
      ensures Outcome(top, lists, lists + {args}, read(args).Some?)
    {
      forall other | other in lists ensures ListedFor(top, lists + {args}, other) {
        assert ListedFor(top, lists, other);
      }
    }

    // ---------- the graph between two steps ----------

    /** Each child of `p`, read as `args`, is the page its own arguments read as. */
    ghost predicate ChildrenAsRead(children: set<Child>, args: seq<Word>) {
      forall c | c in children :: read(args + [c.name]) == Some(c.page.output)
    }

    /** The page was found by reading `args`, and its children by reading those followed by their names. */
    ghost predicate FoundAs(g: PageGraph, p: HelpPage, args: seq<Word>)
      requires p in g
    {
      g[p].invocations != [] && g[p].invocations[0] == Join(args) && read(args) == Some(p.output) &&
      Extended(g, p, Join(args)) && ChildrenAsRead(g[p].children, args)
    }

    /** The page has a child for each command its help lists, and no other; it and they are what was read. */
    ghost predicate ExpandedAt(g: PageGraph, p: HelpPage)
      requires p in g
    {
      Names(g[p].children) == Listed(commandsOf(p.output)) && exists args :: FoundAs(g, p, args)
    }

    /** Every page off the path was expanded. */
    ghost predicate Expanded(g: PageGraph, path: set<HelpPage>) {
      forall p | p in g && p !in path :: ExpandedAt(g, p)
    }

    /** What holds between two steps of the depth-first visit. */
    ghost predicate Between(g: PageGraph, roots: set<Record>, path: set<HelpPage>) {
      Invariant(g, {}, roots, path) && Expanded(g, path)
    }

    /** The page read as `args` is being expanded; its first invocation reaches every child found so far. */
    ghost predicate Visiting(g: PageGraph, page: HelpPage, args: seq<Word>, path: set<HelpPage>, roots: set<Record>) {
      page in path && page in g && Between(g, roots, path) && AlongPath(g, path - {page}, page, Join(args)) &&
      FoundAs(g, page, args)
    }

    /** What a visit of `args` may assume. */
    ghost predicate Ready(g: PageGraph, args: seq<Word>, path: set<HelpPage>, caller: Caller,
                          pending: UnderWay, roots: set<Record>) {
      pending.Keys <= path &&
      match caller
      case TopLevel => path == {} && Between(g, roots, path)
      case CommandOf(page) => args != [] && page !in pending && Visiting(g, page, args[..|args| - 1], path, roots)
    }

    /** The visit of `args` led from `before` to `g` and returned `page`. */
    ghost predicate VisitDone(before: PageGraph, g: PageGraph, page: HelpPage, args: seq<Word>,
                              path: set<HelpPage>, caller: Caller, roots: set<Record>) {
      Recorded(g, page, Join(args)) && read(args) == Some(page.output) &&
      match caller
      case TopLevel => Grows(before, g) && Between(g, roots + {(page, Join(args))}, path)
      case CommandOf(from) =>
        args != [] && from in before && GrowsBut(before, g, from) && from in g &&
        g[from].children == before[from].children + {Child(args[|args| - 1], page)} &&
        Visiting(g, from, args[..|args| - 1], path, roots)
    }

    /** A new page was added and is about to be expanded. */
    ghost predicate PageReady(before: PageGraph, g: PageGraph, page: HelpPage, args: seq<Word>,
                              path: set<HelpPage>, caller: Caller, roots: set<Record>)
    {
      page !in before && g == Added(before, page, args, caller) && page in g && g[page].children == {} &&
      Visiting(g, page, args, path + {page}, RootsOf(roots, caller, page, Join(args)))
    }

    ghost function Added(before: PageGraph, page: HelpPage, args: seq<Word>, caller: Caller): PageGraph
    {
      var g := before[page := Node([Join(args)], {})];
      if caller.CommandOf? && args != [] && caller.page in g
      then Link(g, caller.page, Child(args[|args| - 1], page))
      else g
    }

    /** The first `k` commands of the page were visited. */
    ghost predicate CommandsVisited(before: PageGraph, h: PageGraph, page: HelpPage, args: seq<Word>, k: nat,
                                    path: set<HelpPage>, roots: set<Record>)
      requires k <= |commandsOf(page.output)|
    {
      GrowsBut(before, h, page) && Visiting(h, page, args, path, roots) &&
      Names(h[page].children) == Listed(commandsOf(page.output)[..k])
    }

    /** The invocation of the list is on the page that the list reads as. */
    ghost predicate ListRecorded(g: PageGraph, args: seq<Word>) {
      exists p :: Recorded(g, p, Join(args)) && read(args) == Some(p.output)
    }

    ghost predicate AllRecorded(g: PageGraph, lists: set<seq<Word>>) {
      forall args | args in lists :: ListRecorded(g, args)
    }

    // ---------- steps of the visit, on graphs ----------

    lemma RecordedWithin(g: PageGraph, h: PageGraph, lists: set<seq<Word>>)
      requires Within(g, h) && AllRecorded(g, lists)
      ensures AllRecorded(h, lists)
    {
      forall args | args in lists ensures ListRecorded(h, args) {
        var p :| Recorded(g, p, Join(args)) && read(args) == Some(p.output);
        assert Recorded(h, p, Join(args));
      }
    }

    lemma VisitRecords(before: PageGraph, g: PageGraph, page: HelpPage, args: seq<Word>, path: set<HelpPage>,
                       caller: Caller, roots: set<Record>)
      requires VisitDone(before, g, page, args, path, caller, roots)
      ensures Within(before, g) && ListRecorded(g, args)
    {
    }

    lemma ExpandedKept(g: PageGraph, h: PageGraph, p: HelpPage)
      requires Within(g, h) && p in g && g[p].children == h[p].children && ExpandedAt(g, p)
      ensures ExpandedAt(h, p)
    {
      var args :| FoundAs(g, p, args);
      forall c | Edge(h, p, c) ensures Recorded(h, c.page, Extend(Join(args), c.name)) { assert Edge(g, p, c); }
      assert FoundAs(h, p, args);
    }

    /** Pages stay expanded while the graph grows around them. */
    lemma ExpandedWithin(g: PageGraph, h: PageGraph, path: set<HelpPage>, more: set<HelpPage>)
      requires Expanded(g, path) && Within(g, h)
      requires forall p | p in h && p !in more :: p in g && p !in path && g[p].children == h[p].children
      ensures Expanded(h, more)
    {
      forall p | p in h && p !in more ensures ExpandedAt(h, p) { ExpandedKept(g, h, p); }
    }

    lemma GrowsKeepsExpanded(g: PageGraph, h: PageGraph, path: set<HelpPage>)
      requires Grows(g, h) && h.Keys == g.Keys && Expanded(g, path)
      ensures Expanded(h, path)
    {
      ExpandedWithin(g, h, path, path);
    }

    /** A page stays under expansion while others are worked on. */
    lemma StillVisiting(g: PageGraph, h: PageGraph, page: HelpPage, args: seq<Word>, path: set<HelpPage>,
                        roots: set<Record>, c: Child)
      requires Visiting(g, page, args, path, roots) && Within(g, h) && Between(h, roots, path)
      requires h[page].children == g[page].children + {c} && Recorded(h, c.page, Extend(Join(args), c.name))
      requires read(args + [c.name]) == Some(c.page.output)
      ensures Visiting(h, page, args, path, roots)
    {
      AlongPathWithin(g, h, path - {page}, page, Join(args));
      forall d | Edge(h, page, d) ensures Recorded(h, d.page, Extend(Join(args), d.name)) {
        if d != c { assert Edge(g, page, d); }
      }
    }

    /** The pending child: what a visit of a command may assume of the page it lands on. */
    lemma CommandLands(g: PageGraph, page: HelpPage, args: seq<Word>, path: set<HelpPage>, roots: set<Record>, c: Child)
      requires Visiting(g, page, args, path, roots) && c.page in g
      ensures var h := Link(g, page, c);
              Within(g, h) && Invariant(h, {(page, Join(args))}, roots, path) &&
              AlongPath(h, path, c.page, Extend(Join(args), c.name))
    {
      var h := Link(g, page, c);
      NewEdge(g, page, c, roots, path);
      AlongPathWithin(g, h, path - {page}, page, Join(args));
      assert path - {page} + {page} == path;
      assert (path - {page}) - {page} == path - {page};
      PathExtends(h, path - {page}, page, Join(args), c);
    }

    lemma CommandFollowed(g: PageGraph, existing: HelpPage, args: seq<Word>, path: set<HelpPage>, from: HelpPage,
                          roots: set<Record>)
      requires args != [] && Visiting(g, from, args[..|args| - 1], path, roots) && existing in g
      ensures var h := Link(g, from, Child(args[|args| - 1], existing));
              Invariant(h, {(from, Join(args[..|args| - 1]))}, roots, path) && AlongPath(h, path, existing, Join(args))
    {
      var shorter, name := args[..|args| - 1], args[|args| - 1];
      SplitLast(args);
      JoinLast(args);
      CommandLands(g, from, shorter, path, roots, Child(name, existing));
    }

    /** After the alias of a command's page was recorded, the caller goes on with one child more. */
    lemma CommandJoined(g: PageGraph, h: PageGraph, page: HelpPage, args: seq<Word>, path: set<HelpPage>,
                        roots: set<Record>, c: Child)
      requires Visiting(g, page, args, path, roots) && c.page in g && h.Keys == g.Keys && Grows(Link(g, page, c), h)
      requires Recorded(h, c.page, Extend(Join(args), c.name)) && read(args + [c.name]) == Some(c.page.output)
      requires Invariant(h, {(page, Join(args))}, roots + {(c.page, Extend(Join(args), c.name))}, path)
      ensures GrowsBut(g, h, page) && h[page].children == g[page].children + {c} && Visiting(h, page, args, path, roots)
    {
      hide AlongPath, ChildrenAsRead;
      EdgePaid(g, h, page, c, roots, path);
      ExpandedWithin(g, h, path, path);
      StillVisiting(g, h, page, args, path, roots, c);
    }

    /** A new page found by a top-level visit. */
    lemma TopPageAdded(g: PageGraph, page: HelpPage, args: seq<Word>, roots: set<Record>)
      requires page !in g && Between(g, roots, {}) && read(args) == Some(page.output)
      ensures Visiting(g[page := Node([Join(args)], {})], page, args, {page}, roots + {(page, Join(args))})
    {
      NewPage(g, page, Join(args), roots, {});
      ExpandedWithin(g, g[page := Node([Join(args)], {})], {}, {page});
      assert {} + {page} == {page};
    }

    lemma LinkedInvariant(g: PageGraph, page: HelpPage, from: HelpPage, args: seq<Word>, i: Invocation, c: Child,
                          path: set<HelpPage>, roots: set<Record>)
      requires page !in g && Visiting(g, from, args, path, roots) && c.page == page && i == Extend(Join(args), c.name)
      ensures var h := Link(g[page := Node([i], {})], from, c);
              Within(g, h) && Invariant(h, {}, roots, path + {page}) && Recorded(h, page, i)
    {
      var f := g[page := Node([i], {})];
      var rooted := roots + {(page, i)};
      var h := Link(f, from, c);
      NewPage(g, page, i, roots, path);
      NewEdge(f, from, c, rooted, path + {page});
      forall d | Edge(f, from, d) ensures Recorded(f, d.page, Extend(Join(args), d.name)) {
        assert Edge(g, from, d) && Recorded(g, d.page, Extend(Join(args), d.name));
      }
      EdgePaid(f, h, from, c, roots, path + {page});
    }

    lemma LinkedAlong(g: PageGraph, h: PageGraph, from: HelpPage, args: seq<Word>, c: Child, path: set<HelpPage>,
                      roots: set<Record>)
      requires Visiting(g, from, args, path, roots) && c.page !in g && Within(g, h) && Edge(h, from, c)
      ensures AlongPath(h, path + {c.page} - {c.page}, c.page, Extend(Join(args), c.name))
    {
      AlongPathWithin(g, h, path - {from}, from, Join(args));
      assert (path - {from}) - {from} == path - {from} && path - {from} + {from} == path &&
        path + {c.page} - {c.page} == path;
      PathExtends(h, path - {from}, from, Join(args), c);
    }

    lemma LinkedExpanded(g: PageGraph, page: HelpPage, from: HelpPage, i: Invocation, c: Child, path: set<HelpPage>)
      requires page !in g && from in path && from in g && Expanded(g, path)
      ensures Expanded(Link(g[page := Node([i], {})], from, c), path + {page})
    {
      ExpandedWithin(g, Link(g[page := Node([i], {})], from, c), path, path + {page});
    }

    lemma NextCommand(f: PageGraph, g: PageGraph, h: PageGraph, page: HelpPage, args: seq<Word>, k: nat,
                      child: HelpPage, path: set<HelpPage>, roots: set<Record>)
      requires k < |commandsOf(page.output)| && CommandsVisited(f, g, page, args, k, path, roots)
      requires VisitDone(g, h, child, args + [commandsOf(page.output)[k]], path, CommandOf(page), roots)
      ensures CommandsVisited(f, h, page, args, k + 1, path, roots)
    {
      ListedNext(commandsOf(page.output), k);
      var whole := args + [commandsOf(page.output)[k]];
      assert whole[..|whole| - 1] == args;
    }

    lemma ExpansionEnds(created: PageGraph, after: PageGraph, page: HelpPage, args: seq<Word>, path: set<HelpPage>,
                        roots: set<Record>)
      requires page !in path && Visiting(created, page, args, path + {page}, roots)
      requires CommandsVisited(created, after, page, args, |commandsOf(page.output)|, path + {page}, roots)
      ensures Between(after, roots, path)
    {
      var commands := commandsOf(page.output);
      assert commands[..|commands|] == commands;
    }

    lemma TopVisitFinished(before: PageGraph, after: PageGraph, page: HelpPage, args: seq<Word>, roots: set<Record>)
      requires PageReady(before, Added(before, page, args, TopLevel), page, args, {}, TopLevel, roots)
      requires CommandsVisited(Added(before, page, args, TopLevel), after, page, args, |commandsOf(page.output)|,
               {page}, roots + {(page, Join(args))})
      ensures VisitDone(before, after, page, args, {}, TopLevel, roots)
    {
      assert {} + {page} == {page};
      ExpansionEnds(Added(before, page, args, TopLevel), after, page, args, {}, roots + {(page, Join(args))});
    }

    lemma CommandVisitFinished(before: PageGraph, after: PageGraph, page: HelpPage, args: seq<Word>,
                               path: set<HelpPage>, from: HelpPage, roots: set<Record>)
      requires args != [] && page !in path && Visiting(before, from, args[..|args| - 1], path, roots)
      requires PageReady(before, Added(before, page, args, CommandOf(from)), page, args, path, CommandOf(from), roots)
      requires CommandsVisited(Added(before, page, args, CommandOf(from)), after, page, args,
               |commandsOf(page.output)|, path + {page}, roots)
      ensures VisitDone(before, after, page, args, path, CommandOf(from), roots)
    {
      hide Invariant, Expanded, Closure;
      var created, shorter, name := Added(before, page, args, CommandOf(from)), args[..|args| - 1], args[|args| - 1];
      SplitLast(args);
      JoinLast(args);
      ExpansionEnds(created, after, page, args, path, roots);
      StillVisiting(before, after, from, shorter, path, roots, Child(name, page));
    }

    lemma PageIsNew(before: PageGraph, page: HelpPage, args: seq<Word>, path: set<HelpPage>, caller: Caller,
                    pending: UnderWay, roots: set<Record>)
      requires Ready(before, args, path, caller, pending, roots) && page !in before
      ensures page !in path && page !in Follow(pending, caller, args, page) &&
              Follow(pending, caller, args, page).Keys <= path + {page}
    {
    }

    lemma CommandsBegin(g: PageGraph, page: HelpPage, args: seq<Word>, path: set<HelpPage>, roots: set<Record>)
      requires Visiting(g, page, args, path, roots) && g[page].children == {}
      ensures CommandsVisited(g, g, page, args, 0, path, roots)
    {
    }

    lemma CommandsGoOn(f: PageGraph, g: PageGraph, page: HelpPage, args: seq<Word>, k: nat, path: set<HelpPage>,
                       roots: set<Record>)
      requires k <= |commandsOf(page.output)| && CommandsVisited(f, g, page, args, k, path, roots)
      ensures Visiting(g, page, args, path, roots) && read(args) == Some(page.output)
    {
    }

    /** A new page whose commands were all visited ends the visit that found it. */
    lemma VisitFinished(before: PageGraph, created: PageGraph, after: PageGraph, page: HelpPage, args: seq<Word>,
                        path: set<HelpPage>, caller: Caller, pending: UnderWay, roots: set<Record>)
      requires Ready(before, args, path, caller, pending, roots) && page !in path
      requires PageReady(before, created, page, args, path, caller, roots)
      requires CommandsVisited(created, after, page, args, |commandsOf(page.output)|, path + {page},
               RootsOf(roots, caller, page, Join(args)))
      ensures VisitDone(before, after, page, args, path, caller, roots)
    {
      if caller.CommandOf? {
        CommandVisitFinished(before, after, page, args, path, caller.page, roots);
      } else {
        assert {} + {page} == {page};
        TopVisitFinished(before, after, page, args, roots);
      }
    }

    /** The graph once the visit of `args` is known to land on `page`. */
    ghost function Landed(g: PageGraph, page: HelpPage, args: seq<Word>, caller: Caller): PageGraph {
      if caller.CommandOf? && args != [] && caller.page in g
      then Link(g, caller.page, Child(args[|args| - 1], page))
      else g
    }

    /** The caller's first invocation is owed to the child under way. */
    ghost function Owed(caller: Caller, args: seq<Word>): set<Record> {
      if caller.CommandOf? && args != [] then {(caller.page, Join(args[..|args| - 1]))} else {}
    }

    lemma JoinReady(g: PageGraph, existing: HelpPage, args: seq<Word>, path: set<HelpPage>, caller: Caller,
                    pending: UnderWay, roots: set<Record>)
      requires Ready(g, args, path, caller, pending, roots) && existing in g
      ensures var h := Landed(g, existing, args, caller);
              Invariant(h, Owed(caller, args), roots, path) && AlongPath(h, path, existing, Join(args))
      ensures Follow(pending, caller, args, existing).Keys <= path <= g.Keys
    {
      if caller.CommandOf? { CommandFollowed(g, existing, args, path, caller.page, roots); }
    }

    lemma JoinDone(before: PageGraph, g: PageGraph, existing: HelpPage, args: seq<Word>, path: set<HelpPage>,
                   caller: Caller,
                   pending: UnderWay, roots: set<Record>)
      requires Ready(before, args, path, caller, pending, roots) && existing in before &&
               read(args) == Some(existing.output)
      requires g.Keys == before.Keys && Grows(Landed(before, existing, args, caller), g) &&
               Recorded(g, existing, Join(args))
      requires Invariant(g, Owed(caller, args), roots + {(existing, Join(args))}, path)
      ensures VisitDone(before, g, existing, args, path, caller, roots)
    {
      hide Invariant, Expanded, AlongPath, Extended;
      if caller.CommandOf? {
        SplitLast(args);
        JoinLast(args);
        CommandJoined(before, g, caller.page, args[..|args| - 1], path, roots, Child(args[|args| - 1], existing));
      } else {
        GrowsKeepsExpanded(before, g, path);
      }
    }

    lemma CallerIsListed(g: PageGraph, args: seq<Word>, path: set<HelpPage>, caller: Caller,
                         pending: UnderWay, roots: set<Record>)
      requires Ready(g, args, path, caller, pending, roots)
      ensures pending.Keys <= path <= g.Keys
      ensures caller.CommandOf? ==> args != [] && caller.page in path && caller.page !in pending
    {
    }

    /** A new page found by the visit of a command. */
    lemma LastPageAdded(g: PageGraph, page: HelpPage, from: HelpPage, args: seq<Word>, path: set<HelpPage>,
                        roots: set<Record>)
      requires args != [] && page !in g && Visiting(g, from, args[..|args| - 1], path, roots) &&
               read(args) == Some(page.output)
      ensures from in g
      ensures var h := Link(g[page := Node([Join(args)], {})], from, Child(args[|args| - 1], page));
              h[page] == Node([Join(args)], {}) && Visiting(h, page, args, path + {page}, roots)
    {
      hide Invariant, Expanded, AlongPath, Closed, Within, Join, Extend;
      var i, shorter := Join(args), args[..|args| - 1];
      var c := Child(args[|args| - 1], page);
      var h := Link(g[page := Node([i], {})], from, c);
      SplitLast(args);
      JoinLast(args);
      LinkedInvariant(g, page, from, shorter, i, c, path, roots);
      LinkedExpanded(g, page, from, i, c, path);
      LinkedAlong(g, h, from, shorter, c, path, roots);
    }

    lemma ReadyIs(g: PageGraph, args: seq<Word>, path: set<HelpPage>, caller: Caller, pending: UnderWay,
                  roots: set<Record>)
      requires Ready(g, args, path, caller, pending, roots)
      ensures caller.CommandOf? ==> args != [] && Visiting(g, caller.page, args[..|args| - 1], path, roots)
      ensures caller.TopLevel? ==> path == {} && Between(g, roots, {})
    {
    }

    lemma AddedBy(g: PageGraph, page: HelpPage, args: seq<Word>, from: HelpPage)
      requires args != [] && from in g
      ensures from in g[page := Node([Join(args)], {})]
      ensures Added(g, page, args, CommandOf(from)) ==
                Link(g[page := Node([Join(args)], {})], from, Child(args[|args| - 1], page))
    {
      hide Join, Link;
    }

    lemma AddedAtTop(g: PageGraph, page: HelpPage, args: seq<Word>)
      ensures Added(g, page, args, TopLevel) == g[page := Node([Join(args)], {})]
    {
    }

    lemma CommandPageReady(before: PageGraph, page: HelpPage, from: HelpPage, args: seq<Word>, path: set<HelpPage>,
                           roots: set<Record>)
      requires args != [] && page !in before && Visiting(before, from, args[..|args| - 1], path, roots) &&
               read(args) == Some(page.output)
      ensures PageReady(before, Added(before, page, args, CommandOf(from)), page, args, path, CommandOf(from), roots)
    {
      LastPageAdded(before, page, from, args, path, roots);
      AddedBy(before, page, args, from);
      hide Visiting, Join, Added;
    }

    lemma TopPageReady(before: PageGraph, page: HelpPage, args: seq<Word>, roots: set<Record>)
      requires page !in before && Between(before, roots, {}) && read(args) == Some(page.output)
      ensures PageReady(before, Added(before, page, args, TopLevel), page, args, {}, TopLevel, roots)
    {
      TopPageAdded(before, page, args, roots);
      assert {} + {page} == {page};
      hide Visiting, Join;
    }

    lemma NewPageReady(before: PageGraph, page: HelpPage, args: seq<Word>, path: set<HelpPage>, caller: Caller,
                       pending: UnderWay, roots: set<Record>)
      requires Ready(before, args, path, caller, pending, roots) && page !in before && read(args) == Some(page.output)
      ensures PageReady(before, Added(before, page, args, caller), page, args, path, caller, roots)
    {
      ReadyIs(before, args, path, caller, pending, roots);
      hide Visiting, Ready, Between, PageReady, Added;
      if caller.CommandOf? {
        CommandPageReady(before, page, caller.page, args, path, roots);
      } else {
        TopPageReady(before, page, args, roots);
      }
    }

    // ---------- the visit ----------

    /** `help.output` was seen before: the invocation becomes an alias of its page. */
    method JoinPage(existing: HelpPage, args: seq<Word>, path: set<HelpPage>, ghost caller: Caller,
                    ghost pending: UnderWay, ghost roots: set<Record>)
      requires Valid() && existing in repr && read(args) == Some(existing.output)
      requires Ready(Graph(pending), args, path, caller, pending, roots)
      modifies repr`invocations
      ensures Valid() && VisitDone(old(Graph(pending)), Graph(Follow(pending, caller, args, existing)), existing,
              args, path, caller, roots)
    {
      hide Valid, View, Ready, VisitDone, Invariant, AlongPath, Grows;
      ghost var before, following := Graph(pending), Follow(pending, caller, args, existing);
      CallerIsListed(before, args, path, caller, pending, roots);
      if caller.CommandOf? { Pending(repr, pending, caller.page, Child(args[|args| - 1], existing)); }
      JoinReady(before, existing, args, path, caller, pending, roots);
      ghost var owed := Owed(caller, args);
      AddAlias(existing, Join(args), path, repr, following, owed, roots, path);
      ViewRecords(repr, following, existing, Join(args));
      JoinDone(before, Graph(following), existing, args, path, caller, pending, roots);
    }

    /** A page for output seen for the first time. */
    method CreatePage(output: Output, args: seq<Word>, path: set<HelpPage>, ghost caller: Caller,
                      ghost pending: UnderWay, ghost roots: set<Record>) returns (page: HelpPage)
      requires Valid() && output in universe && output !in pages && read(args) == Some(output)
      requires Ready(Graph(pending), args, path, caller, pending, roots)
      modifies `pages, `repr
      ensures Valid() && fresh(page) && pages.Keys == old(pages.Keys) + {output} && repr == old(repr) + {page}
      ensures page.output == output && page.children == []
      ensures PageReady(old(Graph(pending)), Graph(Follow(pending, caller, args, page)), page, args, path, caller,
              roots)
    {
      hide Valid, View, Ready, PageReady, Added;
      ghost var before := Graph(pending);
      CallerIsListed(before, args, path, caller, pending, roots);
      page := RegisterPage(output, Join(args), pending);
      NewPageReady(before, page, args, path, caller, pending, roots);
      if caller.CommandOf? {
        AddedBy(before, page, args, caller.page);
        Pending(repr, pending, caller.page, Child(args[|args| - 1], page));
      } else {
        AddedAtTop(before, page, args);
      }
    }

    method RegisterPage(output: Output, invocation: Invocation, ghost pending: UnderWay) returns (page: HelpPage)
      requires Valid() && output in universe && output !in pages && pending.Keys <= repr
      modifies `pages, `repr
      ensures Valid() && fresh(page) && page.output == output && page.children == []
      ensures pages == old(pages)[output := page] && repr == old(repr) + {page}
      ensures Graph(pending) == old(Graph(pending))[page := Node([invocation], {})]
    {
      hide View;
      page := new HelpPage(output, invocation);
      NewInView(repr, pending, page, invocation);
      pages, repr := pages[output := page], repr + {page};
    }

    /** A page has one child of a name, since reads always return the same. */
    lemma SameNamedChild(g: PageGraph, page: HelpPage, args: seq<Word>, path: set<HelpPage>, roots: set<Record>,
                         c: Child, d: Child)
      requires Visiting(g, page, args, path, roots) && SingleOutputs(g.Keys)
      requires c in g[page].children && d in g[page].children && d.name == c.name
      ensures c == d
    {
      assert Edge(g, page, c) && Edge(g, page, d);
    }

    lemma SingleOutputsHold()
      requires Valid()
      ensures SingleOutputs(repr)
    {
    }

    lemma SplitGraph(page: HelpPage, c: Child, pending: UnderWay)
      requires page in repr && page !in pending
      ensures c in Graph(pending[page := c])[page].children
      ensures forall d | d in page.children :: d in Graph(pending[page := c])[page].children
    {
    }

    lemma CommandListed(top: seq<seq<Word>>, lists: set<seq<Word>>, args: seq<Word>, name: Word)
      requires args in lists && read(args).Some? && name in commandsOf(read(args).value)
      ensures ListedFor(top, lists, args + [name])
    {
      assert (args + [name])[..|args|] == args;
    }

    lemma ChildVisited(before: PageGraph, g: PageGraph, child: HelpPage, args: seq<Word>, name: Word,
                       path: set<HelpPage>,
                       page: HelpPage, roots: set<Record>)
      requires VisitDone(before, g, child, args + [name], path, CommandOf(page), roots)
      ensures Visiting(g, page, args, path, roots)
    {
      assert (args + [name])[..|args|] == args;
    }

    /** `children.set` for the page a command's visit returned: the pending child becomes a child. */
    method SetVisitedChild(page: HelpPage, c: Child, ghost pending: UnderWay)
      requires Valid() && page in repr && page !in pending
      requires forall d | d in page.children && d.name == c.name :: d == c
      modifies page`children
      ensures Valid() && Graph(pending) == old(Graph(pending[page := c]))
    {
      ghost var before := Elements(page.children);
      page.SetChild(c.name, c.page);
      assert Elements(page.children) == before + {c};
    }

    /**
     * Visit one argument list: join the page its help belongs to, or create the page and visit its commands.
     * `path` holds the pages under expansion. Each new page uses up one of the finitely many outputs.
     */
    method Visit(args: seq<Word>, path: set<HelpPage>, ghost caller: Caller, ghost pending: UnderWay,
                 ghost roots: set<Record>, ghost top: seq<seq<Word>>) returns (r: Option<HelpPage>)
      requires Valid() && Ready(Graph(pending), args, path, caller, pending, roots)
      requires AllAnswered(top, asked) && ListedFor(top, asked, args)
      modifies `pages, `repr, `asked, repr`invocations
      ensures Valid() && old(repr) <= repr && fresh(repr - old(repr)) && old(pages.Keys) <= pages.Keys
      ensures Outcome(top, old(asked) + {args}, asked, r.Some?)
      ensures r.Some? ==> AllRecorded(Graph(Follow(pending, caller, args, r.value)), asked - old(asked) + {args})
      ensures r.Some? ==> VisitDone(old(Graph(pending)), Graph(Follow(pending, caller, args, r.value)), r.value, args,
              path, caller, roots)
      decreases universe - pages.Keys, 4
    {
      hide View, Ready, VisitDone, OneFailed, AllAnswered, ListedFor, ListRecorded;
      AskedOne(top, asked, args);
      asked := asked + {args};
      var help := read(args);
      if help.None? {
        return None;
      }
      var output := help.value;
      if output in pages {
        JoinPage(pages[output], args, path, caller, pending, roots);
        r := Some(pages[output]);
      } else {
        r := VisitNewPage(output, args, path, caller, pending, roots, top);
      }
      if r.Some? {
        VisitRecords(old(Graph(pending)), Graph(Follow(pending, caller, args, r.value)), r.value, args, path, caller,
          roots);
      }
    }

    method VisitNewPage(output: Output, args: seq<Word>, path: set<HelpPage>, ghost caller: Caller,
                        ghost pending: UnderWay,
                        ghost roots: set<Record>, ghost top: seq<seq<Word>>) returns (r: Option<HelpPage>)
      requires Valid() && output in universe && output !in pages && read(args) == Some(output)
      requires Ready(Graph(pending), args, path, caller, pending, roots)
      requires AllAnswered(top, asked) && args in asked
      modifies `pages, `repr, `asked, repr`invocations
      ensures Valid() && old(repr) <= repr && fresh(repr - old(repr)) && old(pages.Keys) <= pages.Keys
      ensures Outcome(top, old(asked), asked, r.Some?)
      ensures r.Some? ==> AllRecorded(Graph(Follow(pending, caller, args, r.value)), asked - old(asked))
      ensures r.Some? ==> VisitDone(old(Graph(pending)), Graph(Follow(pending, caller, args, r.value)), r.value, args,
              path, caller, roots)
      decreases universe - pages.Keys, 3
    {
      hide Valid, View, Visiting, VisitDone, Ready, CommandsVisited, OneFailed, AllAnswered, ListRecorded;
      ghost var before := Graph(pending);
      var page := CreatePage(output, args, path, caller, pending, roots);
      ghost var following := Follow(pending, caller, args, page);
      ghost var created := Graph(following);
      PageIsNew(before, page, args, path, caller, pending, roots);
      var ok := VisitCommands(page, args, path + {page}, following, RootsOf(roots, caller, page, Join(args)), top);
      if !ok {
        return None;
      }
      VisitFinished(before, created, Graph(following), page, args, path, caller, pending, roots);
      r := Some(page);
    }

    /** The loop of `visit` over the commands of a new page. */
    method VisitCommands(page: HelpPage, args: seq<Word>, path: set<HelpPage>, ghost pending: UnderWay,
                         ghost roots: set<Record>, ghost top: seq<seq<Word>>) returns (ok: bool)
      requires Valid() && page in repr && page !in pending && pending.Keys <= path
      requires Visiting(Graph(pending), page, args, path, roots) && Graph(pending)[page].children == {}
      requires AllAnswered(top, asked) && args in asked
      modifies `pages, `repr, `asked, repr`invocations, page`children
      ensures Valid() && old(repr) <= repr && fresh(repr - old(repr)) && old(pages.Keys) <= pages.Keys
      ensures Outcome(top, old(asked), asked, ok)
      ensures ok ==> AllRecorded(Graph(pending), asked - old(asked))
      ensures ok ==> CommandsVisited(old(Graph(pending)), Graph(pending), page, args, |commandsOf(page.output)|, path,
              roots)
      decreases universe - pages.Keys, 6
    {
      hide Valid, View, Visiting, VisitDone, CommandsVisited, OneFailed, AllAnswered, ListRecorded;
      var commands := commandsOf(page.output);
      ghost var before := Graph(pending);
      CommandsBegin(before, page, args, path, roots);
      var k := 0;
      while k < |commands|
        invariant 0 <= k <= |commands| && Valid() && page in repr
        invariant old(repr) <= repr && fresh(repr - old(repr)) && old(pages.Keys) <= pages.Keys
        invariant old(asked) <= asked && AllAnswered(top, asked) && AllRecorded(Graph(pending), asked - old(asked))
        invariant CommandsVisited(before, Graph(pending), page, args, k, path, roots)
      {
        ghost var g, done := Graph(pending), asked - old(asked);
        CommandsGoOn(before, g, page, args, k, path, roots);
        ghost var child;
        ok, child := VisitCommand(page, args, commands[k], path, pending, roots, top);
        if !ok {
          return;
        }
        VisitRecords(g, Graph(pending), child, args + [commands[k]], path, CommandOf(page), roots);
        RecordedWithin(g, Graph(pending), done);
        NextCommand(before, g, Graph(pending), page, args, k, child, path, roots);
        k := k + 1;
      }
      ok := true;
    }

    /** One command of a page: visit it and record the child. */
    method VisitCommand(page: HelpPage, args: seq<Word>, name: Word, path: set<HelpPage>, ghost pending: UnderWay,
                        ghost roots: set<Record>, ghost top: seq<seq<Word>>) returns (ok: bool, ghost visited: HelpPage)
      requires Valid() && page in repr && page !in pending && pending.Keys <= path
      requires Visiting(Graph(pending), page, args, path, roots)
      requires AllAnswered(top, asked) && args in asked && read(args) == Some(page.output) &&
               name in commandsOf(page.output)
      modifies `pages, `repr, `asked, repr`invocations, page`children
      ensures Valid() && old(repr) <= repr && fresh(repr - old(repr)) && old(pages.Keys) <= pages.Keys
      ensures Outcome(top, old(asked), asked, ok)
      ensures ok ==> AllRecorded(Graph(pending), asked - old(asked))
      ensures ok ==> VisitDone(old(Graph(pending)), Graph(pending), visited, args + [name], path, CommandOf(page),
              roots)
      decreases universe - pages.Keys, 5
    {
      hide Valid, View, Visiting, VisitDone, OneFailed, AllAnswered, ListedFor, ListRecorded;
      CommandListed(top, asked, args, name);
      visited := page;
      assert (args + [name])[..|args|] == args;
      var child := Visit(args + [name], path, CommandOf(page), pending, roots, top);
      if child.None? {
        return false, page;
      }
      visited := child.value;
      ghost var c, g := Child(name, child.value), Graph(pending[page := Child(name, child.value)]);
      SingleOutputsHold();
      SplitGraph(page, c, pending);
      ChildVisited(old(Graph(pending)), g, child.value, args, name, path, page, roots);
      forall d | d in page.children && d.name == name ensures d == c {
        SameNamedChild(g, page, args, path, roots, c, d);
      }
      SetVisitedChild(page, Child(name, child.value), pending);
      ok := true;
    }

    // ---------- the collection ----------

    /** Whether a record is a top-level invocation on the page it reads as. */
    ghost predicate AskedFor(top: seq<seq<Word>>, p: HelpPage, i: Invocation) {
      exists args | args in top :: read(args) == Some(p.output) && i == Join(args)
    }

    /**
     * The documented pages: one page per output, each invocation on it once, with a child for every command its help
     * lists and for nothing else; each page was found by reading its first invocation, and the child for a command is
     * the page that reading the command as well leads to; every top-level invocation is on the page it reads as; every
     * other invocation extends one of a parent page; the first invocation of a page is carried on to all its children,
     * and so is every other unless, carried on from page to child, another invocation of the same page came back to it
     * as this one.
     */
    ghost predicate Complete(g: PageGraph, top: seq<seq<Word>>) {
      SingleOutputs(g.Keys) && Closed(g) && Expanded(g, {}) && Closure(g, {}) && EachOnce(g) &&
      (forall t | 0 <= t < |top| :: ListRecorded(g, top[t])) &&
      (forall p, i | Recorded(g, p, i) :: AskedFor(top, p, i) || exists q, j :: Extends(g, q, j, p, i))
    }

    /** On a page that is not below itself every invocation is carried on to every child. */
    lemma OffCycleExtended(g: PageGraph, top: seq<seq<Word>>, p: HelpPage, i: Invocation)
      requires Complete(g, top) && Recorded(g, p, i) && forall n: nat :: !Below(g, p, p, n)
      ensures Extended(g, p, i)
    {
      if CameBack(g, p, i) {
        var j: Invocation, n: nat :| Leads(g, p, j, p, i, n);
        LeadsBelow(g, p, j, p, i, n);
      }
    }

    /** The page is what its help reads for the list, and the line displays it. */
    ghost predicate Displays(p: HelpPage, line: string, args: seq<Word>) {
      read(args) == Some(p.output) && line == CommandLine(args)
    }

    /** The line on `p` is one on a page that has `p` as a child, a blank, and the command that leads there. */
    ghost predicate Prolongs(g: PageGraph, p: HelpPage, line: string) {
      exists q, j, c :: Recorded(g, q, j) && Edge(g, q, c) && c.page == p && line == j.line + " " + c.name.text
    }

    /** The lines of the documented pages. */
    ghost predicate Documented(g: PageGraph, sortedProfiles: seq<Word>) {
      (forall p | p in g :: g[p].invocations != [] && exists args :: Displays(p, g[p].invocations[0].line, args)) &&
      (forall args | IsTopLevel(sortedProfiles, args) ::
         exists p, i :: Recorded(g, p, i) && Displays(p, i.line, args)) &&
      (forall p, i | Recorded(g, p, i) :: Prolongs(g, p, i.line) ||
         exists args | IsTopLevel(sortedProfiles, args) :: Displays(p, i.line, args))
    }

    /**
     * In the documented pages the first line of a page displays a list whose help it is, every top-level list is
     * displayed on its page, and every other line prolongs one of a parent by the command that leads here.
     */
    lemma LinesDocumented(g: PageGraph, sortedProfiles: seq<Word>)
      requires Complete(g, TopLevelHelpArgs(sortedProfiles))
      ensures Documented(g, sortedProfiles)
    {
      var top := TopLevelHelpArgs(sortedProfiles);
      forall p | p in g ensures g[p].invocations != [] && exists args :: Displays(p, g[p].invocations[0].line, args) {
        var args :| FoundAs(g, p, args);
        JoinDisplays(args);
        assert Displays(p, g[p].invocations[0].line, args);
      }
      forall args | IsTopLevel(sortedProfiles, args)
        ensures exists p, i :: Recorded(g, p, i) && Displays(p, i.line, args)
      {
        TopLevelExactly(sortedProfiles, args);
        JoinDisplays(args);
        assert ListRecorded(g, args);
        var p :| Recorded(g, p, Join(args)) && read(args) == Some(p.output);
        assert Displays(p, Join(args).line, args);
      }
      forall p, i | Recorded(g, p, i)
        ensures Prolongs(g, p, i.line) || exists args | IsTopLevel(sortedProfiles, args) :: Displays(p, i.line, args)
      {
        if AskedFor(top, p, i) {
          var args :| args in top && read(args) == Some(p.output) && i == Join(args);
          TopLevelExactly(sortedProfiles, args);
          JoinDisplays(args);
          assert Displays(p, i.line, args);
        } else {
          var q, j :| Extends(g, q, j, p, i);
          ExtendsProlongs(g, q, j, p, i);
        }
      }
    }

    lemma ExtendsProlongs(g: PageGraph, q: HelpPage, j: Invocation, p: HelpPage, i: Invocation)
      requires Extends(g, q, j, p, i)
      ensures Prolongs(g, p, i.line)
    {
    }

    /** Between two top-level visits. */
    ghost predicate Collecting(g: PageGraph, top: seq<seq<Word>>, k: nat, roots: set<Record>)
      requires k <= |top|
    {
      Between(g, roots, {}) && (forall record | record in roots :: AskedFor(top, record.0, record.1)) &&
      forall t | 0 <= t < k :: ListRecorded(g, top[t])
    }

    lemma CollectingStarts(g: PageGraph, top: seq<seq<Word>>)
      requires g == map[]
      ensures Collecting(g, top, 0, {}) && AllRecorded(g, {}) && Outcome(top, {}, {}, true)
    {
    }

    lemma TopReady(g: PageGraph, top: seq<seq<Word>>, k: nat, roots: set<Record>, lists: set<seq<Word>>)
      requires k < |top| && Collecting(g, top, k, roots)
      ensures Ready(g, top[k], {}, TopLevel, map[], roots) && ListedFor(top, lists, top[k])
    {
      assert top[k] in top;
    }

    lemma NextTop(g: PageGraph, h: PageGraph, top: seq<seq<Word>>, k: nat, page: HelpPage, roots: set<Record>)
      requires k < |top| && Collecting(g, top, k, roots) && VisitDone(g, h, page, top[k], {}, TopLevel, roots)
      ensures Collecting(h, top, k + 1, roots + {(page, Join(top[k]))})
    {
      hide Invariant, Expanded, Join;
      forall t | 0 <= t <= k ensures ListRecorded(h, top[t]) {
        if t < k {
          var p :| Recorded(g, p, Join(top[t])) && read(top[t]) == Some(p.output);
          assert Recorded(h, p, Join(top[t]));
        }
      }
      assert top[k] in top;
    }

    lemma CollectionComplete(g: PageGraph, top: seq<seq<Word>>, roots: set<Record>)
      requires SingleOutputs(g.Keys) && Collecting(g, top, |top|, roots)
      ensures Complete(g, top)
    {
      forall p, i | Recorded(g, p, i) ensures AskedFor(top, p, i) || exists q, j :: Extends(g, q, j, p, i) {
        assert Derived(g, roots, p, i);
      }
    }

    /**
     * `collectCliHelp` from an empty collector. It succeeds exactly when every list it asks for is answered, and
     * it asks only for top-level lists and for commands listed by help it has read.
     */
    method Collect(sortedProfiles: seq<Word>) returns (ok: bool)
      requires Valid() && pages == map[] && repr == {} && asked == {}
      modifies `pages, `repr, `asked
      ensures Valid() && fresh(repr)
      ensures Outcome(TopLevelHelpArgs(sortedProfiles), {}, asked, ok)
      ensures ok <==> forall args | args in asked :: read(args).Some?
      ensures ok ==> Complete(Graph(map[]), TopLevelHelpArgs(sortedProfiles)) && AllRecorded(Graph(map[]), asked)
      ensures ok ==> Documented(Graph(map[]), sortedProfiles)
    {
      hide Documented, View, VisitDone, Complete, Collecting, Ready, ListedFor, Outcome, AllAnswered, OneFailed,
        ListRecorded, SingleOutputs;
      var top := TopLevelHelpArgs(sortedProfiles);
      ghost var roots: set<Record> := {};
      CollectingStarts(Graph(map[]), top);
      var k := 0;
      while k < |top|
        invariant 0 <= k <= |top| && Valid() && fresh(repr) && Outcome(top, {}, asked, true)
        invariant Collecting(Graph(map[]), top, k, roots) && AllRecorded(Graph(map[]), asked)
      {
        ghost var g, done := Graph(map[]), asked;
        TopReady(g, top, k, roots, asked);
        OutcomeMeans(top, {}, asked, true);
        var page := Visit(top[k], {}, TopLevel, map[], roots, top);
        OutcomeMeans(top, done + {top[k]}, asked, page.Some?);
        if page.None? {
          return false;
        }
        VisitRecords(g, Graph(map[]), page.value, top[k], {}, TopLevel, roots);
        RecordedWithin(g, Graph(map[]), done);
        NextTop(g, Graph(map[]), top, k, page.value, roots);
        roots := roots + {(page.value, Join(top[k]))};
        k := k + 1;
      }
      OutcomeMeans(top, {}, asked, true);
      SingleOutputsHold();
      CollectionComplete(Graph(map[]), top, roots);
      LinesDocumented(Graph(map[]), sortedProfiles);
      ok := true;
    }
  }
}
