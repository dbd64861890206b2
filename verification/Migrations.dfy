/** The session format migration chain and its rendered catalog (`scripts/gen-session-format-catalog.ts`). */
module Migrations {
  import opened Wrappers

  /** The name of the package for one version step, or some other name. */
  datatype Name = Edge(from: nat, to: nat) | Other(text: string)

  datatype Symbol = Symbol(text: string)

  /**
   * What a migration package declares. Versions are `None` unless they are safe integers other than negative
   * zero; symbols are `None` unless they are non-empty strings.
   */
  datatype Metadata = Metadata(
    unknownMember: bool, from: Option<int>, to: Option<int>, exportPath: Option<Symbol>, migration: Option<Symbol>,
    sourceCodec: Option<Symbol>, targetCodec: Option<Symbol>, headerValidator: Option<Symbol>, restorer: Option<Symbol>)

  /** `directory` holds the versions in the directory name, `plain` tells that they carry no leading zeros. */
  datatype Package = Package(
    directory: Option<(nat, nat)>, plain: bool, name: Name, metadata: Option<Metadata>, dependencies: set<Name>)

  datatype Declaration = Declaration(
    name: Name, from: nat, to: nat, migration: Symbol, sourceCodec: Symbol, targetCodec: Symbol,
    headerValidator: Symbol, restorer: Symbol)

  datatype Catalog = Catalog(sharesSession: bool, dependencies: set<Name>)

  datatype Failure =
    | NoMetadata | UnknownMember | BadValue | NotAdjacent | WrongName | WrongDirectory
    | NotExactlyOne(version: nat) | WrongEnd | SessionNotShared | NotInCatalog | BrokenChain | Unreadable
    | NoEdgeDependency

  predicate AllNamed(m: Metadata) {
    m.exportPath.Some? && m.migration.Some? && m.sourceCodec.Some? && m.targetCodec.Some? &&
    m.headerValidator.Some? && m.restorer.Some?
  }

  /** The checks on one discovered package, in the order they are made. */
  function Read(p: Package): Result<Declaration, Failure> {
    if p.metadata.None? then Err(NoMetadata)
    else
      var m := p.metadata.value;
      if m.unknownMember then Err(UnknownMember)
      else if m.from.None? || m.from.value < 0 || m.to.None? || m.to.value < 0 then Err(BadValue)
      else if m.to.value != m.from.value + 1 then Err(NotAdjacent)
      else if p.name != Edge(m.from.value, m.to.value) then Err(WrongName)
      else if p.directory != Some((m.from.value as nat, m.to.value as nat)) then Err(WrongDirectory)
      else if !AllNamed(m) then Err(BadValue)
      else Ok(Declaration(p.name, m.from.value, m.to.value, m.migration.value, m.sourceCodec.value,
                          m.targetCodec.value, m.headerValidator.value, m.restorer.value))
  }

  /** What a package declares: an adjacent step in its own directory, with every name its metadata must give. */
  ghost predicate DeclaredBy(p: Package, d: Declaration) {
    p.metadata.Some? && !p.metadata.value.unknownMember && p.metadata.value.exportPath.Some? &&
    d.to == d.from + 1 && d.name == p.name == Edge(d.from, d.to) && p.directory == Some((d.from, d.to)) &&
    StatedIn(p.metadata.value, d)
  }

  ghost predicate StatedIn(m: Metadata, d: Declaration) {
    m.from == Some(d.from) && m.to == Some(d.to) && m.migration == Some(d.migration) &&
    m.sourceCodec == Some(d.sourceCodec) && m.targetCodec == Some(d.targetCodec) &&
    m.headerValidator == Some(d.headerValidator) && m.restorer == Some(d.restorer)
  }

  ghost predicate Undeclared(p: Package) {
    forall d :: !DeclaredBy(p, d)
  }

  /** The checks pass exactly on such a package. */
  lemma ReadExactly(p: Package, d: Declaration)
    ensures Read(p) == Ok(d) <==> DeclaredBy(p, d)
  {
  }

  /** The first package whose directory is spelled plainly from these versions has these dependencies. */
  ghost predicate SpelledPlainly(packages: seq<Package>, from: nat, to: nat, dependencies: set<Name>) {
    exists i | 0 <= i < |packages| ::
      packages[i].plain && packages[i].directory == Some((from, to)) && packages[i].dependencies == dependencies &&
      forall j | 0 <= j < i && packages[j].plain :: packages[j].directory != Some((from, to))
  }

  /** The dependencies of the package in the directory spelled from two versions, read again. */
  function Reread(packages: seq<Package>, from: nat, to: nat): (r: Option<set<Name>>)
    ensures forall deps :: r == Some(deps) <==> SpelledPlainly(packages, from, to, deps)
  {
    if packages == [] then None
    else if packages[0].plain && packages[0].directory == Some((from, to)) then Some(packages[0].dependencies)
    else Reread(packages[1..], from, to)
  }

  // ---------- sorting by version ----------

  function Insert(d: Declaration, ds: seq<Declaration>): seq<Declaration> {
    if ds == [] || d.from <= ds[0].from then [d] + ds else [ds[0]] + Insert(d, ds[1..])
  }

  function SortByFrom(ds: seq<Declaration>): seq<Declaration> {
    if ds == [] then [] else Insert(ds[0], SortByFrom(ds[1..]))
  }

  function Count(ds: seq<Declaration>, version: nat): nat {
    if ds == [] then 0 else (if ds[0].from == version then 1 else 0) + Count(ds[1..], version)
  }

  ghost predicate Ordered(ds: seq<Declaration>) {
    forall i, j | 0 <= i < j < |ds| :: ds[i].from <= ds[j].from
  }

  lemma {:induction false} InsertCounts(d: Declaration, ds: seq<Declaration>, version: nat)
    ensures multiset(Insert(d, ds)) == multiset{d} + multiset(ds)
    ensures Count(Insert(d, ds), version) == Count(ds, version) + (if d.from == version then 1 else 0)
  {
    if ds == [] || d.from <= ds[0].from {
      assert ([d] + ds)[1..] == ds;
    } else {
      InsertCounts(d, ds[1..], version);
      var rest := Insert(d, ds[1..]);
      assert ([ds[0]] + rest)[1..] == rest && ds == [ds[0]] + ds[1..];
    }
  }

  /** Every element starts no earlier than `version`. */
  ghost predicate From(ds: seq<Declaration>, version: nat) {
    forall i | 0 <= i < |ds| :: version <= ds[i].from
  }

  lemma ConsOrdered(d: Declaration, ds: seq<Declaration>)
    requires Ordered(ds) && From(ds, d.from)
    ensures Ordered([d] + ds)
  {
  }

  lemma {:induction false} InsertOrdered(d: Declaration, ds: seq<Declaration>)
    requires Ordered(ds)
    ensures Ordered(Insert(d, ds))
    ensures forall version: nat | From(ds, version) && version <= d.from :: From(Insert(d, ds), version)
  {
    if ds == [] {
    } else if d.from <= ds[0].from {
      ConsOrdered(d, ds);
    } else {
      assert Ordered(ds[1..]) && From(ds[1..], ds[0].from);
      InsertOrdered(d, ds[1..]);
      ConsOrdered(ds[0], Insert(d, ds[1..]));
      forall version: nat | From(ds, version) && version <= d.from ensures From(Insert(d, ds), version) {
        assert From(ds[1..], version);
      }
    }
  }

  lemma {:induction false} SortOrders(ds: seq<Declaration>)
    ensures Ordered(SortByFrom(ds))
  {
    if ds != [] {
      SortOrders(ds[1..]);
      InsertOrdered(ds[0], SortByFrom(ds[1..]));
    }
  }

  lemma {:induction false} SortFacts(ds: seq<Declaration>, version: nat)
    ensures Ordered(SortByFrom(ds)) && multiset(SortByFrom(ds)) == multiset(ds)
    ensures Count(SortByFrom(ds), version) == Count(ds, version)
  {
    hide Insert, Ordered;
    SortOrders(ds);
    if ds != [] {
      SortFacts(ds[1..], version);
      InsertCounts(ds[0], SortByFrom(ds[1..]), version);
      assert ds == [ds[0]] + ds[1..];
    }
  }

  // ---------- one declaration per version puts each at its own index ----------

  lemma {:induction false} CountedTwice(ds: seq<Declaration>, i: nat, j: nat)
    requires i < j < |ds| && ds[i].from == ds[j].from
    ensures Count(ds, ds[i].from) >= 2
  {
    if i == 0 {
      CountedOnce(ds[1..], j - 1);
    } else {
      CountedTwice(ds[1..], i - 1, j - 1);
    }
  }

  lemma {:induction false} CountedOnce(ds: seq<Declaration>, i: nat)
    requires i < |ds|
    ensures Count(ds, ds[i].from) >= 1
  {
    if i > 0 { CountedOnce(ds[1..], i - 1); }
  }

  ghost predicate OnePerVersion(ds: seq<Declaration>, n: nat) {
    |ds| == n && (forall v: nat | v < n :: Count(ds, v) == 1) && (forall d | d in ds :: d.from < n)
  }

  lemma {:induction false} AtLeastIndex(ds: seq<Declaration>, n: nat, i: nat)
    requires Ordered(ds) && OnePerVersion(ds, n) && i < n
    ensures ds[i].from >= i
  {
    if i > 0 {
      AtLeastIndex(ds, n, i - 1);
      assert ds[i] in ds;
      if ds[i].from == ds[i - 1].from { CountedTwice(ds, i - 1, i); }
    }
  }

  lemma {:induction false} AtMostIndex(ds: seq<Declaration>, n: nat, i: nat)
    requires Ordered(ds) && OnePerVersion(ds, n) && i < n
    ensures ds[i].from <= i
    decreases n - i
  {
    assert ds[i] in ds;
    if i + 1 < n {
      AtMostIndex(ds, n, i + 1);
      if ds[i].from == ds[i + 1].from { CountedTwice(ds, i, i + 1); }
    }
  }

  /** Sorted and counted declarations stand at the index of the version they start from. */
  lemma EachAtItsIndex(ds: seq<Declaration>, n: nat)
    requires Ordered(ds) && OnePerVersion(ds, n)
    ensures forall i | 0 <= i < n :: ds[i].from == i
  {
    forall i | 0 <= i < n ensures ds[i].from == i {
      AtLeastIndex(ds, n, i);
      AtMostIndex(ds, n, i);
    }
  }

  // ---------- the complete inventory ----------

  /** A step continues the one before: same codec between them, and the later package depends on the earlier. */
  ghost predicate Continues(packages: seq<Package>, before: Declaration, after: Declaration) {
    after.sourceCodec == before.targetCodec &&
    Reread(packages, after.from, after.to).Some? && before.name in Reread(packages, after.from, after.to).value
  }

  ghost predicate AllContinue(packages: seq<Package>, ds: seq<Declaration>) {
    forall c, d | c in ds && d in ds && d.from == c.from + 1 :: Continues(packages, c, d)
  }

  ghost predicate InCatalog(catalog: Catalog, ds: seq<Declaration>) {
    forall d | d in ds :: d.name in catalog.dependencies
  }

  /** The declarations of the packages, when every package passes its own checks. */
  ghost predicate Declared(packages: seq<Package>, ds: seq<Declaration>) {
    |ds| == |packages| && forall i | 0 <= i < |packages| :: DeclaredBy(packages[i], ds[i])
  }

  /** What the packages and the catalog must look like, in no particular order. */
  ghost predicate CompleteInventory(packages: seq<Package>, ds: seq<Declaration>, n: nat, catalog: Catalog) {
    Declared(packages, ds) && OnePerVersion(ds, n) && catalog.sharesSession && InCatalog(catalog, ds) &&
      AllContinue(packages, ds)
  }

  ghost predicate CodecsMeet(ds: seq<Declaration>, i: int)
    requires 0 < i < |ds|
  {
    ds[i].sourceCodec == ds[i - 1].targetCodec
  }

  /** A chain of `n` adjacent steps whose codecs meet. */
  ghost predicate IsChain(ds: seq<Declaration>, n: nat) {
    |ds| == n &&
    (forall i | 0 <= i < n :: ds[i].from == i && ds[i].to == i + 1) &&
    (forall i | 0 < i < n :: CodecsMeet(ds, i))
  }

  lemma {:induction false} DeclaredUniquely(packages: seq<Package>, ds: seq<Declaration>, es: seq<Declaration>)
    requires Declared(packages, ds) && Declared(packages, es)
    ensures ds == es
  {
  }

  lemma SameMembers(ds: seq<Declaration>, es: seq<Declaration>)
    requires multiset(ds) == multiset(es)
    ensures |ds| == |es| && forall d :: d in ds <==> d in es
  {
    assert |multiset(ds)| == |multiset(es)|;
    assert forall d :: d in ds <==> d in multiset(ds);
    assert forall d :: d in es <==> d in multiset(es);
  }

  /** Sorting does not change whether the inventory is one per version. */
  lemma SortKeepsCounts(ds: seq<Declaration>, n: nat)
    ensures OnePerVersion(SortByFrom(ds), n) <==> OnePerVersion(ds, n)
  {
    SortFacts(ds, 0);
    SameMembers(ds, SortByFrom(ds));
    forall v: nat ensures Count(SortByFrom(ds), v) == Count(ds, v) { SortFacts(ds, v); }
  }

  method ReadAll(packages: seq<Package>) returns (r: Result<seq<Declaration>, Failure>)
    ensures r.Ok? ==> Declared(packages, r.value)
    ensures r.Err? ==> exists i :: 0 <= i < |packages| && Undeclared(packages[i])
  {
    var ds: seq<Declaration> := [];
    for k := 0 to |packages|
      invariant Declared(packages[..k], ds)
    {
      var read := Read(packages[k]);
      if read.Err? {
        forall d ensures !DeclaredBy(packages[k], d) { ReadExactly(packages[k], d); }
        return Err(read.error);
      }
      ReadExactly(packages[k], read.value);
      ds := ds + [read.value];
    }
    assert packages[..|packages|] == packages;
    return Ok(ds);
  }

  method CheckVersions(ds: seq<Declaration>, n: nat) returns (failure: Option<Failure>)
    ensures failure.None? <==> OnePerVersion(ds, n)
  {
    for version := 0 to n
      invariant forall v: nat | v < version :: Count(ds, v) == 1
    {
      if Count(ds, version) != 1 { return Some(NotExactlyOne(version)); }
    }
    if (exists d | d in ds :: d.from >= n) || |ds| != n { return Some(WrongEnd); }
    return None;
  }

  /** Adjacent entries of a list in version order are all the entries that follow one another. */
  ghost predicate AdjacentContinue(packages: seq<Package>, ds: seq<Declaration>, k: nat)
    requires k <= |ds|
  {
    forall i | 0 < i < k :: Continues(packages, ds[i - 1], ds[i])
  }

  lemma AdjacentIsAll(packages: seq<Package>, ds: seq<Declaration>, n: nat)
    requires |ds| == n && forall i | 0 <= i < n :: ds[i].from == i
    ensures AdjacentContinue(packages, ds, n) <==> AllContinue(packages, ds)
  {
  }

  method CheckChain(packages: seq<Package>, ds: seq<Declaration>, catalog: Catalog) returns (failure: Option<Failure>)
    ensures failure.None? <==> InCatalog(catalog, ds) && AdjacentContinue(packages, ds, |ds|)
  {
    for index := 0 to |ds|
      invariant forall i | 0 <= i < index :: ds[i].name in catalog.dependencies
      invariant AdjacentContinue(packages, ds, index)
    {
      var declaration := ds[index];
      if declaration.name !in catalog.dependencies {
        assert declaration in ds;
        return Some(NotInCatalog);
      }
      if index == 0 { continue; }
      var previous := ds[index - 1];
      if declaration.sourceCodec != previous.targetCodec { return Some(BrokenChain); }
      var manifest := Reread(packages, declaration.from, declaration.to);
      if manifest.None? { return Some(Unreadable); }
      if previous.name !in manifest.value { return Some(NoEdgeDependency); }
    }
    return None;
  }

  lemma DeclaredAdjacent(packages: seq<Package>, ds: seq<Declaration>)
    requires Declared(packages, ds)
    ensures forall d | d in ds :: d.to == d.from + 1
  {
  }

  lemma SortedChain(packages: seq<Package>, ds: seq<Declaration>, sorted: seq<Declaration>, n: nat, catalog: Catalog)
    requires Declared(packages, ds) && OnePerVersion(sorted, n) && Ordered(sorted) && multiset(sorted) == multiset(ds)
    ensures InCatalog(catalog, sorted) && AdjacentContinue(packages, sorted, n) <==>
              InCatalog(catalog, ds) && AllContinue(packages, ds)
    ensures AdjacentContinue(packages, sorted, n) ==> IsChain(sorted, n)
  {
    SameMembers(ds, sorted);
    EachAtItsIndex(sorted, n);
    AdjacentIsAll(packages, sorted, n);
    DeclaredAdjacent(packages, ds);
    assert AllContinue(packages, sorted) <==> AllContinue(packages, ds);
    if AdjacentContinue(packages, sorted, n) {
      forall i | 0 <= i < n ensures sorted[i].to == i + 1 { assert sorted[i] in sorted; }
      forall i | 0 < i < n ensures CodecsMeet(sorted, i) { assert Continues(packages, sorted[i - 1], sorted[i]); }
    }
  }

  /**
   * Collection succeeds exactly on a complete inventory, whatever order the packages were found in, and then
   * returns all its declarations as one chain from version 0 to the current version.
   */
  method Collect(packages: seq<Package>, currentVersion: nat, catalog: Catalog)
    returns (r: Result<seq<Declaration>, Failure>)
    ensures r.Ok? <==> exists ds :: CompleteInventory(packages, ds, currentVersion, catalog)
    ensures r.Ok? ==> IsChain(r.value, currentVersion)
    ensures r.Ok? ==> exists ds :: Declared(packages, ds) && multiset(ds) == multiset(r.value)
  {
    var read := ReadAll(packages);
    if read.Err? {
      ghost var i :| 0 <= i < |packages| && Undeclared(packages[i]);
      forall es ensures !Declared(packages, es) { if |es| == |packages| { assert !DeclaredBy(packages[i], es[i]); } }
      return Err(read.error);
    }
    var ds := read.value;
    var sorted := SortByFrom(ds);
    SortKeepsCounts(ds, currentVersion);
    forall es | Declared(packages, es) ensures es == ds { DeclaredUniquely(packages, es, ds); }
    var failure := CheckVersions(sorted, currentVersion);
    if failure.Some? { return Err(failure.value); }
    SortFacts(ds, 0);
    SortedChain(packages, ds, sorted, currentVersion, catalog);
    if !catalog.sharesSession { return Err(SessionNotShared); }
    failure := CheckChain(packages, sorted, catalog);
    if failure.Some? { return Err(failure.value); }
    assert CompleteInventory(packages, ds, currentVersion, catalog);
    return Ok(sorted);
  }

  // ---------- the rendered catalog ----------

  datatype Rendering = Rendering(
    imports: seq<set<Symbol>>, codecs: seq<Symbol>, currentEncoder: Symbol, migrations: seq<Symbol>,
    restorer: Symbol, headerValidator: Symbol)

  datatype RenderFailure = NoTargetRestorer

  function ImportsOf(d: Declaration, currentVersion: nat): set<Symbol> {
    {d.targetCodec, d.migration} +
    (if d.from == 0 then {d.sourceCodec} else {}) +
    (if d.to == currentVersion then {d.restorer, d.headerValidator} else {})
  }

  /** The codec list of the catalog. */
  function Codecs(ds: seq<Declaration>): seq<Symbol> {
    if ds == [] then [] else [ds[0].sourceCodec] + seq(|ds|, i requires 0 <= i < |ds| => ds[i].targetCodec)
  }

  function Render(ds: seq<Declaration>, currentVersion: nat): Result<Rendering, RenderFailure> {
    if ds == [] then Err(NoTargetRestorer)
    else
      var last := ds[|ds| - 1];
      Ok(Rendering(
        seq(|ds|, i requires 0 <= i < |ds| => ImportsOf(ds[i], currentVersion)),
        Codecs(ds), last.targetCodec, seq(|ds|, i requires 0 <= i < |ds| => ds[i].migration), last.restorer,
          last.headerValidator))
  }

  /** The codec before and after every migration is the one listed for that version. */
  ghost predicate CodecsAgree(ds: seq<Declaration>, codecs: seq<Symbol>) {
    |codecs| == |ds| + 1 &&
    forall i | 0 <= i < |ds| :: codecs[i] == ds[i].sourceCodec && codecs[i + 1] == ds[i].targetCodec
  }

  /**
   * For a collected chain, rendering yields one codec per version, agreeing with both ends of every migration,
   * exactly when there is a migration at all; a chain for version 0 has an empty codec list and cannot be rendered.
   */
  lemma CodecPerVersion(ds: seq<Declaration>, n: nat)
    requires IsChain(ds, n)
    ensures CodecsAgree(ds, Codecs(ds)) <==> n >= 1
    ensures Render(ds, n).Ok? <==> n >= 1
    ensures n >= 1 ==> Render(ds, n).value.codecs == Codecs(ds) && Codecs(ds)[n] == Render(ds, n).value.currentEncoder
  {
    var codecs := Codecs(ds);
    if n >= 1 {
      forall i | 0 <= i < n ensures codecs[i] == ds[i].sourceCodec && codecs[i + 1] == ds[i].targetCodec {
        if i > 0 { assert CodecsMeet(ds, i); }
      }
    }
  }

  /** Some package's metadata states these members for its version step. */
  ghost predicate Steps(packages: seq<Package>, from: nat, migration: Symbol, sourceCodec: Symbol,
                        targetCodec: Symbol) {
    exists p, m :: p in packages && p.metadata == Some(m) && m.from == Some(from) && m.to == Some(from + 1) &&
                   m.migration == Some(migration) && m.sourceCodec == Some(sourceCodec) &&
                   m.targetCodec == Some(targetCodec)
  }

  /** Some package's metadata names how to restore and check the current version. */
  ghost predicate Arrives(packages: seq<Package>, n: nat, restorer: Symbol, headerValidator: Symbol) {
    exists p, m :: p in packages && p.metadata == Some(m) && m.to == Some(n) && m.restorer == Some(restorer) &&
                   m.headerValidator == Some(headerValidator)
  }

  lemma DeclaredSomewhere(packages: seq<Package>, es: seq<Declaration>, d: Declaration) returns (p: Package)
    requires Declared(packages, es) && d in es
    ensures p in packages && p.metadata.Some? && StatedIn(p.metadata.value, d)
  {
    var i :| 0 <= i < |es| && es[i] == d;
    p := packages[i];
  }

  /**
   * Rendered from collected packages, the catalog lists for every version the migration and both codecs that the
   * metadata of the package for that step states, and for the current version its restorer and header validator.
   */
  lemma RenderedFromMetadata(packages: seq<Package>, es: seq<Declaration>, ds: seq<Declaration>, n: nat)
    requires Declared(packages, es) && multiset(ds) == multiset(es) && IsChain(ds, n) && n >= 1
    ensures var r := Render(ds, n).value;
            |r.codecs| == n + 1 && |r.migrations| == n && r.currentEncoder == r.codecs[n] &&
            (forall i: nat | i < n :: Steps(packages, i, r.migrations[i], r.codecs[i], r.codecs[i + 1])) &&
            Arrives(packages, n, r.restorer, r.headerValidator)
  {
    var r := Render(ds, n).value;
    CodecPerVersion(ds, n);
    SameMembers(ds, es);
    forall i: nat | i < n ensures Steps(packages, i, r.migrations[i], r.codecs[i], r.codecs[i + 1]) {
      assert ds[i] in ds;
      var p := DeclaredSomewhere(packages, es, ds[i]);
      assert p.metadata == Some(p.metadata.value);
    }
    assert ds[n - 1] in ds;
    var p := DeclaredSomewhere(packages, es, ds[n - 1]);
    assert p.metadata == Some(p.metadata.value);
  }

  ghost predicate ImportsSymbol(r: Rendering, s: Symbol) {
    exists i :: 0 <= i < |r.imports| && s in r.imports[i]
  }

  ghost predicate UsesSymbol(r: Rendering, s: Symbol) {
    s in r.codecs || s in r.migrations || s == r.currentEncoder || s == r.restorer || s == r.headerValidator
  }

  /** Some declaration's import line names the symbol. */
  ghost predicate Imported(ds: seq<Declaration>, n: nat, s: Symbol) {
    exists i :: 0 <= i < |ds| && s in ImportsOf(ds[i], n)
  }

  lemma ImportedIsImported(ds: seq<Declaration>, n: nat, s: Symbol)
    requires IsChain(ds, n) && n >= 1
    ensures ImportsSymbol(Render(ds, n).value, s) <==> Imported(ds, n, s)
  {
    var imports := Render(ds, n).value.imports;
    assert forall i | 0 <= i < n :: imports[i] == ImportsOf(ds[i], n);
  }

  lemma ImportedBy(d: Declaration, n: nat, s: Symbol)
    ensures s in ImportsOf(d, n) <==>
              s == d.targetCodec || s == d.migration || (d.from == 0 && s == d.sourceCodec) ||
              (d.to == n && (s == d.restorer || s == d.headerValidator))
  {
  }

  lemma ImportedIsUsed(ds: seq<Declaration>, n: nat, s: Symbol)
    requires IsChain(ds, n) && n >= 1 && Imported(ds, n, s)
    ensures UsesSymbol(Render(ds, n).value, s)
  {
    var r := Render(ds, n).value;
    var i :| 0 <= i < n && s in ImportsOf(ds[i], n);
    CodecPerVersion(ds, n);
    var d := ds[i];
    ImportedBy(d, n, s);
    if s == d.targetCodec {
      assert r.codecs[i + 1] == s;
    } else if s == d.migration {
      assert r.migrations[i] == s;
    } else if d.from == 0 && s == d.sourceCodec {
      assert r.codecs[i] == s;
    } else {
      assert d.to == n && i == n - 1;
    }
  }

  lemma UsedIsImported(ds: seq<Declaration>, n: nat, s: Symbol)
    requires IsChain(ds, n) && n >= 1 && UsesSymbol(Render(ds, n).value, s)
    ensures Imported(ds, n, s)
  {
  }

  /** The generated module imports exactly the symbols it uses. */
  lemma ImportsAreUses(ds: seq<Declaration>, n: nat)
    requires IsChain(ds, n) && n >= 1
    ensures Render(ds, n).Ok?
    ensures forall s :: ImportsSymbol(Render(ds, n).value, s) <==> UsesSymbol(Render(ds, n).value, s)
  {
    var r := Render(ds, n).value;
    forall s ensures ImportsSymbol(r, s) <==> UsesSymbol(r, s) {
      ImportedIsImported(ds, n, s);
      if Imported(ds, n, s) { ImportedIsUsed(ds, n, s); }
      if UsesSymbol(r, s) { UsedIsImported(ds, n, s); }
    }
  }

  // ---------- composing migrations ----------

  /** A stored session: its version and the codec it is written in. */
  datatype Artifact = Artifact(version: nat, codec: Symbol)

  /** A migration takes exactly the version and codec it declares. */
  function Migrate(d: Declaration, a: Artifact): Option<Artifact> {
    if a == Artifact(d.from, d.sourceCodec) then Some(Artifact(d.to, d.targetCodec)) else None
  }

  function MigrateAll(ds: seq<Declaration>, a: Artifact): Option<Artifact> {
    if ds == [] then Some(a)
    else
      var next := Migrate(ds[0], a);
      if next.None? then None else MigrateAll(ds[1..], next.value)
  }

  /** From any version up to the current one, the remaining migrations compose and end in the current format. */
  lemma {:induction false} SuffixReachesCurrent(ds: seq<Declaration>, n: nat, version: nat)
    requires IsChain(ds, n) && version <= n && n >= 1
    ensures |Codecs(ds)| == n + 1 && Render(ds, n).Ok?
    ensures MigrateAll(ds[version..], Artifact(version, Codecs(ds)[version])) ==
              Some(Artifact(n, Render(ds, n).value.currentEncoder))
    decreases n - version
  {
    CodecPerVersion(ds, n);
    if version < n {
      SuffixReachesCurrent(ds, n, version + 1);
      assert ds[version..][0] == ds[version] && ds[version..][1..] == ds[version + 1..];
    }
  }
}
