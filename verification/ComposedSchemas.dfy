/** Folding the key paths of composed schemas (`scripts/gen-config-catalog.ts`). */
module ComposedSchemas {
  import opened Reachability

  datatype Package = Package(name: string)
  datatype Key = Key(path: string)

  /** The schema of a collected package; a package without one has no keys and composes nothing. */
  datatype Entry = Entry(schemaKeys: seq<Key>, schemaComposes: seq<Package>)

  type Entries = map<Package, Entry>

  /** The collected packages a package's schema composes. */
  function Composes(entries: Entries): Package -> set<Package> {
    p => if p in entries then set q | q in entries[p].schemaComposes && q in entries else {}
  }

  ghost predicate Composed(entries: Entries, p: Package, q: Package) {
    Reaches(Composes(entries), p, q)
  }

  ghost predicate HasKey(entries: Entries, among: set<Package>, k: Key) {
    exists p :: p in among && p in entries && k in entries[p].schemaKeys
  }

  /** Some package `among` composes `q`, which was not collected. */
  ghost predicate Uncollected(entries: Entries, among: set<Package>, q: Package) {
    q !in entries && exists p :: p in among && p in entries && q in entries[p].schemaComposes
  }

  /** The packages newly folded, whose keys and uncollected compositions were gathered. */
  ghost predicate Folded(entries: Entries, before: set<Package>, after: set<Package>, keys: seq<Key>,
                         missing: set<Package>) {
    before <= after && after <= before + entries.Keys &&
    (forall k :: k in keys <==> HasKey(entries, after - before, k)) &&
    (forall q :: q in missing <==> Uncollected(entries, after - before, q))
  }

  /** Everything a newly folded package composes has been folded. */
  ghost predicate Followed(entries: Entries, before: set<Package>, after: set<Package>) {
    forall p, q | p in after - before && q in Composes(entries)(p) :: q in after
  }

  ghost predicate AllComposed(entries: Entries, root: Package, among: set<Package>) {
    forall p | p in among :: Composed(entries, root, p)
  }

  /** The loop over the composed packages: `keys` are the package's own and those folded so far. */
  ghost predicate Folding(entries: Entries, e: Package, seen: set<Package>, now: set<Package>, k: nat, keys: seq<Key>,
                          missing: set<Package>)
    requires e in entries && k <= |entries[e].schemaComposes|
  {
    seen + {e} <= now && now <= seen + entries.Keys &&
    (forall x :: x in keys <==> HasKey(entries, now - seen, x)) &&
    (forall q :: q in missing <==>
       Uncollected(entries, now - seen - {e}, q) || (q !in entries && q in entries[e].schemaComposes[..k])) &&
    (forall p, q | p in now - seen - {e} && q in Composes(entries)(p) :: q in now) &&
    (forall q | q in entries[e].schemaComposes[..k] && q in entries :: q in now)
  }

  lemma FoldingStarts(entries: Entries, e: Package, seen: set<Package>)
    requires e in entries && e !in seen
    ensures Folding(entries, e, seen, seen + {e}, 0, entries[e].schemaKeys, {})
  {
  }

  lemma FoldingSkips(entries: Entries, e: Package, seen: set<Package>, now: set<Package>, k: nat, keys: seq<Key>,
                     missing: set<Package>)
    requires e in entries && k < |entries[e].schemaComposes| && Folding(entries, e, seen, now, k, keys, missing)
    requires entries[e].schemaComposes[k] !in entries
    ensures Folding(entries, e, seen, now, k + 1, keys, missing + {entries[e].schemaComposes[k]})
  {
  }

  lemma FoldingGoesOn(entries: Entries, e: Package, seen: set<Package>, now: set<Package>, later: set<Package>, k: nat,
                      keys: seq<Key>, more: seq<Key>, missing: set<Package>, further: set<Package>)
    requires e in entries && e !in seen && k < |entries[e].schemaComposes| &&
             Folding(entries, e, seen, now, k, keys, missing)
    requires entries[e].schemaComposes[k] in later && entries[e].schemaComposes[k] in entries
    requires Folded(entries, now, later, more, further) && Followed(entries, now, later)
    ensures Folding(entries, e, seen, later, k + 1, keys + more, missing + further)
  {
  }

  lemma FoldingEnds(entries: Entries, e: Package, seen: set<Package>, now: set<Package>, keys: seq<Key>,
                    missing: set<Package>)
    requires e in entries && e !in seen && Folding(entries, e, seen, now, |entries[e].schemaComposes|, keys, missing)
    ensures Folded(entries, seen, now, keys, missing) && Followed(entries, seen, now)
  {
  }

  lemma NothingFolded(entries: Entries, seen: set<Package>)
    ensures Folded(entries, seen, seen, [], {}) && Followed(entries, seen, seen)
  {
  }

  /** `foldComposed`: the keys of a package and of everything it composes that was not folded before. */
  method FoldComposed(entries: Entries, e: Package, seen: set<Package>, ghost root: Package)
    returns (keys: seq<Key>, missing: set<Package>, after: set<Package>)
    requires e in entries && seen <= entries.Keys && Composed(entries, root, e)
    requires AllComposed(entries, root, seen)
    ensures e in after && after <= entries.Keys && Folded(entries, seen, after, keys, missing) &&
            Followed(entries, seen, after)
    ensures AllComposed(entries, root, after)
    decreases entries.Keys - seen
  {
    if e in seen {
      NothingFolded(entries, seen);
      return [], {}, seen;
    }
    after, keys, missing := seen + {e}, entries[e].schemaKeys, {};
    var composes := entries[e].schemaComposes;
    FoldingStarts(entries, e, seen);
    for k := 0 to |composes|
      invariant after <= entries.Keys && AllComposed(entries, root, after)
      invariant Folding(entries, e, seen, after, k, keys, missing)
    {
      var composed := composes[k];
      if composed !in entries {
        FoldingSkips(entries, e, seen, after, k, keys, missing);
        missing := missing + {composed};
        continue;
      }
      assert composed in Composes(entries)(e);
      ReachesFurther(Composes(entries), root, e, composed);
      var more, further, later := FoldComposed(entries, composed, after, root);
      FoldingGoesOn(entries, e, seen, after, later, k, keys, more, missing, further);
      keys, missing, after := keys + more, missing + further, later;
    }
    FoldingEnds(entries, e, seen, after, keys, missing);
  }

  /**
   * Folding a package's composed schemas gathers exactly the keys of the packages its schema composes, directly
   * or not and itself included, also on cyclic compositions; a violation is reported for exactly the composed
   * packages that were not collected.
   */
  method AllKeys(entries: Entries, e: Package) returns (keys: seq<Key>, missing: set<Package>)
    requires e in entries
    ensures forall k :: k in keys <==> exists p :: Composed(entries, e, p) && p in entries && k in entries[p].schemaKeys
    ensures forall q :: q in missing <==>
              q !in entries && exists p :: Composed(entries, e, p) && p in entries && q in entries[p].schemaComposes
  {
    ReachesItself(Composes(entries), e);
    var after: set<Package>;
    keys, missing, after := FoldComposed(entries, e, {}, e);
    assert after - {} == after;
    ClosedContainsReachable(Composes(entries), after, e);
    assert forall p :: p in after <==> Composed(entries, e, p);
  }
}
