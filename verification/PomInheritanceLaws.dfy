/**
 * When the memoised recursion of lib/core.js:222-322 ends, and what it then answers.
 */
module PomInheritanceLaws {
  import opened Basics
  import opened PomInheritance

  // ---- It ends exactly when no import cycle is within reach ----

  /** `reach` holds only local POMs and follows every edge out of them to a local POM. */
  ghost predicate Closed(store: Store, reach: set<Path>) {
    forall p | p in reach ::
      && p in store.byPath
      && (forall q | q in Imports(store, p) && q in store.byPath :: q in reach)
      && (ParentOf(store, p).Some? && ParentOf(store, p).value in store.byPath ==> ParentOf(store, p).value in reach)
  }

  /** The import edges inside `reach` descend in rank, so they form no cycle. */
  ghost predicate ImportsRanked(store: Store, reach: set<Path>, rank: map<Path, nat>) {
    && reach <= rank.Keys
    && forall p, q | p in reach && p in store.byPath && q in Imports(store, p) && q in reach :: rank[q] < rank[p]
  }

  ghost predicate NoImportCycle(store: Store, p: Path) {
    exists reach, rank :: Closed(store, reach) && ImportsRanked(store, reach, rank) && (p in store.byPath ==> p in reach)
  }

  ghost predicate Ends(store: Store, cache: Cache, p: Path) {
    exists fuel :: Get(store, fuel, cache, p).Some?
  }

  /** Paths in the order they were first cached: every local import of a POM comes before it. */
  ghost predicate ImportsFirst(store: Store, order: seq<Path>) {
    forall i | 0 <= i < |order| ::
      order[i] in store.byPath && forall q | q in Imports(store, order[i]) && q in store.byPath :: q in order[..i]
  }

  ghost predicate CachedInOrder(store: Store, cache: Cache, order: seq<Path>) {
    ImportsFirst(store, order) && forall q :: q in cache <==> q in order
  }

  /** Except for the POMs still waiting for it, a cached POM's local parent is cached. */
  ghost predicate ParentsCached(store: Store, cache: Cache, waiting: set<Path>) {
    forall q | q in cache && q in store.byPath && q !in waiting ::
      ParentOf(store, q).Some? && ParentOf(store, q).value in store.byPath ==> ParentOf(store, q).value in cache
  }

  lemma {:induction false} OrderOf(store: Store, fuel: nat, cache: Cache, order: seq<Path>, waiting: set<Path>, p: Path)
    returns (longer: seq<Path>)
    requires CachedInOrder(store, cache, order) && ParentsCached(store, cache, waiting) && Get(store, fuel, cache, p).Some?
    ensures CachedInOrder(store, Get(store, fuel, cache, p).value.0, longer)
    ensures ParentsCached(store, Get(store, fuel, cache, p).value.0, waiting)
    decreases fuel, 0
  {
    longer := order;
    if p !in cache && p in store.byPath {
      var imports, own := Imports(store, p), Own(store.byPath[p]);
      longer := OrderOfImports(store, fuel - 1, cache, order, waiting, imports, own);
      GetImportsKeeps(store, fuel - 1, cache, imports, own);
      var (c1, merged) := GetImports(store, fuel - 1, cache, imports, own).value;
      longer := AppendOnce(store, c1, longer, p);
      assert Get(store, fuel, cache, p) == Climb(store, fuel - 1, c1, p, merged);
      var c2 := c1[p := merged];
      if ParentOf(store, p).Some? {
        var up := ParentOf(store, p).value;
        longer := OrderOf(store, fuel - 1, c2, longer, waiting + {p}, up);
        GetKeeps(store, fuel - 1, c2, up);
      }
    }
  }

  lemma AppendOnce(store: Store, cache: Cache, order: seq<Path>, p: Path) returns (longer: seq<Path>)
    requires CachedInOrder(store, cache, order) && p in store.byPath
    requires forall q | q in Imports(store, p) && q in store.byPath :: q in cache
    ensures ImportsFirst(store, longer) && forall q :: q in longer <==> q in cache || q == p
  {
    hide Imports;
    if p in order {
      longer := order;
    } else {
      longer := order + [p];
      forall i | 0 <= i < |longer|
        ensures longer[i] in store.byPath && forall q | q in Imports(store, longer[i]) && q in store.byPath :: q in longer[..i]
      {
        assert longer[..i] == order[..i];
        if i == |order| { assert order[..i] == order; }
      }
    }
  }

  lemma {:induction false} OrderOfImports(store: Store, fuel: nat, cache: Cache, order: seq<Path>, waiting: set<Path>,
                                          imports: seq<Path>, m: Model)
    returns (longer: seq<Path>)
    requires CachedInOrder(store, cache, order) && ParentsCached(store, cache, waiting)
    requires GetImports(store, fuel, cache, imports, m).Some?
    ensures CachedInOrder(store, GetImports(store, fuel, cache, imports, m).value.0, longer)
    ensures ParentsCached(store, GetImports(store, fuel, cache, imports, m).value.0, waiting)
    decreases fuel, 1, |imports|
  {
    longer := order;
    if imports != [] {
      longer := OrderOf(store, fuel, cache, order, waiting, imports[0]);
      var (c, first) := Get(store, fuel, cache, imports[0]).value;
      longer := OrderOfImports(store, fuel, c, longer, waiting, imports[1..], AddImport(store, m, first));
    }
  }

  function IndexOf(s: seq<Path>, p: Path): (i: nat)
    requires p in s
    ensures i < |s| && s[i] == p && p !in s[..i]
  {
    if s[0] == p then 0
    else
      assert s == [s[0]] + s[1..];
      1 + IndexOf(s[1..], p)
  }

  /** An order in which imports come first ranks them below their importers. */
  lemma OrderRanks(store: Store, cache: Cache, order: seq<Path>) returns (rank: map<Path, nat>)
    requires CachedInOrder(store, cache, order)
    ensures ImportsRanked(store, cache.Keys, rank)
  {
    hide Imports;
    rank := map q | q in cache :: IndexOf(order, q);
    forall k, q | k in cache.Keys && k in store.byPath && q in Imports(store, k) && q in cache.Keys
      ensures rank[q] < rank[k]
    {
      var i := IndexOf(order, k);
      assert q in order[..i];
      var j :| 0 <= j < i && order[j] == q;
    }
  }

  lemma OrderCloses(store: Store, cache: Cache, order: seq<Path>)
    requires CachedInOrder(store, cache, order) && ParentsCached(store, cache, {})
    ensures Closed(store, cache.Keys)
  {
    hide Imports, ParentOf;
    forall k | k in cache.Keys
      ensures k in store.byPath && forall q | q in Imports(store, k) && q in store.byPath :: q in cache.Keys
    {
      var i := IndexOf(order, k);
      forall q | q in Imports(store, k) && q in store.byPath ensures q in cache.Keys { assert q in order[..i]; }
    }
  }

  lemma EndedSoNoCycle(store: Store, fuel: nat, p: Path)
    requires Get(store, fuel, map[], p).Some?
    ensures NoImportCycle(store, p)
  {
    NothingCached(store);
    hide Imports, Get, CachedInOrder, ParentsCached, Closed, ImportsRanked;
    var order := OrderOf(store, fuel, map[], [], {}, p);
    GetKeeps(store, fuel, map[], p);
    var cache := Get(store, fuel, map[], p).value.0;
    var rank := OrderRanks(store, cache, order);
    OrderCloses(store, cache, order);
    assert Closed(store, cache.Keys) && ImportsRanked(store, cache.Keys, rank);
  }

  lemma NothingCached(store: Store)
    ensures CachedInOrder(store, map[], []) && ParentsCached(store, map[], {})
  {
  }

  // ---- Conversely ----

  function RankOr0(rank: map<Path, nat>, p: Path): nat {
    if p in rank then rank[p] else 0
  }

  lemma FewerLeft(reach: set<Path>, cache: Cache, after: Cache)
    requires cache.Keys <= after.Keys
    ensures |reach - after.Keys| <= |reach - cache.Keys|
    ensures (exists p :: p in reach && p !in cache && p in after) ==> |reach - after.Keys| < |reach - cache.Keys|
  {
    var a, b := reach - after.Keys, reach - cache.Keys;
    SubsetSize(a, b);
    if p :| p in reach && p !in cache && p in after { SubsetSize(a, b - {p}); }
  }

  lemma {:induction false} SubsetSize<T>(a: set<T>, b: set<T>)
    requires a <= b
    ensures |a| <= |b|
  {
    assert b == a + (b - a);
  }

  lemma {:induction false} FuelFor(store: Store, reach: set<Path>, rank: map<Path, nat>, cache: Cache, p: Path) returns (fuel: nat)
    requires Closed(store, reach) && ImportsRanked(store, reach, rank) && (p in store.byPath ==> p in reach)
    ensures Get(store, fuel, cache, p).Some?
    decreases |reach - cache.Keys|, RankOr0(rank, p), 1
  {
    fuel := 0;
    if p !in cache && p in store.byPath {
      var imports, own := Imports(store, p), Own(store.byPath[p]);
      var low := FuelForImports(store, reach, rank, cache, rank[p], imports, own);
      GetImportsKeeps(store, low, cache, imports, own);
      var (c, merged) := GetImports(store, low, cache, imports, own).value;
      var high := 0;
      if ParentOf(store, p).Some? {
        FewerLeft(reach, cache, c[p := merged]);
        high := FuelFor(store, reach, rank, c[p := merged], ParentOf(store, p).value);
      }
      fuel := FuelForBoth(store, cache, p, low, high);
    }
  }

  lemma FuelForBoth(store: Store, cache: Cache, p: Path, low: nat, high: nat) returns (fuel: nat)
    requires p !in cache && p in store.byPath
    requires GetImports(store, low, cache, Imports(store, p), Own(store.byPath[p])).Some?
    requires var (c, merged) := GetImports(store, low, cache, Imports(store, p), Own(store.byPath[p])).value;
             ParentOf(store, p).Some? ==> Get(store, high, c[p := merged], ParentOf(store, p).value).Some?
    ensures Get(store, fuel, cache, p).Some?
  {
    var most := if low > high then low else high;
    var imports, own := Imports(store, p), Own(store.byPath[p]);
    MoreFuelImports(store, low, most, cache, imports, own);
    var (c, merged) := GetImports(store, low, cache, imports, own).value;
    if ParentOf(store, p).Some? { MoreFuel(store, high, most, c[p := merged], ParentOf(store, p).value); }
    assert Climb(store, most, c, p, merged).Some?;
    fuel := most + 1;
  }

  lemma {:induction false} FuelForImports(store: Store, reach: set<Path>, rank: map<Path, nat>, cache: Cache, bound: nat,
                                          imports: seq<Path>, m: Model)
    returns (fuel: nat)
    requires Closed(store, reach) && ImportsRanked(store, reach, rank)
    requires forall q | q in imports && q in store.byPath :: q in reach && rank[q] < bound
    ensures GetImports(store, fuel, cache, imports, m).Some?
    decreases |reach - cache.Keys|, bound, 0, |imports|
  {
    fuel := 0;
    if imports != [] {
      var first := 0;
      if imports[0] in store.byPath { first := FuelFor(store, reach, rank, cache, imports[0]); }
      GetKeeps(store, first, cache, imports[0]);
      var (c, answer) := Get(store, first, cache, imports[0]).value;
      FewerLeft(reach, cache, c);
      var rest := FuelForImports(store, reach, rank, c, bound, imports[1..], AddImport(store, m, answer));
      fuel := if rest > first then rest else first;
      MoreFuel(store, first, fuel, cache, imports[0]);
      MoreFuelImports(store, rest, fuel, c, imports[1..], AddImport(store, m, answer));
    }
  }

  /** Parent cycles and mixed cycles always end; a cycle of imports within reach never does. */
  lemma EndsIffNoImportCycle(store: Store, p: Path)
    ensures Ends(store, map[], p) <==> NoImportCycle(store, p)
  {
    if Ends(store, map[], p) {
      var fuel :| Get(store, fuel, map[], p).Some?;
      EndedSoNoCycle(store, fuel, p);
    }
    if NoImportCycle(store, p) {
      var reach, rank :| Closed(store, reach) && ImportsRanked(store, reach, rank) && (p in store.byPath ==> p in reach);
      var fuel := FuelFor(store, reach, rank, map[], p);
    }
  }

  // ---- Without any cycle, the cache is invisible ----

  /** Both kinds of edges descend in `rank`: parents and imports together form no cycle. */
  ghost predicate Acyclic(store: Store, rank: Path -> nat) {
    forall p | p in store.byPath ::
      && (forall q | q in Imports(store, p) :: rank(q) < rank(p))
      && (ParentOf(store, p).Some? ==> rank(ParentOf(store, p).value) < rank(p))
  }

  /** What a POM inherits, defined without a cache. */
  ghost function Effective(store: Store, rank: Path -> nat, p: Path): Model
    requires Acyclic(store, rank)
    decreases rank(p), 1
  {
    if p !in store.byPath then EMPTY
    else
      var merged := WithImports(store, rank, rank(p), Imports(store, p), Own(store.byPath[p]));
      if ParentOf(store, p).None? then Finish(store.byPath[p], merged)
      else Finish(store.byPath[p], Inherit(merged, Effective(store, rank, ParentOf(store, p).value)))
  }

  ghost function WithImports(store: Store, rank: Path -> nat, bound: nat, imports: seq<Path>, m: Model): Model
    requires Acyclic(store, rank) && forall q | q in imports :: rank(q) < bound
    decreases bound, 0, |imports|
  {
    if imports == [] then m
    else WithImports(store, rank, bound, imports[1..], AddImport(store, m, Effective(store, rank, imports[0])))
  }

  /** Every cached answer of rank below `bound` is the one defined without a cache. */
  ghost predicate RightBelow(store: Store, rank: Path -> nat, cache: Cache, bound: nat)
    requires Acyclic(store, rank)
  {
    forall q | q in cache && rank(q) < bound :: cache[q] == Effective(store, rank, q)
  }

  ghost predicate RightSince(store: Store, rank: Path -> nat, before: Cache, after: Cache)
    requires Acyclic(store, rank)
  {
    forall q | q in after && q !in before :: after[q] == Effective(store, rank, q)
  }

  lemma {:induction false} MemoIsEffective(store: Store, rank: Path -> nat, fuel: nat, cache: Cache, p: Path)
    requires Acyclic(store, rank) && RightBelow(store, rank, cache, rank(p) + 1) && Get(store, fuel, cache, p).Some?
    ensures var (c, m) := Get(store, fuel, cache, p).value;
            m == Effective(store, rank, p) && RightSince(store, rank, cache, c)
    decreases fuel, 0
  {
    hide Imports, Own;
    if p !in cache && p in store.byPath {
      var imports, own := Imports(store, p), Own(store.byPath[p]);
      MemoImports(store, rank, fuel - 1, cache, rank(p), imports, own);
      GetImportsKeeps(store, fuel - 1, cache, imports, own);
      var (c, merged) := GetImports(store, fuel - 1, cache, imports, own).value;
      MemoClimb(store, rank, fuel - 1, cache, c, p, merged);
    }
  }

  lemma {:induction false} MemoClimb(store: Store, rank: Path -> nat, fuel: nat, before: Cache, cache: Cache, p: Path, merged: Model)
    requires Acyclic(store, rank) && p in store.byPath && p !in before
    requires RightBelow(store, rank, cache, rank(p)) && RightSince(store, rank, before, cache)
    requires merged == WithImports(store, rank, rank(p), Imports(store, p), Own(store.byPath[p]))
    requires Climb(store, fuel, cache, p, merged).Some?
    ensures var (c, m) := Climb(store, fuel, cache, p, merged).value;
            m == Effective(store, rank, p) && RightSince(store, rank, before, c)
    decreases fuel, 2
  {
    hide Imports, Own, WithImports;
    if ParentOf(store, p).Some? {
      var c2, up := cache[p := merged], ParentOf(store, p).value;
      assert RightBelow(store, rank, c2, rank(up) + 1);
      MemoIsEffective(store, rank, fuel, c2, up);
      GetKeeps(store, fuel, c2, up);
    }
  }

  lemma {:induction false} MemoImports(store: Store, rank: Path -> nat, fuel: nat, cache: Cache, bound: nat, imports: seq<Path>, m: Model)
    requires Acyclic(store, rank) && RightBelow(store, rank, cache, bound) && forall q | q in imports :: rank(q) < bound
    requires GetImports(store, fuel, cache, imports, m).Some?
    ensures var (c, r) := GetImports(store, fuel, cache, imports, m).value;
            && r == WithImports(store, rank, bound, imports, m)
            && RightSince(store, rank, cache, c) && RightBelow(store, rank, c, bound)
    decreases fuel, 1, |imports|
  {
    if imports != [] {
      MemoIsEffective(store, rank, fuel, cache, imports[0]);
      GetKeeps(store, fuel, cache, imports[0]);
      var (c, first) := Get(store, fuel, cache, imports[0]).value;
      MemoImports(store, rank, fuel, c, bound, imports[1..], AddImport(store, m, first));
      GetImportsKeeps(store, fuel, c, imports[1..], AddImport(store, m, first));
    }
  }

  /** The cache after asking for the POMs in turn. */
  function Visit(store: Store, fuel: nat, cache: Cache, paths: seq<Path>): Option<Cache> {
    if paths == [] then Some(cache)
    else
      var rest := Visit(store, fuel, cache, paths[..|paths| - 1]);
      if rest.None? then None
      else
        var last := Get(store, fuel, rest.value, paths[|paths| - 1]);
        if last.None? then None else Some(last.value.0)
  }

  lemma {:induction false} MoreFuelVisit(store: Store, fuel: nat, more: nat, cache: Cache, paths: seq<Path>)
    requires fuel <= more && Visit(store, fuel, cache, paths).Some?
    ensures Visit(store, more, cache, paths) == Visit(store, fuel, cache, paths)
  {
    hide Get;
    if paths != [] {
      MoreFuelVisit(store, fuel, more, cache, paths[..|paths| - 1]);
      MoreFuel(store, fuel, more, Visit(store, fuel, cache, paths[..|paths| - 1]).value, paths[|paths| - 1]);
    }
  }

  /** Without any cycle every request ends, through whatever cache. */
  lemma AcyclicEnds(store: Store, rank: Path -> nat, cache: Cache, p: Path) returns (fuel: nat)
    requires Acyclic(store, rank)
    ensures Get(store, fuel, cache, p).Some?
  {
    hide Get, Imports;
    var reach, ranks := store.byPath.Keys, map q | q in store.byPath :: rank(q);
    assert Closed(store, reach) && ImportsRanked(store, reach, ranks);
    fuel := FuelFor(store, reach, ranks, cache, p);
  }

  /**
   * Without any cycle, asking for POMs in any order ends, and every cached answer is the one
   * defined without a cache.
   */
  lemma {:induction false} AnyOrderSameAnswers(store: Store, rank: Path -> nat, paths: seq<Path>) returns (fuel: nat, c: Cache)
    requires Acyclic(store, rank)
    ensures Visit(store, fuel, map[], paths) == Some(c)
    ensures forall q | q in c :: c[q] == Effective(store, rank, q)
    ensures forall q | q in paths && q in store.byPath :: q in c
  {
    hide Get, Effective, Acyclic;
    fuel, c := 0, map[];
    if paths != [] {
      var before, p := paths[..|paths| - 1], paths[|paths| - 1];
      var low, sofar := AnyOrderSameAnswers(store, rank, before);
      var high := AcyclicEnds(store, rank, sofar, p);
      fuel := if low > high then low else high;
      MoreFuelVisit(store, low, fuel, map[], before);
      MoreFuel(store, high, fuel, sofar, p);
      MemoIsEffective(store, rank, fuel, sofar, p);
      GetKeeps(store, fuel, sofar, p);
      c := Get(store, fuel, sofar, p).value.0;
      forall q ensures q in paths <==> q in before || q == p {
        assert paths == before + [p];
      }
    }
  }
}
