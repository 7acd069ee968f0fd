/**
 * lib/core.js:222-322 as the code runs it: models are objects, built in place, shared through
 * the cache and completed after they were cached.
 */
module PomResolver {
  import opened Basics
  import opened PomInheritance
  import opened PomInheritanceLaws

  class Merged {
    var properties: Props
    var dependencies: seq<Dep>
    var management: seq<Dep>

    function Value(): Model
      reads this
    {
      Model(properties, dependencies, management)
    }

    constructor (m: Model)
      ensures Value() == m
    {
      properties, dependencies, management := m.properties, m.dependencies, m.management;
    }
  }

  /** `Get` answers like this, given fuel enough. */
  ghost predicate Answers(store: Store, cache: Cache, p: Path, after: Cache, m: Model) {
    exists fuel :: Get(store, fuel, cache, p) == Some((after, m))
  }

  ghost predicate AnswersImports(store: Store, cache: Cache, imports: seq<Path>, own: Model, after: Cache, m: Model) {
    exists fuel :: GetImports(store, fuel, cache, imports, own) == Some((after, m))
  }

  /** Without parent or import cycles, an answer got through a correct cache is the one defined without a cache. */
  lemma AnswerIsEffective(store: Store, rank: Path -> nat, cache: Cache, p: Path, after: Cache, m: Model)
    requires Acyclic(store, rank) && Answers(store, cache, p, after, m)
    requires forall q | q in cache :: cache[q] == Effective(store, rank, q)
    ensures m == Effective(store, rank, p)
    ensures forall q | q in after :: after[q] == Effective(store, rank, q)
  {
    hide Effective, Acyclic, Get;
    var fuel: nat :| Get(store, fuel, cache, p) == Some((after, m));
    MemoIsEffective(store, rank, fuel, cache, p);
    GetKeeps(store, fuel, cache, p);
  }

  lemma {:induction false} ImportsSnoc(store: Store, fuel: nat, cache: Cache, imports: seq<Path>, q: Path, own: Model)
    requires GetImports(store, fuel, cache, imports, own).Some?
    ensures var (mid, m) := GetImports(store, fuel, cache, imports, own).value;
            var last := Get(store, fuel, mid, q);
            GetImports(store, fuel, cache, imports + [q], own) ==
            if last.None? then None else Some((last.value.0, AddImport(store, m, last.value.1)))
    decreases |imports|
  {
    if imports == [] {
      assert [q][1..] == [];
    } else {
      var (c, first) := Get(store, fuel, cache, imports[0]).value;
      assert (imports + [q])[1..] == imports[1..] + [q];
      ImportsSnoc(store, fuel, c, imports[1..], q, AddImport(store, own, first));
    }
  }

  lemma AnswersSnoc(store: Store, cache: Cache, imports: seq<Path>, own: Model, mid: Cache, m: Model, q: Path, after: Cache, last: Model)
    requires AnswersImports(store, cache, imports, own, mid, m) && Answers(store, mid, q, after, last)
    ensures AnswersImports(store, cache, imports + [q], own, after, AddImport(store, m, last))
  {
    var a: nat :| GetImports(store, a, cache, imports, own) == Some((mid, m));
    var b: nat :| Get(store, b, mid, q) == Some((after, last));
    var most := if a > b then a else b;
    MoreFuelImports(store, a, most, cache, imports, own);
    MoreFuel(store, b, most, mid, q);
    ImportsSnoc(store, most, cache, imports, q, own);
    assert GetImports(store, most, cache, imports + [q], own) == Some((after, AddImport(store, m, last)));
  }

  lemma AnswersNothing(store: Store, cache: Cache, own: Model)
    ensures AnswersImports(store, cache, [], own, cache, own)
  {
    assert GetImports(store, 0, cache, [], own) == Some((cache, own));
  }

  lemma AnswersAtOnce(store: Store, cache: Cache, p: Path)
    requires p in cache || p !in store.byPath
    ensures Answers(store, cache, p, cache, if p in cache then cache[p] else EMPTY)
  {
    assert Get(store, 0, cache, p) == Some((cache, if p in cache then cache[p] else EMPTY));
  }

  lemma AnswersWhole(store: Store, cache: Cache, p: Path, mid: Cache, merged: Model, up: Option<Model>, top: Cache, m: Model)
    requires p !in cache && p in store.byPath
    requires AnswersImports(store, cache, Imports(store, p), Own(store.byPath[p]), mid, merged)
    requires up.Some? == ParentOf(store, p).Some?
    requires up.None? ==> top == mid[p := merged] && m == Finish(store.byPath[p], merged)
    requires up.Some? ==>
               Answers(store, mid[p := merged], ParentOf(store, p).value, top, up.value)
               && m == Finish(store.byPath[p], Inherit(merged, up.value))
    ensures Answers(store, cache, p, top[p := m], m)
  {
    hide Imports, Own;
    var imports, own := Imports(store, p), Own(store.byPath[p]);
    var a: nat :| GetImports(store, a, cache, imports, own) == Some((mid, merged));
    var b: nat := 0;
    if up.Some? { b :| Get(store, b, mid[p := merged], ParentOf(store, p).value) == Some((top, up.value)); }
    var most := if a > b then a else b;
    MoreFuelImports(store, a, most, cache, imports, own);
    if up.Some? { MoreFuel(store, b, most, mid[p := merged], ParentOf(store, p).value); }
    assert Climb(store, most, mid, p, merged) == Some((top[p := m], m));
    assert Get(store, most + 1, cache, p) == Some((top[p := m], m));
  }

  lemma NoMoreLeft(reach: set<Path>, before: set<Path>, after: set<Path>)
    requires before <= after
    ensures |reach - after| <= |reach - before|
    ensures forall p | p in reach && p !in before && p in after :: |reach - after| < |reach - before|
  {
    SubsetSize(reach - after, reach - before);
    forall p | p in reach && p !in before && p in after ensures |reach - after| < |reach - before| {
      SubsetSize(reach - after, reach - before - {p});
    }
  }

  lemma TakeSnoc(s: seq<Path>, i: nat)
    requires i < |s|
    ensures s[..i + 1] == s[..i] + [s[i]]
  {
  }

  class Resolver {
    const store: Store
    var cache: map<Path, Merged>
    /** The cached models, by value. */
    ghost var view: Cache

    ghost predicate Valid()
      reads this, set q | q in cache :: cache[q]
    {
      cache.Keys == view.Keys && forall q | q in cache :: cache[q].Value() == view[q]
    }

    constructor (store: Store)
      ensures this.store == store && Valid() && view == map[]
    {
      this.store, cache, view := store, map[], map[];
    }

    predicate Uncached(m: Merged)
      reads this
    {
      forall q | q in cache :: cache[q] != m
    }

    twostate lemma FreshIsUncached(new m: Merged)
      requires old(Valid()) && fresh(m) && cache == old(cache) && view == old(view) && forall q | q in cache :: unchanged(cache[q])
      ensures Valid() && Uncached(m)
    {
    }

    ghost predicate Suits(p: Path, reach: set<Path>, rank: map<Path, nat>) {
      Closed(store, reach) && ImportsRanked(store, reach, rank) && (p in store.byPath ==> p in reach)
    }

    ghost function Depth(p: Path, rank: map<Path, nat>): nat {
      if p in store.byPath then 1 + RankOr0(rank, p) else 0
    }

    lemma ImportSuits(p: Path, q: Path, reach: set<Path>, rank: map<Path, nat>)
      requires p in store.byPath && Suits(p, reach, rank) && q in Imports(store, p)
      ensures Suits(q, reach, rank) && Depth(q, rank) < Depth(p, rank)
    {
      hide Imports;
    }

    lemma ParentSuits(p: Path, reach: set<Path>, rank: map<Path, nat>)
      requires p in store.byPath && Suits(p, reach, rank) && ParentOf(store, p).Some?
      ensures Suits(ParentOf(store, p).value, reach, rank) && p in reach
    {
      hide Imports;
    }

    /** One import read into the new model `m`. */
    method PullImport(m: Merged, q: Path, ghost reach: set<Path>, ghost rank: map<Path, nat>) returns (ghost imported: Model)
      requires Suits(q, reach, rank) && Valid() && Uncached(m)
      modifies this, m
      ensures Valid() && Uncached(m)
      ensures forall q | q in old(cache) :: q in cache && cache[q] == old(cache)[q]
      ensures forall q | q in cache && q !in old(cache) :: fresh(cache[q])
      ensures Answers(store, old(view), q, view, imported) && m.Value() == AddImport(store, old(m.Value()), imported)
      decreases |reach - cache.Keys|, Depth(q, rank), 4
    {
      hide Get, Answers, Suits, Depth, ResolveAll;
      var bom := GetAllInheritedProps(q, reach, rank);
      imported := bom.Value();
      m.dependencies := m.dependencies + bom.dependencies;
      m.management := m.management + ResolveAll(store, bom.management, bom.properties);
    }

    /** Everything `p` imports, in order. */
    method PullImports(m: Merged, p: Path, ghost reach: set<Path>, ghost rank: map<Path, nat>)
      requires p in store.byPath && Suits(p, reach, rank) && Valid() && Uncached(m)
      modifies this, m
      ensures Valid() && Uncached(m)
      ensures forall q | q in old(cache) :: q in cache && cache[q] == old(cache)[q]
      ensures forall q | q in cache && q !in old(cache) :: fresh(cache[q])
      ensures AnswersImports(store, old(view), Imports(store, p), old(m.Value()), view, m.Value())
      decreases |reach - cache.Keys|, Depth(p, rank), 0
    {
      hide Get, GetImports, Own, Imports, AnswersImports, Answers, Suits, Depth, ParentOf, Valid, Uncached, AddImport;
      var imports := Imports(store, p);
      ghost var own := m.Value();
      AnswersNothing(store, view, own);
      for i := 0 to |imports|
        invariant Valid() && Uncached(m)
        invariant forall q | q in old(cache) :: q in cache && cache[q] == old(cache)[q]
        invariant forall q | q in cache && q !in old(cache) :: fresh(cache[q])
        invariant AnswersImports(store, old(view), imports[..i], own, view, m.Value())
      {
        ghost var mid, sofar := view, m.Value();
        ImportSuits(p, imports[i], reach, rank);
        NoMoreLeft(reach, old(cache.Keys), cache.Keys);
        TakeSnoc(imports, i);
        ghost var imported := PullImport(m, imports[i], reach, rank);
        AnswersSnoc(store, old(view), imports[..i], own, mid, sofar, imports[i], view, imported);
      }
      assert imports[..|imports|] == imports;
    }

    method GetAllInheritedProps(p: Path, ghost reach: set<Path>, ghost rank: map<Path, nat>) returns (m: Merged)
      requires Suits(p, reach, rank) && Valid()
      modifies this
      ensures forall q | q in old(cache) :: q in cache && cache[q] == old(cache)[q]
      ensures forall q | q in cache && q !in old(cache) :: fresh(cache[q])
      ensures Valid() && (p in store.byPath ==> p in cache && m == cache[p])
      ensures Answers(store, old(view), p, view, m.Value())
      decreases |reach - cache.Keys|, Depth(p, rank), 3
    {
      hide Get, GetImports, Own, Imports, AnswersImports, Answers, Suits, Depth;
      if p in cache {
        AnswersAtOnce(store, view, p);
        return cache[p];
      }
      if p !in store.byPath {
        AnswersAtOnce(store, view, p);
        m := new Merged(EMPTY);
        return;
      }
      m := Compute(p, reach, rank);
    }

    /** A new model of `p` with everything it imports, cached before the parent is read. */
    method Start(p: Path, ghost reach: set<Path>, ghost rank: map<Path, nat>) returns (m: Merged, ghost mid: Cache)
      requires Suits(p, reach, rank) && Valid() && p in store.byPath && p !in cache
      modifies this
      ensures forall q | q in old(cache) :: q in cache && cache[q] == old(cache)[q]
      ensures forall q | q in cache && q !in old(cache) :: fresh(cache[q])
      ensures Valid() && OnlyAt(m, p) && fresh(m) && view == mid[p := m.Value()]
      ensures AnswersImports(store, old(view), Imports(store, p), Own(store.byPath[p]), mid, m.Value())
      decreases |reach - cache.Keys|, Depth(p, rank), 1
    {
      hide Get, GetImports, Own, Imports, AnswersImports, Answers, Suits, Depth, ParentOf, Valid, Uncached, OnlyAt;
      m := new Merged(Own(store.byPath[p]));
      FreshIsUncached(m);
      PullImports(m, p, reach, rank);
      mid := view;
      CacheNew(m, p);
    }

    method Compute(p: Path, ghost reach: set<Path>, ghost rank: map<Path, nat>) returns (m: Merged)
      requires Suits(p, reach, rank) && Valid() && p in store.byPath && p !in cache && p !in view
      modifies this
      ensures forall q | q in old(cache) :: q in cache && cache[q] == old(cache)[q]
      ensures forall q | q in cache && q !in old(cache) :: fresh(cache[q])
      ensures Valid() && p in cache && m == cache[p]
      ensures Answers(store, old(view), p, view, m.Value())
      decreases |reach - cache.Keys|, Depth(p, rank), 2
    {
      hide Get, GetImports, Own, Imports, AnswersImports, Answers, Suits, Depth, Valid, ParentOf, Finish, Inherit, Uncached;
      ghost var before, known := view, cache.Keys;
      ghost var mid: Cache;
      m, mid := Start(p, reach, rank);
      ghost var partial := m.Value();
      ghost var up, top := Climb(m, p, reach, rank, known);
      assert Answers(store, before, p, view, m.Value()) by {
        AnswersWhole(store, before, p, mid, partial, up, top, m.Value());
      }
    }

    ghost predicate OnlyAt(m: Merged, p: Path)
      reads this
    {
      p in cache && cache[p] == m && forall q | q in cache && q != p :: cache[q] != m
    }

    method CacheNew(m: Merged, p: Path)
      requires Valid() && Uncached(m)
      modifies this
      ensures Valid() && OnlyAt(m, p) && cache == old(cache)[p := m] && view == old(view)[p := m.Value()]
    {
      cache, view := cache[p := m], view[p := m.Value()];
    }

    /** The parent's model, read while `p` waits in the cache with its partial model. */
    method ReadParent(m: Merged, p: Path, ghost reach: set<Path>, ghost rank: map<Path, nat>) returns (parent: Merged)
      requires p in store.byPath && Suits(p, reach, rank) && Valid() && OnlyAt(m, p) && ParentOf(store, p).Some?
      modifies this
      ensures Valid() && OnlyAt(m, p)
      ensures forall q | q in old(cache) :: q in cache && cache[q] == old(cache)[q]
      ensures forall q | q in cache && q !in old(cache) :: fresh(cache[q])
      ensures Answers(store, old(view), ParentOf(store, p).value, view, parent.Value())
      decreases |reach - cache.Keys|, Depth(ParentOf(store, p).value, rank), 4
    {
      hide Get, Answers, Suits, Depth, Imports, ParentOf;
      ParentSuits(p, reach, rank);
      parent := GetAllInheritedProps(ParentOf(store, p).value, reach, rank);
    }

    /** Replaces the properties of the cached model `m` of `p`, and caches it again. */
    method SetProperties(m: Merged, p: Path, properties: Props)
      requires Valid() && OnlyAt(m, p)
      modifies this, m
      ensures Valid() && cache == old(cache) && view == old(view)[p := m.Value()]
      ensures m.Value() == old(m.Value()).(properties := properties)
    {
      m.properties := properties;
      view := view[p := m.Value()];
      cache := cache[p := m];
      assert cache == old(cache);
    }

    /** Completes the cached model of `p` with its parent's properties and its own coordinates. */
    method Climb(m: Merged, p: Path, ghost reach: set<Path>, ghost rank: map<Path, nat>, ghost before: set<Path>)
      returns (ghost up: Option<Model>, ghost top: Cache)
      requires p in store.byPath && Suits(p, reach, rank) && Valid() && OnlyAt(m, p)
      requires p !in before && before <= cache.Keys
      modifies this, m
      ensures Valid() && p in cache && cache[p] == m && view == top[p := m.Value()]
      ensures forall q | q in old(cache) :: q in cache && cache[q] == old(cache)[q]
      ensures forall q | q in cache && q !in old(cache) :: fresh(cache[q])
      ensures up.Some? == ParentOf(store, p).Some?
      ensures up.None? ==> top == old(view) && m.Value() == Finish(store.byPath[p], old(m.Value()))
      ensures up.Some? ==> Answers(store, old(view), ParentOf(store, p).value, top, up.value)
                           && m.Value() == Finish(store.byPath[p], Inherit(old(m.Value()), up.value))
      decreases |reach - before|, Depth(p, rank), 0
    {
      hide Get, Answers, Suits, Depth, Imports, ParentOf, Valid;
      up, top := None, view;
      var inherited := m.properties;
      if ParentOf(store, p).Some? {
        ParentSuits(p, reach, rank);
        NoMoreLeft(reach, before, cache.Keys);
        var parent := ReadParent(m, p, reach, rank);
        up, top := Some(parent.Value()), view;
        inherited := parent.properties + m.properties;
      }
      SetProperties(m, p, inherited + store.byPath[p].localVars);
    }
  }
}
