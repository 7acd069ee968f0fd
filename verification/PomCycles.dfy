/**
 * What a cycle is in lib/core.js:222-322: a way along imports, or along imports and parents, from a
 * POM back to itself.
 */
module PomCycles {
  import opened Basics
  import opened PomInheritance
  import opened PomInheritanceLaws

  type Edge = (Path, Path) -> bool

  // ---- Ways through a graph ----

  ghost predicate IsWay(edge: Edge, w: seq<Path>) {
    |w| >= 2 && forall i | 0 <= i < |w| - 1 :: edge(w[i], w[i + 1])
  }

  /** A way of at least one edge leads from `a` to `b`. */
  ghost predicate Leads(edge: Edge, a: Path, b: Path) {
    exists w :: IsWay(edge, w) && w[0] == a && w[|w| - 1] == b
  }

  lemma EdgeLeads(edge: Edge, a: Path, b: Path)
    requires edge(a, b)
    ensures Leads(edge, a, b)
  {
    assert IsWay(edge, [a, b]);
  }

  lemma LeadsOn(edge: Edge, a: Path, b: Path, c: Path)
    requires edge(a, b) && Leads(edge, b, c)
    ensures Leads(edge, a, c)
  {
    var w :| IsWay(edge, w) && w[0] == b && w[|w| - 1] == c;
    var longer := [a] + w;
    forall i | 0 <= i < |longer| - 1 ensures edge(longer[i], longer[i + 1]) {
      if i > 0 { assert longer[i] == w[i - 1] && longer[i + 1] == w[i]; }
    }
    assert IsWay(edge, longer) && longer[|longer| - 1] == c;
  }

  lemma LeadsThen(edge: Edge, a: Path, b: Path, c: Path)
    requires Leads(edge, a, b) && edge(b, c)
    ensures Leads(edge, a, c)
  {
    var w :| IsWay(edge, w) && w[0] == a && w[|w| - 1] == b;
    var longer := w + [c];
    forall i | 0 <= i < |longer| - 1 ensures edge(longer[i], longer[i + 1]) {
      if i < |w| - 1 { assert longer[i] == w[i] && longer[i + 1] == w[i + 1]; }
    }
    assert IsWay(edge, longer) && longer[0] == a;
  }

  ghost function Beyond(nodes: set<Path>, edge: Edge, a: Path): set<Path> {
    set b | b in nodes && Leads(edge, a, b)
  }

  /** Off every cycle, each edge leaves less ahead. */
  lemma EdgeDescends(nodes: set<Path>, edge: Edge, a: Path, b: Path)
    requires edge(a, b) && b in nodes && !Leads(edge, b, b)
    ensures |Beyond(nodes, edge, b)| < |Beyond(nodes, edge, a)|
  {
    var near, far := Beyond(nodes, edge, b), Beyond(nodes, edge, a);
    EdgeLeads(edge, a, b);
    forall c | c in near ensures c in far { LeadsOn(edge, a, b, c); }
    assert near <= far - {b};
    SubsetSize(near, far - {b});
  }

  /** Where every edge descends, so does every way. */
  lemma {:induction false} WayDescends(edge: Edge, rank: Path -> nat, w: seq<Path>)
    requires IsWay(edge, w) && forall i | 0 <= i < |w| - 1 :: rank(w[i + 1]) < rank(w[i])
    ensures rank(w[|w| - 1]) < rank(w[0])
  {
    if |w| > 2 {
      var most := w[..|w| - 1];
      forall i | 0 <= i < |most| - 1 ensures edge(most[i], most[i + 1]) && rank(most[i + 1]) < rank(most[i]) {
        assert most[i] == w[i] && most[i + 1] == w[i + 1];
      }
      WayDescends(edge, rank, most);
      assert rank(w[(|w| - 2) + 1]) < rank(w[|w| - 2]);
    }
  }

  // ---- The edges of a scan ----

  ghost function ImportEdge(store: Store): Edge {
    (a: Path, b: Path) => a in store.byPath && b in store.byPath && b in Imports(store, a)
  }

  ghost function AnyEdge(store: Store): Edge {
    (a: Path, b: Path) => a in store.byPath && b in store.byPath && (b in Imports(store, a) || ParentOf(store, a) == Some(b))
  }

  /** `q` is the POM asked for, or imports and parents lead to it. */
  ghost predicate Within(store: Store, p: Path, q: Path) {
    p in store.byPath && (q == p || Leads(AnyEdge(store), p, q))
  }

  lemma WithinOn(store: Store, p: Path, q: Path, r: Path)
    requires Within(store, p, q) && AnyEdge(store)(q, r)
    ensures Within(store, p, r)
  {
    hide Leads;
    if q == p { EdgeLeads(AnyEdge(store), p, r); } else { LeadsThen(AnyEdge(store), p, q, r); }
  }

  /** A closed set holds everything a way out of it leads to. */
  lemma {:induction false} ClosedHolds(store: Store, reach: set<Path>, w: seq<Path>)
    requires Closed(store, reach) && IsWay(AnyEdge(store), w) && w[0] in reach
    ensures forall i | 0 <= i < |w| :: w[i] in reach
  {
    hide Imports, ParentOf;
    var i := 1;
    while i < |w|
      invariant 1 <= i <= |w| && forall k | 0 <= k < i :: w[k] in reach
    {
      assert AnyEdge(store)(w[i - 1], w[(i - 1) + 1]);
      i := i + 1;
    }
  }

  /** The POM's imports lead back to it. */
  ghost predicate ImportsBack(store: Store, q: Path) {
    Leads(ImportEdge(store), q, q)
  }

  lemma RankedNeverBack(store: Store, reach: set<Path>, rank: map<Path, nat>, q: Path)
    requires Closed(store, reach) && ImportsRanked(store, reach, rank) && q in reach
    ensures !ImportsBack(store, q)
  {
    hide Imports;
    if ImportsBack(store, q) {
      var w :| IsWay(ImportEdge(store), w) && w[0] == q && w[|w| - 1] == q;
      forall i | 0 <= i < |w| - 1 ensures AnyEdge(store)(w[i], w[i + 1]) { assert ImportEdge(store)(w[i], w[i + 1]); }
      ClosedHolds(store, reach, w);
      var r := (x: Path) => if x in rank then rank[x] else 0;
      forall i | 0 <= i < |w| - 1 ensures r(w[i + 1]) < r(w[i]) { assert ImportEdge(store)(w[i], w[i + 1]); }
      WayDescends(ImportEdge(store), r, w);
    }
  }

  /** Without a way back, counting what lies ahead ranks the imports. */
  lemma NeverBackIsRanked(store: Store, p: Path)
    requires forall q | Within(store, p, q) :: !ImportsBack(store, q)
    ensures NoImportCycle(store, p)
  {
    hide Imports, ParentOf, Leads;
    var nodes, edge := store.byPath.Keys, ImportEdge(store);
    var reach := set q | q in nodes && Within(store, p, q);
    var rank := map q | q in reach :: |Beyond(nodes, edge, q)|;
    forall q, r | q in reach && r in store.byPath && AnyEdge(store)(q, r) ensures r in reach { WithinOn(store, p, q, r); }
    assert Closed(store, reach);
    forall q, r | q in reach && q in store.byPath && r in Imports(store, q) && r in reach ensures rank[r] < rank[q] {
      assert edge(q, r) && !ImportsBack(store, r);
      EdgeDescends(nodes, edge, q, r);
    }
    assert ImportsRanked(store, reach, rank);
  }

  /**
   * The recursion ends exactly when no POM within reach of the one asked for imports itself, directly
   * or by way of others.
   */
  lemma EndsIffNoneImportsItself(store: Store, p: Path)
    ensures Ends(store, map[], p) <==> forall q | Within(store, p, q) :: !ImportsBack(store, q)
  {
    hide Leads, ImportsBack, Ends;
    EndsIffNoImportCycle(store, p);
    if NoImportCycle(store, p) {
      var reach, rank :| Closed(store, reach) && ImportsRanked(store, reach, rank) && (p in store.byPath ==> p in reach);
      forall q | Within(store, p, q) ensures !ImportsBack(store, q) {
        WithinIsReached(store, reach, p, q);
        RankedNeverBack(store, reach, rank, q);
      }
    }
    if forall q | Within(store, p, q) :: !ImportsBack(store, q) { NeverBackIsRanked(store, p); }
  }

  lemma WithinIsReached(store: Store, reach: set<Path>, p: Path, q: Path)
    requires Closed(store, reach) && p in reach && Within(store, p, q)
    ensures q in reach
  {
    hide Closed;
    if q != p {
      var w :| IsWay(AnyEdge(store), w) && w[0] == p && w[|w| - 1] == q;
      ClosedHolds(store, reach, w);
    }
  }

  /** The smallest such scan: a POM that imports itself. */
  lemma SelfImportNeverEnds(store: Store, p: Path)
    requires p in store.byPath && p in Imports(store, p)
    ensures !Ends(store, map[], p)
  {
    hide Imports, Ends, Leads;
    EdgeLeads(ImportEdge(store), p, p);
    EndsIffNoneImportsItself(store, p);
    assert Within(store, p, p) && ImportsBack(store, p);
  }

  /** A rank along imports and parents exists exactly when none of them leads back. */
  lemma AcyclicIffNoWayBack(store: Store)
    ensures (exists rank :: Acyclic(store, rank)) <==> forall q :: !Leads(AnyEdge(store), q, q)
  {
    hide Imports, ParentOf, Leads;
    if rank :| Acyclic(store, rank) {
      forall q ensures !Leads(AnyEdge(store), q, q) { AcyclicNeverBack(store, rank, q); }
    }
    if forall q :: !Leads(AnyEdge(store), q, q) {
      var rank := NeverBackRank(store);
    }
  }

  lemma AcyclicNeverBack(store: Store, rank: Path -> nat, q: Path)
    requires Acyclic(store, rank)
    ensures !Leads(AnyEdge(store), q, q)
  {
    hide Imports, ParentOf;
    if w :| IsWay(AnyEdge(store), w) && w[0] == q && w[|w| - 1] == q {
      forall i | 0 <= i < |w| - 1 ensures rank(w[i + 1]) < rank(w[i]) { assert AnyEdge(store)(w[i], w[i + 1]); }
      WayDescends(AnyEdge(store), rank, w);
    }
  }

  lemma NeverBackRank(store: Store) returns (rank: Path -> nat)
    requires forall q :: !Leads(AnyEdge(store), q, q)
    ensures Acyclic(store, rank)
  {
    hide Imports, ParentOf, Leads;
    var nodes, edge := store.byPath.Keys, AnyEdge(store);
    var ranks := map q | q in nodes :: |Beyond(nodes, edge, q)| + 1;
    rank := (q: Path) => if q in ranks then ranks[q] else 0;
    forall a, b | edge(a, b) ensures rank(b) < rank(a) { EdgeDescends(nodes, edge, a, b); }
  }
}
