/**
 * lib/cve-match.js:383-407 and lib/attribution.js:39-123: matching a coordinate-wide record at each
 * of its versions, and filing each match under the manifests that hold that very version.
 *
 * Records are shared objects: several matches refer to one, and attribution must replace a match's
 * reference by a copy, never write through it.
 */
module Attribution {
  import opened Basics
  import opened Orders
  import opened MavenReactor
  import opened BranchFix
  import opened Collection

  datatype CveEntry = CveEntry(id: string, ranges: seq<Spec<string>>)

  class DepObj {
    var rec: DepRec

    constructor (rec: DepRec)
      ensures this.rec == rec
    {
      this.rec := rec;
    }
  }

  class Match {
    var dep: DepObj
    const cve: CveEntry
    const branchFix: Option<Fix<string>>

    constructor (dep: DepObj, cve: CveEntry, branchFix: Option<Fix<string>>)
      ensures this.dep == dep && this.cve == cve && this.branchFix == branchFix
    {
      this.dep, this.cve, this.branchFix := dep, cve, branchFix;
    }
  }

  // ---- Matching ----

  function Concrete(vs: seq<string>): (kept: seq<string>)
    ensures forall v :: v in kept <==> v in vs && IsConcrete(v)
  {
    Filter(IsConcrete, vs)
  }

  function ScannedVersions(r: DepRec): seq<string> {
    Concrete(if r.books.versions != [] then r.books.versions else [r.version])
  }

  predicate Affects(sch: Scheme<string>, e: CveEntry, v: string) {
    exists i :: 0 <= i < |e.ranges| && IsVersionAffected(sch, v, e.ranges[i])
  }

  function HitsOf(sch: Scheme<string>, e: CveEntry, vs: seq<string>): (hits: seq<(CveEntry, string)>)
    ensures forall h :: h in hits <==> h.0 == e && h.1 in vs && Affects(sch, e, h.1)
  {
    if vs == [] then []
    else
      assert forall v :: v in vs <==> v in vs[..|vs| - 1] || v == vs[|vs| - 1];
      HitsOf(sch, e, vs[..|vs| - 1]) + if Affects(sch, e, vs[|vs| - 1]) then [(e, vs[|vs| - 1])] else []
  }

  /** Every affected pair of an advisory and a version, advisory by advisory. */
  function Hits(sch: Scheme<string>, es: seq<CveEntry>, vs: seq<string>): (hits: seq<(CveEntry, string)>)
    ensures forall h :: h in hits <==> h.0 in es && h.1 in vs && Affects(sch, h.0, h.1)
  {
    if es == [] then []
    else
      assert forall e :: e in es <==> e in es[..|es| - 1] || e == es[|es| - 1];
      Hits(sch, es[..|es| - 1], vs) + HitsOf(sch, es[|es| - 1], vs)
  }

  /** A match at one version: the record itself when it is already at that version, else a copy. */
  ghost predicate IsMatch(sch: Scheme<string>, m: Match, dep: DepObj, r: DepRec, h: (CveEntry, string))
    reads m, m.dep
  {
    && m.cve == h.0 && m.branchFix == FixFromRanges(sch, h.1, h.0.ranges)
    && m.dep.rec == r.(version := h.1) && (m.dep == dep <==> h.1 == r.version)
  }

  ghost predicate AreMatches(sch: Scheme<string>, ms: seq<Match>, dep: DepObj, r: DepRec, hits: seq<(CveEntry, string)>)
    reads set m | m in ms, set m | m in ms :: m.dep
  {
    |ms| == |hits| && forall i | 0 <= i < |ms| :: IsMatch(sch, ms[i], dep, r, hits[i])
  }

  lemma OneMatch(sch: Scheme<string>, m: Match, dep: DepObj, r: DepRec, h: (CveEntry, string))
    requires IsMatch(sch, m, dep, r, h)
    ensures AreMatches(sch, [m], dep, r, [h])
  {
  }

  lemma MoreMatches(sch: Scheme<string>, ms: seq<Match>, more: seq<Match>, dep: DepObj, r: DepRec,
                    hits: seq<(CveEntry, string)>, others: seq<(CveEntry, string)>)
    requires AreMatches(sch, ms, dep, r, hits) && AreMatches(sch, more, dep, r, others)
    ensures AreMatches(sch, ms + more, dep, r, hits + others)
  {
    hide IsMatch;
  }

  method MatchEntry(sch: Scheme<string>, dep: DepObj, e: CveEntry, vs: seq<string>) returns (matches: seq<Match>)
    ensures AreMatches(sch, matches, dep, dep.rec, HitsOf(sch, e, vs)) && forall m | m in matches :: fresh(m)
  {
    matches := [];
    ghost var hits: seq<(CveEntry, string)> := [];
    for k := 0 to |vs|
      invariant hits == HitsOf(sch, e, vs[..k]) && AreMatches(sch, matches, dep, dep.rec, hits) && forall m | m in matches :: fresh(m)
    {
      hide IsVersionAffected, FixFromRanges, AreMatches;
      var ver := vs[k];
      assert vs[..k + 1][..k] == vs[..k];
      if exists i | 0 <= i < |e.ranges| :: IsVersionAffected(sch, ver, e.ranges[i]) {
        var vdep := dep;
        if ver != dep.rec.version { vdep := new DepObj(dep.rec.(version := ver)); }
        var branchFix := BranchFixFromRanges(sch, ver, e.ranges);
        var m := new Match(vdep, e, branchFix);
        OneMatch(sch, m, dep, dep.rec, (e, ver));
        MoreMatches(sch, matches, [m], dep, dep.rec, hits, [(e, ver)]);
        matches, hits := matches + [m], hits + [(e, ver)];
      }
    }
    assert vs[..|vs|] == vs;
  }

  lemma NoHits(sch: Scheme<string>, vs: seq<string>)
    ensures Hits(sch, [], vs) == []
  {
  }

  lemma HitsSnoc(sch: Scheme<string>, es: seq<CveEntry>, k: nat, vs: seq<string>)
    requires k < |es|
    ensures Hits(sch, es[..k + 1], vs) == Hits(sch, es[..k], vs) + HitsOf(sch, es[k], vs)
  {
    assert es[..k + 1][..k] == es[..k];
  }

  /** One match per affected pair; the record itself is only read. */
  method MatchOne(sch: Scheme<string>, dep: DepObj, entries: seq<CveEntry>) returns (matches: seq<Match>)
    ensures AreMatches(sch, matches, dep, dep.rec, Hits(sch, entries, ScannedVersions(dep.rec))) && forall m | m in matches :: fresh(m)
  {
    matches := [];
    var vs := ScannedVersions(dep.rec);
    NoHits(sch, vs);
    for k := 0 to |entries|
      invariant AreMatches(sch, matches, dep, dep.rec, Hits(sch, entries[..k], vs)) && forall m | m in matches :: fresh(m)
    {
      hide *;
      HitsSnoc(sch, entries, k, vs);
      var more := MatchEntry(sch, dep, entries[k], vs);
      MoreMatches(sch, matches, more, dep, dep.rec, Hits(sch, entries[..k], vs), HitsOf(sch, entries[k], vs));
      matches := matches + more;
    }
    assert entries[..|entries|] == entries;
  }

  // ---- Attribution ----

  function OriginsAt(origins: seq<Origin>, v: string): (at: seq<Origin>)
    ensures forall o :: o in at <==> o in origins && o.version == v
    ensures forall i | 0 <= i < |at| :: at[i].version == v
  {
    Filter((o: Origin) => o.version == v, origins)
  }

  /** The first that is known to be in production, else the first. */
  function ShownOrigin(at: seq<Origin>): (o: Origin)
    requires at != []
    ensures o in at
    ensures (exists x | x in at :: x.scope.Some? && x.scope != Some(Test)) ==> o.scope.Some? && o.scope != Some(Test)
  {
    if at[0].scope.Some? && at[0].scope != Some(Test) then at[0]
    else if |at| > 1 && ShownOrigin(at[1..]).scope.Some? && ShownOrigin(at[1..]).scope != Some(Test) then ShownOrigin(at[1..])
    else at[0]
  }

  function ModulesOf(at: seq<Origin>): (ms: seq<string>)
    ensures Distinct(ms) && forall m :: m in ms <==> m != "" && exists i :: 0 <= i < |at| && at[i].module_ == m
  {
    if at == [] then []
    else
      var rest, m := ModulesOf(at[..|at| - 1]), at[|at| - 1].module_;
      if m == "" || m in rest then rest else (DistinctConcat(rest, [m]); rest + [m])
  }

  function ScopesAt(table: ScopesByVersion, v: string): seq<Scope> {
    if table == [] then [] else if table[0].0 == v then table[0].1 else ScopesAt(table[1..], v)
  }

  predicate IsNarrowDev(s: Scope) {
    IsDevScope(s) || s == Named("dev")
  }

  function OccurrencesAt(os: seq<Occurrence>, v: string): (at: seq<Occurrence>)
    ensures |at| <= |os| && (|at| == |os| ==> at == os)
    ensures forall o :: o in at <==> o in os && o.version == v
    ensures (forall o | o in os :: o.version == v) ==> at == os
  {
    FilterAll((o: Occurrence) => o.version == v, os);
    Filter((o: Occurrence) => o.version == v, os)
  }

  /** A version only other modules' trees bring in: a transitive of exactly those modules. */
  function AsTransitive(d: DepRec, at: seq<Origin>): DepRec
    requires at != []
  {
    var shown := ShownOrigin(at);
    var isDev := if exists o | o in at :: o.scope.Some? then forall o | o in at :: o.scope == Some(Test) else d.isDev;
    d.(books := d.books.(manifests := ModulesOf(at)), scope := Transitive, via := shown.via, depth := shown.depth, isDev := isDev)
  }

  /** A declared version: narrowed to the manifests, scope and occurrences of that version. */
  function AsDeclared(d: DepRec, declared: seq<string>): DepRec {
    var scopes := ScopesAt(d.books.versionScopes, d.version);
    var isDev := if scopes != [] then forall s | s in scopes :: IsNarrowDev(s) else d.isDev;
    var occurrences := if d.occurrences.Some? then Some(OccurrencesAt(d.occurrences.value, d.version)) else None;
    if declared != d.books.manifests || isDev != d.isDev || (d.occurrences.Some? && |occurrences.value| != |d.occurrences.value|) then
      d.(books := d.books.(manifests := declared), isDev := isDev, occurrences := occurrences,
         scope := if d.ecosystem in {"composer", "npm"} && |scopes| == 1 then Declared(scopes[0]) else d.scope)
    else d
  }

  function Attributed(d: DepRec): DepRec {
    var declared, at := PathsOf(d.books.versionPaths, d.version), OriginsAt(d.origins, d.version);
    if d.version == "" then d
    else if declared != [] then AsDeclared(d, declared)
    else if at != [] then AsTransitive(d, at)
    else d
  }

  lemma DeclaredTwice(d: DepRec, declared: seq<string>)
    ensures AsDeclared(AsDeclared(d, declared), declared) == AsDeclared(d, declared)
  {
    hide ScopesAt, OccurrencesAt, IsNarrowDev;
    if d.occurrences.Some? {
      var at := OccurrencesAt(d.occurrences.value, d.version);
      assert OccurrencesAt(at, d.version) == at;
    }
  }

  lemma TransitiveTwice(d: DepRec, at: seq<Origin>)
    requires at != []
    ensures AsTransitive(AsTransitive(d, at), at) == AsTransitive(d, at)
  {
  }

  /** A second pass changes nothing. */
  lemma AttributedTwice(d: DepRec)
    ensures Attributed(Attributed(d)) == Attributed(d)
  {
    var declared, at := PathsOf(d.books.versionPaths, d.version), OriginsAt(d.origins, d.version);
    DeclaredTwice(d, declared);
    if at != [] { TransitiveTwice(d, at); }
    var a := Attributed(d);
    assert a.version == d.version && a.books.versionPaths == d.books.versionPaths && a.origins == d.origins;
    hide AsDeclared, AsTransitive;
  }

  /** Attribution gives the match a record of its own: always for a transitive, else when something differs. */
  predicate Refiles(d: DepRec) {
    Attributed(d) != d
    || (d.version != "" && PathsOf(d.books.versionPaths, d.version) == [] && OriginsAt(d.origins, d.version) != [])
  }

  /** The match gets a copy of its record when its origin differs; the record is not written to. */
  method Refile(m: Match) returns (changed: bool)
    modifies m
    ensures m.dep.rec == Attributed(old(m.dep.rec)) && (m.dep == old(m.dep) || fresh(m.dep))
    ensures changed == Refiles(old(m.dep.rec)) && (changed <==> m.dep != old(m.dep))
  {
    hide AsTransitive, AsDeclared;
    var d := m.dep.rec;
    if d.version == "" { return false; }
    var declared := PathsOf(d.books.versionPaths, d.version);
    var at := if declared == [] then OriginsAt(d.origins, d.version) else [];
    var a := d;
    if at != [] {
      a := AsTransitive(d, at);
    } else if declared != [] {
      a := AsDeclared(d, declared);
    }
    changed := at != [] || a != d;
    if changed { m.dep := new DepObj(a); }
  }

  /** How often attribution gives a match a record of its own; a match listed again is attributed again. */
  ghost function CountRefiled(matches: seq<Match>): nat
    reads set m | m in matches, set m | m in matches :: m.dep
  {
    if matches == [] then 0
    else
      var before, m := matches[..|matches| - 1], matches[|matches| - 1];
      var d := if m in before then Attributed(m.dep.rec) else m.dep.rec;
      CountRefiled(before) + if Refiles(d) then 1 else 0
  }

  /** Where attribution stands with one match. */
  twostate predicate Filed(m: Match, done: bool)
    reads m, m.dep
  {
    && (m.dep == old(m.dep) || fresh(m.dep))
    && if done then m.dep.rec == Attributed(old(m.dep.rec)) else m.dep == old(m.dep)
  }

  /**
   * No record is written to, and every match is filed once and for all. The count is how often a
   * match was given a record of its own.
   */
  method AttributeMatchOrigins(matches: seq<Match>) returns (fixed: nat)
    modifies set m | m in matches
    ensures forall m | m in matches :: Filed(m, true)
    ensures fixed == old(CountRefiled(matches))
  {
    hide Attributed, Refiles;
    fixed := 0;
    for i := 0 to |matches|
      invariant forall m | m in matches :: Filed(m, m in matches[..i])
      invariant fixed == old(CountRefiled(matches[..i]))
    {
      var m := matches[i];
      AttributedTwice(old(m.dep.rec));
      assert old(CountRefiled(matches[..i + 1])) == old(CountRefiled(matches[..i])) + if Refiles(m.dep.rec) then 1 else 0 by {
        assert matches[..i + 1][..i] == matches[..i];
      }
      var changed := Refile(m);
      if changed { fixed := fixed + 1; }
      assert forall x :: x in matches[..i + 1] <==> x in matches[..i] || x == m;
    }
    assert matches[..|matches|] == matches;
  }

  // ---- Collected, matched and attributed ----

  ghost predicate ScopeDeclaredAt(es: seq<Event>, key: string, v: string, x: Scope) {
    exists e :: e in es && e.Declares? && e.d.key == key && e.d.version == Some(v) && e.d.scope == x
  }

  lemma {:induction false} AddScopeAt(table: ScopesByVersion, v: string, s: Scope, u: string)
    ensures ScopesAt(AddScope(table, v, s), u) == if u == v then AddOnce(ScopesAt(table, v), s) else ScopesAt(table, u)
  {
    if table != [] && table[0].0 != v {
      AddScopeAt(table[1..], v, s, u);
      assert AddScope(table, v, s)[1..] == AddScope(table[1..], v, s);
    } else if table != [] {
      assert AddScope(table, v, s)[1..] == table[1..];
    }
  }

  /** The scopes recorded for a version are exactly those of its declarations. */
  lemma {:induction false} ScopesAtExactly(key: string, es: seq<Event>, v: string)
    ensures forall x :: x in ScopesAt(Fold(key, es).versionScopes, v) <==> ScopeDeclaredAt(es, key, v, x)
  {
    if es != [] {
      var most, last := es[..|es| - 1], es[|es| - 1];
      ScopesAtExactly(key, most, v);
      assert es == most + [last];
      var b := Fold(key, most);
      if last.Declares? && last.d.version.Some? { AddScopeAt(b.versionScopes, last.d.version.value, last.d.scope, v); }
      forall x ensures ScopeDeclaredAt(es, key, v, x) <==>
                         ScopeDeclaredAt(most, key, v, x) || (last.Declares? && last.d == Direct(key, Some(v), x, last.d.declaredIn))
      {
        assert forall e :: e in es <==> e in most || e == last;
      }
    }
  }

  ghost predicate EnteredAt(es: seq<Entry>, key: string, v: string, e: Entry) {
    IsOfKey(es, key, e) && e.version == v
  }

  lemma EventsOfEntries(es: seq<Entry>, key: string, v: string)
    requires IsConcrete(v)
    ensures forall p :: DeclaresIn(Events(es), key, Some(v), p) <==> exists e :: EnteredAt(es, key, v, e) && e.pom == p
    ensures forall x :: ScopeDeclaredAt(Events(es), key, v, x) <==> exists e :: EnteredAt(es, key, v, e) && e.scope == x
  {
    var evs := Events(es);
    forall e | EnteredAt(es, key, v, e) ensures EventOf(e) in evs {
      var i :| 0 <= i < |es| && es[i] == e;
      assert evs[i] == EventOf(e);
    }
    forall p ensures DeclaresIn(evs, key, Some(v), p) <==> exists e :: EnteredAt(es, key, v, e) && e.pom == p {
      if DeclaresIn(evs, key, Some(v), p) {
        var x :| x in evs && x.Declares? && x.d.key == key && x.d.declaredIn == p && x.d.version == Some(v);
        var i :| 0 <= i < |evs| && evs[i] == x;
        assert EnteredAt(es, key, v, es[i]) && es[i].pom == p;
      }
      if e :| EnteredAt(es, key, v, e) && e.pom == p { assert EventOf(e) in evs; }
    }
    forall x ensures ScopeDeclaredAt(evs, key, v, x) <==> exists e :: EnteredAt(es, key, v, e) && e.scope == x {
      if ScopeDeclaredAt(evs, key, v, x) {
        var ev :| ev in evs && ev.Declares? && ev.d.key == key && ev.d.version == Some(v) && ev.d.scope == x;
        var i :| 0 <= i < |evs| && evs[i] == ev;
        assert EnteredAt(es, key, v, es[i]) && es[i].scope == x;
      }
      if e :| EnteredAt(es, key, v, e) && e.scope == x { assert EventOf(e) in evs; }
    }
  }

  /** What the books hold about one concrete version, in terms of the entries. */
  lemma BooksOfEntries(es: seq<Entry>, key: string, v: string)
    requires IsConcrete(v)
    ensures var b := Fold(key, Events(es));
            && (v in b.versions <==> exists e :: EnteredAt(es, key, v, e))
            && Distinct(PathsOf(b.versionPaths, v))
            && (forall p :: p in PathsOf(b.versionPaths, v) <==> exists e :: EnteredAt(es, key, v, e) && e.pom == p)
            && (forall x :: x in ScopesAt(b.versionScopes, v) <==> exists e :: EnteredAt(es, key, v, e) && e.scope == x)
  {
    FoldIsExact(key, Events(es));
    ScopesAtExactly(key, Events(es), v);
    EventsOfEntries(es, key, v);
    HoldsIsEntered(es, key, v);
    hide Fold, Holds, DeclaresIn, ScopeDeclaredAt, ReachedIn, DeclaresScope, IsDeclared, EnteredAt, ScopesAt;
  }

  lemma HoldsIsEntered(es: seq<Entry>, key: string, v: string)
    requires IsConcrete(v)
    ensures Holds(Events(es), key, v) <==> exists e :: EnteredAt(es, key, v, e)
  {
    if Holds(Events(es), key, v) {
      var x :| x in Events(es) && KeyOf(x) == key && VersionOf(x) == Some(v);
      var i :| 0 <= i < |es| && Events(es)[i] == x;
      assert EnteredAt(es, key, v, es[i]);
    }
    if e :| EnteredAt(es, key, v, e) {
      var i :| 0 <= i < |es| && es[i] == e;
      var x := Events(es)[i];
      assert x == EventOf(e) && x in Events(es) && KeyOf(x) == key && VersionOf(x) == Some(v);
    }
  }

  lemma CollectedRec(cmp: (string, string) -> int, es: seq<Entry>, key: string)
    requires key in AllEntered(cmp, map[], es)
    ensures var r := AllEntered(cmp, map[], es)[key];
            && r.books == Fold(key, Events(es)) && r.origins == [] && r.occurrences == None && r.ecosystem == "maven"
            && (r.version != "" ==> exists e :: EnteredAt(es, key, r.version, e))
  {
    CollectsExactly(cmp, es, key);
    var r := AllEntered(cmp, map[], es)[key];
    if r.version != "" {
      var e :| IsOfKey(es, key, e) && e.version == r.version;
      assert EnteredAt(es, key, r.version, e);
    }
  }

  /** A declared version of a Maven record takes its manifests and its scopes from that version. */
  lemma NarrowedTo(r: DepRec)
    requires r.version != "" && r.occurrences == None && r.ecosystem == "maven"
    requires PathsOf(r.books.versionPaths, r.version) != [] && ScopesAt(r.books.versionScopes, r.version) != []
    ensures Attributed(r).books.manifests == PathsOf(r.books.versionPaths, r.version)
    ensures Attributed(r).isDev <==> forall x | x in ScopesAt(r.books.versionScopes, r.version) :: IsNarrowDev(x)
  {
  }

  /**
   * A match at one version of a collected record is filed under exactly the POMs whose accepted
   * entries declare or pin that version, and is a development finding iff all of those entries are.
   */
  lemma MatchedWhereEntered(cmp: (string, string) -> int, es: seq<Entry>, key: string, v: string)
    requires var out := AllEntered(cmp, map[], es); key in out && v in ScannedVersions(out[key])
    ensures var a := Attributed(AllEntered(cmp, map[], es)[key].(version := v));
            && Distinct(a.books.manifests)
            && (forall p :: p in a.books.manifests <==> exists e :: EnteredAt(es, key, v, e) && e.pom == p)
            && (a.isDev <==> forall e | EnteredAt(es, key, v, e) :: IsNarrowDev(e.scope))
  {
    CollectedRec(cmp, es, key);
    BooksOfEntries(es, key, v);
    var r := AllEntered(cmp, map[], es)[key];
    hide Fold, AllEntered, Attributed, ScopesAt, PathsOf, IsNarrowDev, EnteredAt;
    var e :| EnteredAt(es, key, v, e);
    assert e.pom in PathsOf(r.books.versionPaths, v) && e.scope in ScopesAt(r.books.versionScopes, v);
    NarrowedTo(r.(version := v));
  }

  lemma PromotedKeeps(cmp: (string, string) -> int, r: DepRec)
    requires r.origins != []
    ensures Promoted(cmp, r).origins == r.origins && Promoted(cmp, r).books.versionPaths == map[]
  {
    hide SortBy, VersionsOf;
  }

  /** A version no manifest declares is filed under the modules that resolve it. */
  lemma FiledAsTransitive(d: DepRec)
    requires d.version != "" && d.books.versionPaths == map[] && OriginsAt(d.origins, d.version) != []
    ensures var a, at := Attributed(d), OriginsAt(d.origins, d.version);
            && a.scope == Transitive && a.books.manifests == ModulesOf(at)
            && ((exists o | o in at :: o.scope.Some?) ==> (a.isDev <==> forall o | o in at :: o.scope == Some(Test)))
  {
  }

  lemma ModulesAt(origins: seq<Origin>, v: string)
    ensures forall m :: m in ModulesOf(OriginsAt(origins, v)) <==> m != "" && exists o :: o in origins && o.version == v && o.module_ == m
  {
    var at := OriginsAt(origins, v);
    hide ModulesOf, OriginsAt;
    forall m ensures m in ModulesOf(at) <==> m != "" && exists o :: o in origins && o.version == v && o.module_ == m {
      if o :| o in origins && o.version == v && o.module_ == m && m != "" {
        var k :| 0 <= k < |at| && at[k] == o;
      }
    }
  }

  /** A managed record that only transitive resolution reached is filed under the modules reaching the version. */
  lemma PromotedWhereReached(cmp: (string, string) -> int, r: DepRec, v: string)
    requires r.origins != [] && v != "" && v in VersionsOf(r.origins)
    ensures var a := Attributed(Promoted(cmp, r).(version := v));
            && a.scope == Transitive
            && (forall m :: m in a.books.manifests <==> m != "" && exists o :: o in r.origins && o.version == v && o.module_ == m)
            && ((exists o | o in r.origins :: o.version == v && o.scope.Some?) ==>
                  (a.isDev <==> forall o | o in r.origins && o.version == v :: o.scope == Some(Test)))
  {
    var at := OriginsAt(r.origins, v);
    var i :| 0 <= i < |r.origins| && r.origins[i].version == v;
    assert r.origins[i] in at;
    PromotedKeeps(cmp, r);
    hide Promoted, Attributed, ModulesOf, VersionsOf, OriginsAt;
    FiledAsTransitive(Promoted(cmp, r).(version := v));
    ModulesAt(r.origins, v);
  }

  // ---- What a filed record shows ----

  /** Known to be in production. */
  predicate InProduction(o: Origin) {
    match o.scope
    case None => false
    case Some(s) => s != Test
  }

  /** Of the origins at the version, the first in production; the very first when none is. */
  predicate IsShown(origins: seq<Origin>, v: string, i: nat) {
    && i < |origins| && origins[i].version == v
    && if InProduction(origins[i]) then forall j | 0 <= j < i && origins[j].version == v :: !InProduction(origins[j])
       else (forall j | 0 <= j < i :: origins[j].version != v) && forall j | 0 <= j < |origins| && origins[j].version == v :: !InProduction(origins[j])
  }

  lemma {:induction false} ShownOriginIs(origins: seq<Origin>, v: string)
    requires OriginsAt(origins, v) != []
    ensures exists i: nat :: IsShown(origins, v, i) && ShownOrigin(OriginsAt(origins, v)) == origins[i]
  {
    hide OriginsAt, ShownOrigin, InProduction;
    OriginsStep(origins, v);
    var first, rest := origins[0], origins[1..];
    assert forall j | 0 < j < |origins| :: origins[j] == rest[j - 1];
    if OriginsAt(rest, v) == [] {
      assert IsShown(origins, v, 0);
    } else {
      ShownOriginIs(rest, v);
      var i: nat :| IsShown(rest, v, i) && ShownOrigin(OriginsAt(rest, v)) == rest[i];
      assert if first.version == v && (InProduction(first) || !InProduction(rest[i])) then IsShown(origins, v, 0) else IsShown(origins, v, i + 1);
    }
  }

  lemma OriginsStep(origins: seq<Origin>, v: string)
    requires OriginsAt(origins, v) != []
    ensures origins != []
    ensures var first, at, later := origins[0], OriginsAt(origins, v), OriginsAt(origins[1..], v);
            && (later == [] ==> first.version == v && ShownOrigin(at) == first && forall j | 0 < j < |origins| :: origins[j].version != v)
            && (later != [] ==>
                  ShownOrigin(at) == if first.version == v && (InProduction(first) || !InProduction(ShownOrigin(later))) then first else ShownOrigin(later))
  {
    var at, later := OriginsAt(origins, v), OriginsAt(origins[1..], v);
    forall j | 0 < j < |origins| && origins[j].version == v ensures later != [] { assert origins[j] == origins[1..][j - 1] && origins[j] in later; }
    if origins[0].version == v {
      assert at == [origins[0]] + later && at[1..] == later;
    } else {
      assert at == [] + later == later;
    }
    hide OriginsAt;
  }

  /** Modules are listed as they are first met. */
  lemma {:induction false} ModulesGrow(at: seq<Origin>, more: seq<Origin>)
    ensures ModulesOf(at) <= ModulesOf(at + more)
  {
    if more == [] {
      assert at + more == at;
    } else {
      var most := more[..|more| - 1];
      ModulesGrow(at, most);
      assert (at + more)[..|at + more| - 1] == at + most;
    }
  }

  /** A version that only other modules' trees bring in: shown as a transitive of those modules, by their first path in production. */
  lemma TransitiveSays(d: DepRec)
    requires d.version != "" && PathsOf(d.books.versionPaths, d.version) == [] && exists o :: o in d.origins && o.version == d.version
    ensures var a := Attributed(d);
            && a.scope == Transitive && a.version == d.version
            && (exists i: nat :: IsShown(d.origins, d.version, i) && a.via == d.origins[i].via && a.depth == d.origins[i].depth)
            && (a.isDev <==> if exists o :: o in d.origins && o.version == d.version && o.scope.Some?
                             then forall o | o in d.origins && o.version == d.version :: o.scope == Some(Test) else d.isDev)
            && (forall m :: m in a.books.manifests <==> m != "" && exists o :: o in d.origins && o.version == d.version && o.module_ == m)
  {
    var at := OriginsAt(d.origins, d.version);
    var o :| o in d.origins && o.version == d.version;
    assert o in at;
    ShownOriginIs(d.origins, d.version);
    ModulesAt(d.origins, d.version);
    hide OriginsAt, ShownOrigin, ModulesOf, IsShown, AsDeclared;
  }

  predicate IsDevelopment(s: Scope) {
    s == Test || s == Provided || s == Named("dev")
  }

  /** A declared version: the manifests, scopes and occurrences of that version, and the record as it was when they are all it has. */
  lemma DeclaredSays(d: DepRec)
    requires d.version != "" && PathsOf(d.books.versionPaths, d.version) != []
    ensures var a, scopes := Attributed(d), ScopesAt(d.books.versionScopes, d.version);
            && a.version == d.version && a.books.manifests == PathsOf(d.books.versionPaths, d.version)
            && (a.isDev <==> if scopes == [] then d.isDev else forall s | s in scopes :: IsDevelopment(s))
            && (d.occurrences == None ==> a.occurrences == None)
            && (d.occurrences.Some? ==> a.occurrences.Some? && forall o :: o in a.occurrences.value <==> o in d.occurrences.value && o.version == d.version)
            && (a == d || a.scope == if (d.ecosystem == "npm" || d.ecosystem == "composer") && |scopes| == 1 then Declared(scopes[0]) else d.scope)
            && (a == d <==> a.books.manifests == d.books.manifests && a.isDev == d.isDev
                            && (d.occurrences.Some? ==> forall o | o in d.occurrences.value :: o.version == d.version))
  {
    hide ScopesAt, PathsOf, OccurrencesAt, AsTransitive;
    if d.occurrences.Some? {
      var os, at := d.occurrences.value, OccurrencesAt(d.occurrences.value, d.version);
      AllAt(os, d.version);
    }
  }

  lemma AllAt(os: seq<Occurrence>, v: string)
    ensures |OccurrencesAt(os, v)| == |os| <==> forall o | o in os :: o.version == v
  {
  }

  /** Where a version is neither declared nor reached, or none is known, the match keeps its record as it is. */
  lemma NowhereKnown(d: DepRec)
    requires d.version == "" || (PathsOf(d.books.versionPaths, d.version) == [] && forall o | o in d.origins :: o.version != d.version)
    ensures Attributed(d) == d
  {
    hide AsTransitive, AsDeclared;
    NoneAt(d.origins, d.version);
  }

  lemma NoneAt(origins: seq<Origin>, v: string)
    ensures OriginsAt(origins, v) == [] || exists o :: o in origins && o.version == v
  {
    if OriginsAt(origins, v) != [] { assert OriginsAt(origins, v)[0] in origins; }
  }
}
