/**
 * What the scan set of lib/cve-match.js:51-163 and 330-381 holds, said on the lines of the POMs in
 * the order they are read: a POM's dependencies, then its managed ones, POM by POM.
 */
module ScanSetMeaning {
  import opened Basics
  import opened Orders
  import opened MavenReactor
  import opened Collection
  import Attribution

  datatype Line = Line(pom: string, raw: RawDep, managed: bool)

  function LinesOf(path: string, deps: seq<RawDep>, managed: bool): seq<Line> {
    seq(|deps|, i requires 0 <= i < |deps| => Line(path, deps[i], managed))
  }

  function Lines(poms: seq<Pom>): seq<Line> {
    if poms == [] then []
    else LinesOf(poms[0].path, poms[0].dependencies, false) + LinesOf(poms[0].path, poms[0].management, true) + Lines(poms[1..])
  }

  /** The line names the coordinate: both parts stated, not a test line that is left out, and its group not excluded. */
  predicate Names(o: Options, l: Line, key: string) {
    && l.raw.groupId != "" && l.raw.artifactId != "" && (o.ignoreTest ==> l.raw.scope != Test)
    && !o.excludes(o.interpolate(l.pom, l.raw.groupId))
    && key == o.interpolate(l.pom, l.raw.groupId) + ":" + o.interpolate(l.pom, l.raw.artifactId)
  }

  /** The version the line states, interpolated; "" when it states none. */
  function VersionOf(o: Options, l: Line): string {
    if l.raw.version == "" then "" else o.interpolate(l.pom, l.raw.version)
  }

  /** A version without an open placeholder. */
  ghost predicate IsVersion(v: string) {
    v != "" && forall before, after :: v != before + "${" + after
  }

  /** A managed line that is not an import of another POM. */
  predicate OnlyPins(l: Line) {
    l.managed && l.raw.scope != Named("import")
  }

  predicate IsDev(l: Line) {
    l.raw.scope == Test || l.raw.scope == Provided
  }

  // ---- From lines to entries ----

  function Taken(o: Options, ls: seq<Line>): seq<Entry> {
    if ls == [] then []
    else
      var l := ls[|ls| - 1];
      Taken(o, ls[..|ls| - 1]) + if Accepts(o, l.pom, l.raw) then [EntryOf(o, l.pom, l.raw, l.managed)] else []
  }

  lemma {:induction false} TakenJoined(o: Options, ls: seq<Line>, more: seq<Line>)
    ensures Taken(o, ls + more) == Taken(o, ls) + Taken(o, more)
  {
    hide Accepts, EntryOf;
    if more == [] {
      assert ls + more == ls;
    } else {
      var n := |ls + more| - 1;
      assert (ls + more)[..n] == ls + more[..|more| - 1];
      TakenJoined(o, ls, more[..|more| - 1]);
    }
  }

  lemma {:induction false} ListIsTaken(o: Options, path: string, deps: seq<RawDep>, managed: bool)
    ensures EntriesOfList(o, path, deps, managed) == Taken(o, LinesOf(path, deps, managed))
  {
    hide Accepts, EntryOf;
    if deps != [] {
      var ls := LinesOf(path, deps, managed);
      ListIsTaken(o, path, deps[..|deps| - 1], managed);
      assert ls[..|ls| - 1] == LinesOf(path, deps[..|deps| - 1], managed);
    }
  }

  lemma {:induction false} LinesSnoc(poms: seq<Pom>, p: Pom)
    ensures Lines(poms + [p]) == Lines(poms) + (LinesOf(p.path, p.dependencies, false) + LinesOf(p.path, p.management, true))
  {
    hide LinesOf;
    var all := poms + [p];
    if poms == [] {
      assert all[1..] == [];
    } else {
      LinesSnoc(poms[1..], p);
      assert all[1..] == poms[1..] + [p];
    }
  }

  lemma {:induction false} EntriesAreTaken(o: Options, poms: seq<Pom>)
    ensures EntriesOf(o, poms) == Taken(o, Lines(poms))
  {
    hide Taken, LinesOf, EntriesOfList;
    if poms == [] {
      NothingTaken(o);
    } else {
      var rest, p := poms[..|poms| - 1], poms[|poms| - 1];
      EntriesAreTaken(o, rest);
      LinesSnoc(rest, p);
      assert poms == rest + [p];
      ListIsTaken(o, p.path, p.dependencies, false);
      ListIsTaken(o, p.path, p.management, true);
      TakenJoined(o, LinesOf(p.path, p.dependencies, false), LinesOf(p.path, p.management, true));
      TakenJoined(o, Lines(rest), LinesOf(p.path, p.dependencies, false) + LinesOf(p.path, p.management, true));
    }
  }

  lemma NothingTaken(o: Options)
    ensures Taken(o, []) == []
  {
  }

  /** What a line's entry is. */
  lemma EntrySays(o: Options, l: Line, key: string)
    ensures Accepts(o, l.pom, l.raw) && EntryOf(o, l.pom, l.raw, l.managed).key == key <==> Names(o, l, key)
    ensures var e := EntryOf(o, l.pom, l.raw, l.managed);
            && e.version == VersionOf(o, l) && e.pom == l.pom && e.scope == l.raw.scope
            && (e.pin <==> OnlyPins(l)) && (IsDevScope(e.scope) <==> IsDev(l))
  {
  }

  lemma {:induction false} TakenHas(o: Options, ls: seq<Line>, e: Entry)
    ensures e in Taken(o, ls) <==> exists l :: l in ls && Accepts(o, l.pom, l.raw) && e == EntryOf(o, l.pom, l.raw, l.managed)
  {
    hide Accepts, EntryOf;
    if ls != [] {
      var rest, last := ls[..|ls| - 1], ls[|ls| - 1];
      TakenHas(o, rest, e);
      assert ls == rest + [last];
      assert forall l :: l in ls <==> l in rest || l == last;
    }
  }

  /** An entry of the coordinate for every line that names it, and only for those. */
  lemma OfKeySays(o: Options, ls: seq<Line>, key: string)
    ensures forall l | l in ls && Names(o, l, key) :: IsOfKey(Taken(o, ls), key, EntryOf(o, l.pom, l.raw, l.managed))
    ensures forall e | IsOfKey(Taken(o, ls), key, e) :: exists l :: l in ls && Names(o, l, key) && e == EntryOf(o, l.pom, l.raw, l.managed)
  {
    hide Accepts, EntryOf, Names, Taken;
    forall l { EntrySays(o, l, key); }
    forall e { TakenHas(o, ls, e); }
  }

  lemma PlaceholderSays(v: string)
    ensures IsConcrete(v) <==> IsVersion(v)
  {
    if i :| 0 <= i < |v| - 1 && v[i] == '$' && v[i + 1] == '{' { assert v == v[..i] + "${" + v[i + 2..]; }
    if before, after :| v == before + "${" + after { assert v[|before|] == '$' && v[|before| + 1] == '{'; }
  }

  // ---- The scope shown ----

  /** The scope of the first naming line that is not a test one; test when they all are. */
  ghost predicate ShowsScope(o: Options, ls: seq<Line>, key: string, scope: RecordScope) {
    exists i: nat ::
      && i < |ls| && Names(o, ls[i], key) && scope == Declared(ls[i].raw.scope)
      && (forall j | 0 <= j < i && Names(o, ls[j], key) :: ls[j].raw.scope == Test)
      && (ls[i].raw.scope == Test ==> forall j | 0 <= j < |ls| && Names(o, ls[j], key) :: ls[j].raw.scope == Test)
  }

  lemma {:induction false} ScopeShown(o: Options, cmp: (string, string) -> int, ls: seq<Line>, key: string)
    ensures key in AllEntered(cmp, map[], Taken(o, ls)) <==> exists i :: 0 <= i < |ls| && Names(o, ls[i], key)
    ensures var out := AllEntered(cmp, map[], Taken(o, ls)); key in out ==> ShowsScope(o, ls, key, out[key].scope)
  {
    hide ShowsScope, Names, Accepts, EntryOf, Entered;
    if ls != [] {
      var rest := ls[..|ls| - 1];
      ScopeShown(o, cmp, rest, key);
      ScopeStep(o, cmp, ls, key, AllEntered(cmp, map[], Taken(o, rest)), AllEntered(cmp, map[], Taken(o, ls)));
    }
  }

  lemma ScopeStep(o: Options, cmp: (string, string) -> int, ls: seq<Line>, key: string, before: ScanMap, after: ScanMap)
    requires ls != [] && before == AllEntered(cmp, map[], Taken(o, ls[..|ls| - 1])) && after == AllEntered(cmp, map[], Taken(o, ls))
    requires key in before <==> exists i :: 0 <= i < |ls| - 1 && Names(o, ls[i], key)
    requires key in before ==> ShowsScope(o, ls[..|ls| - 1], key, before[key].scope)
    ensures key in after <==> exists i :: 0 <= i < |ls| && Names(o, ls[i], key)
    ensures key in after ==> ShowsScope(o, ls, key, after[key].scope)
  {
    hide Accepts, EntryOf, Names, Merged, NewRec, ShowsScope, AllEntered;
    var l := ls[|ls| - 1];
    EntrySays(o, l, key);
    OneMoreLine(o, cmp, ls, before, after);
    EnteredScope(cmp, before, EntryOf(o, l.pom, l.raw, l.managed), key);
    if Names(o, l, key) {
      if key in before { ScopeMore(o, ls, key, before[key].scope); } else { ScopeBegins(o, ls, key); }
    } else if key in before {
      ScopeStays(o, ls, key, before[key].scope);
    }
  }

  lemma OneMoreLine(o: Options, cmp: (string, string) -> int, ls: seq<Line>, before: ScanMap, after: ScanMap)
    requires ls != [] && before == AllEntered(cmp, map[], Taken(o, ls[..|ls| - 1])) && after == AllEntered(cmp, map[], Taken(o, ls))
    ensures var l := ls[|ls| - 1];
            var e := EntryOf(o, l.pom, l.raw, l.managed);
            after == if Accepts(o, l.pom, l.raw) then before[e.key := if e.key in before then Merged(cmp, before[e.key], e) else NewRec(e)] else before
  {
    hide Accepts, EntryOf, Merged, NewRec;
    var l, rest := ls[|ls| - 1], ls[..|ls| - 1];
    AllEnteredSnoc(cmp, map[], Taken(o, rest), EntryOf(o, l.pom, l.raw, l.managed));
    assert Taken(o, rest) + [] == Taken(o, rest);
  }

  lemma ScopeBegins(o: Options, ls: seq<Line>, key: string)
    requires ls != [] && Names(o, ls[|ls| - 1], key) && forall i | 0 <= i < |ls| - 1 :: !Names(o, ls[i], key)
    ensures ShowsScope(o, ls, key, Declared(ls[|ls| - 1].raw.scope))
  {
    hide Names;
  }

  lemma EnteredScope(cmp: (string, string) -> int, before: ScanMap, e: Entry, key: string)
    ensures var after := before[e.key := if e.key in before then Merged(cmp, before[e.key], e) else NewRec(e)];
            && (key in after <==> key in before || e.key == key)
            && (key in after ==>
                  after[key].scope == if e.key != key then before[key].scope
                                      else if key !in before then Declared(e.scope)
                                      else if before[key].scope == Declared(Test) then Declared(e.scope) else before[key].scope)
  {
  }

  lemma ScopeMore(o: Options, ls: seq<Line>, key: string, scope: RecordScope)
    requires ls != [] && Names(o, ls[|ls| - 1], key) && ShowsScope(o, ls[..|ls| - 1], key, scope)
    ensures ShowsScope(o, ls, key, if scope == Declared(Test) then Declared(ls[|ls| - 1].raw.scope) else scope)
  {
    hide Names;
    var rest, n := ls[..|ls| - 1], |ls| - 1;
    assert forall i | 0 <= i < n :: ls[i] == rest[i];
    var i: nat :| i < |rest| && Names(o, rest[i], key) && scope == Declared(rest[i].raw.scope)
                  && (forall j | 0 <= j < i && Names(o, rest[j], key) :: rest[j].raw.scope == Test)
                  && (rest[i].raw.scope == Test ==> forall j | 0 <= j < |rest| && Names(o, rest[j], key) :: rest[j].raw.scope == Test);
    var k := if scope == Declared(Test) then n else i;
    assert Names(o, ls[k], key);
  }

  lemma ScopeStays(o: Options, ls: seq<Line>, key: string, scope: RecordScope)
    requires ls != [] && !Names(o, ls[|ls| - 1], key) && ShowsScope(o, ls[..|ls| - 1], key, scope)
    ensures ShowsScope(o, ls, key, scope)
  {
    hide Names;
    var rest := ls[..|ls| - 1];
    assert forall i | 0 <= i < |rest| :: ls[i] == rest[i];
    var i: nat :| i < |rest| && Names(o, rest[i], key) && scope == Declared(rest[i].raw.scope)
                  && (forall j | 0 <= j < i && Names(o, rest[j], key) :: rest[j].raw.scope == Test)
                  && (rest[i].raw.scope == Test ==> forall j | 0 <= j < |rest| && Names(o, rest[j], key) :: rest[j].raw.scope == Test);
    assert Names(o, ls[i], key);
  }

  // ---- The record ----

  /** What a record says of the lines that name its coordinate. */
  ghost predicate Says(o: Options, ls: seq<Line>, key: string, r: DepRec) {
    && ShowsScope(o, ls, key, r.scope)
    && (r.isDev <==> forall l | l in ls && Names(o, l, key) :: IsDev(l))
    && (r.managedOnly <==> forall l | l in ls && Names(o, l, key) :: OnlyPins(l))
    && (if r.version == "" then forall l | l in ls && Names(o, l, key) :: VersionOf(o, l) == ""
        else exists l :: l in ls && Names(o, l, key) && VersionOf(o, l) == r.version)
    && (forall v :: v in r.books.versions <==> IsVersion(v) && exists l :: l in ls && Names(o, l, key) && VersionOf(o, l) == v)
    && (forall pom :: pom in r.books.manifests <==> exists l :: l in ls && Names(o, l, key) && l.pom == pom)
    && (forall v, pom | IsVersion(v) :: pom in PathsOf(r.books.versionPaths, v) <==>
                                          exists l :: l in ls && Names(o, l, key) && VersionOf(o, l) == v && l.pom == pom)
    && r.ecosystem == "maven" && r.origins == [] && r.occurrences == None && r.via == [] && r.depth == 0 && r.managedIn == []
  }

  /**
   * A coordinate is in the scan set exactly when some line names it, and its record says of those
   * lines: the versions and POMs, whether all are managed or for development, and the widest scope.
   */
  lemma CollectSays(o: Options, cmp: (string, string) -> int, poms: seq<Pom>, key: string)
    ensures var out, ls := AllEntered(cmp, map[], EntriesOf(o, poms)), Lines(poms);
            && (key in out <==> exists l :: l in ls && Names(o, l, key))
            && (key in out ==> Says(o, ls, key, out[key]))
  {
    hide *;
    EntriesAreTaken(o, poms);
    var ls := Lines(poms);
    var es := Taken(o, ls);
    var out := AllEntered(cmp, map[], es);
    ScopeShown(o, cmp, ls, key);
    if i :| 0 <= i < |ls| && Names(o, ls[i], key) { assert ls[i] in ls; }
    if l :| l in ls && Names(o, l, key) {
      var i :| 0 <= i < |ls| && ls[i] == l;
    }
    if key in out { RecordSays(o, cmp, ls, key); }
  }

  lemma RecordSays(o: Options, cmp: (string, string) -> int, ls: seq<Line>, key: string)
    requires key in AllEntered(cmp, map[], Taken(o, ls)) && ShowsScope(o, ls, key, AllEntered(cmp, map[], Taken(o, ls))[key].scope)
    ensures Says(o, ls, key, AllEntered(cmp, map[], Taken(o, ls))[key])
  {
    hide Taken, Accepts, EntryOf, Names, AllEntered, ShowsScope, Fold, IsVersion;
    var es := Taken(o, ls);
    var r := AllEntered(cmp, map[], es)[key];
    CollectsExactly(cmp, es, key);
    forall l { EntrySays(o, l, key); }
    OfKeySays(o, ls, key);
    BooksSay(o, ls, key, r.books);
    FlagsSay(o, ls, key, r);
  }

  lemma FlagsSay(o: Options, ls: seq<Line>, key: string, r: DepRec)
    requires (r.isDev <==> OnlyDev(Taken(o, ls), key)) && (r.managedOnly <==> OnlyPinned(Taken(o, ls), key)) && IsStated(Taken(o, ls), key, r.version)
    ensures r.isDev <==> forall l | l in ls && Names(o, l, key) :: IsDev(l)
    ensures r.managedOnly <==> forall l | l in ls && Names(o, l, key) :: OnlyPins(l)
    ensures if r.version == "" then forall l | l in ls && Names(o, l, key) :: VersionOf(o, l) == ""
            else exists l :: l in ls && Names(o, l, key) && VersionOf(o, l) == r.version
  {
    hide Taken, Accepts, EntryOf, Names, IsOfKey, IsDevScope;
    forall l { EntrySays(o, l, key); }
    OfKeySays(o, ls, key);
  }

  lemma BooksSay(o: Options, ls: seq<Line>, key: string, b: Books)
    requires b == Fold(key, Events(Taken(o, ls)))
    ensures forall v :: v in b.versions <==> IsVersion(v) && exists l :: l in ls && Names(o, l, key) && VersionOf(o, l) == v
    ensures forall pom :: pom in b.manifests <==> exists l :: l in ls && Names(o, l, key) && l.pom == pom
    ensures forall v, pom | IsVersion(v) :: pom in PathsOf(b.versionPaths, v) <==>
                                             exists l :: l in ls && Names(o, l, key) && VersionOf(o, l) == v && l.pom == pom
  {
    hide Taken, Accepts, EntryOf, Names, Fold, IsVersion, PathsOf, IsOfKey, IsConcrete;
    var es := Taken(o, ls);
    forall l { EntrySays(o, l, key); }
    OfKeySays(o, ls, key);
    FoldIsExact(key, Events(es));
    forall v { PlaceholderSays(v); }
    OnlyConcrete(es, key);
    PomsOfEntries(es, key);
    hide ExactBooks;
    forall v | IsConcrete(v)
      ensures v in b.versions <==> exists l :: l in ls && Names(o, l, key) && VersionOf(o, l) == v
      ensures forall pom :: pom in PathsOf(b.versionPaths, v) <==> exists l :: l in ls && Names(o, l, key) && VersionOf(o, l) == v && l.pom == pom
    {
      Attribution.BooksOfEntries(es, key, v);
      EnteredSays(o, ls, es, key, v);
      forall pom ensures pom in PathsOf(b.versionPaths, v) <==> exists l :: l in ls && Names(o, l, key) && VersionOf(o, l) == v && l.pom == pom {
        EnteredIn(o, ls, es, key, v, pom);
      }
    }
  }

  lemma EnteredSays(o: Options, ls: seq<Line>, es: seq<Entry>, key: string, v: string)
    requires es == Taken(o, ls)
    ensures (exists e :: Attribution.EnteredAt(es, key, v, e)) <==> exists l :: l in ls && Names(o, l, key) && VersionOf(o, l) == v
  {
    hide Taken, Accepts, EntryOf, Names, VersionOf;
    OfKeySays(o, ls, key);
    forall l { EntrySays(o, l, key); }
    if l :| l in ls && Names(o, l, key) && VersionOf(o, l) == v {
      assert Attribution.EnteredAt(es, key, v, EntryOf(o, l.pom, l.raw, l.managed));
    }
  }

  lemma EnteredIn(o: Options, ls: seq<Line>, es: seq<Entry>, key: string, v: string, pom: string)
    requires es == Taken(o, ls)
    ensures (exists e :: Attribution.EnteredAt(es, key, v, e) && e.pom == pom) <==>
            exists l :: l in ls && Names(o, l, key) && VersionOf(o, l) == v && l.pom == pom
  {
    hide Taken, Accepts, EntryOf, Names, VersionOf;
    OfKeySays(o, ls, key);
    forall l { EntrySays(o, l, key); }
    if l :| l in ls && Names(o, l, key) && VersionOf(o, l) == v && l.pom == pom {
      assert Attribution.EnteredAt(es, key, v, EntryOf(o, l.pom, l.raw, l.managed));
    }
  }

  lemma OnlyConcrete(es: seq<Entry>, key: string)
    ensures forall v | v in Fold(key, Events(es)).versions :: IsConcrete(v)
  {
    FoldIsExact(key, Events(es));
    hide Fold, IsConcrete;
  }

  lemma PomsOfEntries(es: seq<Entry>, key: string)
    ensures forall pom :: pom in Fold(key, Events(es)).manifests <==> exists e :: IsOfKey(es, key, e) && e.pom == pom
  {
    FoldIsExact(key, Events(es));
    hide Fold, IsConcrete;
    var evs := Events(es);
    forall e | IsOfKey(es, key, e) ensures EventOf(e) in evs {
      var i :| 0 <= i < |es| && es[i] == e;
      assert evs[i] == EventOf(e);
    }
    forall pom ensures DeclaresIn(evs, key, None, pom) <==> exists e :: IsOfKey(es, key, e) && e.pom == pom {
      if DeclaresIn(evs, key, None, pom) {
        var x :| x in evs && x.Declares? && x.d.key == key && x.d.declaredIn == pom;
        var i :| 0 <= i < |evs| && evs[i] == x;
        assert IsOfKey(es, key, es[i]) && es[i].pom == pom;
      }
      if e :| IsOfKey(es, key, e) && e.pom == pom { assert EventOf(e) in evs; }
    }
  }

  // ---- External parents and promotion ----

  /** The record of an external parent: its POM, and its version where that is one. */
  lemma ParentSays(p: ExternalParent)
    ensures var r := ParentRec(p);
            && r.version == p.version && r.scope == Parent && !r.isDev && !r.managedOnly && r.ecosystem == "maven"
            && r.books.manifests == [p.pom] && r.origins == [] && r.books.versionScopes == []
            && r.via == [] && r.depth == 0 && r.managedIn == [] && r.occurrences == None
            && (IsVersion(p.version) ==> r.books.versions == [p.version] && PathsOf(r.books.versionPaths, p.version) == [p.pom])
            && (!IsVersion(p.version) ==> r.books.versions == [] && forall v :: PathsOf(r.books.versionPaths, v) == [])
  {
    PlaceholderSays(p.version);
    hide IsVersion, IsConcrete;
  }

  /**
   * A promoted record holds every version some module reaches, once and in order, and shows the
   * highest; it is a transitive one, reached as its first origin says, managed where it was declared.
   */
  lemma PromotedSays(cmp: (string, string) -> int, ok: string -> bool, r: DepRec)
    requires r.origins != [] && RanksOn(cmp, ok) && forall i | 0 <= i < |r.origins| :: ok(r.origins[i].version)
    ensures var p, first := Promoted(cmp, r), r.origins[0];
            && Distinct(p.books.versions) && (forall v :: v in p.books.versions <==> exists i :: 0 <= i < |r.origins| && r.origins[i].version == v)
            && (exists i :: 0 <= i < |r.origins| && (forall j | 0 <= j < |r.origins| :: cmp(r.origins[j].version, r.origins[i].version) <= 0)
                            && p.version == if IsVersion(r.origins[i].version) then r.origins[i].version else r.version)
            && p.scope == Transitive && !p.managedOnly && (p.isDev <==> first.scope == Some(Test))
            && p.via == first.via && p.depth == first.depth && p.managedIn == r.books.manifests && p.books.manifests == []
            && p.books.versionPaths == map[] && p.books.versionScopes == []
  {
    hide Promoted, IsVersion, IsConcrete, RanksOn, SortBy, VersionsOf;
    var vs := VersionsOf(r.origins);
    var sorted := SortBy(cmp, vs);
    VersionsReached(r.origins);
    SortedHas(cmp, vs);
    SortBySortedOn(cmp, ok, vs);
    var top := sorted[|sorted| - 1];
    PlaceholderSays(top);
    PromotedParts(cmp, r, top);
    LastIsHighest(cmp, ok, vs, sorted);
    assert top in sorted;
    var i :| 0 <= i < |r.origins| && r.origins[i].version == top;
    forall j | 0 <= j < |r.origins| ensures cmp(r.origins[j].version, r.origins[i].version) <= 0 { assert r.origins[j].version in vs; }
  }

  /** Versions are listed as they are first reached. */
  lemma {:induction false} VersionsGrow(origins: seq<Origin>, more: seq<Origin>)
    ensures VersionsOf(origins) <= VersionsOf(origins + more)
  {
    if more == [] {
      assert origins + more == origins;
    } else {
      var most := more[..|more| - 1];
      VersionsGrow(origins, most);
      assert (origins + more)[..|origins + more| - 1] == origins + most;
    }
  }

  lemma VersionsReached(origins: seq<Origin>)
    requires origins != []
    ensures VersionsOf(origins) != [] && Distinct(VersionsOf(origins))
    ensures forall v :: v in VersionsOf(origins) <==> exists i :: 0 <= i < |origins| && origins[i].version == v
  {
    assert origins[0].version in VersionsOf(origins);
  }

  lemma PromotedParts(cmp: (string, string) -> int, r: DepRec, top: string)
    requires r.origins != [] && SortBy(cmp, VersionsOf(r.origins)) != []
    requires top == SortBy(cmp, VersionsOf(r.origins))[|SortBy(cmp, VersionsOf(r.origins))| - 1]
    ensures var p, first := Promoted(cmp, r), r.origins[0];
            && p.books.versions == SortBy(cmp, VersionsOf(r.origins)) && p.version == (if IsConcrete(top) then top else r.version)
            && p.scope == Transitive && !p.managedOnly && (p.isDev <==> first.scope == Some(Test))
            && p.via == first.via && p.depth == first.depth && p.managedIn == r.books.manifests && p.books.manifests == []
            && p.books.versionPaths == map[] && p.books.versionScopes == []
  {
    hide SortBy, VersionsOf, IsConcrete;
  }

  lemma SortedHas(cmp: (string, string) -> int, vs: seq<string>)
    requires vs != [] && Distinct(vs)
    ensures SortBy(cmp, vs) != [] && Distinct(SortBy(cmp, vs)) && forall v :: v in SortBy(cmp, vs) <==> v in vs
  {
    var sorted := SortBy(cmp, vs);
    assert |sorted| == |multiset(sorted)| == |multiset(vs)| == |vs|;
    forall v ensures v in sorted <==> v in vs { assert v in multiset(sorted) <==> v in multiset(vs); }
    DistinctCounts(vs);
    CountsDistinct(sorted);
  }

  lemma {:induction false} DistinctCounts(s: seq<string>)
    requires Distinct(s)
    ensures forall x :: multiset(s)[x] <= 1
  {
    if s != [] {
      var rest, last := s[..|s| - 1], s[|s| - 1];
      assert s == rest + [last];
      DistinctCounts(rest);
      assert last !in rest;
    }
  }

  lemma CountsDistinct(s: seq<string>)
    requires forall x :: multiset(s)[x] <= 1
    ensures Distinct(s)
  {
    forall i, j | 0 <= i < j < |s| ensures s[i] != s[j] {
      assert s == s[..j] + s[j..] && s[..j][i] == s[i] && s[j..][0] == s[j];
      assert s[i] in s[..j] && s[j] in s[j..];
      assert multiset(s)[s[i]] == multiset(s[..j])[s[i]] + multiset(s[j..])[s[i]];
    }
  }

  lemma LastIsHighest(cmp: (string, string) -> int, ok: string -> bool, vs: seq<string>, sorted: seq<string>)
    requires RanksOn(cmp, ok) && (forall v | v in vs :: ok(v)) && sorted != [] && (forall v :: v in sorted <==> v in vs)
    requires forall i, j | 0 <= i < j < |sorted| :: cmp(sorted[i], sorted[j]) <= 0
    ensures forall v | v in vs :: cmp(v, sorted[|sorted| - 1]) <= 0
  {
    var top := sorted[|sorted| - 1];
    forall v | v in vs ensures cmp(v, top) <= 0 {
      var i :| 0 <= i < |sorted| && sorted[i] == v;
      assert top in vs && Sign(cmp(top, top)) == -Sign(cmp(top, top));
    }
  }
}
