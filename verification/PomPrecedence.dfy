/**
 * Which value wins in lib/core.js:222-322: profiles, own properties, imports, parents and the
 * built-in project properties.
 */
module PomPrecedence {
  import opened Basics
  import opened PomInheritance
  import opened PomInheritanceLaws

  function Value(props: Props, k: string): Option<string> {
    if k in props then Some(props[k]) else None
  }

  function Or(a: Option<string>, b: Option<string>): Option<string> {
    if a.Some? then a else b
  }

  /** The first of the profiles that sets the property. */
  function FirstWith(ps: seq<Profile>, k: string): Option<string> {
    if ps == [] then None else Or(Value(ps[0].properties, k), FirstWith(ps[1..], k))
  }

  lemma {:induction false} FirstWithSnoc(ps: seq<Profile>, p: Profile, k: string)
    ensures FirstWith(ps + [p], k) == Or(FirstWith(ps, k), Value(p.properties, k))
  {
    if ps == [] {
      assert (ps + [p])[1..] == [];
    } else {
      assert (ps + [p])[1..] == ps[1..] + [p];
      FirstWithSnoc(ps[1..], p, k);
    }
  }

  /** Profiles that are not the default one only fill what is missing, earlier ones first. */
  lemma {:induction false} OthersFill(meta: Meta, m: Model, ps: seq<Profile>, k: string)
    requires forall i | 0 <= i < |ps| :: Some(ps[i].id) != meta.defaultProfile
    ensures Value(AddProfiles(meta, m, ps).properties, k) == Or(Value(m.properties, k), FirstWith(ps, k))
  {
    if ps != [] {
      var most, last := ps[..|ps| - 1], ps[|ps| - 1];
      OthersFill(meta, m, most, k);
      FirstWithSnoc(most, last, k);
      assert ps == most + [last];
    }
  }

  lemma {:induction false} AddProfilesFirst(meta: Meta, m: Model, p: Profile, ps: seq<Profile>)
    ensures AddProfiles(meta, m, [p] + ps) == AddProfiles(meta, AddProfile(meta, m, p), ps)
  {
    var all := [p] + ps;
    if ps == [] {
      assert all == [p] && all[..0] == [];
    } else {
      AddProfilesFirst(meta, m, p, ps[..|ps| - 1]);
      assert all[..|all| - 1] == [p] + ps[..|ps| - 1];
    }
  }

  lemma {:induction false} NoneMatch(ps: seq<Profile>, id: string)
    requires forall i | 0 <= i < |ps| :: ps[i].id != id
    ensures Matching(ps, id, true) == []
  {
    if ps != [] { NoneMatch(ps[1..], id); }
  }

  /** An id names one profile. */
  lemma {:induction false} MatchingOne(ps: seq<Profile>, i: nat)
    requires i < |ps| && forall a, b | 0 <= a < b < |ps| :: ps[a].id != ps[b].id
    ensures Matching(ps, ps[i].id, true) == [ps[i]]
  {
    if i == 0 {
      NoneMatch(ps[1..], ps[0].id);
    } else {
      assert ps[0].id != ps[i].id;
      MatchingOne(ps[1..], i - 1);
    }
  }

  /** All profiles but the i-th, in file order. */
  function Others(ps: seq<Profile>, i: nat): seq<Profile>
    requires i < |ps|
  {
    ps[..i] + ps[i + 1..]
  }

  lemma {:induction false} NoneDropped(ps: seq<Profile>, id: string)
    requires forall i | 0 <= i < |ps| :: ps[i].id != id
    ensures Matching(ps, id, false) == ps
  {
    if ps != [] { NoneDropped(ps[1..], id); }
  }

  lemma {:induction false} MatchingOthers(ps: seq<Profile>, i: nat)
    requires i < |ps| && forall a, b | 0 <= a < b < |ps| :: ps[a].id != ps[b].id
    ensures Matching(ps, ps[i].id, false) == Others(ps, i)
  {
    if i == 0 {
      NoneDropped(ps[1..], ps[0].id);
    } else {
      assert ps[0].id != ps[i].id;
      MatchingOthers(ps[1..], i - 1);
      assert Others(ps, i) == [ps[0]] + Others(ps[1..], i - 1);
    }
  }

  /**
   * A POM's own value of a property: the default profile over the main properties, the other
   * profiles only where both are silent, in file order.
   */
  lemma OwnPrecedence(meta: Meta, k: string)
    requires forall a, b | 0 <= a < b < |meta.profiles| :: meta.profiles[a].id != meta.profiles[b].id
    ensures (forall i | 0 <= i < |meta.profiles| :: Some(meta.profiles[i].id) != meta.defaultProfile) ==>
              Value(Own(meta).properties, k) == Or(Value(meta.properties, k), FirstWith(meta.profiles, k))
    ensures forall i | 0 <= i < |meta.profiles| && meta.defaultProfile == Some(meta.profiles[i].id) ::
              Value(Own(meta).properties, k) ==
              Or(Value(meta.profiles[i].properties, k), Or(Value(meta.properties, k), FirstWith(Others(meta.profiles, i), k)))
  {
    var main := Model(meta.properties, meta.dependencies, meta.management);
    if forall i | 0 <= i < |meta.profiles| :: Some(meta.profiles[i].id) != meta.defaultProfile {
      OrderedPlain(meta);
      OthersFill(meta, main, meta.profiles, k);
    }
    forall i | 0 <= i < |meta.profiles| && meta.defaultProfile == Some(meta.profiles[i].id)
      ensures Value(Own(meta).properties, k) ==
              Or(Value(meta.profiles[i].properties, k), Or(Value(meta.properties, k), FirstWith(Others(meta.profiles, i), k)))
    {
      var d, others := meta.profiles[i], Others(meta.profiles, i);
      OrderedDefault(meta, i);
      AddProfilesFirst(meta, main, d, others);
      OthersFill(meta, AddProfile(meta, main, d), others, k);
    }
  }

  lemma OrderedPlain(meta: Meta)
    requires forall i | 0 <= i < |meta.profiles| :: Some(meta.profiles[i].id) != meta.defaultProfile
    ensures Ordered(meta) == meta.profiles
  {
    if meta.defaultProfile.Some? {
      NoneMatch(meta.profiles, meta.defaultProfile.value);
      NoneDropped(meta.profiles, meta.defaultProfile.value);
    }
  }

  lemma OrderedDefault(meta: Meta, i: nat)
    requires i < |meta.profiles| && meta.defaultProfile == Some(meta.profiles[i].id)
    requires forall a, b | 0 <= a < b < |meta.profiles| :: meta.profiles[a].id != meta.profiles[b].id
    ensures Ordered(meta) == [meta.profiles[i]] + Others(meta.profiles, i)
    ensures forall j | 0 <= j < |Others(meta.profiles, i)| :: Some(Others(meta.profiles, i)[j].id) != meta.defaultProfile
  {
    MatchingOne(meta.profiles, i);
    MatchingOthers(meta.profiles, i);
  }

  function DependenciesOf(ps: seq<Profile>): seq<Dep> {
    if ps == [] then [] else ps[0].dependencies + DependenciesOf(ps[1..])
  }

  function ManagementOf(ps: seq<Profile>): seq<Dep> {
    if ps == [] then [] else ps[0].management + ManagementOf(ps[1..])
  }

  lemma {:induction false} ListsSnoc(ps: seq<Profile>, p: Profile)
    ensures DependenciesOf(ps + [p]) == DependenciesOf(ps) + p.dependencies
    ensures ManagementOf(ps + [p]) == ManagementOf(ps) + p.management
  {
    if ps == [] {
      assert (ps + [p])[1..] == [];
    } else {
      assert (ps + [p])[1..] == ps[1..] + [p];
      ListsSnoc(ps[1..], p);
    }
  }

  lemma {:induction false} ListsAdded(meta: Meta, m: Model, ps: seq<Profile>)
    ensures AddProfiles(meta, m, ps).dependencies == m.dependencies + DependenciesOf(ps)
    ensures AddProfiles(meta, m, ps).management == m.management + ManagementOf(ps)
  {
    if ps != [] {
      var most, last := ps[..|ps| - 1], ps[|ps| - 1];
      ListsAdded(meta, m, most);
      ListsSnoc(most, last);
      assert ps == most + [last];
    }
  }

  /** The dependencies and managed entries of a POM: its main ones, the default profile's, then the others' in file order. */
  lemma OwnLists(meta: Meta)
    requires forall a, b | 0 <= a < b < |meta.profiles| :: meta.profiles[a].id != meta.profiles[b].id
    ensures (forall i | 0 <= i < |meta.profiles| :: Some(meta.profiles[i].id) != meta.defaultProfile) ==>
              && Own(meta).dependencies == meta.dependencies + DependenciesOf(meta.profiles)
              && Own(meta).management == meta.management + ManagementOf(meta.profiles)
    ensures forall i | 0 <= i < |meta.profiles| && meta.defaultProfile == Some(meta.profiles[i].id) ::
              && Own(meta).dependencies == meta.dependencies + (meta.profiles[i].dependencies + DependenciesOf(Others(meta.profiles, i)))
              && Own(meta).management == meta.management + (meta.profiles[i].management + ManagementOf(Others(meta.profiles, i)))
  {
    hide AddProfiles, Others, Ordered;
    ListsAdded(meta, Model(meta.properties, meta.dependencies, meta.management), Ordered(meta));
    if forall i | 0 <= i < |meta.profiles| :: Some(meta.profiles[i].id) != meta.defaultProfile { OrderedPlain(meta); }
    forall i | 0 <= i < |meta.profiles| && meta.defaultProfile == Some(meta.profiles[i].id)
      ensures Ordered(meta) == [meta.profiles[i]] + Others(meta.profiles, i)
    {
      OrderedDefault(meta, i);
      assert ([meta.profiles[i]] + Others(meta.profiles, i))[1..] == Others(meta.profiles, i);
    }
  }

  /** The lines of a POM in which an import is looked for. */
  function ImportLines(meta: Meta): seq<Dep> {
    Own(meta).dependencies + Own(meta).management
  }

  predicate ImportsLine(store: Store, d: Dep, q: Path) {
    d.scope == "import" && store.byId(d) == Some(q)
  }

  /** The first is imported by an earlier line than the second. */
  ghost predicate FromLater(store: Store, lines: seq<Dep>, p: Path, q: Path) {
    exists i, j :: 0 <= i < j < |lines| && ImportsLine(store, lines[i], p) && ImportsLine(store, lines[j], q)
  }

  /** Exactly the scanned POMs that the lines import, in their order. */
  ghost predicate AreImports(store: Store, lines: seq<Dep>, imports: seq<Path>) {
    && (forall q :: q in imports <==> exists d :: d in lines && ImportsLine(store, d, q))
    && (forall a, b | 0 <= a < b < |imports| :: FromLater(store, lines, imports[a], imports[b]))
  }

  lemma {:induction false} ImportsAmongAre(store: Store, lines: seq<Dep>)
    ensures AreImports(store, lines, ImportsAmong(store, lines))
  {
    if lines != [] {
      var rest, last := lines[..|lines| - 1], lines[|lines| - 1];
      ImportsAmongAre(store, rest);
      assert lines == rest + [last];
      if last.scope == "import" && store.byId(last).Some? {
        OneMoreImport(store, rest, last, ImportsAmong(store, rest), store.byId(last).value);
      } else {
        NoMoreImport(store, rest, last, ImportsAmong(store, rest));
      }
    }
  }

  lemma StillLater(store: Store, rest: seq<Dep>, last: Dep, p: Path, q: Path)
    requires FromLater(store, rest, p, q)
    ensures FromLater(store, rest + [last], p, q)
  {
    hide ImportsLine;
    var i, j :| 0 <= i < j < |rest| && ImportsLine(store, rest[i], p) && ImportsLine(store, rest[j], q);
    assert (rest + [last])[i] == rest[i] && (rest + [last])[j] == rest[j];
  }

  lemma LastIsLater(store: Store, rest: seq<Dep>, last: Dep, p: Path, q: Path)
    requires (exists d :: d in rest && ImportsLine(store, d, p)) && ImportsLine(store, last, q)
    ensures FromLater(store, rest + [last], p, q)
  {
    hide ImportsLine;
    var d :| d in rest && ImportsLine(store, d, p);
    var i :| 0 <= i < |rest| && rest[i] == d;
    assert (rest + [last])[i] == d && (rest + [last])[|rest|] == last;
  }

  lemma OneMoreImport(store: Store, rest: seq<Dep>, last: Dep, before: seq<Path>, q: Path)
    requires AreImports(store, rest, before) && ImportsLine(store, last, q)
    ensures AreImports(store, rest + [last], before + [q])
  {
    assert forall x :: ImportsLine(store, last, x) <==> x == q;
    hide ImportsLine, FromLater;
    var lines, after := rest + [last], before + [q];
    forall a, b | 0 <= a < b < |after| ensures FromLater(store, lines, after[a], after[b]) {
      if b < |before| {
        StillLater(store, rest, last, before[a], before[b]);
      } else {
        assert before[a] in before;
        LastIsLater(store, rest, last, before[a], q);
      }
    }
    forall x ensures x in after <==> exists d :: d in lines && ImportsLine(store, d, x) {
      assert x in after <==> x in before || x == q;
      assert last in lines && forall d :: d in lines <==> d in rest || d == last;
    }
  }

  lemma NoMoreImport(store: Store, rest: seq<Dep>, last: Dep, before: seq<Path>)
    requires AreImports(store, rest, before) && forall q :: !ImportsLine(store, last, q)
    ensures AreImports(store, rest + [last], before)
  {
    hide ImportsLine, FromLater;
    var lines := rest + [last];
    forall a, b | 0 <= a < b < |before| ensures FromLater(store, lines, before[a], before[b]) {
      StillLater(store, rest, last, before[a], before[b]);
    }
    forall x ensures x in before <==> exists d :: d in lines && ImportsLine(store, d, x) {
      assert forall d :: d in lines <==> d in rest || d == last;
    }
  }

  lemma {:induction false} ImportsAmongJoined(store: Store, xs: seq<Dep>, ys: seq<Dep>)
    ensures ImportsAmong(store, xs + ys) == ImportsAmong(store, xs) + ImportsAmong(store, ys)
  {
    if ys == [] {
      assert xs + ys == xs;
    } else {
      assert (xs + ys)[..|xs + ys| - 1] == xs + ys[..|ys| - 1];
      ImportsAmongJoined(store, xs, ys[..|ys| - 1]);
    }
  }

  /** A POM imports what its dependencies and then its managed entries name as imports, of the POMs scanned. */
  lemma ImportsSay(store: Store, p: Path)
    requires p in store.byPath
    ensures AreImports(store, ImportLines(store.byPath[p]), Imports(store, p))
  {
    hide Own, AreImports, ImportsAmong;
    var own := Own(store.byPath[p]);
    ImportsAmongJoined(store, own.dependencies, own.management);
    ImportsAmongAre(store, own.dependencies + own.management);
  }

  /** One of the managed entries of `bom`, resolved with its own properties. */
  ghost predicate Resolved(store: Store, bom: Model, d: Dep) {
    exists e :: e in bom.management && d == store.resolve(e, bom.properties)
  }

  ghost predicate HandsOver(store: Store, rank: Path -> nat, q: Path, d: Dep)
    requires Acyclic(store, rank)
  {
    Resolved(store, Effective(store, rank, q), d)
  }

  lemma ResolvedIsResolveAll(store: Store, bom: Model, d: Dep)
    ensures d in ResolveAll(store, bom.management, bom.properties) <==> Resolved(store, bom, d)
  {
    var all := ResolveAll(store, bom.management, bom.properties);
    if d in all {
      var i :| 0 <= i < |all| && all[i] == d;
      assert bom.management[i] in bom.management;
    }
    if Resolved(store, bom, d) {
      var e :| e in bom.management && d == store.resolve(e, bom.properties);
      var i :| 0 <= i < |bom.management| && bom.management[i] == e;
      assert all[i] == d;
    }
  }

  ghost predicate BringsDependency(store: Store, rank: Path -> nat, imports: seq<Path>, d: Dep)
    requires Acyclic(store, rank)
  {
    exists i :: 0 <= i < |imports| && d in Effective(store, rank, imports[i]).dependencies
  }

  ghost predicate BringsManaged(store: Store, rank: Path -> nat, imports: seq<Path>, d: Dep)
    requires Acyclic(store, rank)
  {
    exists i :: 0 <= i < |imports| && HandsOver(store, rank, imports[i], d)
  }

  lemma BringsFirst(store: Store, rank: Path -> nat, imports: seq<Path>, d: Dep)
    requires Acyclic(store, rank) && imports != []
    ensures BringsDependency(store, rank, imports, d) <==>
              d in Effective(store, rank, imports[0]).dependencies || BringsDependency(store, rank, imports[1..], d)
    ensures BringsManaged(store, rank, imports, d) <==>
              HandsOver(store, rank, imports[0], d) || BringsManaged(store, rank, imports[1..], d)
  {
    hide Effective, Acyclic, HandsOver;
    var rest := imports[1..];
    assert forall i | 0 <= i < |rest| :: rest[i] == imports[i + 1];
    if i :| 0 < i < |imports| && d in Effective(store, rank, imports[i]).dependencies { assert rest[i - 1] == imports[i]; }
    if i :| 0 < i < |imports| && HandsOver(store, rank, imports[i], d) { assert rest[i - 1] == imports[i]; }
  }

  /** Imports add dependencies and managed entries, resolved at home, and never a property. */
  lemma {:induction false} ImportsBringNoProperties(store: Store, rank: Path -> nat, bound: nat, imports: seq<Path>, m: Model)
    requires Acyclic(store, rank) && forall q | q in imports :: rank(q) < bound
    ensures var r := WithImports(store, rank, bound, imports, m);
            && r.properties == m.properties
            && (forall d :: d in r.dependencies <==> d in m.dependencies || BringsDependency(store, rank, imports, d))
            && (forall d :: d in r.management <==> d in m.management || BringsManaged(store, rank, imports, d))
    decreases |imports|
  {
    if imports != [] {
      var first, rest := imports[0], imports[1..];
      var next := AddImport(store, m, Effective(store, rank, first));
      ImportsBringNoProperties(store, rank, bound, rest, next);
      forall d { ResolvedIsResolveAll(store, Effective(store, rank, first), d); }
      forall d { BringsFirst(store, rank, imports, d); }
      hide Effective, Acyclic, Resolved, BringsDependency, BringsManaged, ResolveAll;
    }
  }

  /**
   * The built-in project properties win over the POM's own, those over what the parent hands down;
   * an imported BOM hands over managed entries and dependencies but no property, and a parent
   * properties but no dependency.
   */
  lemma EffectivePrecedence(store: Store, rank: Path -> nat, p: Path, k: string)
    requires Acyclic(store, rank) && p in store.byPath
    ensures var meta, m := store.byPath[p], Effective(store, rank, p);
            var parent := if meta.parent.Some? && meta.parent.value != p then meta.parent else None;
            && parent == ParentOf(store, p)
            && Value(m.properties, k) ==
               Or(Value(meta.localVars, k),
                  Or(Value(Own(meta).properties, k), if parent.Some? then Value(Effective(store, rank, parent.value).properties, k) else None))
            && (forall d :: d in m.dependencies <==>
                  d in Own(meta).dependencies || BringsDependency(store, rank, Imports(store, p), d))
            && (forall d :: d in m.management <==>
                  d in Own(meta).management || BringsManaged(store, rank, Imports(store, p), d))
  {
    ImportsBringNoProperties(store, rank, rank(p), Imports(store, p), Own(store.byPath[p]));
    hide Imports, Own, BringsDependency, BringsManaged, WithImports;
  }

  // ---- The same on any set of POMs, cycles included, as the cache stands ----

  ghost predicate AnswersDependency(cache: Cache, imports: seq<Path>, d: Dep) {
    exists q :: q in imports && q in cache && d in cache[q].dependencies
  }

  /** A managed entry one of the imports answered, resolved with the properties it answered. */
  ghost predicate AnswersManaged(store: Store, cache: Cache, imports: seq<Path>, d: Dep) {
    exists q :: q in imports && q in cache && Resolved(store, cache[q], d)
  }

  /** Imports add what they answered, and never a property, also when their parents form a cycle. */
  lemma {:induction false} ImportsAnswer(store: Store, fuel: nat, cache: Cache, imports: seq<Path>, m: Model)
    requires GetImports(store, fuel, cache, imports, m).Some?
    ensures var (c, r) := GetImports(store, fuel, cache, imports, m).value;
            && r.properties == m.properties
            && (forall d :: d in r.dependencies <==> d in m.dependencies || AnswersDependency(c, imports, d))
            && (forall d :: d in r.management <==> d in m.management || AnswersManaged(store, c, imports, d))
    decreases |imports|
  {
    hide Get, Resolved;
    if imports != [] {
      var (c1, first) := Get(store, fuel, cache, imports[0]).value;
      var next := AddImport(store, m, first);
      ImportsAnswer(store, fuel, c1, imports[1..], next);
      FirstAnswer(store, fuel, cache, imports, m);
    }
  }

  lemma FirstAnswer(store: Store, fuel: nat, cache: Cache, imports: seq<Path>, m: Model)
    requires imports != [] && GetImports(store, fuel, cache, imports, m).Some?
    ensures var first := Get(store, fuel, cache, imports[0]).value.1;
            var c := GetImports(store, fuel, cache, imports, m).value.0;
            && (forall d :: AnswersDependency(c, imports, d) <==>
                              d in first.dependencies || AnswersDependency(c, imports[1..], d))
            && (forall d :: AnswersManaged(store, c, imports, d) <==>
                              d in ResolveAll(store, first.management, first.properties) || AnswersManaged(store, c, imports[1..], d))
  {
    var q := imports[0];
    var (c1, first) := Get(store, fuel, cache, q).value;
    var c := GetImports(store, fuel, cache, imports, m).value.0;
    GetKeeps(store, fuel, cache, q);
    GetImportsKeeps(store, fuel, c1, imports[1..], AddImport(store, m, first));
    assert if q in c then c[q] == first else first == EMPTY;
    forall d { ResolvedIsResolveAll(store, first, d); }
    hide Get, GetImports, Resolved, ResolveAll;
    assert forall x :: x in imports <==> x == q || x in imports[1..];
  }

  /** A POM outside the scan answers with nothing, and is not cached. */
  lemma UnscannedHasNothing(store: Store, fuel: nat, cache: Cache, p: Path)
    requires p !in cache && p !in store.byPath
    ensures Get(store, fuel, cache, p) == Some((cache, Model(map[], [], [])))
  {
  }

  /**
   * Of any set of POMs, and whatever the cache holds when a POM is first asked for: the built-in
   * project properties win over its own, those over what its parent answered at that point; each
   * import contributes the dependencies and resolved entries it answered, and no property.
   */
  lemma AnswerPrecedence(store: Store, fuel: nat, cache: Cache, p: Path, k: string)
    requires p !in cache && p in store.byPath && Get(store, fuel, cache, p).Some?
    ensures fuel > 0 && GetImports(store, fuel - 1, cache, Imports(store, p), Own(store.byPath[p])).Some?
    ensures var (c, merged) := GetImports(store, fuel - 1, cache, Imports(store, p), Own(store.byPath[p])).value;
            var meta, m := store.byPath[p], Get(store, fuel, cache, p).value.1;
            var parent := if meta.parent.Some? && meta.parent.value != p then meta.parent else None;
            var above := if parent.Some? then Get(store, fuel - 1, c[p := merged], parent.value) else Some((c, EMPTY));
            && above.Some?
            && Value(m.properties, k) ==
               Or(Value(meta.localVars, k), Or(Value(Own(meta).properties, k), Value(above.value.1.properties, k)))
            && (forall d :: d in m.dependencies <==>
                  d in Own(meta).dependencies || AnswersDependency(c, Imports(store, p), d))
            && (forall d :: d in m.management <==>
                  d in Own(meta).management || AnswersManaged(store, c, Imports(store, p), d))
  {
    hide Imports, Own, AnswersDependency, AnswersManaged;
    ImportsAnswer(store, fuel - 1, cache, Imports(store, p), Own(store.byPath[p]));
  }
}
