/**
 * lib/core.js:222-322: the properties, dependencies and managed dependencies a POM inherits.
 *
 * The recursion follows two kinds of edges, imported BOMs and the local parent, through a cache
 * filled between the two: imports first, then the entry, then the parent. So a cycle through a
 * parent is cut and a cycle of imports is not. POMs arrive parsed, the parent of each already
 * located (lib/core.js:190-220); interpolating a managed entry is the parameter `resolve`.
 */
module PomInheritance {
  import opened Basics

  type Path = string

  type Props = map<string, string>

  datatype Dep = Dep(groupId: string, artifactId: string, version: string, scope: string)

  datatype Profile = Profile(id: string, properties: Props, dependencies: seq<Dep>, management: seq<Dep>)

  datatype Meta = Meta(
    properties: Props,
    dependencies: seq<Dep>,
    management: seq<Dep>,
    profiles: seq<Profile>,
    defaultProfile: Option<string>,
    parent: Option<Path>,
    localVars: Props)

  /** `byId` finds the local POM a coordinate names, if any. */
  datatype Store = Store(byPath: map<Path, Meta>, byId: Dep -> Option<Path>, resolve: (Dep, Props) -> Dep)

  datatype Model = Model(properties: Props, dependencies: seq<Dep>, management: seq<Dep>)

  const EMPTY := Model(map[], [], [])

  // ---- One POM on its own ----

  /** The default profile first, then the others in file order. */
  function Ordered(meta: Meta): seq<Profile> {
    if meta.defaultProfile.None? then meta.profiles
    else Matching(meta.profiles, meta.defaultProfile.value, true) + Matching(meta.profiles, meta.defaultProfile.value, false)
  }

  function Matching(ps: seq<Profile>, id: string, equal: bool): seq<Profile> {
    if ps == [] then []
    else if (ps[0].id == id) == equal then [ps[0]] + Matching(ps[1..], id, equal)
    else Matching(ps[1..], id, equal)
  }

  /** The default profile overrides the main properties, any other only fills what is missing. */
  function AddProfile(meta: Meta, m: Model, p: Profile): Model {
    Model(
      if meta.defaultProfile == Some(p.id) then m.properties + p.properties else p.properties + m.properties,
      m.dependencies + p.dependencies,
      m.management + p.management)
  }

  function AddProfiles(meta: Meta, m: Model, ps: seq<Profile>): Model {
    if ps == [] then m else AddProfile(meta, AddProfiles(meta, m, ps[..|ps| - 1]), ps[|ps| - 1])
  }

  function Own(meta: Meta): Model {
    AddProfiles(meta, Model(meta.properties, meta.dependencies, meta.management), Ordered(meta))
  }

  function ImportsAmong(store: Store, deps: seq<Dep>): seq<Path> {
    if deps == [] then []
    else
      var d := deps[|deps| - 1];
      ImportsAmong(store, deps[..|deps| - 1]) + if d.scope == "import" && store.byId(d).Some? then [store.byId(d).value] else []
  }

  /** The local BOMs a POM imports, in the order they are read. */
  function Imports(store: Store, p: Path): seq<Path>
    requires p in store.byPath
  {
    var own := Own(store.byPath[p]);
    ImportsAmong(store, own.dependencies) + ImportsAmong(store, own.management)
  }

  /** The local parent, when there is one and it is not the POM itself. */
  function ParentOf(store: Store, p: Path): Option<Path>
    requires p in store.byPath
  {
    if store.byPath[p].parent == Some(p) then None else store.byPath[p].parent
  }

  function ResolveAll(store: Store, deps: seq<Dep>, props: Props): (r: seq<Dep>)
    ensures |r| == |deps|
  {
    seq(|deps|, i requires 0 <= i < |deps| => store.resolve(deps[i], props))
  }

  /** An import hands over its dependencies and its managed entries, resolved at home. */
  function AddImport(store: Store, m: Model, imported: Model): Model {
    m.(dependencies := m.dependencies + imported.dependencies,
       management := m.management + ResolveAll(store, imported.management, imported.properties))
  }

  function Inherit(m: Model, parent: Model): Model {
    m.(properties := parent.properties + m.properties)
  }

  function Finish(meta: Meta, m: Model): Model {
    m.(properties := m.properties + meta.localVars)
  }

  // ---- The memoised recursion, as a function of the cache ----

  type Cache = map<Path, Model>

  type Outcome = Option<(Cache, Model)>

  /** The cache and answer after one request, or None if it nests deeper than `fuel`. */
  function Get(store: Store, fuel: nat, cache: Cache, p: Path): Outcome
    decreases fuel, 0
  {
    if p in cache then Some((cache, cache[p]))
    else if p !in store.byPath then Some((cache, EMPTY))
    else if fuel == 0 then None
    else
      var imported := GetImports(store, fuel - 1, cache, Imports(store, p), Own(store.byPath[p]));
      if imported.None? then None
      else Climb(store, fuel - 1, imported.value.0, p, imported.value.1)
  }

  /** Once the imports are in: cache the partial model, read the parent, complete the model. */
  function Climb(store: Store, fuel: nat, cache: Cache, p: Path, merged: Model): Outcome
    requires p in store.byPath
    decreases fuel, 2
  {
    var c := cache[p := merged];
    if ParentOf(store, p).None? then
      var final := Finish(store.byPath[p], merged);
      Some((c[p := final], final))
    else
      var up := Get(store, fuel, c, ParentOf(store, p).value);
      if up.None? then None
      else
        var final := Finish(store.byPath[p], Inherit(merged, up.value.1));
        Some((up.value.0[p := final], final))
  }

  function GetImports(store: Store, fuel: nat, cache: Cache, imports: seq<Path>, m: Model): Outcome
    decreases fuel, 1, |imports|
  {
    if imports == [] then Some((cache, m))
    else
      var first := Get(store, fuel, cache, imports[0]);
      if first.None? then None
      else GetImports(store, fuel, first.value.0, imports[1..], AddImport(store, m, first.value.1))
  }

  lemma {:induction false} MoreFuel(store: Store, fuel: nat, more: nat, cache: Cache, p: Path)
    requires fuel <= more && Get(store, fuel, cache, p).Some?
    ensures Get(store, more, cache, p) == Get(store, fuel, cache, p)
    decreases fuel, 0
  {
    hide Imports, Own, ParentOf, Climb, GetImports;
    if p !in cache && p in store.byPath {
      var imports, own := Imports(store, p), Own(store.byPath[p]);
      MoreFuelImports(store, fuel - 1, more - 1, cache, imports, own);
      var (c1, merged) := GetImports(store, fuel - 1, cache, imports, own).value;
      MoreFuelClimb(store, fuel - 1, more - 1, c1, p, merged);
    }
  }

  lemma {:induction false} MoreFuelClimb(store: Store, fuel: nat, more: nat, cache: Cache, p: Path, merged: Model)
    requires fuel <= more && p in store.byPath && Climb(store, fuel, cache, p, merged).Some?
    ensures Climb(store, more, cache, p, merged) == Climb(store, fuel, cache, p, merged)
    decreases fuel, 2
  {
    if ParentOf(store, p).Some? {
      MoreFuel(store, fuel, more, cache[p := merged], ParentOf(store, p).value);
    }
  }

  lemma {:induction false} MoreFuelImports(store: Store, fuel: nat, more: nat, cache: Cache, imports: seq<Path>, m: Model)
    requires fuel <= more && GetImports(store, fuel, cache, imports, m).Some?
    ensures GetImports(store, more, cache, imports, m) == GetImports(store, fuel, cache, imports, m)
    decreases fuel, 1, |imports|
  {
    if imports != [] {
      MoreFuel(store, fuel, more, cache, imports[0]);
      var (c, first) := Get(store, fuel, cache, imports[0]).value;
      MoreFuelImports(store, fuel, more, c, imports[1..], AddImport(store, m, first));
    }
  }

  /** A request replaces no cached answer, and caches only POMs of the scan. */
  lemma {:induction false} GetKeeps(store: Store, fuel: nat, cache: Cache, p: Path)
    requires Get(store, fuel, cache, p).Some?
    ensures var (c, m) := Get(store, fuel, cache, p).value;
            && (forall q | q in cache :: q in c && c[q] == cache[q])
            && (forall q | q in c :: q in cache || q in store.byPath)
            && (p in store.byPath ==> p in c && c[p] == m)
    decreases fuel, 0
  {
    if p !in cache && p in store.byPath {
      var imports, own := Imports(store, p), Own(store.byPath[p]);
      GetImportsKeeps(store, fuel - 1, cache, imports, own);
      var (c1, merged) := GetImports(store, fuel - 1, cache, imports, own).value;
      ClimbKeeps(store, fuel - 1, c1, p, merged);
    }
  }

  lemma {:induction false} ClimbKeeps(store: Store, fuel: nat, cache: Cache, p: Path, merged: Model)
    requires p in store.byPath && Climb(store, fuel, cache, p, merged).Some?
    ensures var (c, m) := Climb(store, fuel, cache, p, merged).value;
            && (forall q | q in cache && q != p :: q in c && c[q] == cache[q])
            && (forall q | q in c :: q in cache || q in store.byPath)
            && p in c && c[p] == m
    decreases fuel, 2
  {
    if ParentOf(store, p).Some? {
      GetKeeps(store, fuel, cache[p := merged], ParentOf(store, p).value);
    }
  }

  lemma {:induction false} GetImportsKeeps(store: Store, fuel: nat, cache: Cache, imports: seq<Path>, m: Model)
    requires GetImports(store, fuel, cache, imports, m).Some?
    ensures var (c, _) := GetImports(store, fuel, cache, imports, m).value;
            && (forall q | q in cache :: q in c && c[q] == cache[q])
            && (forall q | q in c :: q in cache || q in store.byPath)
            && (forall q | q in imports && q in store.byPath :: q in c)
    decreases fuel, 1, |imports|
  {
    if imports != [] {
      GetKeeps(store, fuel, cache, imports[0]);
      var (c, first) := Get(store, fuel, cache, imports[0]).value;
      GetImportsKeeps(store, fuel, c, imports[1..], AddImport(store, m, first));
      assert imports == [imports[0]] + imports[1..];
    }
  }
}
