/**
 * lib/maven-reactor.js:220-327: the scan set rebuilt from what every module really holds.
 *
 * The resolved modules are the input (their resolution reads the network). Records are shared
 * objects that keep their identity, and each keeps one path list under two names.
 */
module MavenReactor {
  import opened Basics

  datatype Scope = Compile | Runtime | Provided | Test | Named(name: string)

  datatype RecordScope = Declared(scope: Scope) | Transitive | Parent

  datatype Direct = Direct(key: string, version: Option<string>, scope: Scope, declaredIn: string)

  datatype Reach = Reach(groupId: string, key: string, version: Option<string>, via: seq<string>, depth: nat, scope: Scope)

  datatype ModuleResult = ModuleResult(pomPath: string, directs: seq<Direct>, transitives: seq<Reach>)

  datatype Masked = Masked(version: Option<string>, module_: string, via: seq<string>, depth: nat, scope: Scope)

  predicate IsDevScope(s: Scope) {
    s == Test || s == Provided
  }

  function AddOnce<T(==)>(s: seq<T>, x: T): seq<T> {
    if x in s then s else s + [x]
  }

  // ---- The bookkeeping of one coordinate ----

  /** An object's properties in insertion order: the scopes each version is declared with. */
  type ScopesByVersion = seq<(string, seq<Scope>)>

  function AddScope(table: ScopesByVersion, v: string, s: Scope): ScopesByVersion {
    if table == [] then [(v, [s])]
    else if table[0].0 == v then [(v, AddOnce(table[0].1, s))] + table[1..]
    else [table[0]] + AddScope(table[1..], v, s)
  }

  function AllScopes(table: ScopesByVersion): seq<Scope> {
    if table == [] then [] else table[0].1 + AllScopes(table[1..])
  }

  datatype Books = Books(
    versions: seq<string>,
    manifests: seq<string>,
    versionPaths: map<string, seq<string>>,
    versionScopes: ScopesByVersion,
    masked: seq<Masked>,
    held: bool,
    declared: bool)

  const NOTHING := Books([], [], map[], [], [], false, false)

  /** One module declares a coordinate, or reaches it transitively. */
  datatype Event = Declares(d: Direct) | Reaches(t: Reach, pomPath: string)

  function KeyOf(e: Event): string {
    match e case Declares(d) => d.key case Reaches(t, _) => t.key
  }

  function PathsOf(paths: map<string, seq<string>>, v: string): seq<string> {
    if v in paths then paths[v] else []
  }

  predicate HasMasked(masked: seq<Masked>, v: Option<string>, m: string) {
    exists i :: 0 <= i < |masked| && masked[i].version == v && masked[i].module_ == m
  }

  /** At most one masked version per version and module. */
  predicate MaskedOnce(masked: seq<Masked>) {
    forall i, j | 0 <= i < j < |masked| :: masked[i].version != masked[j].version || masked[i].module_ != masked[j].module_
  }

  function AddMasked(masked: seq<Masked>, t: Reach, pomPath: string): seq<Masked> {
    if HasMasked(masked, t.version, pomPath) then masked
    else masked + [Masked(t.version, pomPath, t.via, t.depth, t.scope)]
  }

  function Record(b: Books, e: Event): Books {
    match e
    case Declares(d) =>
      var c := b.(held := true, declared := true, manifests := AddOnce(b.manifests, d.declaredIn));
      if d.version.None? then c
      else
        var v := d.version.value;
        c.(versions := AddOnce(c.versions, v),
           versionPaths := c.versionPaths[v := AddOnce(PathsOf(c.versionPaths, v), d.declaredIn)],
           versionScopes := AddScope(c.versionScopes, v, d.scope))
    case Reaches(t, pomPath) =>
      b.(held := true,
         versions := if t.version.Some? then AddOnce(b.versions, t.version.value) else b.versions,
         masked := AddMasked(b.masked, t, pomPath))
  }

  /** The books of `key` after all events: those of other coordinates leave them alone. */
  function Fold(key: string, es: seq<Event>): Books {
    if es == [] then NOTHING
    else
      var before, e := Fold(key, es[..|es| - 1]), es[|es| - 1];
      if KeyOf(e) == key then Record(before, e) else before
  }

  lemma FoldSnoc(key: string, es: seq<Event>, e: Event)
    ensures Fold(key, es + [e]) == if KeyOf(e) == key then Record(Fold(key, es), e) else Fold(key, es)
  {
    assert (es + [e])[..|es|] == es;
  }

  // ---- What the books say ----

  /** Some event of this coordinate carries the version. */
  ghost predicate Holds(es: seq<Event>, key: string, v: string) {
    exists e :: e in es && KeyOf(e) == key && VersionOf(e) == Some(v)
  }

  function VersionOf(e: Event): Option<string> {
    match e case Declares(d) => d.version case Reaches(t, _) => t.version
  }

  ghost predicate DeclaresIn(es: seq<Event>, key: string, v: Option<string>, pom: string) {
    exists e :: e in es && e.Declares? && e.d.key == key && e.d.declaredIn == pom && (v.Some? ==> e.d.version == v)
  }

  ghost predicate ReachedIn(es: seq<Event>, key: string, v: Option<string>, pomPath: string) {
    exists e :: e in es && e.Reaches? && e.t.key == key && e.t.version == v && e.pomPath == pomPath
  }

  ghost predicate DeclaresScope(es: seq<Event>, key: string, s: Scope) {
    exists e :: e in es && e.Declares? && e.d.key == key && e.d.version.Some? && e.d.scope == s
  }

  ghost predicate IsDeclared(es: seq<Event>, key: string) {
    exists e :: e in es && e.Declares? && e.d.key == key
  }

  /** A coordinate stays in the scan set: declared by a module, or reached with a version. */
  ghost predicate Survives(es: seq<Event>, key: string) {
    IsDeclared(es, key) || exists v :: Holds(es, key, v)
  }

  /** Each fact once, and exactly the facts of the events. */
  ghost predicate ExactBooks(b: Books, es: seq<Event>, key: string) {
    && Distinct(b.versions) && (forall v :: v in b.versions <==> Holds(es, key, v))
    && Distinct(b.manifests) && (forall p :: p in b.manifests <==> DeclaresIn(es, key, None, p))
    && (forall v :: Distinct(PathsOf(b.versionPaths, v)))
    && (forall v, p :: p in PathsOf(b.versionPaths, v) <==> DeclaresIn(es, key, Some(v), p))
    && MaskedOnce(b.masked)
    && (forall v, m :: HasMasked(b.masked, v, m) <==> ReachedIn(es, key, v, m))
    && (forall x :: x in AllScopes(b.versionScopes) <==> DeclaresScope(es, key, x))
    && (b.declared <==> IsDeclared(es, key))
    && (b.held <==> exists e :: e in es && KeyOf(e) == key)
  }

  lemma AddOnceFacts<T>(s: seq<T>, x: T)
    requires Distinct(s)
    ensures Distinct(AddOnce(s, x)) && forall y :: y in AddOnce(s, x) <==> y in s || y == x
  {
    if x !in s { DistinctConcat(s, [x]); }
  }

  lemma {:induction false} AddScopeFacts(table: ScopesByVersion, v: string, s: Scope)
    ensures forall x :: x in AllScopes(AddScope(table, v, s)) <==> x in AllScopes(table) || x == s
  {
    if table != [] {
      var t := AddScope(table, v, s);
      if table[0].0 == v {
        assert t[1..] == table[1..];
      } else {
        AddScopeFacts(table[1..], v, s);
        assert t[1..] == AddScope(table[1..], v, s);
      }
    }
  }

  lemma AddMaskedFacts(masked: seq<Masked>, t: Reach, pomPath: string)
    ensures forall v, m :: HasMasked(AddMasked(masked, t, pomPath), v, m) <==> HasMasked(masked, v, m) || (v == t.version && m == pomPath)
    ensures MaskedOnce(masked) ==> MaskedOnce(AddMasked(masked, t, pomPath))
  {
    var longer := AddMasked(masked, t, pomPath);
    forall v, m
      ensures HasMasked(longer, v, m) <==> HasMasked(masked, v, m) || (v == t.version && m == pomPath)
    {
      if HasMasked(masked, v, m) {
        var i :| 0 <= i < |masked| && masked[i].version == v && masked[i].module_ == m;
        assert longer[i] == masked[i];
      }
      if v == t.version && m == pomPath && !HasMasked(masked, v, m) {
        assert longer[|masked|] == Masked(t.version, pomPath, t.via, t.depth, t.scope);
      }
    }
  }

  /** How one more event changes each fact about a coordinate. */
  lemma FactsSnoc(es: seq<Event>, e: Event, key: string)
    ensures forall v :: Holds(es + [e], key, v) <==> Holds(es, key, v) || (KeyOf(e) == key && VersionOf(e) == Some(v))
    ensures forall v, p :: DeclaresIn(es + [e], key, v, p) <==>
              DeclaresIn(es, key, v, p) || (e.Declares? && e.d.key == key && e.d.declaredIn == p && (v.Some? ==> e.d.version == v))
    ensures forall v, m :: ReachedIn(es + [e], key, v, m) <==>
              ReachedIn(es, key, v, m) || (e.Reaches? && e.t.key == key && e.t.version == v && e.pomPath == m)
    ensures forall s :: DeclaresScope(es + [e], key, s) <==>
              DeclaresScope(es, key, s) || (e.Declares? && e.d.key == key && e.d.version.Some? && e.d.scope == s)
    ensures IsDeclared(es + [e], key) <==> IsDeclared(es, key) || (e.Declares? && e.d.key == key)
  {
    forall x ensures x in es + [e] <==> x in es || x == e { }
    assert e in es + [e];
  }

  lemma RecordDeclares(b: Books, es: seq<Event>, key: string, d: Direct)
    requires ExactBooks(b, es, key) && d.key == key
    ensures ExactBooks(Record(b, Declares(d)), es + [Declares(d)], key)
  {
    hide Holds, DeclaresIn, ReachedIn, DeclaresScope, IsDeclared, AddOnce, AddScope, AllScopes, HasMasked, MaskedOnce;
    FactsSnoc(es, Declares(d), key);
    assert Declares(d) in es + [Declares(d)];
    AddOnceFacts(b.manifests, d.declaredIn);
    if d.version.Some? {
      var v := d.version.value;
      AddOnceFacts(b.versions, v);
      AddOnceFacts(PathsOf(b.versionPaths, v), d.declaredIn);
      AddScopeFacts(b.versionScopes, v, d.scope);
    }
    var c := Record(b, Declares(d));
    forall u
      ensures Distinct(PathsOf(c.versionPaths, u))
    {
      assert PathsOf(c.versionPaths, u) ==
             if d.version == Some(u) then AddOnce(PathsOf(b.versionPaths, u), d.declaredIn) else PathsOf(b.versionPaths, u);
    }
  }

  lemma RecordReaches(b: Books, es: seq<Event>, key: string, t: Reach, pomPath: string)
    requires ExactBooks(b, es, key) && t.key == key
    ensures ExactBooks(Record(b, Reaches(t, pomPath)), es + [Reaches(t, pomPath)], key)
  {
    hide Holds, DeclaresIn, ReachedIn, DeclaresScope, IsDeclared, AddOnce, AddMasked, AllScopes, HasMasked, MaskedOnce, PathsOf;
    FactsSnoc(es, Reaches(t, pomPath), key);
    assert Reaches(t, pomPath) in es + [Reaches(t, pomPath)];
    if t.version.Some? { AddOnceFacts(b.versions, t.version.value); }
    AddMaskedFacts(b.masked, t, pomPath);
  }

  lemma {:induction false} FoldIsExact(key: string, es: seq<Event>)
    ensures ExactBooks(Fold(key, es), es, key)
  {
    if es != [] {
      var before, e := es[..|es| - 1], es[|es| - 1];
      FoldIsExact(key, before);
      assert es == before + [e];
      if KeyOf(e) != key {
        FactsSnoc(before, e, key);
      } else if e.Declares? {
        RecordDeclares(Fold(key, before), before, key, e.d);
      } else {
        RecordReaches(Fold(key, before), before, key, e.t, e.pomPath);
      }
    }
  }
}
