/**
 * lib/dep-record.js:37-83 and the per-record steps of lib/maven-reactor.js:234-325.
 *
 * A record keeps its manifests in one list object under two names, `manifestPaths` and
 * `pomPaths`; emptying or filling the list through one name must show through the other.
 */
module DepRecords {
  import opened Basics
  import opened Orders
  import opened MavenReactor

  class PathList {
    /** The key of the record the list belongs to. */
    ghost const owner: string
    var items: seq<string>

    constructor (items: seq<string>, ghost owner: string)
      ensures this.items == items && this.owner == owner
    {
      this.items, this.owner := items, owner;
    }
  }

  function Highest(cmp: (string, string) -> int, versions: seq<string>): Option<string> {
    if versions == [] then None
    else
      var sorted := SortBy(cmp, versions);
      assert |sorted| == |multiset(sorted)| == |multiset(versions)| == |versions|;
      Some(sorted[|sorted| - 1])
  }

  lemma HighestIsHighest(cmp: (string, string) -> int, ok: string -> bool, versions: seq<string>)
    requires RanksOn(cmp, ok) && versions != [] && forall v | v in versions :: ok(v)
    ensures Highest(cmp, versions).Some? && Highest(cmp, versions).value in versions
    ensures forall v | v in versions :: cmp(v, Highest(cmp, versions).value) <= 0
  {
    var sorted := SortBy(cmp, versions);
    SortBySortedOn(cmp, ok, versions);
    var top := Highest(cmp, versions).value;
    assert top in sorted;
    forall v | v in versions ensures cmp(v, top) <= 0 {
      var i :| 0 <= i < |sorted| && sorted[i] == v;
      assert Sign(cmp(top, top)) == -Sign(cmp(top, top));
      assert i < |sorted| - 1 ==> cmp(sorted[i], sorted[|sorted| - 1]) <= 0;
    }
  }

  predicate AllDev(scopes: seq<Scope>) {
    forall s | s in scopes :: IsDevScope(s)
  }

  function PickScope(scopes: seq<Scope>): Scope
    requires scopes != []
  {
    if Compile in scopes then Compile else if Runtime in scopes then Runtime else scopes[0]
  }

  /** The first production path into the coordinate, else the first path. */
  function ShownPath(masked: seq<Masked>): Masked
    requires masked != []
  {
    if !IsDevScope(masked[0].scope) || AllMaskedDev(masked[1..]) then masked[0] else ShownPath(masked[1..])
  }

  predicate AllMaskedDev(masked: seq<Masked>) {
    forall i | 0 <= i < |masked| :: IsDevScope(masked[i].scope)
  }

  function Modules(masked: seq<Masked>): seq<string> {
    if masked == [] then [] else AddOnce(Modules(masked[..|masked| - 1]), masked[|masked| - 1].module_)
  }

  lemma {:induction false} ModulesFacts(masked: seq<Masked>)
    ensures Distinct(Modules(masked))
    ensures forall m :: m in Modules(masked) <==> exists i :: 0 <= i < |masked| && masked[i].module_ == m
  {
    if masked != [] {
      var rest := masked[..|masked| - 1];
      ModulesFacts(rest);
      AddOnceFacts(Modules(rest), masked[|masked| - 1].module_);
      forall m ensures m in Modules(masked) <==> exists i :: 0 <= i < |masked| && masked[i].module_ == m {
        if m in Modules(rest) {
          var i :| 0 <= i < |rest| && rest[i].module_ == m;
          assert masked[i].module_ == m;
        }
        if i :| 0 <= i < |masked| && masked[i].module_ == m && i < |rest| {
          assert rest[i].module_ == m;
        }
      }
    }
  }

  class DepRecord {
    /** Gradle, embedded in an archive, or a committed binary: never rebuilt. */
    const foreign: bool
    const coordKey: string
    var scope: RecordScope
    var version: Option<string>
    var versions: seq<string>
    var manifestPaths: PathList
    var pomPaths: PathList
    var versionPaths: map<string, seq<string>>
    var versionScopes: ScopesByVersion
    var maskedVersions: seq<Masked>
    var isDev: bool
    var via: seq<string>
    var depth: nat
    var managedOnly: bool
    var held: bool
    var declared: bool

    predicate IsCodec()
      reads this
    {
      !foreign && scope != Parent
    }

    /** The record's bookkeeping as a value. */
    function Current(): Books
      reads this, manifestPaths
    {
      Books(versions, manifestPaths.items, versionPaths, versionScopes, maskedVersions, held, declared)
    }

    /** A new record whose version books are emptied at once, as the rebuild does. */
    constructor (coordKey: string, manifest: Option<string>, version: Option<string>, scope: RecordScope, foreign: bool := false)
      ensures this.coordKey == coordKey && (IsCodec() <==> !foreign && scope != Parent)
      ensures pomPaths == manifestPaths && fresh(manifestPaths) && manifestPaths.owner == coordKey
      ensures Current() == NOTHING.(manifests := if manifest.Some? then [manifest.value] else [])
    {
      this.foreign, this.coordKey := foreign, coordKey;
      this.scope, this.version := scope, version;
      var paths := new PathList(if manifest.Some? then [manifest.value] else [], coordKey);
      manifestPaths, pomPaths := paths, paths;
      versions, versionPaths, versionScopes, maskedVersions := [], map[], [], [];
      isDev, via, depth, managedOnly, held, declared := false, [], 0, false, false, false;
    }

    method Reset()
      requires IsCodec()
      modifies this, manifestPaths
      ensures IsCodec() && manifestPaths == old(manifestPaths) && pomPaths == old(pomPaths)
      ensures Current() == NOTHING
    {
      versions := [];
      manifestPaths.items := [];
      versionPaths, versionScopes, maskedVersions := map[], [], [];
      held, declared := false, false;
    }

    method Declare(d: Direct)
      requires IsCodec()
      modifies this, manifestPaths
      ensures IsCodec() && manifestPaths == old(manifestPaths) && pomPaths == old(pomPaths)
      ensures Current() == Record(old(Current()), Declares(d))
    {
      held, declared := true, true;
      if d.declaredIn !in manifestPaths.items { manifestPaths.items := manifestPaths.items + [d.declaredIn]; }
      if d.version.None? { return; }
      var v := d.version.value;
      if v !in versions { versions := versions + [v]; }
      versionPaths := versionPaths[v := AddOnce(PathsOf(versionPaths, v), d.declaredIn)];
      versionScopes := AddScope(versionScopes, v, d.scope);
    }

    method Reached(t: Reach, pomPath: string)
      requires IsCodec()
      modifies this
      ensures IsCodec() && manifestPaths == old(manifestPaths) && pomPaths == old(pomPaths)
      ensures Current() == Record(old(Current()), Reaches(t, pomPath))
    {
      held := true;
      if t.version.Some? && t.version.value !in versions { versions := versions + [t.version.value]; }
      if !(exists i | 0 <= i < |maskedVersions| :: maskedVersions[i].version == t.version && maskedVersions[i].module_ == pomPath) {
        maskedVersions := maskedVersions + [Masked(t.version, pomPath, t.via, t.depth, t.scope)];
      }
    }

    /** The record says what the books `b` say. */
    ghost predicate Shows(b: Books, cmp: (string, string) -> int)
      reads this, manifestPaths
    {
      && IsCodec() && pomPaths == manifestPaths && !managedOnly
      && versions == b.versions && version == Highest(cmp, b.versions)
      && versionPaths == b.versionPaths && versionScopes == b.versionScopes && maskedVersions == b.masked
      && (b.declared ==>
            && manifestPaths.items == b.manifests
            && (AllScopes(b.versionScopes) != [] ==>
                  isDev == AllDev(AllScopes(b.versionScopes)) && scope == Declared(PickScope(AllScopes(b.versionScopes)))))
      && (!b.declared && b.masked != [] ==>
            && manifestPaths.items == Modules(b.masked) && scope == Transitive
            && isDev == AllMaskedDev(b.masked)
            && via == ShownPath(b.masked).via && depth == ShownPath(b.masked).depth)
    }

    /** A declared record takes its scope from the declarations. */
    method SettleDeclared()
      requires IsCodec()
      modifies this`scope, this`isDev
      ensures IsCodec()
      ensures AllScopes(versionScopes) != [] ==>
                isDev == AllDev(AllScopes(versionScopes)) && scope == Declared(PickScope(AllScopes(versionScopes)))
      ensures AllScopes(versionScopes) == [] ==> isDev == old(isDev) && scope == old(scope)
    {
      var scopes := AllScopes(versionScopes);
      if scopes != [] {
        isDev := AllDev(scopes);
        scope := Declared(PickScope(scopes));
      }
    }

    /** A record no module declares is shown through the modules that reach it. */
    method SettleReached()
      requires IsCodec() && maskedVersions != []
      modifies this`scope, this`isDev, this`via, this`depth, manifestPaths
      ensures manifestPaths.items == Modules(maskedVersions) && scope == Transitive
      ensures isDev == AllMaskedDev(maskedVersions)
      ensures via == ShownPath(maskedVersions).via && depth == ShownPath(maskedVersions).depth
    {
      var first := ShownPath(maskedVersions);
      scope, isDev := Transitive, AllMaskedDev(maskedVersions);
      via, depth := first.via, first.depth;
      manifestPaths.items := Modules(maskedVersions);
    }

    /** The final pass over one record; false when it leaves the scan set. */
    method Settle(cmp: (string, string) -> int) returns (kept: bool)
      requires IsCodec() && pomPaths == manifestPaths
      requires held && !declared ==> maskedVersions != []
      modifies this, manifestPaths
      ensures kept == (old(held) && (old(versions) != [] || old(declared)))
      ensures manifestPaths == old(manifestPaths) && pomPaths == old(pomPaths) && IsCodec()
      ensures kept ==> Shows(old(Current()), cmp)
      ensures kept && old(declared) ==> via == old(via) && depth == old(depth)
      ensures kept && old(declared) && AllScopes(versionScopes) == [] ==> isDev == old(isDev) && scope == old(scope)
    {
      hide AllScopes, AllDev, PickScope, Modules, ShownPath, AllMaskedDev, Highest;
      var wasHeld, wasDeclared := held, declared;
      held, declared := false, false;
      if !wasHeld { return false; }
      managedOnly := false;
      if versions == [] && !wasDeclared { return false; }
      version := Highest(cmp, versions);
      if wasDeclared {
        SettleDeclared();
      } else {
        SettleReached();
      }
      return true;
    }
  }

  // ---- What a settled record shows ----

  predicate InProduction(s: Scope) {
    s != Test && s != Provided
  }

  /** The first path into the coordinate that is in production; the very first when none is. */
  predicate IsShownPath(masked: seq<Masked>, i: nat) {
    && i < |masked|
    && (forall j | 0 <= j < i :: !InProduction(masked[j].scope))
    && (InProduction(masked[i].scope) || (i == 0 && forall j | 0 <= j < |masked| :: !InProduction(masked[j].scope)))
  }

  lemma {:induction false} ShownPathIs(masked: seq<Masked>)
    requires masked != []
    ensures exists i: nat :: IsShownPath(masked, i) && ShownPath(masked) == masked[i]
  {
    if !IsDevScope(masked[0].scope) || AllMaskedDev(masked[1..]) {
      assert forall j | 0 < j < |masked| :: masked[j] == masked[1..][j - 1];
      assert IsShownPath(masked, 0);
    } else {
      ShownPathIs(masked[1..]);
      var i: nat :| IsShownPath(masked[1..], i) && ShownPath(masked[1..]) == masked[1..][i];
      assert IsShownPath(masked, i + 1);
    }
  }

  /**
   * A declared record shows compile if any declaration does, else runtime, else the first scope; one
   * that is only reached shows the first path in production. It is for development when all are.
   */
  lemma ShowsSays(r: DepRecord, b: Books, cmp: (string, string) -> int)
    requires r.Shows(b, cmp)
    ensures var scopes := AllScopes(b.versionScopes);
            b.declared && scopes != [] ==>
              && r.scope == Declared(if exists s | s in scopes :: s == Compile then Compile
                                     else if exists s | s in scopes :: s == Runtime then Runtime else scopes[0])
              && (r.isDev <==> forall s | s in scopes :: !InProduction(s))
    ensures !b.declared && b.masked != [] ==>
              && (exists i: nat :: IsShownPath(b.masked, i) && r.via == b.masked[i].via && r.depth == b.masked[i].depth)
              && (r.isDev <==> forall i | 0 <= i < |b.masked| :: !InProduction(b.masked[i].scope))
              && r.scope == Transitive
  {
    hide Highest, Modules, ShownPath, IsShownPath, AllScopes;
    if b.masked != [] { ShownPathIs(b.masked); }
  }
}
