/**
 * What the relations of lib/application-inventory.js:11-120 say, with the paths, components and
 * packages themselves: where a component's directory is, which component is the primary one, and
 * when a relation is direct.
 */
module RelationMeaning {
  import opened Basics
  import opened RequireWalk
  import opened Applications

  // ---- Paths ----

  /** `d` is the root of the scan, the file itself, or one of its directories. */
  ghost predicate IsUnder(p: string, d: string) {
    d == "." || p == d || exists rest :: p == d + "/" + rest
  }

  /** `plain` is the path without the "./" it may begin with. */
  predicate IsPlain(p: string, plain: string) {
    p == "./" + plain || (p == plain && !("./" <= p))
  }

  lemma PosixSays(p: string)
    ensures IsPlain(p, Posix(p)) && forall plain | IsPlain(p, plain) :: plain == Posix(p)
  {
    forall plain | p == "./" + plain ensures plain == Posix(p) { assert p[..2] == "./" && p[2..] == plain; }
    if "./" <= p { assert p == "./" + p[2..]; }
  }

  lemma WithinSays(p: string, d: string)
    ensures Within(p, d) <==> IsUnder(p, d)
  {
    if |p| > |d| && p[..|d|] == d && p[|d|] == '/' { assert p == d + "/" + p[|d| + 1..]; }
    forall rest | p == d + "/" + rest ensures |p| > |d| && p[..|d|] == d && p[|d|] == '/' { }
  }

  /** The directory of a file is what stands before its last slash. */
  lemma {:induction false} DirnameSays(d: string, name: string)
    requires '/' !in name
    ensures Dirname(name) == "." && Dirname(d + "/" + name) == if d == "" then "/" else d
  {
    var p := d + "/" + name;
    if name == "" {
      assert p[..|p| - 1] == d;
    } else {
      var most := name[..|name| - 1];
      assert name[|name| - 1] in name;
      assert p[..|p| - 1] == d + "/" + most;
      DirnameSays(d, most);
    }
  }

  function RootText(app: Application): string {
    if app.root == "" then "." else app.root
  }

  // ---- Components ----

  predicate CanOwn(kind: string) {
    || kind == "core" || kind == "framework" || kind == "framework-component" || kind == "bundle" || kind == "module" || kind == "component"
    || kind == "theme" || kind == "profile" || kind == "plugin" || kind == "mu-plugin" || kind == "drop-in"
  }

  /** The component's directory, stated and not a core's, holds the file. */
  ghost predicate HasFile(c: Component, p: string) {
    CanOwn(c.kind) && c.kind != "core" && c.path != "" && exists dir :: IsPlain(c.path, dir) && IsUnder(p, dir)
  }

  lemma ContainsSays(c: Component, item: Item)
    ensures Contains(c, item) <==> HasFile(c, item.relManifest)
  {
    PosixSays(c.path);
    WithinSays(item.relManifest, Posix(c.path));
    hide Within, IsUnder, IsPlain, Posix;
  }

  /** The first directory is not deeper than the second. */
  ghost predicate NotDeeper(p: string, q: string) {
    forall d, dir | IsPlain(p, d) && IsPlain(q, dir) :: |d| <= |dir|
  }

  /** The component's directory holds the file, and no component of the application has a deeper one that does. */
  ghost predicate HoldsDeepest(app: Application, components: seq<Component>, c: Component, p: string) {
    c in components && c.applicationId == app.id && HasFile(c, p)
    && forall other | other in components && other.applicationId == app.id && HasFile(other, p) :: NotDeeper(other.path, c.path)
  }

  lemma DeepestSays(app: Application, components: seq<Component>, c: Component, item: Item)
    ensures IsDeepest(OwnersOf(app, components), item, c) <==> HoldsDeepest(app, components, c, item.relManifest)
  {
    hide Contains, HasFile, NotDeeper, Posix;
    forall x ensures Contains(x, item) <==> HasFile(x, item.relManifest) { ContainsSays(x, item); }
    forall other: Component ensures |Posix(other.path)| <= |Posix(c.path)| <==> NotDeeper(other.path, c.path) {
      DepthSays(other.path, c.path);
    }
  }

  lemma DepthSays(p: string, q: string)
    ensures |Posix(p)| <= |Posix(q)| <==> NotDeeper(p, q)
  {
    PosixSays(p);
    PosixSays(q);
    hide IsPlain, Posix;
  }

  /** The application's first component that is a core or a framework. */
  predicate IsPrimary(app: Application, components: seq<Component>, k: nat) {
    k < |components| && components[k].applicationId == app.id && (components[k].kind == "core" || components[k].kind == "framework")
    && forall j | 0 <= j < k && components[j].applicationId == app.id :: components[j].kind != "core" && components[j].kind != "framework"
  }

  lemma {:induction false} PrimarySays(app: Application, components: seq<Component>)
    ensures var primary := Primary(OwnersOf(app, components));
            if primary.Some? then exists k: nat :: IsPrimary(app, components, k) && components[k] == primary.value
            else forall k: nat :: !IsPrimary(app, components, k)
  {
    if components != [] {
      var first, rest := components[0], components[1..];
      PrimarySays(app, rest);
      OwnersFirst(app, components);
      assert forall k | 0 < k < |components| :: components[k] == rest[k - 1];
      hide OwnersOf;
      var heads := first.applicationId == app.id && (first.kind == "core" || first.kind == "framework");
      if heads {
        assert IsPrimary(app, components, 0);
      } else {
        PrimaryAfter(app, components);
        SkipFirst(first, OwnersOf(app, rest));
        if k: nat :| IsPrimary(app, rest, k) && Primary(OwnersOf(app, rest)) == Some(rest[k]) { assert IsPrimary(app, components, k + 1); }
      }
    }
  }

  lemma PrimaryAfter(app: Application, components: seq<Component>)
    requires components != []
    requires !(components[0].applicationId == app.id && (components[0].kind == "core" || components[0].kind == "framework"))
    ensures forall k: nat :: IsPrimary(app, components, k) ==> k > 0 && IsPrimary(app, components[1..], k - 1)
    ensures forall k: nat :: IsPrimary(app, components[1..], k) ==> IsPrimary(app, components, k + 1)
  {
    var rest := components[1..];
    assert forall k | 0 < k < |components| :: components[k] == rest[k - 1];
  }

  lemma SkipFirst(first: Component, rest: seq<Component>)
    ensures first.kind != "core" && first.kind != "framework" ==> Primary([first] + rest) == Primary(rest)
    ensures [] + rest == rest
  {
    assert ([first] + rest)[1..] == rest;
  }

  lemma OwnersFirst(app: Application, components: seq<Component>)
    requires components != []
    ensures OwnersOf(app, components) == (if components[0].applicationId == app.id then [components[0]] else []) + OwnersOf(app, components[1..])
  {
  }

  // ---- Relations ----

  /** The package is in the application, and its occurrence is the relation's. */
  ghost predicate IsAbout(app: Application, occurrences: seq<Item>, r: Relation, item: Item) {
    && item in occurrences && (exists dir :: IsPlain(RootText(app), dir) && IsUnder(item.relManifest, dir))
    && r.app == app.id && r.depKey == item.depKey && r.version == item.version && r.manifest == item.manifest
  }

  /** Owned by the component: direct when it is the component's own package. */
  predicate IsOwned(lower: string -> string, r: Relation, c: Component, item: Item) {
    && r.owner == c.id && r.confirmed
    && r.bond == (if c.coord != "" && lower(c.coord) == item.coord && CanOwn(c.kind) then Direct else Indirect)
  }

  /** A way from the component's name to the package, in one step. */
  predicate OneStep(r: Relation, c: Component, item: Item) {
    r.path == [if c.coord == "" then c.id else c.coord, item.coord]
  }

  ghost predicate IsRootFile(app: Application, p: string) {
    exists dir :: IsPlain(RootText(app), dir) && Dirname(p) == dir
  }

  /** Why the component answers for the package, as the relation's proof says. */
  ghost predicate Proves(lower: string -> string, app: Application, components: seq<Component>, occurrences: seq<Item>,
                         r: Relation, c: Component, item: Item)
  {
    match r.proof
    case PhysicalContainment => HoldsDeepest(app, components, c, item.relManifest) && OneStep(r, c, item)
    case ComposerRequire =>
      && c in components && c.applicationId == app.id && CanOwn(c.kind) && c.coord != ""
      && var g := ByCoord(OfManifest(ItemsOf(app, occurrences), item.manifest));
         item.coord in g && g[item.coord] == item && IsShortest(lower, g, lower(c.coord), r.path) && |r.path| <= 20 && r.path[|r.path| - 1] == item.coord
    case RootManifest => (exists k: nat :: IsPrimary(app, components, k) && components[k] == c) && IsRootFile(app, item.relManifest) && OneStep(r, c, item)
    case UnresolvedOrigin => false
  }

  ghost predicate Says(lower: string -> string, app: Application, components: seq<Component>, occurrences: seq<Item>, r: Relation) {
    exists item :: IsAbout(app, occurrences, r, item) &&
      if r.proof == UnresolvedOrigin then r.owner == "" && !r.confirmed && r.bond == Unknown && r.path == []
      else exists c :: IsOwned(lower, r, c, item) && Proves(lower, app, components, occurrences, r, c, item)
  }

  lemma ItemSays(app: Application, occurrences: seq<Item>, item: Item)
    ensures item in ItemsOf(app, occurrences) <==>
              item in occurrences && exists dir :: IsPlain(RootText(app), dir) && IsUnder(item.relManifest, dir)
  {
    PosixSays(RootText(app));
    WithinSays(item.relManifest, Root(app));
    hide IsPlain, IsUnder, Within, Posix;
  }

  lemma JustifiedSays(lower: string -> string, app: Application, components: seq<Component>, occurrences: seq<Item>, r: Relation)
    requires Justified(lower, app, OwnersOf(app, components), ItemsOf(app, occurrences), r)
    ensures Says(lower, app, components, occurrences, r)
  {
    hide Grounded, Says, IsDeepest, Primary, OwnersOf, ItemsOf, IsPlain, IsUnder, Dirname, Posix;
    var owners, items := OwnersOf(app, components), ItemsOf(app, occurrences);
    var item, owner :| item in items && r == Relate(lower, app, owner, item, r.proof, r.path) && Grounded(lower, app, owners, items, item, owner, r.proof, r.path);
    ItemSays(app, occurrences, item);
    assert IsAbout(app, occurrences, r, item);
    GroundedProves(lower, app, components, occurrences, r, owner, item);
    OwnerSays(lower, app, components, occurrences, r, owner, item);
  }

  lemma OwnerSays(lower: string -> string, app: Application, components: seq<Component>, occurrences: seq<Item>, r: Relation,
                  owner: Option<Component>, item: Item)
    requires IsAbout(app, occurrences, r, item) && r == Relate(lower, app, owner, item, r.proof, r.path)
    requires if owner.None? then r.proof == UnresolvedOrigin && r.path == []
             else r.proof != UnresolvedOrigin && Proves(lower, app, components, occurrences, r, owner.value, item)
    ensures Says(lower, app, components, occurrences, r)
  {
    hide Proves, IsAbout;
    if owner.Some? {
      KindsAre(owner.value.kind);
      assert IsOwned(lower, r, owner.value, item);
    }
  }

  lemma KindsAre(kind: string)
    ensures kind in TARGET_KINDS <==> CanOwn(kind)
  {
  }

  lemma GroundedProves(lower: string -> string, app: Application, components: seq<Component>, occurrences: seq<Item>, r: Relation,
                       owner: Option<Component>, item: Item)
    requires Grounded(lower, app, OwnersOf(app, components), ItemsOf(app, occurrences), item, owner, r.proof, r.path)
    ensures if owner.None? then r.proof == UnresolvedOrigin && r.path == []
            else r.proof != UnresolvedOrigin && Proves(lower, app, components, occurrences, r, owner.value, item)
  {
    hide HoldsDeepest, IsDeepest, IsPrimary, IsShortest, Primary, ItemsOf, IsPlain, Posix, Dirname;
    if owner.Some? {
      var c := owner.value;
      KindsAre(c.kind);
      DeepestSays(app, components, c, item);
      PrimarySays(app, components);
      PosixSays(RootText(app));
    }
  }

  /** Every relation of the inventory is about a package in one of the applications, and says why its owner answers for it. */
  lemma RelationsSay(lower: string -> string, applications: seq<Application>, components: seq<Component>, occurrences: seq<Item>, rs: seq<Relation>)
    requires Built(lower, applications, components, occurrences, rs)
    ensures forall r | r in rs :: exists app :: app in applications && Says(lower, app, components, occurrences, r)
  {
    hide Says, Justified, Accounted, LastResortSince, LoneSince;
    forall r | r in rs ensures exists app :: app in applications && Says(lower, app, components, occurrences, r) {
      var i :| 0 <= i < |rs| && rs[i] == r;
      assert JustifiedByOne(lower, applications, components, occurrences, rs[i]);
      var app :| app in applications && Justified(lower, app, OwnersOf(app, components), ItemsOf(app, occurrences), r);
      JustifiedSays(lower, app, components, occurrences, r);
    }
  }

  /** No package of an application is left out, and every component that holds it deepest is named. */
  lemma PackagesAreRelated(lower: string -> string, applications: seq<Application>, components: seq<Component>, occurrences: seq<Item>,
                           rs: seq<Relation>, app: Application, dir: string, item: Item)
    requires Built(lower, applications, components, occurrences, rs) && app in applications && item in occurrences
    requires IsPlain(RootText(app), dir) && IsUnder(item.relManifest, dir)
    ensures exists r :: r in rs && r.app == app.id && r.depKey == item.depKey && r.version == item.version && r.manifest == item.manifest
    ensures forall c | HoldsDeepest(app, components, c, item.relManifest) ::
              exists r :: r in rs && r.app == app.id && r.owner == c.id && r.depKey == item.depKey && r.version == item.version && r.manifest == item.manifest
  {
    hide IsPlain, IsUnder, HoldsDeepest, IsDeepest, LastResortSince, LoneSince, JustifiedByOne, Reported, ItemsOf, OwnersOf;
    ItemSays(app, occurrences, item);
    assert Accounted(lower, app, OwnersOf(app, components), ItemsOf(app, occurrences), rs);
    var i :| 0 <= i < |rs| && OccurrenceOf(rs[i]) == OccurrenceIn(app, item);
    assert rs[i] in rs;
    forall c | HoldsDeepest(app, components, c, item.relManifest)
      ensures exists r :: r in rs && r.app == app.id && r.owner == c.id && r.depKey == item.depKey && r.version == item.version && r.manifest == item.manifest
    {
      DeepestSays(app, components, c, item);
      var j :| 0 <= j < |rs| && KeyOf(rs[j]) == KeyFor(app, c, item);
      assert rs[j] in rs;
    }
  }
}
